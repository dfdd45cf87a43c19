/**
  The friends' feed of the home page: every stored message of every followed
  user, tagged with that user's display name, then sorted by timestamp.
 */
module Feed {
  import opened Base
  import opened Records
  import StableSort

  /** One line of the feed: `(user_name, time stamp, message)`. */
  datatype FeedEntry = FeedEntry(author: string, ts: int, text: string)

  /** The sort key `lambda x: x[1]`. */
  function Timestamp(e: FeedEntry): int
  {
    e.ts
  }

  /**
    `load_messages_from_user`: nothing for a user without a file, otherwise
    each stored message in stored order, tagged with the stored display name.
   */
  function UserEntries(store: Store, user: string): (r: seq<FeedEntry>)
    ensures user !in store ==> r == []
    ensures user in store ==> |r| == |store[user].messages|
    ensures user in store ==> forall i :: 0 <= i < |r| ==>
              r[i] == FeedEntry(store[user].userName, store[user].messages[i].ts, store[user].messages[i].text)
  {
    if user !in store then []
    else
      var rec := store[user];
      seq(|rec.messages|, i requires 0 <= i < |rec.messages| =>
        FeedEntry(rec.userName, rec.messages[i].ts, rec.messages[i].text))
  }

  /** `get_friends_messages_with_authors`: each friend's entries, extended in friends-list order. */
  function FriendsEntries(store: Store, friends: seq<string>): seq<FeedEntry>
    decreases |friends|
  {
    if friends == [] then []
    else FriendsEntries(store, friends[..|friends| - 1]) + UserEntries(store, friends[|friends| - 1])
  }

  /**
    The `friends_messages` argument of the home page: the friends' entries
    stably sorted by timestamp. It only reads the store.
   */
  function Feed(store: Store, friends: seq<string>): (r: seq<FeedEntry>)
    ensures StableSort.SortedBy(r, Timestamp)
    ensures multiset(r) == multiset(FriendsEntries(store, friends))
    ensures forall t :: StableSort.WithKey(r, Timestamp, t) == StableSort.WithKey(FriendsEntries(store, friends), Timestamp, t)
  {
    StableSort.Sort(FriendsEntries(store, friends), Timestamp)
  }

  /** The friends that have a file, in friends-list order. */
  function KnownFriends(store: Store, friends: seq<string>): (r: seq<string>)
    ensures forall f :: f in r <==> f in friends && f in store
    decreases |friends|
  {
    if friends == [] then []
    else
      var last := friends[|friends| - 1];
      assert friends == friends[..|friends| - 1] + [last];
      KnownFriends(store, friends[..|friends| - 1]) + (if last in store then [last] else [])
  }

  /** The loop over the friends list distributes over concatenation of lists. */
  lemma {:induction false} FriendsEntriesAppend(store: Store, a: seq<string>, b: seq<string>)
    ensures FriendsEntries(store, a + b) == FriendsEntries(store, a) + FriendsEntries(store, b)
    decreases |b|
  {
    if b == [] {
      assert a + b == a;
    } else {
      var front, last := b[..|b| - 1], b[|b| - 1];
      assert (a + b)[..|a + b| - 1] == a + front;
      assert (a + b)[|a + b| - 1] == last;
      FriendsEntriesAppend(store, a, front);
      calc {
        FriendsEntries(store, a + b);
        FriendsEntries(store, a + front) + UserEntries(store, last);
        FriendsEntries(store, a) + FriendsEntries(store, front) + UserEntries(store, last);
        FriendsEntries(store, a) + (FriendsEntries(store, front) + UserEntries(store, last));
        FriendsEntries(store, a) + FriendsEntries(store, b);
      }
    }
  }

  /** A followed user without a file contributes nothing: only the known friends matter. */
  lemma {:induction false} UnknownFriendsSkipped(store: Store, friends: seq<string>)
    ensures FriendsEntries(store, friends) == FriendsEntries(store, KnownFriends(store, friends))
    decreases |friends|
  {
    if friends != [] {
      var front := friends[..|friends| - 1];
      var last := friends[|friends| - 1];
      UnknownFriendsSkipped(store, front);
      FriendsEntriesAppend(store, KnownFriends(store, front), if last in store then [last] else []);
      if last in store {
        assert FriendsEntries(store, [last]) == FriendsEntries(store, []) + UserEntries(store, last);
      }
    }
  }

  /**
    An entry is in the merged list exactly when it is the projection of a
    stored message of a followed user who has a file.
   */
  lemma {:induction false} FriendsEntriesMember(store: Store, friends: seq<string>, e: FeedEntry)
    ensures e in FriendsEntries(store, friends) <==>
      exists i, j :: 0 <= i < |friends| && friends[i] in store && 0 <= j < |store[friends[i]].messages| &&
        e == FeedEntry(store[friends[i]].userName, store[friends[i]].messages[j].ts, store[friends[i]].messages[j].text)
    decreases |friends|
  {
    if friends != [] {
      var n := |friends| - 1;
      var front := friends[..n];
      FriendsEntriesMember(store, front, e);
      if e in FriendsEntries(store, friends) {
        if e in FriendsEntries(store, front) {
          var i, j :| 0 <= i < |front| && front[i] in store && 0 <= j < |store[front[i]].messages| &&
            e == FeedEntry(store[front[i]].userName, store[front[i]].messages[j].ts, store[front[i]].messages[j].text);
          assert friends[i] == front[i];
        } else {
          var u := UserEntries(store, friends[n]);
          assert e in u;
          var j :| 0 <= j < |u| && u[j] == e;
          assert friends[n] in store;
        }
      } else {
        forall i, j | 0 <= i < |friends| && friends[i] in store && 0 <= j < |store[friends[i]].messages|
          ensures e != FeedEntry(store[friends[i]].userName, store[friends[i]].messages[j].ts, store[friends[i]].messages[j].text)
        {
          if i < n {
            assert friends[i] == front[i];
          } else {
            assert UserEntries(store, friends[n])[j] in FriendsEntries(store, friends);
          }
        }
      }
    }
  }

  /**
    Python's `sorted` is a stable sort, and any stable ascending sort of the
    merged list yields this very feed.
   */
  lemma StableSortIsFeed(store: Store, friends: seq<string>, r: seq<FeedEntry>)
    requires StableSort.SortedBy(r, Timestamp)
    requires forall t :: StableSort.WithKey(r, Timestamp, t) == StableSort.WithKey(FriendsEntries(store, friends), Timestamp, t)
    ensures r == Feed(store, friends)
  {
    StableSort.SortedStableUnique(r, Feed(store, friends), Timestamp);
  }

  /**
    Following X, with messages (10, "a") then (5, "b"), and Y, with (7, "c"),
    gives the feed (X, 5, "b"), (Y, 7, "c"), (X, 10, "a").
   */
  lemma FeedOfTwoFriends()
    ensures var store := map[
              "x" := Record("X", "px", [Message(10, "a"), Message(5, "b")], [], None),
              "y" := Record("Y", "py", [Message(7, "c")], [], None)];
            Feed(store, ["x", "y"]) == [FeedEntry("X", 5, "b"), FeedEntry("Y", 7, "c"), FeedEntry("X", 10, "a")]
  {
    var store := map[
      "x" := Record("X", "px", [Message(10, "a"), Message(5, "b")], [], None),
      "y" := Record("Y", "py", [Message(7, "c")], [], None)];
    var merged := [FeedEntry("X", 10, "a"), FeedEntry("X", 5, "b"), FeedEntry("Y", 7, "c")];
    assert ["x", "y"][..1] == ["x"];
    assert FriendsEntries(store, ["x"]) == UserEntries(store, "x");
    assert FriendsEntries(store, ["x", "y"]) == merged;
    var expected := [FeedEntry("X", 5, "b"), FeedEntry("Y", 7, "c"), FeedEntry("X", 10, "a")];
    forall t
      ensures StableSort.WithKey(expected, Timestamp, t) == StableSort.WithKey(merged, Timestamp, t)
    {
      WithKeyOfThree(expected[0], expected[1], expected[2], t);
      WithKeyOfThree(merged[0], merged[1], merged[2], t);
    }
    StableSortIsFeed(store, ["x", "y"], expected);
  }

  /** Following only users without a file gives an empty feed, not an error. */
  lemma FeedOfUnknownFriend(store: Store, z: string)
    requires z !in store
    ensures Feed(store, [z]) == []
  {
    assert [z][..0] == [];
    assert FriendsEntries(store, [z]) == FriendsEntries(store, []) + UserEntries(store, z);
  }

  /** The entries with timestamp `t` among three. */
  lemma WithKeyOfThree(a: FeedEntry, b: FeedEntry, c: FeedEntry, t: int)
    ensures StableSort.WithKey([a, b, c], Timestamp, t) ==
      (if a.ts == t then [a] else []) + (if b.ts == t then [b] else []) + (if c.ts == t then [c] else [])
  {
    assert [a, b, c][1..] == [b, c];
    assert [b, c][1..] == [c];
    assert [c][1..] == [];
    var wc := if c.ts == t then [c] else [];
    assert StableSort.WithKey([c], Timestamp, t) == wc + StableSort.WithKey([], Timestamp, t);
    assert StableSort.WithKey([b, c], Timestamp, t) == (if b.ts == t then [b] else []) + wc;
  }
}
