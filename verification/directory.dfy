/**
  `get_all_users`: the directory listing of `data/` without the current user,
  offered on the profile page as the users one can follow.
 */
module Directory {
  import opened Base

  /** `list.remove` raises `ValueError` when the element is not in the list. */
  datatype ListingError = NotInListing

  /** The position of the first occurrence of `user` in `listing`. */
  function FirstIndex(listing: seq<string>, user: string): (i: nat)
    requires user in listing
    ensures i < |listing| && listing[i] == user
    ensures user !in listing[..i]
  {
    if listing[0] == user then 0
    else
      var j := FirstIndex(listing[1..], user);
      assert listing[..j + 1] == [listing[0]] + listing[1..][..j];
      j + 1
  }

  /**
    `user_list.remove(user)` on the listing: only the first occurrence of the
    current user goes, everything else keeps its order; a user missing from
    the listing raises.
   */
  function AllUsers(listing: seq<string>, user: string): (r: Result<seq<string>, ListingError>)
    ensures r.Ok? <==> user in listing
    ensures r.Ok? ==> |r.value| == |listing| - 1
    ensures r.Ok? ==> exists i :: 0 <= i < |listing| && listing[i] == user && user !in listing[..i]
                                  && r.value == listing[..i] + listing[i + 1..]
    ensures r.Ok? ==> multiset(r.value) == multiset(listing) - multiset{user}
  {
    if user !in listing then Err(NotInListing)
    else
      var i := FirstIndex(listing, user);
      assert listing == listing[..i] + [user] + listing[i + 1..];
      Ok(listing[..i] + listing[i + 1..])
  }

  /** Removing position `i` from a listing without repeats leaves every other name, once. */
  lemma RemoveAtDistinct(listing: seq<string>, i: nat)
    requires i < |listing|
    requires forall a, b :: 0 <= a < b < |listing| ==> listing[a] != listing[b]
    ensures var r := listing[..i] + listing[i + 1..];
      && (forall u :: u in r <==> u in listing && u != listing[i])
      && (forall a, b :: 0 <= a < b < |r| ==> r[a] != r[b])
  {
    var r := listing[..i] + listing[i + 1..];
    assert forall k :: 0 <= k < |r| ==> r[k] == listing[if k < i then k else k + 1];
    forall u
      ensures u in r <==> u in listing && u != listing[i]
    {
      if u in listing && u != listing[i] {
        var k :| 0 <= k < |listing| && listing[k] == u;
        assert r[if k < i then k else k - 1] == u;
      }
    }
  }

  /**
    When the listing names every stored user exactly once and the current user
    is among them, the result names every other user exactly once.
   */
  lemma AllUsersOfDistinctListing(listing: seq<string>, users: set<string>, user: string)
    requires forall i, j :: 0 <= i < j < |listing| ==> listing[i] != listing[j]
    requires forall u :: u in listing <==> u in users
    requires user in users
    ensures var r := AllUsers(listing, user);
      && r.Ok?
      && (forall u :: u in r.value <==> u in users - {user})
      && (forall i, j :: 0 <= i < j < |r.value| ==> r.value[i] != r.value[j])
  {
    var i := FirstIndex(listing, user);
    RemoveAtDistinct(listing, i);
  }
}
