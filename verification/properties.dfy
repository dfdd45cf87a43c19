/**
  Properties relating several operations: round trips through the store,
  the invariant the routes keep, and the profile page's user list.
 */
module Properties {
  import opened Base
  import opened Records
  import opened Server
  import opened Forms
  import Directory

  /**
    Loading right after a save gives back the saved session: save and load
    are inverse on the five session fields, whatever session was there before.
   */
  lemma SaveThenLoad(store: Store, s: Session, before: Session)
    requires LoggedIn(s)
    ensures LoadUser(State(Save(store, s), before), s.email, s.password) == Step(RedirectHome, State(Save(store, s), s))
  {
  }

  /** After a signup, logging in with the same email and password gives the fresh record: no messages, no friends. */
  lemma SignupThenLogin(st: State, name: string, email: string, passwd: string, other: Session)
    requires email !in st.store
    ensures var created := CreateUser(st, name, email, passwd, passwd).state;
            LoadUser(State(created.store, other), email, passwd) ==
              Step(RedirectHome, State(created.store, Filled(Some(name), passwd, [], email, [])))
  {
  }

  /** A second signup with an email that just signed up fails as taken and changes nothing. */
  lemma SignupTwiceFails(st: State, name: string, email: string, passwd: string, confirm: string,
                         name2: string, passwd2: string, confirm2: string)
    requires CreateUser(st, name, email, passwd, confirm).reply == RedirectHome
    ensures var st' := CreateUser(st, name, email, passwd, confirm).state;
            CreateUser(st', name2, email, passwd2, confirm2) == Step(ErrorPage(EmailTaken), st')
  {
  }

  /**
    Posting a message, logging out and logging in again yields the old
    messages with the new one appended: the logout's save carries the post
    to the store even when the post's own save did not.
   */
  lemma PostLogoutLoginRoundTrip(st: State, ts: int, text: string)
    requires LoggedIn(st.session) && text != ""
    ensures var s := st.session;
            var posted := HomePost(st, ts, text).state;
            var out := Logout(posted).state;
            var back := LoadUser(out, s.email, s.password);
            && back.reply == RedirectHome
            && back.state.session.messages == s.messages + [Message(ts, text)]
            && back.state.session.userName == s.userName
            && back.state.session.friends == s.friends
  {
  }

  /**
    As written, the first message of a user with no messages is not in the
    store after the post's save, although the session shows it.
   */
  lemma FirstPostNotSaved(st: State, ts: int, text: string)
    requires LoggedIn(st.session) && st.session.messages == [] && text != ""
    ensures var r := HomePost(st, ts, text);
            && r.state.session.messages == [Message(ts, text)]
            && r.state.store[st.session.email].messages == []
  {
  }

  /**
    As written, a first message that no later post or logout saves is lost:
    a new login for the same user reads the file, which still has no messages.
   */
  lemma FirstPostLostByRelogin(st: State, ts: int, text: string)
    requires Consistent(st) && LoggedIn(st.session) && st.session.messages == [] && text != ""
    ensures var s := st.session;
            var posted := Handle(st, PostMessage(ts, text)).state;
            var form := map["email" := s.email, "passwd" := s.password, "login_submit" := "Login"];
            var back := Handle(posted, LoginRequest(form));
            && posted.session.messages == [Message(ts, text)]
            && (s.email != "" && s.password != "" ==>
                  && back.reply == RedirectHome
                  && back.state.session.messages == []
                  && back.state.store[s.email].messages == [])
  {
    var s := st.session;
    var form := map["email" := s.email, "passwd" := s.password, "login_submit" := "Login"];
    if s.email != "" && s.password != "" {
      assert MissingFields(form, LoginFields) == [] by {
        forall f | f in LoginFields
          ensures !Absent(form, f)
        {
        }
      }
    }
  }

  /** With the intended save, the stored record holds the posted message at once. */
  lemma IntendedPostIsSaved(st: State, ts: int, text: string)
    requires LoggedIn(st.session) && text != ""
    ensures var s := st.session;
            var r := LoadUser(HomePostIntended(st, ts, text).state, s.email, s.password);
            && r.reply == RedirectHome
            && r.state.session.messages == s.messages + [Message(ts, text)]
  {
  }

  /** The written post and the intended one differ only when the old message list is empty. */
  lemma PostAgreesWhenNotFirst(st: State, ts: int, text: string)
    requires !LoggedIn(st.session) || st.session.messages != [] || text == ""
    ensures HomePost(st, ts, text) == HomePostIntended(st, ts, text)
  {
  }

  /**
    A profile edit reaches the store only through a later save: right after
    it the store is as before, and after logout it holds the new name,
    password and stripped friends.
   */
  lemma ProfileSavedByLogout(st: State, nickname: string, passwd: string, friends: seq<string>)
    requires LoggedIn(st.session)
    ensures var edited := ProfilePost(st, nickname, passwd, friends).state;
            var out := Logout(edited).state;
            var rec := out.store[st.session.email];
            && edited.store == st.store
            && rec.userName == nickname
            && rec.password == passwd
            && rec.friends == Forms.StripAll(friends)
            && rec.messages == st.session.messages
  {
  }

  /** A second logout finds no `user_name` and raises. */
  lemma LogoutTwiceFaults(st: State)
    ensures Logout(Logout(st).state).reply == KeyErrorFault
  {
  }

  /**
    The session invariant: a logged-in session's user has a file, and the
    stored messages are a prefix of the session's (the session is at most
    some posts ahead of the store).
   */
  predicate Consistent(st: State)
  {
    LoggedIn(st.session) ==>
      && st.session.email in st.store
      && st.store[st.session.email].messages <= st.session.messages
  }

  /** Between two states no file disappears and no stored message list loses or reorders entries. */
  predicate OnlyAppends(before: Store, after: Store)
  {
    forall u :: u in before ==> u in after && before[u].messages <= after[u].messages
  }

  /** Every request keeps the session invariant. */
  lemma HandleKeepsConsistent(st: State, req: Request)
    requires Consistent(st)
    ensures Consistent(Handle(st, req).state)
  {
  }

  /** A post from a consistent state writes a list that extends the stored one. */
  lemma PostOnlyAppends(st: State, ts: int, text: string)
    requires Consistent(st)
    ensures OnlyAppends(st.store, HomePost(st, ts, text).state.store)
  {
    if LoggedIn(st.session) && text != "" {
      var s := st.session;
      var after := HomePost(st, ts, text).state.store;
      var m := Message(ts, text);
      assert after[s.email].messages == Server.SavedAtPost(s.messages, m);
      assert s.messages <= s.messages + [m];
    }
  }

  /** A logout from a consistent state writes the session's list, which extends the stored one. */
  lemma LogoutOnlyAppends(st: State)
    requires Consistent(st)
    ensures OnlyAppends(st.store, Logout(st).state.store)
  {
  }

  /** Every request from a consistent state only appends to the stored message lists. */
  lemma HandleOnlyAppends(st: State, req: Request)
    requires Consistent(st)
    ensures OnlyAppends(st.store, Handle(st, req).state.store)
  {
    match req
    case PostMessage(ts, text) => PostOnlyAppends(st, ts, text);
    case LogoutRequest => LogoutOnlyAppends(st);
    case _ =>
  }

  /**
    On the profile page of a consistent session, a listing of `data/` that
    names each file once yields every other user once, never an error.
   */
  lemma ProfileListsOthers(st: State, listing: seq<string>)
    requires Consistent(st) && LoggedIn(st.session)
    requires forall i, j :: 0 <= i < j < |listing| ==> listing[i] != listing[j]
    requires forall u :: u in listing <==> u in st.store
    ensures var r := Directory.AllUsers(listing, st.session.email);
            && r.Ok?
            && (forall u :: u in r.value <==> u in st.store && u != st.session.email)
  {
    Directory.AllUsersOfDistinctListing(listing, st.store.Keys, st.session.email);
  }

  /** The user list of bob@x.com over a directory of bob@x.com and amy@x.com is amy@x.com alone. */
  lemma AllUsersExample()
    ensures Directory.AllUsers(["bob@x.com", "amy@x.com"], "bob@x.com") == Ok(["amy@x.com"])
  {
    var listing := ["bob@x.com", "amy@x.com"];
    assert listing[0] == "bob@x.com";
    assert Directory.FirstIndex(listing, "bob@x.com") == 0;
    assert listing[..0] + listing[1..] == ["amy@x.com"];
  }
}
