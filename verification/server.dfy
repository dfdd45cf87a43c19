/**
  The routes of the Flask app, as transitions of the store and the session.
  Each route takes the current state and the request's inputs, and returns
  the page it answers with and the new state.
 */
module Server {
  import opened Base
  import opened Records
  import opened Forms
  import opened Feed

  /** The reasons `process_error` is called with. */
  datatype Failure =
    | NotLogged         // a route guarded by `'user_name' in session` without it
    | UserNotFound      // login: no file for the email
    | WrongPassword     // login: the stored password differs
    | EmailTaken        // signup: a file for the email exists
    | PasswordMismatch  // signup: password and confirmation differ

  /** What a route answers with. */
  datatype Reply =
    | MissingFieldsPage(inputs: seq<string>)
    | ErrorPage(failure: Failure)
    | RedirectHome
    | RedirectIndex
    | HomePage(nickname: string, messages: seq<Message>, friendsMessages: seq<FeedEntry>)
    | KeyErrorFault     // an uncaught `KeyError` reading a session key

  datatype State = State(store: Store, session: Session)

  datatype Step = Step(reply: Reply, state: State)

  const LoginFields: seq<string> := ["email", "passwd", "login_submit"]

  const SignupFields: seq<string> := ["nickname", "email", "passwd", "confirm", "signup_submit"]

  /**
    `load_user`: a missing file or a wrong password answers with an error and
    changes nothing; otherwise the session is replaced by the stored record
    under the given email and password, and the store is only read.
   */
  function LoadUser(st: State, email: string, passwd: string): (r: Step)
    ensures r.state.store == st.store
    ensures r.reply == RedirectHome <==> email in st.store && st.store[email].password == passwd
    ensures email !in st.store ==> r == Step(ErrorPage(UserNotFound), st)
    ensures email in st.store && st.store[email].password != passwd ==> r == Step(ErrorPage(WrongPassword), st)
    ensures r.reply == RedirectHome ==>
              var rec := st.store[email];
              && r.state.session.Filled?
              && r.state.session.userName == Some(rec.userName)
              && r.state.session.messages == rec.messages
              && r.state.session.password == passwd
              && r.state.session.email == email
              && r.state.session.friends == rec.friends
  {
    if email !in st.store then Step(ErrorPage(UserNotFound), st)
    else
      var rec := st.store[email];
      if rec.password != passwd then Step(ErrorPage(WrongPassword), st)
      else Step(RedirectHome, State(st.store, Filled(Some(rec.userName), passwd, rec.messages, email, rec.friends)))
  }

  /**
    `create_user_file`: a taken email is refused first, then a mismatched
    confirmation, both without any change. Otherwise exactly one file is added,
    for `email`, with empty messages and friends, and the session mirrors it.
   */
  function CreateUser(st: State, name: string, email: string, passwd: string, confirm: string): (r: Step)
    ensures email in st.store ==> r == Step(ErrorPage(EmailTaken), st)
    ensures email !in st.store && passwd != confirm ==> r == Step(ErrorPage(PasswordMismatch), st)
    ensures r.reply == RedirectHome <==> email !in st.store && passwd == confirm
    ensures r.reply == RedirectHome ==>
              && r.state.store.Keys == st.store.Keys + {email}
              && |r.state.store| == |st.store| + 1
              && (forall u :: u in st.store ==> r.state.store[u] == st.store[u])
              && r.state.store[email] == Record(name, passwd, [], [], None)
              && r.state.session == Filled(Some(name), passwd, [], email, [])
  {
    if email in st.store then Step(ErrorPage(EmailTaken), st)
    else if passwd != confirm then Step(ErrorPage(PasswordMismatch), st)
    else
      Step(RedirectHome, State(st.store[email := Record(name, passwd, [], [], None)],
                               Filled(Some(name), passwd, [], email, [])))
  }

  /**
    POST `/login`: any of the login fields absent or empty answers with the
    list of them and touches neither the store nor the session; otherwise
    it is `load_user` on the posted email and password.
   */
  function Login(st: State, form: Form): (r: Step)
    ensures MissingFields(form, LoginFields) != [] ==>
              r == Step(MissingFieldsPage(MissingFields(form, LoginFields)), st)
    ensures r.reply.MissingFieldsPage? <==> exists f :: f in LoginFields && Absent(form, f)
    ensures MissingFields(form, LoginFields) == [] ==>
              "email" in form && "passwd" in form && r == LoadUser(st, form["email"], form["passwd"])
  {
    var missing := MissingFields(form, LoginFields);
    assert missing != [] ==> missing[0] in missing;
    assert LoginFields[0] == "email" && LoginFields[1] == "passwd";
    if missing != [] then Step(MissingFieldsPage(missing), st)
    else
      assert "email" in LoginFields && "email" !in missing;
      assert "passwd" in LoginFields && "passwd" !in missing;
      LoadUser(st, form["email"], form["passwd"])
  }

  /**
    POST `/signup` (`process_signup`): the same missing-field check over the
    five signup fields, then `create_user_file`.
   */
  function Signup(st: State, form: Form): (r: Step)
    ensures MissingFields(form, SignupFields) != [] ==>
              r == Step(MissingFieldsPage(MissingFields(form, SignupFields)), st)
    ensures r.reply.MissingFieldsPage? <==> exists f :: f in SignupFields && Absent(form, f)
    ensures MissingFields(form, SignupFields) == [] ==>
              && "nickname" in form && "email" in form && "passwd" in form && "confirm" in form
              && r == CreateUser(st, form["nickname"], form["email"], form["passwd"], form["confirm"])
  {
    var missing := MissingFields(form, SignupFields);
    assert missing != [] ==> missing[0] in missing;
    assert SignupFields[0] == "nickname" && SignupFields[1] == "email";
    assert SignupFields[2] == "passwd" && SignupFields[3] == "confirm";
    if missing != [] then Step(MissingFieldsPage(missing), st)
    else
      assert "nickname" in SignupFields && "nickname" !in missing;
      assert "email" in SignupFields && "email" !in missing;
      assert "passwd" in SignupFields && "passwd" !in missing;
      assert "confirm" in SignupFields && "confirm" !in missing;
      CreateUser(st, form["nickname"], form["email"], form["passwd"], form["confirm"])
  }

  /**
    The list the save of a non-empty post writes. The source appends to the
    session's own list when it is non-empty, so the save sees the new message;
    when it is empty, the message goes into a fresh list that reaches the
    session only after the save, so the save writes the old, empty list.
   */
  function SavedAtPost(prior: seq<Message>, m: Message): (r: seq<Message>)
    ensures prior <= r && r <= prior + [m]
    ensures r == prior + [m] <==> prior != []
  {
    if prior == [] then prior else prior + [m]
  }

  /**
    POST `/home` with message `text` posted at time `ts`. The page shows the
    session's messages and the feed read from the store after the save.
    An empty message changes nothing.
   */
  function HomePost(st: State, ts: int, text: string): (r: Step)
    ensures !LoggedIn(st.session) ==> r == Step(ErrorPage(NotLogged), st)
    ensures LoggedIn(st.session) ==>
              && LoggedIn(r.state.session)
              && r.reply == HomePage(st.session.userName.value, r.state.session.messages,
                                     Feed.Feed(r.state.store, st.session.friends))
    ensures LoggedIn(st.session) && text == "" ==> r.state == st
    ensures LoggedIn(st.session) && text != "" ==>
              var s := st.session;
              && r.state.session == s.(messages := s.messages + [Message(ts, text)])
              && r.state.store.Keys == st.store.Keys + {s.email}
              && (forall u :: u in st.store && u != s.email ==> r.state.store[u] == st.store[u])
              && r.state.store[s.email].messages == (if s.messages == [] then [] else s.messages + [Message(ts, text)])
              && r.state.store[s.email].userName == s.userName.value
              && r.state.store[s.email].password == s.password
              && r.state.store[s.email].friends == s.friends
              && r.state.store[s.email].email == Some(s.email)
  {
    if !LoggedIn(st.session) then Step(ErrorPage(NotLogged), st)
    else
      var s := st.session;
      var next :=
        if text == "" then st
        else
          var m := Message(ts, text);
          State(Save(st.store, s.(messages := SavedAtPost(s.messages, m))),
                s.(messages := s.messages + [m]));
      Step(HomePage(s.userName.value, next.session.messages, Feed.Feed(next.store, s.friends)), next)
  }

  /**
    The post as evidently intended: the save writes the list with the new
    message whether or not the old list was empty.
   */
  function HomePostIntended(st: State, ts: int, text: string): (r: Step)
    ensures !LoggedIn(st.session) ==> r == Step(ErrorPage(NotLogged), st)
    ensures LoggedIn(st.session) && text == "" ==> r.state == st
    ensures LoggedIn(st.session) && text != "" ==>
              && r.state.session == st.session.(messages := st.session.messages + [Message(ts, text)])
              && r.state.store == Save(st.store, r.state.session)
  {
    if !LoggedIn(st.session) then Step(ErrorPage(NotLogged), st)
    else
      var s := st.session;
      var next :=
        if text == "" then st
        else
          var s' := s.(messages := s.messages + [Message(ts, text)]);
          State(Save(st.store, s'), s');
      Step(HomePage(s.userName.value, next.session.messages, Feed.Feed(next.store, s.friends)), next)
  }

  /**
    POST `/profile`: the session's name, password and friends (each stripped)
    are replaced; the email and messages stay, and the store is not written.
   */
  function ProfilePost(st: State, nickname: string, passwd: string, friends: seq<string>): (r: Step)
    ensures !LoggedIn(st.session) ==> r == Step(ErrorPage(NotLogged), st)
    ensures LoggedIn(st.session) ==>
              && r.reply == RedirectHome
              && r.state.store == st.store
              && LoggedIn(r.state.session)
              && r.state.session.userName == Some(nickname)
              && r.state.session.password == passwd
              && |r.state.session.friends| == |friends|
              && (forall i :: 0 <= i < |friends| ==> r.state.session.friends[i] == Strip(friends[i]))
              && r.state.session.email == st.session.email
              && r.state.session.messages == st.session.messages
  {
    if !LoggedIn(st.session) then Step(ErrorPage(NotLogged), st)
    else
      var s := st.session.(userName := Some(nickname), password := passwd, friends := StripAll(friends));
      Step(RedirectHome, State(st.store, s))
  }

  /**
    `/logout`: saves the session, then pops `user_name` only. Without a
    `user_name` in the session the save raises before writing anything.
   */
  function Logout(st: State): (r: Step)
    ensures !LoggedIn(st.session) ==> r == Step(KeyErrorFault, st)
    ensures LoggedIn(st.session) ==>
              && r.reply == RedirectIndex
              && r.state.store == Save(st.store, st.session)
              && !LoggedIn(r.state.session)
              && r.state.session == st.session.(userName := None)
  {
    if !LoggedIn(st.session) then Step(KeyErrorFault, st)
    else Step(RedirectIndex, State(Save(st.store, st.session), st.session.(userName := None)))
  }

  /** The POST requests the routes above answer. */
  datatype Request =
    | LoginRequest(form: Form)
    | SignupRequest(form: Form)
    | PostMessage(ts: int, text: string)
    | EditProfile(nickname: string, passwd: string, friends: seq<string>)
    | LogoutRequest

  function Handle(st: State, req: Request): Step
  {
    match req
    case LoginRequest(form) => Login(st, form)
    case SignupRequest(form) => Signup(st, form)
    case PostMessage(ts, text) => HomePost(st, ts, text)
    case EditProfile(nickname, passwd, friends) => ProfilePost(st, nickname, passwd, friends)
    case LogoutRequest => Logout(st)
  }
}
