/**
  The data of the application: the per-user files under `data/` (a map from
  email to record) and the Flask session that caches one user's record.
 */
module Records {
  import opened Base

  /** One posted message: a `time()` stamp and the text, a 2-element list on disk. */
  datatype Message = Message(ts: int, text: string)

  /**
    The content of one user's JSON file. Signup writes no `email` key; every
    later save writes one, equal to the file name.
   */
  datatype Record = Record(
    userName: string,
    password: string,
    messages: seq<Message>,
    friends: seq<string>,
    email: Option<string>)

  /** The `data/` directory: one file per email, named by the email. */
  type Store = map<string, Record>

  /**
    The Flask session dict. It is empty until a login or signup sets all five
    keys; logout pops only `user_name`, so the other four survive it.
   */
  datatype Session =
    | Blank
    | Filled(userName: Option<string>, password: string, messages: seq<Message>, email: string, friends: seq<string>)

  /** The guard of the routes: `'user_name' in session`. */
  predicate LoggedIn(s: Session)
  {
    s.Filled? && s.userName.Some?
  }

  /**
    `save_current_user`: overwrites the whole file named by the session's email
    with the session's five fields. Every other file is left as it was.
   */
  function Save(store: Store, s: Session): (r: Store)
    requires LoggedIn(s)
    ensures r.Keys == store.Keys + {s.email}
    ensures r[s.email] == Record(s.userName.value, s.password, s.messages, s.friends, Some(s.email))
    ensures forall u :: u in store && u != s.email ==> r[u] == store[u]
  {
    store[s.email := Record(s.userName.value, s.password, s.messages, s.friends, Some(s.email))]
  }
}
