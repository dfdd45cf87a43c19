# User store and feed of the loginWithPython Flask app

A Dafny model of the core of `server-final-u4.py`, a small social-feed web
app. Users sign up, log in, post timestamped messages and follow other
users. The home page shows the followed users' messages merged into one
feed sorted by time.

The `data/` directory holds one JSON file per user, named by the email. The
model treats it as a `map<string, Record>` (`Records.Store`). The Flask
session is a value `Records.Session`. It is either `Blank` or it holds the
five keys `user_name`, `password`, `messages`, `email` and `friends`, where
`user_name` may be missing after a logout. Each route is a pure function
from a `Server.State` (store and session) and the request's inputs to a
`Server.Step`: the page answered (`Server.Reply`) and the new state.

Modules:

- `Base`: `Option` and `Result`.
- `Records`: messages, records, the store, the session, and `save_current_user` (`Save`).
- `StableSort`: Python's `sorted(..., key=...)` as a stable insertion sort by an integer key.
- `Feed`: `load_messages_from_user`, `get_friends_messages_with_authors` and the sorted feed of the home page.
- `Forms`: the missing-field check of login and signup, and `str.strip` for the friend list.
- `Directory`: `get_all_users`.
- `Server`: `load_user`, `create_user_file`, and the POST branches of `/login`, `/signup`, `/home`, `/profile` and `/logout`.
- `Properties`: lemmas that span several routes, such as round trips, the session invariant and append-only messages.

The feed is a pure function of the store and the friend list. It has no
way to change the store. That holds by construction and needs no lemma.

Three behaviours of the code worth noting:

- A profile edit does not save. Only the session changes, and the store sees the edit at the next save, by a post or a logout.
- `get_all_users` raises `ValueError` when the current user is not in the listing. It does not ignore the missing user.
- The follow list is an ordered list, which may hold repeats. The feed walks it in that order.

## Model

| member | source | states |
|---|---|---|
| Records.Save | server-final-u4.py:169-179 | the file named by the session's email is replaced by the session's user name, password, messages, email and friends; the set of files gains at most that email; every other file is unchanged |
| StableSort.Sort | server-final-u4.py:52 | the sorted list is ascending by key, is a permutation of the input (equal multisets), and for every key keeps the input's order of the entries with that key (stability) |
| StableSort.InsertSorted | server-final-u4.py:52 | inserting into an ascending list keeps it ascending |
| StableSort.InsertStable | server-final-u4.py:52 | an inserted entry goes first among the entries with its key, and every other key's entries are untouched |
| StableSort.SortedStableUnique | server-final-u4.py:52 | any two lists that are ascending by key and agree on each key's subsequence are equal, so the output of every stable sort is the same |
| Feed.UserEntries | server-final-u4.py:232-244 | a user without a file yields nothing; otherwise one entry per stored message, in stored order, carrying the stored user name, the timestamp and the text |
| Feed.Feed | server-final-u4.py:51-52 | the feed is ascending by timestamp, is a permutation of the friends-order concatenation, and keeps that concatenation's order among equal timestamps |
| Feed.FriendsEntriesAppend | server-final-u4.py:225-229 | the loop extends in friends-list order: the entries of `a + b` are the entries of `a` followed by those of `b` |
| Feed.UnknownFriendsSkipped | server-final-u4.py:238-240 | followed users without a file contribute nothing: the merged list equals the one built from the friends that have files |
| Feed.FriendsEntriesMember | server-final-u4.py:220-244 | an entry is in the merged list if and only if it tags a stored message of a followed user who has a file with that user's name |
| Feed.StableSortIsFeed | server-final-u4.py:52 | every list that is ascending by timestamp and stable with respect to the merged list equals the feed, so the model agrees with Python's stable `sorted` |
| Feed.FeedOfTwoFriends | server-final-u4.py:220-244 | following X with (10,"a"),(5,"b") and Y with (7,"c") gives exactly (X,5,"b"),(Y,7,"c"),(X,10,"a") |
| Feed.FeedOfUnknownFriend | server-final-u4.py:238-240 | following only a user without a file gives an empty feed, not an error |
| Forms.MissingFields | server-final-u4.py:82-88 | a field is reported if and only if it is declared and its value is absent or empty; the result is no longer than the declared list |
| Forms.MissingFieldsAppend | server-final-u4.py:84-87 | the check reports in declared order: for `a + b` it reports `a`'s missing fields, then `b`'s |
| Forms.Strip | server-final-u4.py:67 | the stripped friend is a slice of the input; everything cut off at either end is whitespace, and the result neither starts nor ends with whitespace |
| Forms.StripIdempotent | server-final-u4.py:67 | stripping a stripped name changes nothing |
| Forms.StripAll | server-final-u4.py:67 | the friends list keeps its length and order, each element stripped |
| Directory.AllUsers | server-final-u4.py:247-256 | succeeds if and only if the user is in the listing; it then removes exactly the first occurrence, keeps the rest in order, and is one element shorter |
| Directory.AllUsersOfDistinctListing | server-final-u4.py:253-256 | over a listing that names each stored user once, the result names every user except the current one, each once |
| Server.LoadUser | server-final-u4.py:146-166 | a missing file fails as not found and a different stored password fails as wrong password, both changing nothing; success exactly when the file exists and the password matches, and then the session carries the record's name, messages and friends with the given email and password; the store is never written |
| Server.CreateUser | server-final-u4.py:182-217 | a taken email fails before the confirmation is compared (taken wins); a mismatched confirmation fails; neither changes anything; success adds exactly the key `email` with the given name and password and empty messages and friends, leaves every other file alone, and mirrors the record in the session |
| Server.Login | server-final-u4.py:81-91 | missing or empty login fields answer with the missing list and change nothing; the missing-fields page is answered if and only if a login field is absent or empty; otherwise the answer is `load_user` on the posted email and password |
| Server.Signup | server-final-u4.py:124-133 | the same check over the five signup fields, then `create_user_file` on the posted name, email, password and confirmation |
| Server.SavedAtPost | server-final-u4.py:43-47 | the list the post's save writes lies between the old list and the old list with the message appended (both as prefixes), and it contains the message if and only if the old list was non-empty |
| Server.HomePost | server-final-u4.py:39-52 | without `user_name` the page is an error and nothing changes; an empty message changes nothing; otherwise the session's messages become the old ones followed by `(ts, text)`, only the user's own file is written, with the session's name, password, friends and email (and with the empty message list when the old list was empty), and the page shows the session's messages and the feed read after the save |
| Server.HomePostIntended | server-final-u4.py:42-50 | the corrected post: the session gets the appended list and the save writes that same session |
| Server.ProfilePost | server-final-u4.py:61-68 | without `user_name` the page is an error and nothing changes; otherwise the store is untouched and only the session's name, password and stripped friends change |
| Server.Logout | server-final-u4.py:109-117 | with `user_name` the session is saved and then loses only `user_name`; without it the save raises before writing and nothing changes |
| Properties.SaveThenLoad | server-final-u4.py:155-179 | loading right after a save returns exactly the saved session |
| Properties.SignupThenLogin | server-final-u4.py:204-216 | logging in right after a signup gives the given name, no messages and no friends |
| Properties.SignupTwiceFails | server-final-u4.py:197-200 | signing up again with an email that just signed up fails as taken and leaves the first record as it was |
| Properties.PostLogoutLoginRoundTrip | server-final-u4.py:42-50 | post, logout, login yields the old messages followed by the new one, with name and friends unchanged |
| Properties.FirstPostNotSaved | server-final-u4.py:44-50 | with no earlier messages, the session shows the new message while the store still holds the empty list |
| Properties.FirstPostLostByRelogin | server-final-u4.py:44-50 | from a consistent state with no messages, a post followed by a new login for the same email and password (both non-empty) gives back an empty message list: the first message is lost |
| Properties.IntendedPostIsSaved | server-final-u4.py:42-47 | with the corrected post, a reload right after posting returns the old messages followed by the new one |
| Properties.PostAgreesWhenNotFirst | server-final-u4.py:42-50 | the written and the corrected post coincide unless a logged-in user with no messages posts a non-empty message |
| Properties.ProfileSavedByLogout | server-final-u4.py:64-68 | right after a profile edit the store is unchanged; after logout the user's file holds the new name, password and stripped friends and the same messages |
| Properties.LogoutTwiceFaults | server-final-u4.py:115-116 | a second logout raises because `user_name` is gone |
| Properties.HandleKeepsConsistent | server-final-u4.py:42-50 | every request keeps the invariant that a logged-in user has a file whose messages are a prefix of the session's |
| Properties.PostOnlyAppends | server-final-u4.py:42-50 | from a consistent state a post's save writes a list that extends the stored one, including the empty-list case |
| Properties.LogoutOnlyAppends | server-final-u4.py:115-116 | from a consistent state the logout's save writes a list that extends the stored one |
| Properties.HandleOnlyAppends | server-final-u4.py:169-179 | from a consistent state, no request removes a file or removes or reorders stored messages; messages are only appended |
| Properties.ProfileListsOthers | server-final-u4.py:70-72 | on the profile page of a consistent session, a listing that names each file once gives every other user and no error |
| Properties.AllUsersExample | server-final-u4.py:253-256 | bob@x.com's list over the files bob@x.com and amy@x.com is exactly amy@x.com |

## Left out

- Flask routing, templates, static files, redirects and `url_for`. Pages are modelled as `Server.Reply` values.
- GET requests. A GET of `/home` takes the same path as a POST of an empty message. The GET branches of `/profile`, `/login` and `/signup` only render pages; the profile page's user list is `Directory.AllUsers`.
- File I/O, `os.makedirs`, JSON encoding and the `listdir` order. The store is a map and the listing is an input sequence. An email is a plain key: path forms such as `../x` are not modelled.
- `time()`. Timestamps are integer parameters, and float precision is not modelled.
- The cookie session mechanism, `secret_key`, and server start-up and port choice (lines 259-267).
- Concurrent sessions and their lost updates. The code has no locking, and the model runs one session at a time.
- `KeyError` paths other than the `user_name` guard and the logout save. Examples are a POST to `/home` without a `message` field, or a session missing a key other than `user_name`. Flask turns these into error responses.
- Server.HomePost: the field `message` is taken as a string. A form without it (Flask answers 400) is not modelled.
- Plain-text passwords are kept as the source keeps them.

## Findings

| source | as written | input that shows it | evidently intended | confidence | as-written member | corrected member |
|---|---|---|---|---|---|---|
| server-final-u4.py:44-50 | when the session's list is empty, the message is appended to a fresh list, and that list reaches the session only after `save_current_user()` has written the old empty list | a logged-in user with no messages posts "hi": the session shows `[(ts, "hi")]` and the file keeps `messages = []` until a later save | the save after a post writes the list that contains the new message | medium, not executed | Properties.FirstPostNotSaved | Properties.IntendedPostIsSaved |

`Server.HomePost` models the code as written and is the post the rest of
the model uses (`Server.Handle`, the invariant lemmas). The corrected
`Server.HomePostIntended` differs from it only on this input
(`Properties.PostAgreesWhenNotFirst`). The message reaches the file only
if a later post or a logout saves the session first
(`Properties.PostLogoutLoginRoundTrip`). A new login, or a session that ends
before such a save, loses it (`Properties.FirstPostLostByRelogin`).
