# Prolink scouting app: the account and profile store

The Flask app `app.py` keeps players' accounts in a SQLite `users` table. It
keeps their profiles in two more tables: `general_info`, one row per player,
and `career_info`, one row per season entry. A Flask-Login session tells the
handlers who is logged in. This project models that store and that session as
one Dafny class, `App.Store`. Each request handler is one atomic method on it:

- `register` inserts an account;
- `login` binds the session to the row whose username and password both match;
- `logout` clears the session;
- `general` and `career` insert profile rows under the session's username;
- `account_settings` reads the logged-in user's own row.

The model's files:

- `outcomes.dfy` (module `Outcomes`): how a handler can end. A KeyError from
  `request.form[...]`, a UNIQUE violation, bad credentials, the
  `@login_required` guard and the settings error page each become an `Error`
  value. A failure leaves the state as it was.
- `schema.dfy` (module `Schema`):
  - the rows of the three tables;
  - the table constraints (AUTOINCREMENT ids, the two UNIQUE `username`
    columns) and the referential facts the handlers rely on;
  - the `SELECT ... fetchone()` queries, as first-match searches over a table
    kept in insertion order. SQLite promises no row order without `ORDER BY`;
    taking the first row in insertion order is a modelling choice. It decides
    nothing for the queries the handlers run, because each is on a UNIQUE
    column or on the rowid, so at most one row matches.
- `forms.dfy` (module `Forms`):
  - how each handler reads `request.form` and `request.files`: the fields it
    reads, their order, and `get` with a default;
  - `save_headshot`, both as written and as intended.
- `store.dfy` (module `App`): the class `Store`. It has the tables, their
  AUTOINCREMENT counters and the session, which holds the id `login_user`
  stored or nothing for an anonymous client. The handlers are its methods.
  `current_user` and the settings page are functions of its state. Its
  invariant `Valid()` includes every table constraint and says that each
  profile row and a bound session refer to an existing user.

## Model

| member | source | states |
|---|---|---|
| Schema.SelectFirst | app.py:197-198 | `fetchone()` returns None exactly when no row satisfies the WHERE condition; otherwise it returns a row of the table that satisfies it, and no earlier row in insertion order does (the order is the model's choice) |
| Schema.SelectFirstAppend | app.py:197-198 | after rows are appended, a query still answers from the old rows whenever one of them matches, and from the new rows otherwise |
| Schema.FindByUsername | app.py:197-198 | the row returned carries the requested username; None means no row carries it |
| Schema.FindByCredentials | app.py:287-289 | the row returned matches both username and password by plain equality; None means no row matches both |
| Schema.LoadUser | app.py:263-274 | `load_user(id)` returns a User with that id and the username of a row with that id; None means no row has the id |
| Schema.ProfileOf | app.py:42-44 | the general_info row returned belongs to the user; None means the user has no profile row |
| Schema.CareerOf | app.py:56-58 | a user's career entries are exactly the entries of the rows carrying that username: each entry carries it, and each such row's entry is among them |
| Schema.CareerOfCount | app.py:56-58 | a user has exactly as many career entries as the table has rows carrying their username |
| Schema.CareerOfConcat | app.py:176-182 | the entries of a table are those of its first part followed by those of the rest, so entries appear in submission order |
| Schema.FindByUsernameExact | app.py:17 | with usernames UNIQUE, a query for a row's username returns exactly that row |
| Schema.LoadUserExact | app.py:16 | with AUTOINCREMENT ids, `load_user` of a row's id returns exactly that row's id and username, never another row |
| Schema.CredentialsOfOwner | app.py:287-302 | login matches exactly when the username is registered and its row holds the password; an unknown username and a wrong password both give None |
| Schema.InsertAccount | app.py:16-17 | appending an account whose username is new, under the next id, keeps ids increasing and usernames unique; the account is then found under its username |
| Schema.InsertProfile | app.py:43-44 | appending a profile for a user without one keeps ids increasing and one profile per user; the profile is then found for the user |
| Schema.UsersGrow | app.py:236-243 | a new users row keeps every profile row's reference to a user, and the session's reference to an id |
| Forms.ReadRegistration | app.py:217-229 | succeeds exactly when all eleven required fields are present; the account holds the submitted values, with '' for a missing address1 or address2; a failure names a key the form lacks |
| Forms.SaveHeadshotAsWritten | app.py:147-153 | as written: None exactly when no file was uploaded, otherwise the literal path "static/headshots/{username}.png" |
| Forms.HeadshotPathsCollide | app.py:150 | as written, any two users' headshots get the same path |
| Forms.SaveHeadshot | app.py:147-153 | as intended: None exactly when no file was uploaded, otherwise "static/headshots/" followed by the username and then ".png" |
| Forms.HeadshotPathsDistinct | app.py:150 | as intended, two different users get different headshot paths |
| Forms.ReadGeneral | app.py:123-130 | succeeds exactly when the six fields and the headshot upload are present; the row holds the session's username, the submitted values and the corrected headshot path; a failure names the missing key, with the form fields checked before the upload |
| Forms.ReadCareer | app.py:160-171 | succeeds exactly when all eleven fields are present; the row holds the session's username and the submitted values; a failure names a key the form lacks |
| Forms.GeneralIgnoresFormUsername | app.py:123 | a `username` field in the form, whatever its value, does not change the general-info row |
| Forms.CareerIgnoresFormUsername | app.py:160 | a `username` field in the form, whatever its value, does not change the career row |
| App.Store.constructor | app.py:11-74 | the freshly created tables are empty, the session is anonymous, and the invariant holds |
| App.Store.CurrentUser | app.py:263-274 | an anonymous session has no current user; a bound session has one exactly when some row has its id, and the current user is then the session's id together with the username of the row with that id |
| App.Store.AccountSettings | app.py:188-211 | an anonymous session is turned away, and an empty username gives the error page; the page shows a row exactly when a user is logged in with a non-empty username, and that row carries the user's username |
| App.SettingsShowOwnAccount | app.py:194-206 | under the invariant, a logged-in user with a non-empty username sees their own users row, which has the session's id |
| App.Store.Register | app.py:214-247 | a missing field, or a username already registered, leaves users and its counter as they were; otherwise exactly one row is appended, holding the submitted fields, with an id larger than every existing id; the invariant is kept |
| App.Store.InsertUser | app.py:234-243 | the INSERT is refused with the table and counter unchanged when the username is taken; otherwise it appends the account under the next id, and the account is then found under its username |
| App.Store.Login | app.py:277-302 | a missing username, and then a missing password, aborts with the session unchanged; when some row matches both username and password, the session holds that row's id and the current user is that row's id and username; otherwise "Invalid username or password" whatever the cause, and the session is unchanged |
| App.Store.LoginUser | app.py:294-295 | `login_user` binds the session to the row's id, and the row's id and username are then the current user |
| App.Store.Logout | app.py:307-311 | an anonymous session is turned away, unchanged; otherwise the session is cleared; either way it is anonymous afterwards |
| App.Store.General | app.py:119-144 | an anonymous session is turned away. A missing field, or a second profile for the same user, leaves general_info and its counter as they were. Otherwise exactly one row is appended under the session's username, and it is the user's profile |
| App.Store.InsertGeneral | app.py:133-142 | the INSERT is refused, with the table unchanged, when the user already has a profile; otherwise it appends the profile under the next id |
| App.Store.Career | app.py:156-185 | an anonymous session is turned away; a missing field leaves career_info as it was; otherwise exactly one row is appended under the session's username, and the user's entries become the old ones followed by the new one |
| App.Store.InsertCareer | app.py:174-183 | the INSERT always appends under the next id, and the user's entries gain the new one at the end |
| App.AnonymousIsTurnedAway | app.py:307-310 | with the anonymous session `logout` leaves, general, career, account_settings and logout are all turned away, and no table, AUTOINCREMENT counter or session changes |

## Left out

- Flask routing, `render_template`, `redirect`/`url_for` and the page-only routes (app.py:91-116) are left out. The model does not render pages.
- The GET branches of `general`, `career` and `register` are not modelled. They only render a form.
- Line 304 of `login` is not modelled. The route accepts POST only, so it cannot be reached.
- The SQLite connection lifecycle (`get_db`, `close_db`) and the connection `register` opens and never closes are not modelled. All three tables are one logical store.
- The database file split is not modelled. The profile tables are created in `player.db`, yet `general` and `career` write through the `account_users.db` connection.
- Saving the headshot file to disk is file I/O and is left out; only the path `save_headshot` returns is modelled.
- Forms.ReadGeneral: the row stores the corrected headshot path, "static/headshots/" followed by the username and then ".png". The source stores the literal "static/headshots/{username}.png" (see Findings). `App.Store.General` therefore writes the corrected path to general_info.
- Forms.ReadRegistration: a failure is stated to name some key the form lacks. The source raises the KeyError for the first missing key in read order, and the model does the same, but the contract does not promise which key.
- Forms.ReadGeneral: likewise, a failure names some missing form key, or "headshot" when only the upload is missing; which form key comes first is not promised.
- Forms.ReadCareer: likewise, a failure names some missing key, not promised to be the first in read order.
- Flask-Login's cookie transport, the hard-coded secret key and the conversion of the id to a string and back are not modelled. The session holds the integer id itself.
- The debug `print` calls and `app.run` are left out.
- Passwords are compared by plain equality, as the source does. The source has no hashing to model.
- Concurrency and transaction isolation are not modelled. Each request is one atomic step, and there is one client session.
- SQLite type affinity is not modelled. `dateofbirth` is DATE and the profile columns are TEXT, but every form value is kept as a string.
- NOT NULL is not modelled separately. Every form value is a string, so only a missing key can stop an insert, and the model treats that as the KeyError.
- The code requires `club`, `school`, `city`, `country` and `telephone` (it reads them with `request.form[...]`), even though the DDL lets those columns be NULL. The model follows the code.
- `general_info.username` is UNIQUE in the DDL (app.py:44), so a second general-info submission fails. The model follows the DDL, not a design where several profiles per user are allowed.

## Findings

| source | as written | input that shows it | evidently intended | confidence | as-written member | corrected member |
|---|---|---|---|---|---|---|
| app.py:150 | the path is a plain string, not an f-string, so every headshot is saved under the literal name "static/headshots/{username}.png" | two users, "alice" and "bob", each uploading a file with a non-empty name: both get the same path, and the second upload overwrites the first | "static/headshots/alice.png" and "static/headshots/bob.png" | not executed | Forms.HeadshotPathsCollide | Forms.HeadshotPathsDistinct |
