/** The three SQLite tables of the app as one logical store: their rows, the
    constraints their DDL declares, and the SELECT queries the handlers run. */
module Schema {
  import opened Outcomes

  /** One row of a table declared with `id INTEGER PRIMARY KEY AUTOINCREMENT`:
      its rowid and the remaining columns. */
  datatype Row<T> = Row(id: int, data: T)

  /** A table holds its rows in insertion order (no handler deletes or updates one). */
  type Table<T> = seq<Row<T>>

  /** The columns of `users` other than `id`. */
  datatype Account = Account(
    username: string, lastname: string, firstname: string, dateofbirth: string,
    club: string, school: string, address1: string, address2: string,
    city: string, country: string, telephone: string, email: string,
    password: string)

  /** The columns of `general_info` other than `id`; `headshot_path` is nullable. */
  datatype GeneralInfo = GeneralInfo(
    username: string, birthCountry: string, passportCountry: string,
    height: string, weight: string, foot: string, position: string,
    headshotPath: Option<string>)

  /** The columns of `career_info` other than `id`. */
  datatype CareerInfo = CareerInfo(
    username: string, year: string, team: string, competition: string,
    games: string, starting: string, sub: string, yellow: string, red: string,
    assist: string, goal: string, saves: string)

  /** The `User` object Flask-Login keeps as `current_user`: an id and a username. */
  datatype User = User(id: int, username: string)

  /** The rowids AUTOINCREMENT has handed out: positive, strictly increasing in
      insertion order, and all below `next`, the id the next insert receives. */
  ghost predicate AutoIncrement<T>(t: Table<T>, next: int)
  {
    && 1 <= next
    && (forall i :: 0 <= i < |t| ==> 1 <= t[i].id < next)
    && (forall i, j :: 0 <= i < j < |t| ==> t[i].id < t[j].id)
  }

  /** `users.username` is UNIQUE. */
  ghost predicate UniqueUsernames(users: Table<Account>)
  {
    forall i, j :: 0 <= i < j < |users| ==> users[i].data.username != users[j].data.username
  }

  /** `general_info.username` is UNIQUE: at most one profile per user. */
  ghost predicate OneProfilePerUser(general: Table<GeneralInfo>)
  {
    forall i, j :: 0 <= i < j < |general| ==> general[i].data.username != general[j].data.username
  }

  /** `SELECT * FROM t WHERE cond` followed by `fetchone()`: the first row, in
      table order, that satisfies the condition, or None when no row does. */
  function SelectFirst<T>(t: Table<T>, cond: Row<T> -> bool): (r: Option<Row<T>>)
    ensures r.None? <==> forall i :: 0 <= i < |t| ==> !cond(t[i])
    ensures r.Some? ==>
      exists k :: 0 <= k < |t| && t[k] == r.value && cond(t[k]) && forall j :: 0 <= j < k ==> !cond(t[j])
  {
    if t == [] then None
    else if cond(t[0]) then Some(t[0])
    else
      var r := SelectFirst(t[1..], cond);
      assert r.Some? ==> exists k :: 0 <= k < |t[1..]| && t[1..][k] == r.value;
      r
  }

  /** A query over a table that has grown at its end answers from the old rows
      whenever one of them matches. */
  lemma {:induction false} SelectFirstAppend<T>(t: Table<T>, s: Table<T>, cond: Row<T> -> bool)
    ensures SelectFirst(t + s, cond) == if SelectFirst(t, cond).Some? then SelectFirst(t, cond) else SelectFirst(s, cond)
  {
    if t == [] {
      assert t + s == s;
    } else {
      assert (t + s)[0] == t[0];
      assert (t + s)[1..] == t[1..] + s;
      SelectFirstAppend(t[1..], s, cond);
    }
  }

  /** `SELECT * FROM users WHERE username=?` (the settings page and the UNIQUE check). */
  function FindByUsername(users: Table<Account>, username: string): (r: Option<Row<Account>>)
    ensures r.Some? ==> r.value in users && r.value.data.username == username
    ensures r.None? <==> forall i :: 0 <= i < |users| ==> users[i].data.username != username
  {
    SelectFirst(users, (row: Row<Account>) => row.data.username == username)
  }

  /** `SELECT * FROM users WHERE username=? AND password=?`: plain equality of both. */
  function FindByCredentials(users: Table<Account>, username: string, password: string): (r: Option<Row<Account>>)
    ensures r.Some? ==> r.value in users && r.value.data.username == username && r.value.data.password == password
    ensures r.None? <==>
      forall i :: 0 <= i < |users| ==> !(users[i].data.username == username && users[i].data.password == password)
  {
    SelectFirst(users, (row: Row<Account>) => row.data.username == username && row.data.password == password)
  }

  /** `load_user`: `SELECT * FROM users WHERE id=?`, turned into a `User` of that
      row's id and username, or None when no row has the id. */
  function LoadUser(users: Table<Account>, id: int): (r: Option<User>)
    ensures r.Some? ==>
      r.value.id == id && exists k :: 0 <= k < |users| && users[k].id == id && users[k].data.username == r.value.username
    ensures r.None? <==> forall i :: 0 <= i < |users| ==> users[i].id != id
  {
    match SelectFirst(users, (row: Row<Account>) => row.id == id)
    case None => None
    case Some(row) => Some(User(row.id, row.data.username))
  }

  /** A username is registered when some `users` row carries it. */
  ghost predicate Registered(users: Table<Account>, username: string)
  {
    exists k :: 0 <= k < |users| && users[k].data.username == username
  }

  /** The general-info row stored for a user, if there is one. */
  function ProfileOf(general: Table<GeneralInfo>, username: string): (r: Option<Row<GeneralInfo>>)
    ensures r.Some? ==> r.value in general && r.value.data.username == username
    ensures r.None? <==> forall i :: 0 <= i < |general| ==> general[i].data.username != username
  {
    SelectFirst(general, (row: Row<GeneralInfo>) => row.data.username == username)
  }

  /** The career entries stored for a user, in insertion order: every entry
      carries the username, and every row carrying it contributes its entry. */
  function CareerOf(career: Table<CareerInfo>, username: string): (r: seq<CareerInfo>)
    ensures |r| <= |career|
    ensures forall i :: 0 <= i < |r| ==> r[i].username == username
    ensures forall c :: c in r <==> exists i :: 0 <= i < |career| && career[i].data == c && c.username == username
    decreases |career|
  {
    if career == [] then []
    else
      var init := career[..|career| - 1];
      var last := career[|career| - 1];
      var r := CareerOf(init, username) + (if last.data.username == username then [last.data] else []);
      assert forall i :: 0 <= i < |init| ==> init[i] == career[i];
      r
  }

  /** The positions of a user's rows in the career table. */
  ghost function RowsOf(career: Table<CareerInfo>, username: string): set<int>
  {
    set i | 0 <= i < |career| && career[i].data.username == username
  }

  /** Dropping the last row of the table drops its position, if it was the user's. */
  lemma RowsOfInit(career: Table<CareerInfo>, username: string)
    requires career != []
    ensures var n := |career| - 1;
      RowsOf(career, username) ==
        RowsOf(career[..n], username) + (if career[n].data.username == username then {n} else {})
  {
    var n := |career| - 1;
    assert forall i :: 0 <= i < n ==> career[..n][i] == career[i];
  }

  /** A user has exactly as many career entries as the table has rows carrying
      their username. */
  lemma {:induction false} CareerOfCount(career: Table<CareerInfo>, username: string)
    ensures |CareerOf(career, username)| == |RowsOf(career, username)|
    decreases |career|
  {
    if career != [] {
      var n := |career| - 1;
      CareerOfCount(career[..n], username);
      RowsOfInit(career, username);
      assert n !in RowsOf(career[..n], username);
    }
  }

  /** Career entries of two stretches of the table are those of each, in order. */
  lemma {:induction false} CareerOfConcat(t: Table<CareerInfo>, s: Table<CareerInfo>, username: string)
    ensures CareerOf(t + s, username) == CareerOf(t, username) + CareerOf(s, username)
    decreases |s|
  {
    if s == [] {
      assert t + s == t;
    } else {
      var n := |s| - 1;
      assert (t + s)[..|t + s| - 1] == t + s[..n];
      assert (t + s)[|t + s| - 1] == s[n];
      CareerOfConcat(t, s[..n], username);
    }
  }

  /** With usernames unique, the username query finds exactly the row that carries it. */
  lemma FindByUsernameExact(users: Table<Account>, k: int)
    requires UniqueUsernames(users)
    requires 0 <= k < |users|
    ensures FindByUsername(users, users[k].data.username) == Some(users[k])
  {
    var r := FindByUsername(users, users[k].data.username);
    assert r.Some?;
    var k' :| 0 <= k' < |users| && users[k'] == r.value;
    assert k' == k;
  }

  /** With ids distinct, `load_user` of a row's id yields that row's id and username,
      never another row's. */
  lemma LoadUserExact(users: Table<Account>, next: int, k: int)
    requires AutoIncrement(users, next)
    requires 0 <= k < |users|
    ensures LoadUser(users, users[k].id) == Some(User(users[k].id, users[k].data.username))
  {
    var r := LoadUser(users, users[k].id);
    assert r.Some?;
    var k' :| 0 <= k' < |users| && users[k'].id == users[k].id && users[k'].data.username == r.value.username;
    assert k' == k;
  }

  /** With usernames unique, the login query succeeds exactly when the username is
      registered and its row holds that password: an unknown username and a wrong
      password both give None. */
  lemma CredentialsOfOwner(users: Table<Account>, username: string, password: string)
    requires UniqueUsernames(users)
    ensures FindByCredentials(users, username, password).Some? <==>
      (FindByUsername(users, username).Some? && FindByUsername(users, username).value.data.password == password)
    ensures FindByCredentials(users, username, password).Some? ==>
      FindByCredentials(users, username, password) == FindByUsername(users, username)
  {
    var byName := FindByUsername(users, username);
    var byBoth := FindByCredentials(users, username, password);
    if byBoth.Some? {
      var k :| 0 <= k < |users| && users[k] == byBoth.value;
      FindByUsernameExact(users, k);
    }
    if byName.Some? && byName.value.data.password == password {
      var k :| 0 <= k < |users| && users[k] == byName.value;
      assert users[k].data.username == username && users[k].data.password == password;
    }
  }

  /** Appending a row with a new username and the next id keeps both table
      constraints, and the new account is then found under its username. */
  lemma InsertAccount(users: Table<Account>, next: int, account: Account)
    requires AutoIncrement(users, next) && UniqueUsernames(users)
    requires FindByUsername(users, account.username).None?
    ensures AutoIncrement(users + [Row(next, account)], next + 1)
    ensures UniqueUsernames(users + [Row(next, account)])
    ensures FindByUsername(users + [Row(next, account)], account.username) == Some(Row(next, account))
  {
    var t := users + [Row(next, account)];
    assert UniqueUsernames(t) by {
      forall i, j | 0 <= i < j < |t|
        ensures t[i].data.username != t[j].data.username
      {
        if j == |users| { assert t[i] == users[i]; }
      }
    }
    FindByUsernameExact(t, |users|);
  }

  /** Appending a profile for a user who has none, under the next id, keeps both
      table constraints, and the new row is then that user's profile. */
  lemma InsertProfile(general: Table<GeneralInfo>, next: int, info: GeneralInfo)
    requires AutoIncrement(general, next) && OneProfilePerUser(general)
    requires ProfileOf(general, info.username).None?
    ensures AutoIncrement(general + [Row(next, info)], next + 1)
    ensures OneProfilePerUser(general + [Row(next, info)])
    ensures ProfileOf(general + [Row(next, info)], info.username) == Some(Row(next, info))
  {
    var t := general + [Row(next, info)];
    assert OneProfilePerUser(t) by {
      forall i, j | 0 <= i < j < |t|
        ensures t[i].data.username != t[j].data.username
      {
        if j == |general| { assert t[i] == general[i]; }
      }
    }
    var r := ProfileOf(t, info.username);
    assert t[|general|].data.username == info.username;
    var k :| 0 <= k < |t| && t[k] == r.value;
    assert k == |general|;
  }

  /** Every general-info row names a registered user. */
  ghost predicate ProfilesReferenceUsers(users: Table<Account>, general: Table<GeneralInfo>)
  {
    forall i :: 0 <= i < |general| ==> Registered(users, general[i].data.username)
  }

  /** Every career row names a registered user. */
  ghost predicate CareerReferencesUsers(users: Table<Account>, career: Table<CareerInfo>)
  {
    forall i :: 0 <= i < |career| ==> Registered(users, career[i].data.username)
  }

  /** A bound session holds the id of some `users` row. */
  ghost predicate SessionResolves(users: Table<Account>, session: Option<int>)
  {
    session.Some? ==> exists k :: 0 <= k < |users| && users[k].id == session.value
  }

  /** Appending to `users` keeps every reference into it. */
  lemma UsersGrow(users: Table<Account>, row: Row<Account>, general: Table<GeneralInfo>,
                  career: Table<CareerInfo>, session: Option<int>)
    requires ProfilesReferenceUsers(users, general)
    requires CareerReferencesUsers(users, career)
    requires SessionResolves(users, session)
    ensures ProfilesReferenceUsers(users + [row], general)
    ensures CareerReferencesUsers(users + [row], career)
    ensures SessionResolves(users + [row], session)
  {
    var t := users + [row];
    forall u | Registered(users, u)
      ensures Registered(t, u)
    {
      var k :| 0 <= k < |users| && users[k].data.username == u;
      assert t[k] == users[k];
    }
    if session.Some? {
      var k :| 0 <= k < |users| && users[k].id == session.value;
      assert t[k] == users[k];
    }
  }
}
