/** The state the request handlers share: the `users`, `general_info` and
    `career_info` tables with their AUTOINCREMENT counters, and the session of
    one client, which Flask-Login keeps as the id of the logged-in user. Each
    handler is one atomic step on this state. */
module App {
  import opened Outcomes
  import opened Schema
  import opened Forms

  class Store {
    var users: Table<Account>
    var nextUserId: int
    var generalInfo: Table<GeneralInfo>
    var nextGeneralId: int
    var careerInfo: Table<CareerInfo>
    var nextCareerId: int
    /** The user id `login_user` put in the session, or None for an anonymous one. */
    var session: Option<int>

    /** The table constraints, and referential integrity of the profile tables:
        every profile row names a registered user, and a bound session names an
        existing id. */
    ghost predicate Valid()
      reads this
    {
      && AutoIncrement(users, nextUserId) && UniqueUsernames(users)
      && AutoIncrement(generalInfo, nextGeneralId) && OneProfilePerUser(generalInfo)
      && AutoIncrement(careerInfo, nextCareerId)
      && ProfilesReferenceUsers(users, generalInfo)
      && CareerReferencesUsers(users, careerInfo)
      && SessionResolves(users, session)
    }

    /** Empty tables (`CREATE TABLE IF NOT EXISTS` on a fresh database) and an
        anonymous session. */
    constructor ()
      ensures Valid()
      ensures users == [] && generalInfo == [] && careerInfo == [] && session == None
    {
      users, nextUserId := [], 1;
      generalInfo, nextGeneralId := [], 1;
      careerInfo, nextCareerId := [], 1;
      session := None;
    }

    /** `current_user`: `load_user` of the id in the session, or anonymous. */
    function CurrentUser(): (u: Option<User>)
      reads this`users, this`session
      ensures session.None? ==> u.None?
      ensures session.Some? ==> (u.None? <==> forall i :: 0 <= i < |users| ==> users[i].id != session.value)
      ensures u.Some? ==> session == Some(u.value.id) && Registered(users, u.value.username)
      ensures u.Some? ==> exists k :: 0 <= k < |users| && users[k].id == u.value.id && users[k].data.username == u.value.username
    {
      match session
      case None => None
      case Some(id) => LoadUser(users, id)
    }

    /** `account_settings`: behind `@login_required`; a falsy (empty) username
        and a username without a row both give the error page. */
    function AccountSettings(): (r: Result<Row<Account>>)
      reads this`users, this`session
      ensures CurrentUser().None? <==> r == Err(Unauthorized)
      ensures r.Err? ==> r.error == Unauthorized || r.error == UserNotFound
      ensures r.Ok? <==> CurrentUser().Some? && CurrentUser().value.username != ""
      ensures r.Ok? ==> r.value in users && r.value.data.username == CurrentUser().value.username
    {
      match CurrentUser()
      case None => Err(Unauthorized)
      case Some(user) =>
        if user.username == "" then Err(UserNotFound)
        else match FindByUsername(users, user.username)
          case None => Err(UserNotFound)
          case Some(row) => Ok(row)
    }

    /** `register`: read the form, then INSERT INTO users. A missing field or a
        username already taken aborts with the table as it was; otherwise exactly
        one row is appended, holding the submitted fields under the next id. */
    method Register(form: Form) returns (r: Outcome)
      requires Valid()
      modifies this`users, this`nextUserId
      ensures Valid()
      ensures var read := ReadRegistration(form);
        && (read.Err? ==> r == Fail(read.error) && users == old(users))
        && (read.Ok? && Registered(old(users), read.value.username) ==>
              r == Fail(UniqueViolation("users.username")) && users == old(users))
        && (read.Ok? && !Registered(old(users), read.value.username) ==>
              && r == Pass
              && users == old(users) + [Row(old(nextUserId), read.value)]
              && FindByUsername(users, read.value.username) == Some(Row(old(nextUserId), read.value)))
      ensures r.Fail? ==> nextUserId == old(nextUserId)
      ensures r == Pass ==> forall i :: 0 <= i < |old(users)| ==> old(users)[i].id < users[|users| - 1].id
    {
      var read := ReadRegistration(form);
      if read.Err? {
        return Fail(read.error);
      }
      r := InsertUser(read.value);
    }

    /** `INSERT INTO users`: refused by the UNIQUE constraint on `username`,
        otherwise appended under the next AUTOINCREMENT id. */
    method InsertUser(account: Account) returns (r: Outcome)
      requires Valid()
      modifies this`users, this`nextUserId
      ensures Valid()
      ensures Registered(old(users), account.username) ==>
        r == Fail(UniqueViolation("users.username")) && users == old(users) && nextUserId == old(nextUserId)
      ensures !Registered(old(users), account.username) ==>
        && r == Pass
        && users == old(users) + [Row(old(nextUserId), account)]
        && FindByUsername(users, account.username) == Some(Row(old(nextUserId), account))
    {
      if FindByUsername(users, account.username).Some? {
        return Fail(UniqueViolation("users.username"));
      }
      InsertAccount(users, nextUserId, account);
      UsersGrow(users, Row(nextUserId, account), generalInfo, careerInfo, session);
      users := users + [Row(nextUserId, account)];
      nextUserId := nextUserId + 1;
      r := Pass;
    }

    /** `login`: the row whose username and password both equal the submitted
        ones binds the session to its id; otherwise "Invalid username or
        password", whatever the cause, and the session stays as it was. */
    method Login(form: Form) returns (r: Outcome)
      requires Valid()
      modifies this`session
      ensures Valid()
      ensures "username" !in form ==> r == Fail(MissingField("username")) && session == old(session)
      ensures "username" in form && "password" !in form ==> r == Fail(MissingField("password")) && session == old(session)
      ensures "username" in form && "password" in form ==>
        var found := FindByCredentials(users, form["username"], form["password"]);
        && (found.None? ==> r == Fail(InvalidCredentials) && session == old(session))
        && (found.Some? ==>
              && r == Pass && session == Some(found.value.id)
              && CurrentUser() == Some(User(found.value.id, found.value.data.username)))
    {
      var read := ReadCredentials(form);
      if read.Err? {
        return Fail(read.error);
      }
      var found := FindByCredentials(users, read.value.username, read.value.password);
      if found.None? {
        return Fail(InvalidCredentials);
      }
      LoginUser(found.value);
      r := Pass;
    }

    /** Flask-Login's `login_user`: bind the session to the row's id, after which
        `current_user` is that row's id and username. */
    method LoginUser(row: Row<Account>)
      requires Valid()
      requires row in users
      modifies this`session
      ensures Valid()
      ensures session == Some(row.id)
      ensures CurrentUser() == Some(User(row.id, row.data.username))
    {
      ghost var k :| 0 <= k < |users| && users[k] == row;
      LoadUserExact(users, nextUserId, k);
      session := Some(row.id);
    }

    /** `logout`: behind `@login_required`; clears the session. */
    method Logout() returns (r: Outcome)
      requires Valid()
      modifies this`session
      ensures Valid()
      ensures old(CurrentUser()).None? ==> r == Fail(Unauthorized) && session == old(session)
      ensures old(CurrentUser()).Some? ==> r == Pass && session == None
      ensures CurrentUser().None?
    {
      if CurrentUser().None? {
        return Fail(Unauthorized);
      }
      session := None;
      r := Pass;
    }

    /** `general` (POST): behind `@login_required`; INSERT INTO general_info under
        the session's username. A missing field or a second profile for the same
        user aborts with the table as it was. */
    method General(form: Form, files: Files) returns (r: Outcome)
      requires Valid()
      modifies this`generalInfo, this`nextGeneralId
      ensures Valid()
      ensures CurrentUser().None? ==> r == Fail(Unauthorized) && generalInfo == old(generalInfo)
      ensures CurrentUser().Some? ==>
        var username := CurrentUser().value.username;
        var read := ReadGeneral(form, files, username);
        && (read.Err? ==> r == Fail(read.error) && generalInfo == old(generalInfo))
        && (read.Ok? && ProfileOf(old(generalInfo), username).Some? ==>
              r == Fail(UniqueViolation("general_info.username")) && generalInfo == old(generalInfo))
        && (read.Ok? && ProfileOf(old(generalInfo), username).None? ==>
              && r == Pass
              && generalInfo == old(generalInfo) + [Row(old(nextGeneralId), read.value)]
              && ProfileOf(generalInfo, username) == Some(Row(old(nextGeneralId), read.value)))
      ensures r.Fail? ==> nextGeneralId == old(nextGeneralId)
    {
      var user := CurrentUser();
      if user.None? {
        return Fail(Unauthorized);
      }
      var username := user.value.username;
      var read := ReadGeneral(form, files, username);
      if read.Err? {
        return Fail(read.error);
      }
      r := InsertGeneral(read.value);
    }

    /** `INSERT INTO general_info`: refused by the UNIQUE constraint on
        `username`, otherwise appended under the next AUTOINCREMENT id. */
    method InsertGeneral(info: GeneralInfo) returns (r: Outcome)
      requires Valid()
      requires Registered(users, info.username)
      modifies this`generalInfo, this`nextGeneralId
      ensures Valid()
      ensures ProfileOf(old(generalInfo), info.username).Some? ==>
        && r == Fail(UniqueViolation("general_info.username"))
        && generalInfo == old(generalInfo) && nextGeneralId == old(nextGeneralId)
      ensures ProfileOf(old(generalInfo), info.username).None? ==>
        && r == Pass
        && generalInfo == old(generalInfo) + [Row(old(nextGeneralId), info)]
        && ProfileOf(generalInfo, info.username) == Some(Row(old(nextGeneralId), info))
    {
      if ProfileOf(generalInfo, info.username).Some? {
        return Fail(UniqueViolation("general_info.username"));
      }
      InsertProfile(generalInfo, nextGeneralId, info);
      generalInfo := generalInfo + [Row(nextGeneralId, info)];
      nextGeneralId := nextGeneralId + 1;
      r := Pass;
    }

    /** `career` (POST): behind `@login_required`; appends one career_info row
        under the session's username, leaving the earlier rows as they were. */
    method Career(form: Form) returns (r: Outcome)
      requires Valid()
      modifies this`careerInfo, this`nextCareerId
      ensures Valid()
      ensures CurrentUser().None? ==> r == Fail(Unauthorized) && careerInfo == old(careerInfo)
      ensures CurrentUser().Some? ==>
        var username := CurrentUser().value.username;
        var read := ReadCareer(form, username);
        && (read.Err? ==> r == Fail(read.error) && careerInfo == old(careerInfo))
        && (read.Ok? ==>
              && r == Pass
              && careerInfo == old(careerInfo) + [Row(old(nextCareerId), read.value)]
              && CareerOf(careerInfo, username) == CareerOf(old(careerInfo), username) + [read.value])
      ensures r.Fail? ==> nextCareerId == old(nextCareerId)
    {
      var user := CurrentUser();
      if user.None? {
        return Fail(Unauthorized);
      }
      var username := user.value.username;
      var read := ReadCareer(form, username);
      if read.Err? {
        return Fail(read.error);
      }
      r := InsertCareer(read.value);
    }

    /** `INSERT INTO career_info`: no UNIQUE column, so the row is always
        appended under the next AUTOINCREMENT id. */
    method InsertCareer(info: CareerInfo) returns (r: Outcome)
      requires Valid()
      requires Registered(users, info.username)
      modifies this`careerInfo, this`nextCareerId
      ensures Valid()
      ensures r == Pass
      ensures careerInfo == old(careerInfo) + [Row(old(nextCareerId), info)]
      ensures CareerOf(careerInfo, info.username) == CareerOf(old(careerInfo), info.username) + [info]
    {
      var row := Row(nextCareerId, info);
      assert (careerInfo + [row])[..|careerInfo|] == careerInfo;
      careerInfo := careerInfo + [row];
      nextCareerId := nextCareerId + 1;
      r := Pass;
    }
  }

  /** With the store's constraints, the settings page of a logged-in user with a
      non-empty username shows that user's own row. */
  lemma SettingsShowOwnAccount(s: Store)
    requires s.Valid()
    requires s.CurrentUser().Some? && s.CurrentUser().value.username != ""
    ensures s.AccountSettings().Ok?
    ensures s.AccountSettings().value.id == s.CurrentUser().value.id
  {
    var user := s.CurrentUser().value;
    var k :| 0 <= k < |s.users| && s.users[k].id == user.id && s.users[k].data.username == user.username;
    FindByUsernameExact(s.users, k);
  }

  /** With an anonymous session, as `logout` leaves it, every `@login_required`
      handler turns the request away and no table changes. */
  method AnonymousIsTurnedAway(s: Store, form: Form, files: Files)
    returns (general: Outcome, career: Outcome, settings: Result<Row<Account>>, logout: Outcome)
    requires s.Valid()
    requires s.CurrentUser().None?
    modifies s`session, s`generalInfo, s`nextGeneralId, s`careerInfo, s`nextCareerId
    ensures general == Fail(Unauthorized) && career == Fail(Unauthorized)
    ensures settings == Err(Unauthorized) && logout == Fail(Unauthorized)
    ensures s.users == old(s.users) && s.generalInfo == old(s.generalInfo) && s.careerInfo == old(s.careerInfo)
    ensures s.nextGeneralId == old(s.nextGeneralId) && s.nextCareerId == old(s.nextCareerId)
    ensures s.session == old(s.session)
  {
    general := s.General(form, files);
    career := s.Career(form);
    settings := s.AccountSettings();
    logout := s.Logout();
  }
}
