/** Reading a submitted form the way the handlers do: `request.form[key]` for a
    field that must be there (a missing key aborts the request),
    `request.form.get(key, '')` for one that may be absent, and
    `request.files['headshot']` with `save_headshot` for the picture. */
module Forms {
  import opened Outcomes
  import opened Schema

  /** `request.form`: field names to submitted values. */
  type Form = map<string, string>

  /** A part of `request.files`; it is truthy exactly when its file name is not empty. */
  datatype Upload = Upload(filename: string)

  /** `request.files`: field names to uploads. */
  type Files = map<string, Upload>

  /** `request.form[key]`: the submitted value, or the KeyError that aborts the request. */
  function Field(form: Form, key: string): Result<string>
  {
    if key in form then Ok(form[key]) else Err(MissingField(key))
  }

  /** `request.form.get(key, default)`. */
  function FieldOr(form: Form, key: string, default: string): string
  {
    if key in form then form[key] else default
  }

  /** The form holds every field `register` reads with `request.form[...]`. */
  predicate HasRegistrationFields(form: Form)
  {
    && "username" in form && "lastname" in form && "firstname" in form
    && "dateofbirth" in form && "club" in form && "school" in form
    && "city" in form && "country" in form && "telephone" in form
    && "email" in form && "password" in form
  }

  /** The values `register` inserts into `users`, read in the handler's order;
      `address1` and `address2` default to ''. */
  function ReadRegistration(form: Form): (r: Result<Account>)
    ensures r.Ok? <==> HasRegistrationFields(form)
    ensures r.Err? ==> r.error.MissingField? && r.error.key !in form
    ensures r.Ok? ==>
      && r.value.username == form["username"] && r.value.lastname == form["lastname"]
      && r.value.firstname == form["firstname"] && r.value.dateofbirth == form["dateofbirth"]
      && r.value.club == form["club"] && r.value.school == form["school"]
      && r.value.address1 == (if "address1" in form then form["address1"] else "")
      && r.value.address2 == (if "address2" in form then form["address2"] else "")
      && r.value.city == form["city"] && r.value.country == form["country"]
      && r.value.telephone == form["telephone"] && r.value.email == form["email"]
      && r.value.password == form["password"]
  {
    var username :- Field(form, "username");
    var lastname :- Field(form, "lastname");
    var firstname :- Field(form, "firstname");
    var dateofbirth :- Field(form, "dateofbirth");
    var club :- Field(form, "club");
    var school :- Field(form, "school");
    var address1 := FieldOr(form, "address1", "");
    var address2 := FieldOr(form, "address2", "");
    var city :- Field(form, "city");
    var country :- Field(form, "country");
    var telephone :- Field(form, "telephone");
    var email :- Field(form, "email");
    var password :- Field(form, "password");
    Ok(Account(username, lastname, firstname, dateofbirth, club, school,
               address1, address2, city, country, telephone, email, password))
  }

  /** A submitted username and password, as `login` reads them. */
  datatype Credentials = Credentials(username: string, password: string)

  function ReadCredentials(form: Form): Result<Credentials>
  {
    var username :- Field(form, "username");
    var password :- Field(form, "password");
    Ok(Credentials(username, password))
  }

  /** `save_headshot` as the source writes it: an upload with a file name gives the
      path literal "static/headshots/{username}.png" (the braces are not an
      f-string, so the username is not substituted); no file gives None. */
  function SaveHeadshotAsWritten(upload: Upload, username: string): (path: Option<string>)
    ensures upload.filename == "" <==> path.None?
    ensures path.Some? ==> path.value == "static/headshots/{username}.png"
  {
    if upload.filename != "" then Some("static/headshots/{username}.png") else None
  }

  /** As written, every user's headshot is saved under one and the same path. */
  lemma HeadshotPathsCollide(upload: Upload, alice: string, bob: string)
    requires upload.filename != ""
    ensures SaveHeadshotAsWritten(upload, alice) == SaveHeadshotAsWritten(upload, bob)
  {
  }

  const HEADSHOT_DIR: string := "static/headshots/"
  const HEADSHOT_EXT: string := ".png"

  /** `save_headshot` as evidently intended: the path names the user. */
  function SaveHeadshot(upload: Upload, username: string): (path: Option<string>)
    ensures upload.filename == "" <==> path.None?
    ensures path.Some? ==>
      && |path.value| == |HEADSHOT_DIR| + |username| + |HEADSHOT_EXT|
      && path.value[..|HEADSHOT_DIR|] == HEADSHOT_DIR
      && path.value[|HEADSHOT_DIR|..|HEADSHOT_DIR| + |username|] == username
      && path.value[|HEADSHOT_DIR| + |username|..] == HEADSHOT_EXT
  {
    if upload.filename != "" then Some(HEADSHOT_DIR + username + HEADSHOT_EXT) else None
  }

  /** Distinct users get distinct headshot paths. */
  lemma HeadshotPathsDistinct(upload: Upload, alice: string, bob: string)
    requires upload.filename != ""
    requires alice != bob
    ensures SaveHeadshot(upload, alice) != SaveHeadshot(upload, bob)
  {
  }

  /** The form holds every field `general` reads with `request.form[...]`. */
  predicate HasGeneralFields(form: Form)
  {
    && "birthCountry" in form && "passportCountry" in form && "height" in form
    && "weight" in form && "foot" in form && "position" in form
  }

  /** The row `general` inserts into `general_info`: `username` is the session's,
      passed in by the caller, and the headshot path is what saving the upload gives. */
  function ReadGeneral(form: Form, files: Files, username: string): (r: Result<GeneralInfo>)
    ensures r.Ok? <==> HasGeneralFields(form) && "headshot" in files
    ensures r.Err? && !HasGeneralFields(form) ==> r.error.MissingField? && r.error.key !in form
    ensures r.Err? && HasGeneralFields(form) ==> r.error == MissingField("headshot")
    ensures r.Ok? ==>
      && r.value.username == username
      && r.value.birthCountry == form["birthCountry"] && r.value.passportCountry == form["passportCountry"]
      && r.value.height == form["height"] && r.value.weight == form["weight"]
      && r.value.foot == form["foot"] && r.value.position == form["position"]
      && r.value.headshotPath == SaveHeadshot(files["headshot"], username)
  {
    var birthCountry :- Field(form, "birthCountry");
    var passportCountry :- Field(form, "passportCountry");
    var height :- Field(form, "height");
    var weight :- Field(form, "weight");
    var foot :- Field(form, "foot");
    var position :- Field(form, "position");
    if "headshot" !in files then Err(MissingField("headshot"))
    else
      Ok(GeneralInfo(username, birthCountry, passportCountry, height, weight, foot, position,
                     SaveHeadshot(files["headshot"], username)))
  }

  /** The form holds every field `career` reads with `request.form[...]`. */
  predicate HasCareerFields(form: Form)
  {
    && "year" in form && "team" in form && "competition" in form && "games" in form
    && "starting" in form && "sub" in form && "yellow" in form && "red" in form
    && "assist" in form && "goal" in form && "saves" in form
  }

  /** The row `career` inserts into `career_info`, under the session's username. */
  function ReadCareer(form: Form, username: string): (r: Result<CareerInfo>)
    ensures r.Ok? <==> HasCareerFields(form)
    ensures r.Err? ==> r.error.MissingField? && r.error.key !in form
    ensures r.Ok? ==>
      && r.value.username == username
      && r.value.year == form["year"] && r.value.team == form["team"]
      && r.value.competition == form["competition"] && r.value.games == form["games"]
      && r.value.starting == form["starting"] && r.value.sub == form["sub"]
      && r.value.yellow == form["yellow"] && r.value.red == form["red"]
      && r.value.assist == form["assist"] && r.value.goal == form["goal"]
      && r.value.saves == form["saves"]
  {
    var year :- Field(form, "year");
    var team :- Field(form, "team");
    var competition :- Field(form, "competition");
    var games :- Field(form, "games");
    var starting :- Field(form, "starting");
    var sub :- Field(form, "sub");
    var yellow :- Field(form, "yellow");
    var red :- Field(form, "red");
    var assist :- Field(form, "assist");
    var goal :- Field(form, "goal");
    var saves :- Field(form, "saves");
    Ok(CareerInfo(username, year, team, competition, games, starting, sub,
                  yellow, red, assist, goal, saves))
  }

  /** A `username` field in the form has no say in the general-info row: the row
      is keyed by the session's username whatever the form holds. */
  lemma GeneralIgnoresFormUsername(form: Form, files: Files, username: string, forged: string)
    ensures ReadGeneral(form["username" := forged], files, username) == ReadGeneral(form, files, username)
  {
  }

  /** A `username` field in the form has no say in the career row. */
  lemma CareerIgnoresFormUsername(form: Form, username: string, forged: string)
    ensures ReadCareer(form["username" := forged], username) == ReadCareer(form, username)
  {
  }
}
