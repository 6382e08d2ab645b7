/** The account store as values: two collections of user records, "students"
    and "clubs", each keyed by email, and the five account handlers as
    functions from the current collections to an answer and the new
    collections. */
module Accounts {
  import opened Outcomes

  /** The editable display part of an account. */
  datatype Profile = Profile(name: string, bio: string)

  /** One account; its email is the key it is stored under. */
  datatype User = User(name: string, password: string, profile: Profile)

  /** Request body of a registration; also the shape the password change
      reads its new password from (the `name` field). */
  datatype Registration = Registration(email: string, name: string, password: string)

  /** Request body of a login. */
  datatype Credentials = Credentials(email: string, password: string)

  /** Request body of a profile update: an absent field is left alone. */
  datatype ProfileUpdate = ProfileUpdate(name: Option<string>, bio: Option<string>)

  datatype Reply = Reply(message: string, profile: Profile)

  type Collection = map<string, User>
  type Users = map<string, Collection>

  const Students: string := "students"
  const Clubs: string := "clubs"

  /** Both collections, empty, as the service starts. */
  const InitialUsers: Users := map[Students := map[], Clubs := map[]]

  // ---------------------------------------------------------------------
  // str.title(), on ASCII letters

  predicate IsLower(c: char) { 'a' <= c <= 'z' }
  predicate IsUpper(c: char) { 'A' <= c <= 'Z' }
  predicate IsCased(c: char) { IsLower(c) || IsUpper(c) }

  function ToUpper(c: char): char { if IsLower(c) then (c as int - 32) as char else c }
  function ToLower(c: char): char { if IsUpper(c) then (c as int + 32) as char else c }

  /** Position i of s begins a word: nothing cased stands right before it. */
  predicate StartsWord(s: string, i: int)
    requires 0 <= i < |s|
  {
    i == 0 || !IsCased(s[i - 1])
  }

  /** In title-casing s, where the scan began after a cased character iff
      `afterCased`, position i is raised rather than lowered. */
  predicate RaisedAt(s: string, i: int, afterCased: bool)
    requires 0 <= i < |s|
  {
    if i == 0 then !afterCased else !IsCased(s[i - 1])
  }

  /** Title-cases s, scanning left to right and remembering whether the
      previous character was cased. */
  function TitleFrom(s: string, afterCased: bool): (r: string)
    ensures |r| == |s|
    ensures forall i :: 0 <= i < |s| ==>
      r[i] == if RaisedAt(s, i, afterCased) then ToUpper(s[i]) else ToLower(s[i])
  {
    if s == [] then []
    else [if afterCased then ToLower(s[0]) else ToUpper(s[0])] + TitleFrom(s[1..], IsCased(s[0]))
  }

  /** Every word starts upper-case and goes on lower-case. */
  function Title(s: string): (r: string)
    ensures |r| == |s|
    ensures forall i :: 0 <= i < |s| ==> r[i] == if StartsWord(s, i) then ToUpper(s[i]) else ToLower(s[i])
  {
    TitleFrom(s, false)
  }

  lemma TitleOfCollections()
    ensures Title(Students) == "Students" && Title(Clubs) == "Clubs"
  {
    assert Title(Students)[0] == 'S';
    assert Title(Clubs)[0] == 'C';
  }

  // ---------------------------------------------------------------------
  // Frame of a successful write

  /** `after` has the same collections as `before`, `email` is in collection
      `userType` of `after`, and no other record of any collection differs. */
  ghost predicate ChangedAt(before: Users, after: Users, userType: string, email: string)
  {
    && after.Keys == before.Keys
    && userType in before
    && after[userType].Keys == before[userType].Keys + {email}
    && (forall t | t in before && t != userType :: after[t] == before[t])
    && (forall e | e in before[userType] && e != email :: after[userType][e] == before[userType][e])
  }

  // ---------------------------------------------------------------------
  // The handlers

  /** register_user: adds a record whose profile starts with the registered
      name and an empty bio. */
  function Register(users: Users, userType: string, req: Registration): (r: (Result<string>, Users))
    ensures userType !in users ==> r == (Err(InvalidUserType), users)
    ensures userType in users && req.email in users[userType] ==> r == (Err(UserAlreadyExists), users)
    ensures userType in users && req.email !in users[userType] ==>
      && r.0 == Ok(Title(userType) + " registered successfully")
      && ChangedAt(users, r.1, userType, req.email)
      && r.1[userType][req.email] == User(req.name, req.password, Profile(req.name, ""))
  {
    if userType !in users then (Err(InvalidUserType), users)
    else if req.email in users[userType] then (Err(UserAlreadyExists), users)
    else
      var record := User(req.name, req.password, Profile(req.name, ""));
      (Ok(Title(userType) + " registered successfully"), users[userType := users[userType][req.email := record]])
  }

  /** login_user: succeeds exactly when the email is registered and the
      password is the stored one, and answers with the stored profile. */
  function Login(users: Users, userType: string, creds: Credentials): (r: Result<Reply>)
    ensures r.Ok? <==>
      userType in users && creds.email in users[userType] && users[userType][creds.email].password == creds.password
    ensures r.Ok? ==> r.value == Reply(Title(userType) + " logged in", users[userType][creds.email].profile)
    ensures r.Err? ==> r.error == if userType in users then InvalidCredentials else InvalidUserType
  {
    if userType !in users then Err(InvalidUserType)
    else if creds.email !in users[userType] then Err(InvalidCredentials)
    else
      var user := users[userType][creds.email];
      if user.password != creds.password then Err(InvalidCredentials)
      else Ok(Reply(Title(userType) + " logged in", user.profile))
  }

  /** get_profile */
  function GetProfile(users: Users, userType: string, email: string): (r: Result<Profile>)
    ensures r.Ok? <==> userType in users && email in users[userType]
    ensures r.Ok? ==> r.value == users[userType][email].profile
    ensures r.Err? ==> r.error == if userType in users then UserNotFound else InvalidUserType
  {
    if userType !in users then Err(InvalidUserType)
    else if email !in users[userType] then Err(UserNotFound)
    else Ok(users[userType][email].profile)
  }

  /** The profile after an update: a supplied field replaces the stored one. */
  function Updated(p: Profile, upd: ProfileUpdate): (q: Profile)
    ensures q.name == if upd.name.Some? then upd.name.value else p.name
    ensures q.bio == if upd.bio.Some? then upd.bio.value else p.bio
  {
    var p1 := if upd.name.Some? then p.(name := upd.name.value) else p;
    if upd.bio.Some? then p1.(bio := upd.bio.value) else p1
  }

  /** update_profile: rewrites only the supplied profile fields; the record's
      own name and its password stay. */
  function UpdateProfile(users: Users, userType: string, email: string, upd: ProfileUpdate): (r: (Result<Reply>, Users))
    ensures userType !in users ==> r == (Err(InvalidUserType), users)
    ensures userType in users && email !in users[userType] ==> r == (Err(UserNotFound), users)
    ensures userType in users && email in users[userType] ==>
      var before := users[userType][email];
      && ChangedAt(users, r.1, userType, email)
      && r.1[userType][email].name == before.name
      && r.1[userType][email].password == before.password
      && r.1[userType][email].profile == Updated(before.profile, upd)
      && r.0 == Ok(Reply("Profile updated", r.1[userType][email].profile))
  {
    if userType !in users then (Err(InvalidUserType), users)
    else if email !in users[userType] then (Err(UserNotFound), users)
    else
      var user := users[userType][email];
      var user' := user.(profile := Updated(user.profile, upd));
      (Ok(Reply("Profile updated", user'.profile)), users[userType := users[userType][email := user']])
  }

  /** change_password as the handler is meant to work: after checking the
      current password it stores the body's `name` field as the new one. */
  function ChangePassword(users: Users, userType: string, email: string, data: Registration): (r: (Result<string>, Users))
    ensures userType !in users ==> r == (Err(InvalidUserType), users)
    ensures userType in users && email !in users[userType] ==> r == (Err(UserNotFound), users)
    ensures userType in users && email in users[userType] && users[userType][email].password != data.password ==>
      r == (Err(IncorrectPassword), users)
    ensures userType in users && email in users[userType] && users[userType][email].password == data.password ==>
      var before := users[userType][email];
      && r.0 == Ok("Password changed")
      && ChangedAt(users, r.1, userType, email)
      && r.1[userType][email] == User(before.name, data.name, before.profile)
  {
    if userType !in users then (Err(InvalidUserType), users)
    else if email !in users[userType] then (Err(UserNotFound), users)
    else
      var user := users[userType][email];
      if user.password != data.password then (Err(IncorrectPassword), users)
      else (Ok("Password changed"), users[userType := users[userType][email := user.(password := data.name)]])
  }

  /** change_password as written: its body is declared as a login body, which
      has no `name` field, so reading the new password fails after the
      current password has been checked, before anything is stored. */
  function ChangePasswordAsWritten(users: Users, userType: string, email: string, data: Credentials): (r: (Result<string>, Users))
    ensures r.1 == users && r.0.Err?
    ensures r.0.error == (
      if userType !in users then InvalidUserType
      else if email !in users[userType] then UserNotFound
      else if users[userType][email].password != data.password then IncorrectPassword
      else MissingAttribute)
  {
    if userType !in users then (Err(InvalidUserType), users)
    else if email !in users[userType] then (Err(UserNotFound), users)
    else if users[userType][email].password != data.password then (Err(IncorrectPassword), users)
    else (Err(MissingAttribute), users)
  }

  // ---------------------------------------------------------------------
  // Properties across handlers

  /** Every handler keeps the set of collections. */
  lemma HandlersKeepCollections(users: Users, userType: string, email: string,
                                req: Registration, upd: ProfileUpdate)
    ensures Register(users, userType, req).1.Keys == users.Keys
    ensures UpdateProfile(users, userType, email, upd).1.Keys == users.Keys
    ensures ChangePassword(users, userType, email, req).1.Keys == users.Keys
  {
  }

  /** A second registration of the same email in the same collection fails,
      whatever name and password it carries. */
  lemma RegisterTwiceFails(users: Users, userType: string, req: Registration, again: Registration)
    requires Register(users, userType, req).0.Ok?
    requires again.email == req.email
    ensures Register(Register(users, userType, req).1, userType, again) ==
            (Err(UserAlreadyExists), Register(users, userType, req).1)
  {
  }

  /** The two collections are separate namespaces: an email new to both can
      be registered in each, and the second registration leaves the first. */
  lemma RegisterInBothCollections(users: Users, student: Registration, club: Registration)
    requires Students in users && Clubs in users
    requires student.email == club.email
    requires student.email !in users[Students] && club.email !in users[Clubs]
    ensures var once := Register(users, Students, student);
            var twice := Register(once.1, Clubs, club);
            && once.0.Ok? && twice.0.Ok?
            && twice.1[Students][student.email] == User(student.name, student.password, Profile(student.name, ""))
            && twice.1[Clubs][club.email] == User(club.name, club.password, Profile(club.name, ""))
  {
    var once := Register(users, Students, student);
    assert Clubs in once.1 && once.1[Clubs] == users[Clubs];
  }

  /** Right after registering, a login succeeds exactly with the registered
      password and shows the registered name with an empty bio. */
  lemma RegisterThenLogin(users: Users, userType: string, req: Registration, password: string)
    requires Register(users, userType, req).0.Ok?
    ensures var r := Login(Register(users, userType, req).1, userType, Credentials(req.email, password));
            && (r.Ok? <==> password == req.password)
            && (r.Ok? ==> r.value.profile == Profile(req.name, ""))
  {
  }

  /** What update_profile answers is what get_profile reads back. */
  lemma UpdateThenGetProfile(users: Users, userType: string, email: string, upd: ProfileUpdate)
    requires UpdateProfile(users, userType, email, upd).0.Ok?
    ensures GetProfile(UpdateProfile(users, userType, email, upd).1, userType, email) ==
            Ok(UpdateProfile(users, userType, email, upd).0.value.profile)
  {
  }

  /** Repeating a profile update changes nothing more. */
  lemma UpdateProfileIdempotent(users: Users, userType: string, email: string, upd: ProfileUpdate)
    ensures var once := UpdateProfile(users, userType, email, upd).1;
            UpdateProfile(once, userType, email, upd).1 == once
  {
    var once: Users := UpdateProfile(users, userType, email, upd).1;
    if userType in users && email in users[userType] {
      var u: User := once[userType][email];
      assert Updated(u.profile, upd) == u.profile;
      assert once[userType][email := u] == once[userType];
      assert once[userType := once[userType]] == once;
    }
  }

  /** An update that supplies no field leaves every record as it was. */
  lemma EmptyUpdateChangesNothing(users: Users, userType: string, email: string)
    ensures UpdateProfile(users, userType, email, ProfileUpdate(None, None)).1 == users
  {
    if userType in users && email in users[userType] {
      var u := users[userType][email];
      assert users[userType][email := u] == users[userType];
      assert users[userType := users[userType]] == users;
    }
  }

  /** A profile update does not touch credentials: every login answers the
      same Ok or error as before, only with the new profile. */
  lemma UpdateKeepsLogin(users: Users, userType: string, email: string, upd: ProfileUpdate, creds: Credentials)
    ensures var after := UpdateProfile(users, userType, email, upd).1;
            && Login(after, userType, creds).Ok? == Login(users, userType, creds).Ok?
            && (Login(after, userType, creds).Err? ==> Login(after, userType, creds) == Login(users, userType, creds))
            && (Login(after, userType, creds).Ok? ==> Login(after, userType, creds).value.profile == after[userType][creds.email].profile)
  {
  }

  /** After a password change the body's `name` field is the password that
      logs in, the old one no longer does unless it is the same, and the
      profile is unchanged. */
  lemma ChangePasswordThenLogin(users: Users, userType: string, email: string, data: Registration, oldPassword: string)
    requires ChangePassword(users, userType, email, data).0.Ok?
    requires oldPassword == users[userType][email].password
    ensures var after := ChangePassword(users, userType, email, data).1;
            && Login(after, userType, Credentials(email, data.name)) == Login(users, userType, Credentials(email, oldPassword))
            && (oldPassword != data.name ==> Login(after, userType, Credentials(email, oldPassword)) == Err(InvalidCredentials))
  {
  }

  /** The handler as written never changes a password: for a registered
      student supplying the right current password it fails, where the
      intended handler succeeds and stores the new one. */
  lemma ChangePasswordAsWrittenFails()
    ensures var users := map[Students := map["a@m.edu" := User("Ann", "old", Profile("Ann", ""))], Clubs := map[]];
            && ChangePasswordAsWritten(users, Students, "a@m.edu", Credentials("a@m.edu", "old")) == (Err(MissingAttribute), users)
            && ChangePassword(users, Students, "a@m.edu", Registration("a@m.edu", "new", "old")).0 == Ok("Password changed")
            && ChangePassword(users, Students, "a@m.edu", Registration("a@m.edu", "new", "old")).1[Students]["a@m.edu"].password == "new"
  {
  }
}
