/** The process-wide account store: one object owning both collections,
    whose handlers update it in place. Each handler is proved to leave the
    store exactly as the corresponding function of module Accounts says. */
module AccountStore {
  import opened Outcomes
  import Accounts

  class Store {
    var users: Accounts.Users

    /** The store always holds exactly the two collections. */
    ghost predicate Valid()
      reads this
    {
      users.Keys == {Accounts.Students, Accounts.Clubs}
    }

    constructor ()
      ensures Valid()
      ensures users[Accounts.Students] == map[] && users[Accounts.Clubs] == map[]
    {
      users := Accounts.InitialUsers;
    }

    method RegisterUser(userType: string, req: Accounts.Registration) returns (r: Result<string>)
      requires Valid()
      modifies this
      ensures Valid()
      ensures (r, users) == Accounts.Register(old(users), userType, req)
    {
      if userType !in users {
        return Err(InvalidUserType);
      }
      if req.email in users[userType] {
        return Err(UserAlreadyExists);
      }
      var record := Accounts.User(req.name, req.password, Accounts.Profile(req.name, ""));
      users := users[userType := users[userType][req.email := record]];
      r := Ok(Accounts.Title(userType) + " registered successfully");
    }

    method LoginUser(userType: string, creds: Accounts.Credentials) returns (r: Result<Accounts.Reply>)
      ensures r.Ok? <==> userType in users && creds.email in users[userType] &&
                         users[userType][creds.email].password == creds.password
      ensures r == Accounts.Login(users, userType, creds)
    {
      if userType !in users {
        return Err(InvalidUserType);
      }
      if creds.email !in users[userType] {
        return Err(InvalidCredentials);
      }
      var user := users[userType][creds.email];
      if user.password != creds.password {
        return Err(InvalidCredentials);
      }
      r := Ok(Accounts.Reply(Accounts.Title(userType) + " logged in", user.profile));
    }

    method GetProfile(userType: string, email: string) returns (r: Result<Accounts.Profile>)
      ensures r.Ok? <==> userType in users && email in users[userType]
      ensures r == Accounts.GetProfile(users, userType, email)
    {
      if userType !in users {
        return Err(InvalidUserType);
      }
      if email !in users[userType] {
        return Err(UserNotFound);
      }
      r := Ok(users[userType][email].profile);
    }

    method UpdateProfile(userType: string, email: string, upd: Accounts.ProfileUpdate) returns (r: Result<Accounts.Reply>)
      requires Valid()
      modifies this
      ensures Valid()
      ensures (r, users) == Accounts.UpdateProfile(old(users), userType, email, upd)
    {
      if userType !in users {
        return Err(InvalidUserType);
      }
      if email !in users[userType] {
        return Err(UserNotFound);
      }
      var user := users[userType][email];
      var profile := user.profile;
      if upd.name.Some? {
        profile := profile.(name := upd.name.value);
      }
      if upd.bio.Some? {
        profile := profile.(bio := upd.bio.value);
      }
      users := users[userType := users[userType][email := user.(profile := profile)]];
      r := Ok(Accounts.Reply("Profile updated", profile));
    }

    /** The handler with the body shape it reads: `data.name` is the new password. */
    method ChangePassword(userType: string, email: string, data: Accounts.Registration) returns (r: Result<string>)
      requires Valid()
      modifies this
      ensures Valid()
      ensures (r, users) == Accounts.ChangePassword(old(users), userType, email, data)
    {
      if userType !in users {
        return Err(InvalidUserType);
      }
      if email !in users[userType] {
        return Err(UserNotFound);
      }
      var user := users[userType][email];
      if user.password != data.password {
        return Err(IncorrectPassword);
      }
      users := users[userType := users[userType][email := user.(password := data.name)]];
      r := Ok("Password changed");
    }
  }
}
