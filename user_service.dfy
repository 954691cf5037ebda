/** The login and registration handlers of src/service/user.go: the order
    of their input checks, what reaches the repository and what the form
    echoes back. The session store (`setAuthenticated`) is a parameter:
    `sessionOk` says whether renewing the session token succeeded. */
module UserService {
  import opened Base
  import opened Repository

  const MePath: string := "/me"

  /** `renderForm` with an error answers 500; `renderFormParams` answers 200. */
  const StatusOK: int := 200
  const StatusInternalServerError: int := 500

  datatype LoginError = LoginFieldsEmpty | NoSuchCombination | LoginSessionFailed

  datatype LoginView = LoginRedirect(path: string) | LoginForm(code: int, error: LoginError)

  /** `LoginHandler` (POST). `lookedUp` records whether the repository was
      asked, `session` the user handed to the session store. */
  method LoginHandler(login: Bytes, password: Bytes, repo: Repo, matches: (Bytes, Bytes) -> bool,
                      fault: bool, sessionOk: bool)
    returns (view: LoginView, lookedUp: bool, session: Option<User>)
    ensures login == [] || password == [] <==> view == LoginForm(StatusInternalServerError, LoginFieldsEmpty)
    ensures login == [] || password == [] <==> !lookedUp
    ensures !lookedUp ==> session == None
    ensures lookedUp ==>
      ((view == LoginForm(StatusInternalServerError, NoSuchCombination))
       <==> repo.FindByLoginAndPassword(login, password, matches, fault).Err?)
    ensures session.Some? <==> lookedUp && repo.FindByLoginAndPassword(login, password, matches, fault).Ok?
    ensures session.Some? ==>
      && session == Some(repo.FindByLoginAndPassword(login, password, matches, fault).value)
      && session.value.PasswordHash == [] && session.value.Login == login
      && view == (if sessionOk then LoginRedirect(MePath) else LoginForm(StatusInternalServerError, LoginSessionFailed))
    ensures view == LoginRedirect(MePath) <==> session.Some? && sessionOk
  {
    if |login| == 0 || |password| == 0 {
      return LoginForm(StatusInternalServerError, LoginFieldsEmpty), false, None;
    }
    lookedUp := true;
    var user := repo.FindByLoginAndPassword(login, password, matches, fault);
    if user.Err? {
      return LoginForm(StatusInternalServerError, NoSuchCombination), lookedUp, None;
    }
    session := Some(user.value);
    if !sessionOk {
      return LoginForm(StatusInternalServerError, LoginSessionFailed), lookedUp, session;
    }
    view := LoginRedirect(MePath);
  }

  datatype RegError = RegFieldsEmpty | PasswordsDiffer | LoginTaken(login: Bytes) | RegInternal

  /** The fields the registration form shows again on error: never a password. */
  datatype Echo = Echo(login: Bytes, name: Bytes, lastName: Bytes)

  datatype RegView = RegRedirect(path: string) | RegForm(code: int, echo: Echo, error: RegError)

  /** The first failing registration check, in the handler's order. */
  function RegCheck(login: Bytes, name: Bytes, lastName: Bytes, password: Bytes, passwordConfirm: Bytes,
                    taken: bool): (e: Option<RegError>)
    ensures e == Some(RegFieldsEmpty) <==>
      login == [] || name == [] || lastName == [] || password == [] || passwordConfirm == []
    ensures e == Some(PasswordsDiffer) <==>
      login != [] && name != [] && lastName != [] && password != [] && passwordConfirm != []
      && password != passwordConfirm
    ensures e == Some(LoginTaken(login)) <==>
      login != [] && name != [] && lastName != [] && password != [] && passwordConfirm != []
      && password == passwordConfirm && taken
    ensures e.None? <==>
      login != [] && name != [] && lastName != [] && password != [] && password == passwordConfirm && !taken
  {
    if |login| == 0 || |name| == 0 || |lastName| == 0 || |password| == 0 || |passwordConfirm| == 0 then
      Some(RegFieldsEmpty)
    else if password != passwordConfirm then Some(PasswordsDiffer)
    else if taken then Some(LoginTaken(login))
    else None
  }

  /** `RegHandler` (POST). `hashed` is bcrypt's hash of the password (None
      when hashing fails), `existFault` a database error in the login check,
      `createFault` one in the insert. */
  method RegHandler(login: Bytes, name: Bytes, lastName: Bytes, password: Bytes, passwordConfirm: Bytes,
                    repo: Repo, existFault: bool, hashed: Option<Bytes>, now: int, createFault: bool,
                    sessionOk: bool)
    returns (view: RegView, session: Option<User>)
    requires repo.Valid()
    modifies repo`users, repo`nextUserId
    ensures repo.Valid()
    ensures view.RegForm? ==> view.echo == Echo(login, name, lastName) && view.code == StatusOK
    ensures var e := RegCheck(login, name, lastName, password, passwordConfirm,
                              old(repo.IsLoginExist(login, existFault)));
      && (e.Some? ==> view == RegForm(StatusOK, Echo(login, name, lastName), e.value) && session == None
                      && repo.users == old(repo.users) && repo.nextUserId == old(repo.nextUserId))
      && (e.None? && (hashed.None? || createFault) ==>
            view == RegForm(StatusOK, Echo(login, name, lastName), RegInternal) && session == None
            && repo.users == old(repo.users) && repo.nextUserId == old(repo.nextUserId))
      && (e.None? && hashed.Some? && !createFault ==>
            && session == Some(EmptyUser.(ID := old(repo.nextUserId), Login := login, Name := name,
                                          LastName := lastName, Password := password))
            && repo.users == old(repo.users) + [UserRow(old(repo.nextUserId), login, name, lastName,
                                                       hashed.value, [], [], now)]
            && repo.nextUserId == old(repo.nextUserId) + 1
            && view == (if sessionOk then RegRedirect(MePath)
                        else RegForm(StatusOK, Echo(login, name, lastName), RegInternal)))
  {
    var echo := Echo(login, name, lastName);
    session := None;
    if |login| == 0 || |name| == 0 || |lastName| == 0 || |password| == 0 || |passwordConfirm| == 0 {
      return RegForm(StatusOK, echo, RegFieldsEmpty), session;
    }
    if password != passwordConfirm {
      return RegForm(StatusOK, echo, PasswordsDiffer), session;
    }
    if repo.IsLoginExist(login, existFault) {
      return RegForm(StatusOK, echo, LoginTaken(login)), session;
    }
    var user := EmptyUser.(Login := login, Name := name, LastName := lastName, Password := password);
    var created := repo.Create(user, hashed, now, createFault);
    if created.Err? {
      return RegForm(StatusOK, echo, RegInternal), session;
    }
    session := Some(created.value);
    if !sessionOk {
      return RegForm(StatusOK, echo, RegInternal), session;
    }
    view := RegRedirect(MePath);
  }
}
