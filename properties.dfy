/**
 * Properties of the employee controller that relate several calls:
 * which error wins when several checks fail, how save and the two
 * lookups fit together, and the session's lifecycle.
 */
module LoginProperties {
  import opened Results
  import opened Entity
  import opened EmployeeStore
  import opened Controller

  /**
   * An unknown username and a known username with a wrong password get the
   * same reply, so a caller cannot tell which of the two happened.
   */
  lemma UnknownUserLooksLikeWrongPassword(
    store: seq<Employee>, digest: string -> string,
    unknown: string, anyPassword: string, i: nat, wrongPassword: string)
    requires UniqueUsernames(store)
    requires !HasUsername(store, unknown)
    requires i < |store| && store[i].password != digest(wrongPassword)
    ensures LoginResult(store, digest, unknown, anyPassword) == Error(LoginFailed)
    ensures LoginResult(store, digest, unknown, anyPassword) == LoginResult(store, digest, store[i].username, wrongPassword)
  {
  }

  /** The password is checked before the status: a disabled account with a wrong password is a login failure. */
  lemma PasswordCheckedBeforeStatus(store: seq<Employee>, digest: string -> string, i: nat, password: string)
    requires UniqueUsernames(store)
    requires i < |store| && store[i].status == 0 && store[i].password != digest(password)
    ensures LoginResult(store, digest, store[i].username, password) == Error(LoginFailed)
  {
  }

  /** With the right password, an account logs in exactly when it is enabled, and gets its own record back. */
  lemma StoredAccountLogin(store: seq<Employee>, digest: string -> string, i: nat, password: string)
    requires UniqueUsernames(store)
    requires i < |store| && store[i].password == digest(password)
    ensures LoginResult(store, digest, store[i].username, password) ==
      if store[i].status == 0 then Error(AccountDisabled) else Success(store[i])
  {
  }

  /**
   * Only the digest of the submitted password matters: two passwords with
   * the same digest are indistinguishable to login (the digest need not be
   * injective, so this includes collisions).
   */
  lemma LoginSeesOnlyTheDigest(store: seq<Employee>, digest: string -> string, username: string, p1: string, p2: string)
    requires UniqueUsernames(store)
    requires digest(p1) == digest(p2)
    ensures LoginResult(store, digest, username, p1) == LoginResult(store, digest, username, p2)
  {
  }

  /**
   * A newly saved employee logs in with the initial password, whatever
   * password was submitted at save, unless the submitted status is disabled.
   */
  lemma SavedEmployeeLogsInWithInitialPassword(store: seq<Employee>, digest: string -> string, e: Employee)
    requires UniqueUsernames(store) && UniqueIds(store)
    requires !Conflicts(store, e)
    ensures UniqueUsernames(store + [WithInitialPassword(e, digest)])
    ensures LoginResult(store + [WithInitialPassword(e, digest)], digest, e.username, InitialPassword) ==
      if e.status == 0 then Error(AccountDisabled) else Success(WithInitialPassword(e, digest))
  {
    var stored := WithInitialPassword(e, digest);
    InsertKeepsKeys(store, stored);
    StoredAccountLogin(store + [stored], digest, |store|, InitialPassword);
  }

  /** A newly saved employee is found by its id, with the initial password's digest stored. */
  lemma SavedEmployeeFoundById(store: seq<Employee>, digest: string -> string, e: Employee)
    requires UniqueUsernames(store) && UniqueIds(store)
    requires !Conflicts(store, e)
    ensures GetByIdResult(store + [WithInitialPassword(e, digest)], e.id) == Success(WithInitialPassword(e, digest))
  {
    InsertKeepsKeys(store, WithInitialPassword(e, digest));
  }

  /**
   * The scenario of one administrator account whose stored password is the
   * digest of "123456": it logs in with "123456", fails with any password of
   * a different digest, and once disabled gets the disabled reply.
   */
  lemma AdminScenario(digest: string -> string, admin: Employee, wrong: string)
    requires admin.username == "admin" && admin.password == digest("123456") && admin.status == 1
    requires digest(wrong) != digest("123456")
    ensures LoginResult([admin], digest, "admin", "123456") == Success(admin)
    ensures LoginResult([admin], digest, "admin", wrong) == Error(LoginFailed)
    ensures LoginResult([admin.(status := 0)], digest, "admin", "123456") == Error(AccountDisabled)
  {
  }

  /**
   * Logging out twice leaves the same state and reply as logging out once,
   * whoever was logged in: the second call changes neither the session nor
   * the table left by the first.
   */
  method LogoutIsIdempotent(c: EmployeeController)
    returns (first: R<string>, second: R<string>, sessionAfterOnce: Option<int>, storeAfterOnce: seq<Employee>)
    modifies c
    ensures first == second == Success(LogoutOk)
    ensures sessionAfterOnce == None && storeAfterOnce == old(c.store)
    ensures c.session == sessionAfterOnce && c.store == storeAfterOnce
  {
    first := c.Logout();
    sessionAfterOnce, storeAfterOnce := c.session, c.store;
    second := c.Logout();
  }

  /**
   * One pass through the session lifecycle: after a successful login the
   * session holds the account's id, after logout it is empty again; a
   * failed login leaves the session as it was. The table never changes.
   */
  method LoginThenLogout(c: EmployeeController, username: string, password: string)
    returns (loggedIn: Option<int>, reply: R<Employee>)
    requires c.Valid()
    modifies c
    ensures c.store == old(c.store) && c.Valid()
    ensures reply == LoginResult(c.store, c.digest, username, password)
    ensures loggedIn == if reply.Success? then Some(reply.data.id) else old(c.session)
    ensures reply.Success? ==> reply.data in c.store && reply.data.status != 0
    ensures c.session == None
  {
    reply := c.Login(username, password);
    loggedIn := c.session;
    var _ := c.Logout();
  }
}
