/**
 * The employee controller: login with its fixed order of checks, logout,
 * creating an employee with the initial password, and lookup by id.
 *
 * The password digest (MD5, hex-encoded) is an arbitrary deterministic
 * function `digest`; nothing is assumed about it, in particular not that
 * it is injective.
 */
module Controller {
  import opened Results
  import opened Entity
  import opened EmployeeStore

  /** Reply for an unknown username or a wrong password (the same for both). */
  const LoginFailed: string := "登录失败"
  /** Reply for correct credentials on a disabled account. */
  const AccountDisabled: string := "账号已禁用"
  /** Reply of logout. */
  const LogoutOk: string := "退出成功"
  /** Reply of a successful save. */
  const SaveOk: string := "新增员工成功"
  /** Reply of a lookup by id that finds nothing. */
  const NotFound: string := "没有查询到对应员工信息"
  /** The plaintext password every new employee is given. */
  const InitialPassword: string := "123456"

  /** Some row has this username and stores the digest of this password. */
  ghost predicate CredentialsMatch(store: seq<Employee>, digest: string -> string, username: string, password: string) {
    exists i :: 0 <= i < |store| && store[i].username == username && store[i].password == digest(password)
  }

  /** Some row matches the credentials, and its status is 0 exactly when `disabled`. */
  ghost predicate CredentialsMatchWithStatus(store: seq<Employee>, digest: string -> string, username: string, password: string, disabled: bool) {
    exists i :: 0 <= i < |store| && store[i].username == username && store[i].password == digest(password)
                && (store[i].status == 0) == disabled
  }

  /**
   * The decision of login: digest the submitted password, look the account
   * up by exact username, then reject an unknown user, then a digest
   * mismatch (both with the same message), then a disabled account;
   * otherwise succeed with the stored record.
   */
  function LoginResult(store: seq<Employee>, digest: string -> string, username: string, password: string): (r: R<Employee>)
    requires UniqueUsernames(store)
    ensures r.Success? || r == Error(LoginFailed) || r == Error(AccountDisabled)
    ensures r == Error(LoginFailed) <==> !CredentialsMatch(store, digest, username, password)
    ensures r == Error(AccountDisabled) <==> CredentialsMatchWithStatus(store, digest, username, password, true)
    ensures r.Success? <==> CredentialsMatchWithStatus(store, digest, username, password, false)
    ensures r.Success? ==>
      r.data in store && r.data.username == username && r.data.password == digest(password) && r.data.status != 0
  {
    var hashed := digest(password);
    match FindByUsername(store, username)
    case None => Error(LoginFailed)
    case Some(emp) =>
      if emp.password != hashed then Error(LoginFailed)
      else if emp.status == 0 then Error(AccountDisabled)
      else Success(emp)
  }

  /** The record save inserts: the submitted one with its password replaced by the initial digest. */
  function WithInitialPassword(e: Employee, digest: string -> string): (r: Employee)
    ensures r.password == digest(InitialPassword)
    ensures r.(password := e.password) == e
  {
    e.(password := digest(InitialPassword))
  }

  /** The reply of the lookup by id: the record if one has that id, else the not-found message. */
  function GetByIdResult(store: seq<Employee>, id: int): (r: R<Employee>)
    ensures r.Success? <==> HasId(store, id)
    ensures r.Success? ==> r.data in store && r.data.id == id
    ensures r.Error? ==> r.msg == NotFound
    ensures UniqueIds(store) ==> forall i :: 0 <= i < |store| && store[i].id == id ==> r == Success(store[i])
  {
    match FindById(store, id)
    case None => Error(NotFound)
    case Some(emp) => Success(emp)
  }

  /**
   * The controller together with the state it acts on: the employee table
   * (`store`) and, for the one client session modelled, the session
   * attribute "employee" holding the logged-in account's id (`session`).
   */
  class EmployeeController {
    var store: seq<Employee>
    var session: Option<int>
    const digest: string -> string

    /** The table's keys: usernames and ids are unique. */
    ghost predicate Valid()
      reads this
    {
      UniqueUsernames(store) && UniqueIds(store)
    }

    constructor (digest: string -> string, store: seq<Employee>)
      requires UniqueUsernames(store) && UniqueIds(store)
      ensures Valid()
      ensures this.digest == digest && this.store == store && session == None
    {
      this.digest := digest;
      this.store := store;
      session := None;
    }

    /**
     * Login: decides by LoginResult; on success binds the session to the
     * account's id, on every failure leaves the session as it was. The table
     * is only read.
     */
    method Login(username: string, password: string) returns (r: R<Employee>)
      requires Valid()
      modifies this`session
      ensures Valid()
      ensures store == old(store)
      ensures r == LoginResult(store, digest, username, password)
      ensures session == if r.Success? then Some(r.data.id) else old(session)
    {
      r := LoginResult(store, digest, username, password);
      if r.Success? {
        session := Some(r.data.id);
      }
    }

    /** Logout: always succeeds and leaves no one logged in, whoever was before. */
    method Logout() returns (r: R<string>)
      modifies this`session
      ensures Valid() <==> old(Valid())
      ensures r == Success(LogoutOk)
      ensures session == None
      ensures store == old(store)
    {
      session := None;
      r := Success(LogoutOk);
    }

    /**
     * Save: stores the submitted employee with the initial password's digest,
     * whatever password was submitted. An insert that would break a key is
     * refused by the table, which raises instead of replying (`None`) and
     * leaves the table as it was.
     */
    method Save(e: Employee) returns (r: Option<R<string>>)
      requires Valid()
      modifies this`store
      ensures Valid()
      ensures session == old(session)
      ensures r.None? <==> Conflicts(old(store), e)
      ensures r.Some? ==> r == Some(Success(SaveOk)) && store == old(store) + [WithInitialPassword(e, digest)]
      ensures r.None? ==> store == old(store)
    {
      var stored := WithInitialPassword(e, digest);
      if Conflicts(store, stored) {
        r := None;
      } else {
        InsertKeepsKeys(store, stored);
        store := store + [stored];
        r := Some(Success(SaveOk));
      }
    }

    /** Lookup by id: succeeds exactly when a record has that id. */
    method GetById(id: int) returns (r: R<Employee>)
      ensures r == GetByIdResult(store, id)
    {
      r := GetByIdResult(store, id);
    }
  }
}
