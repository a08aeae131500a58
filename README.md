# Employee login/logout model

A Dafny model of the employee controller of a takeout-management backend:
the login check sequence with the session attribute it writes, logout,
creating an employee with the initial password, and lookup by id.

- `Results`: `Option` (a lookup's `null`) and `R`, the controller's reply
  envelope (`Success(data)` or `Error(msg)`).
- `Entity`: the `Employee` record.
- `EmployeeStore`: the employee table as a `seq<Employee>`. It has a unique
  `username` and a primary key `id`. It also holds the two lookups the
  controller uses.
- `Controller`: the reply messages and the initial password as constants.
  It holds the pure decisions `LoginResult` and `GetByIdResult` and the
  record rewrite `WithInitialPassword`. Its class `EmployeeController` has
  the table (`store`), the session attribute `"employee"` (`session:
  Option<int>`) and the digest, with methods `Login`, `Logout`, `Save` and
  `GetById`.
- `LoginProperties`: lemmas that relate several calls, and two client
  methods that walk the session lifecycle.

The password digest (MD5, hex-encoded, RFC 1321) is the class's `digest`
field. It is an arbitrary deterministic `string -> string`. Nothing is
assumed about it, in particular not that it is injective.

Two things the code does that the model keeps:
- A successful login replies with the full stored record, digest included
  (src/main/java/com/example/reggie/controller/EmployeeController.java:78).
- The disabled flag is the integer `status`, and only `status == 0` is
  disabled (line 67); every other value is enabled.

## Model

| member | source | states |
|---|---|---|
| `EmployeeStore.FindByUsername` | src/main/java/com/example/reggie/controller/EmployeeController.java:50-52 | the single-row query by exact username: finds nothing exactly when no row has the username; a row found has that username; with unique usernames it is the one row with that username |
| `EmployeeStore.FindById` | src/main/java/com/example/reggie/controller/EmployeeController.java:160 | the lookup by primary key: finds nothing exactly when no row has the id; with unique ids it is the one row with that id |
| `EmployeeStore.InsertKeepsKeys` | src/main/java/com/example/reggie/controller/EmployeeController.java:99 | inserting a row whose id and username are both unused keeps usernames and ids unique |
| `Controller.LoginResult` | src/main/java/com/example/reggie/controller/EmployeeController.java:40-78 | login fails with "登录失败" exactly when no account has the username and the submitted password's digest; fails with "账号已禁用" exactly when such an account has status 0; succeeds exactly when such an account has a non-zero status, and then returns that stored record; no other reply exists |
| `Controller.WithInitialPassword` | src/main/java/com/example/reggie/controller/EmployeeController.java:96-97 | the saved record's password is the digest of "123456", whatever was submitted, and every other field is the submitted one |
| `Controller.GetByIdResult` | src/main/java/com/example/reggie/controller/EmployeeController.java:158-165 | succeeds exactly when a record has the id, and returns that record; otherwise "没有查询到对应员工信息" |
| `Controller.EmployeeController.constructor` | src/main/java/com/example/reggie/controller/EmployeeController.java:20-23 | a controller over a table with unique keys, with nobody logged in |
| `Controller.EmployeeController.Login` | src/main/java/com/example/reggie/controller/EmployeeController.java:36-79 | replies with `LoginResult`; on success the session holds the account's id; on every failure the session is unchanged; the table is the same before and after, so its keys stay unique |
| `Controller.EmployeeController.Logout` | src/main/java/com/example/reggie/controller/EmployeeController.java:87-91 | always replies "退出成功" and empties the session, whatever it held; the table and its unique keys are unchanged |
| `Controller.EmployeeController.Save` | src/main/java/com/example/reggie/controller/EmployeeController.java:94-102 | appends the submitted employee with the initial password's digest and replies "新增员工成功"; when the id or username is taken, the insert raises (`None`) and the table is unchanged; the keys stay unique and the session is untouched |
| `Controller.EmployeeController.GetById` | src/main/java/com/example/reggie/controller/EmployeeController.java:158-165 | replies with `GetByIdResult` on the current table |
| `LoginProperties.UnknownUserLooksLikeWrongPassword` | src/main/java/com/example/reggie/controller/EmployeeController.java:55-64 | an unknown username and a known username with a wrong password get the same reply, "登录失败" |
| `LoginProperties.PasswordCheckedBeforeStatus` | src/main/java/com/example/reggie/controller/EmployeeController.java:61-70 | a disabled account given a wrong password gets "登录失败", never "账号已禁用" |
| `LoginProperties.StoredAccountLogin` | src/main/java/com/example/reggie/controller/EmployeeController.java:61-78 | a stored account with the right password gets "账号已禁用" when its status is 0, and otherwise succeeds with its own record |
| `LoginProperties.LoginSeesOnlyTheDigest` | src/main/java/com/example/reggie/controller/EmployeeController.java:41-64 | two passwords with the same digest (collisions included) get the same login reply |
| `LoginProperties.SavedEmployeeLogsInWithInitialPassword` | src/main/java/com/example/reggie/controller/EmployeeController.java:94-102 | after a save, the new employee logs in with "123456" and gets the stored record, unless its status is 0, when the reply is "账号已禁用" |
| `LoginProperties.SavedEmployeeFoundById` | src/main/java/com/example/reggie/controller/EmployeeController.java:158-165 | after a save, lookup by the new id returns the saved record with the initial password's digest |
| `LoginProperties.AdminScenario` | src/main/java/com/example/reggie/controller/EmployeeController.java:36-79 | an enabled "admin" account whose stored password is the digest of "123456" logs in with "123456"; a password with another digest fails; once disabled, the reply is "账号已禁用" |
| `LoginProperties.LogoutIsIdempotent` | src/main/java/com/example/reggie/controller/EmployeeController.java:87-91 | the second of two logouts gives the same reply as the first and leaves the session and table exactly as the first left them, including when nobody was logged in |
| `LoginProperties.LoginThenLogout` | src/main/java/com/example/reggie/controller/EmployeeController.java:76-90 | during a login/logout cycle, the session holds the id of the enabled stored account after a successful login, and is unchanged after a failed one; after logout it is empty; the table does not change |

## Left out

- MD5 itself (`DigestUtils.md5DigestAsHex`): a library call. It is the abstract `digest` function, and nothing about collisions is proved.
- `page`: the LIKE filter, the ordering by update time and the pagination all happen inside the query builder and the page object. Neither is visible, and both depend on timestamps.
- `update`: what `updateById` does with null fields is decided by the persistence library's field strategy, which is not visible. The thread id it reads is only logged.
- The audit fields (creation and update time and user): a fill handler sets them, and that handler is not part of this model.
- Id generation: when the submitted id is absent, the persistence library assigns one. The model stores the id the caller gives, and that id stands for the assigned one.
- The key constraints: the schema is not part of this model. The table is assumed to have a unique `username` and a primary key `id`. The single-row query needs the unique username: with duplicates it raises.
- Save's duplicate-key failure: the exception and the message a global handler would turn it into are not part of this model. It appears as the `None` result.
- The mutation of the caller's submitted object by `setPassword`: the model works on record values, so only the stored copy is observable.
- String matching: the lookup compares usernames by exact equality. Any database collation (case or trailing-space folding) is not modelled.
- Null inputs: a missing submitted password, stored password or status would raise. A missing submitted username would match no row and get "登录失败". Dafny strings and integers are never null, so these paths do not exist in the model.
- The HTTP session: only the single `"employee"` attribute of one client's session is modelled. Session creation by `getSession`, other attributes and expiry are not.
- Logging, the web framework's annotations, request binding, JSON serialisation and the internals of `R`.
