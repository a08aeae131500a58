/**
 * The employee table seen as a sequence of rows, with the two keys the
 * database enforces (the primary key `id` and the unique `username`) and
 * the two lookups the controller uses: by username and by id.
 */
module EmployeeStore {
  import opened Results
  import opened Entity

  /** No two rows share a username, so a lookup by username finds at most one row. */
  ghost predicate UniqueUsernames(store: seq<Employee>) {
    forall i, j :: 0 <= i < |store| && 0 <= j < |store| && store[i].username == store[j].username ==> i == j
  }

  /** No two rows share an id (the primary key). */
  ghost predicate UniqueIds(store: seq<Employee>) {
    forall i, j :: 0 <= i < |store| && 0 <= j < |store| && store[i].id == store[j].id ==> i == j
  }

  /** Some row has this username. */
  ghost predicate HasUsername(store: seq<Employee>, username: string) {
    exists i :: 0 <= i < |store| && store[i].username == username
  }

  /** Some row has this id. */
  ghost predicate HasId(store: seq<Employee>, id: int) {
    exists i :: 0 <= i < |store| && store[i].id == id
  }

  /** Inserting `e` would violate one of the two keys. */
  predicate Conflicts(store: seq<Employee>, e: Employee) {
    exists i :: 0 <= i < |store| && (store[i].id == e.id || store[i].username == e.username)
  }

  /**
   * The single-row query on `username = ?`: the matching row, or nothing.
   * When usernames are unique the row found is the one with that username.
   */
  function FindByUsername(store: seq<Employee>, username: string): (r: Option<Employee>)
    ensures r.Some? ==> r.value in store && r.value.username == username
    ensures r.None? <==> !HasUsername(store, username)
    ensures UniqueUsernames(store) ==>
      forall i :: 0 <= i < |store| && store[i].username == username ==> r == Some(store[i])
  {
    if store == [] then None
    else if store[0].username == username then Some(store[0])
    else
      assert UniqueUsernames(store) ==> UniqueUsernames(store[1..]) by {
        if UniqueUsernames(store) {
          forall i, j | 0 <= i < |store| - 1 && 0 <= j < |store| - 1 && store[1..][i].username == store[1..][j].username
            ensures i == j
          {
            assert store[i + 1].username == store[j + 1].username;
          }
        }
      }
      assert forall i :: 0 < i < |store| ==> store[i] == store[1..][i - 1];
      FindByUsername(store[1..], username)
  }

  /**
   * The lookup by primary key: the row with that id, or nothing.
   * When ids are unique the row found is the one with that id.
   */
  function FindById(store: seq<Employee>, id: int): (r: Option<Employee>)
    ensures r.Some? ==> r.value in store && r.value.id == id
    ensures r.None? <==> !HasId(store, id)
    ensures UniqueIds(store) ==>
      forall i :: 0 <= i < |store| && store[i].id == id ==> r == Some(store[i])
  {
    if store == [] then None
    else if store[0].id == id then Some(store[0])
    else
      assert UniqueIds(store) ==> UniqueIds(store[1..]) by {
        if UniqueIds(store) {
          forall i, j | 0 <= i < |store| - 1 && 0 <= j < |store| - 1 && store[1..][i].id == store[1..][j].id
            ensures i == j
          {
            assert store[i + 1].id == store[j + 1].id;
          }
        }
      }
      assert forall i :: 0 < i < |store| ==> store[i] == store[1..][i - 1];
      FindById(store[1..], id)
  }

  /** Appending a row that does not conflict keeps both keys unique. */
  lemma InsertKeepsKeys(store: seq<Employee>, e: Employee)
    requires UniqueUsernames(store) && UniqueIds(store)
    requires !Conflicts(store, e)
    ensures UniqueUsernames(store + [e]) && UniqueIds(store + [e])
    ensures (store + [e])[|store|] == e
  {
  }
}
