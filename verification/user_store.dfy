/**
 This module models the in-memory record set behind the `users` router: an ordered
 sequence of user records, the invariant the router keeps on it, and the three
 searches the procedures are built from (`findIndex`, the largest id, the next id).
 */
module UserStore {

  /** One user record. `createdAt` is the ISO-8601 text the server clock produced;
      the model treats it as opaque text supplied by the caller. */
  datatype User = User(id: int, name: string, email: string, createdAt: string)

  /** The record set, in insertion order. */
  type Store = seq<User>

  /** Some record of `s` carries `id`. */
  predicate HasId(s: Store, id: int) {
    exists i :: 0 <= i < |s| && s[i].id == id
  }

  /** The set of ids present in `s`. */
  function IdSet(s: Store): set<int> {
    set i | 0 <= i < |s| :: s[i].id
  }

  /** No two records of `s` share an id. */
  predicate UniqueIds(s: Store) {
    forall i, j :: 0 <= i < j < |s| ==> s[i].id != s[j].id
  }

  /** Every id in `s` is a positive integer. */
  predicate PositiveIds(s: Store) {
    forall i :: 0 <= i < |s| ==> s[i].id >= 1
  }

  /** Every record of `s` has a non-empty name. */
  predicate NamedUsers(s: Store) {
    forall i :: 0 <= i < |s| ==> |s[i].name| >= 1
  }

  /** The email check of the input schema. Its grammar belongs to the validation
      library, so the model takes it as a parameter and assumes nothing about it. */
  type EmailCheck = string -> bool

  /** Every email in `s` passes the email check. The schema checks every email
      `create` and `update` store, but the seed records never go through it. */
  predicate EmailsPass(s: Store, isEmail: EmailCheck) {
    forall i :: 0 <= i < |s| ==> isEmail(s[i].email)
  }

  /** The invariant of the live record set: ids are unique and positive, names are non-empty. */
  predicate Valid(s: Store) {
    UniqueIds(s) && PositiveIds(s) && NamedUsers(s)
  }

  /** The record set the server starts with. Each record reads the clock separately,
      so each gets its own timestamp. */
  function InitialStore(johnCreatedAt: string, janeCreatedAt: string): (s: Store)
    ensures Valid(s)
    ensures IdSet(s) == {1, 2}
  {
    var s := [ User(1, "John Doe", "john@example.com", johnCreatedAt),
               User(2, "Jane Smith", "jane@example.com", janeCreatedAt) ];
    assert s[0].id in IdSet(s) && s[1].id in IdSet(s);
    s
  }

  /** The seed records' emails pass any email check that accepts their two addresses. */
  lemma InitialEmailsPass(johnCreatedAt: string, janeCreatedAt: string, isEmail: EmailCheck)
    requires isEmail("john@example.com") && isEmail("jane@example.com")
    ensures EmailsPass(InitialStore(johnCreatedAt, janeCreatedAt), isEmail)
  {
  }

  /** `Math.max(...ids, 0)` over the first `n` records: the largest of their ids,
      or 0 when that is larger. */
  function MaxIdOfPrefix(s: Store, n: nat): (m: int)
    requires n <= |s|
    ensures m >= 0
    ensures forall i :: 0 <= i < n ==> s[i].id <= m
    ensures m == 0 || exists i :: 0 <= i < n && s[i].id == m
  {
    if n == 0 then 0
    else
      var rest := MaxIdOfPrefix(s, n - 1);
      if s[n - 1].id > rest then s[n - 1].id else rest
  }

  /** `Math.max(...ids, 0)`: the largest id in `s`, or 0 when that is larger. */
  function MaxId(s: Store): (m: int)
    ensures m >= 0
    ensures forall i :: 0 <= i < |s| ==> s[i].id <= m
    ensures m == 0 || HasId(s, m)
  {
    MaxIdOfPrefix(s, |s|)
  }

  /** The id `create` gives a new record: one more than `MaxId`. It is the least
      positive integer above every id, such that one less is either 0 or a live id. */
  function NextId(s: Store): (n: int)
    ensures n >= 1
    ensures forall i :: 0 <= i < |s| ==> s[i].id < n
    ensures n == 1 || HasId(s, n - 1)
    ensures |s| == 0 ==> n == 1
  {
    MaxId(s) + 1
  }

  /** The scan of `Array.prototype.findIndex` from position `from` on: the first
      position at or after `from` holding `id`, or -1 when there is none. */
  function FindIndexFrom(s: Store, id: int, from: nat): (k: int)
    requires from <= |s|
    ensures k == -1 || from <= k < |s|
    ensures k == -1 <==> forall j :: from <= j < |s| ==> s[j].id != id
    ensures 0 <= k ==> s[k].id == id
    ensures 0 <= k ==> forall j :: from <= j < k ==> s[j].id != id
    decreases |s| - from
  {
    if from == |s| then -1
    else if s[from].id == id then from
    else FindIndexFrom(s, id, from + 1)
  }

  /** `Array.prototype.findIndex` on the id: the first position holding `id`, or -1. */
  function FindIndex(s: Store, id: int): (k: int)
    ensures -1 <= k < |s|
    ensures k == -1 <==> !HasId(s, id)
    ensures 0 <= k ==> s[k].id == id
    ensures 0 <= k ==> forall j :: 0 <= j < k ==> s[j].id != id
  {
    FindIndexFrom(s, id, 0)
  }

  /** Replacing the record at `k` by one with the same id and a non-empty name keeps
      the invariant. */
  lemma ReplaceKeepsValid(s: Store, t: Store, k: int)
    requires Valid(s)
    requires 0 <= k < |s| && |t| == |s|
    requires t[k].id == s[k].id && |t[k].name| >= 1
    requires forall j :: 0 <= j < |s| && j != k ==> t[j] == s[j]
    ensures Valid(t)
  {
  }

}
