/**
 The `users` router as a whole: one call of any of its six procedures against the
 current record set, and a whole run of calls starting from the server's initial
 records. A failed call leaves the record set as it was, since every procedure
 throws before it mutates anything.
 */
module Router {

  import opened Results
  import opened UserStore
  import opened UsersProperties
  import Users

  /** A call of one procedure with its input. A `Create` carries the clock reading
      the server takes for the new record's `createdAt`. */
  datatype Call =
    | GetAll
    | GetCount
    | GetById(id: int)
    | Create(name: string, email: string, createdAt: string)
    | Update(id: int, name: string, email: string)
    | Delete(id: int)

  /** What a call reports back: the list, the `{count}` object, one record, or the error. */
  datatype Reply =
    | List(users: seq<User>)
    | Count(count: nat)
    | Record(user: User)
    | Failed(error: Users.Error)

  /** Calls that only read the record set. */
  predicate IsQuery(c: Call) {
    c.GetAll? || c.GetCount? || c.GetById?
  }

  /** Serve one call: the record set afterwards and the reply. */
  function Dispatch(s: Store, c: Call, isEmail: EmailCheck): (r: (Store, Reply))
    ensures IsQuery(c) || r.1.Failed? ==> r.0 == s
    ensures c.GetById? ==> (r.1.Failed? <==> !HasId(s, c.id))
    ensures c.Delete? ==> (r.1.Failed? <==> !HasId(s, c.id))
    ensures c.Create? && !r.1.Failed? ==> |r.0| == |s| + 1 && r.0[..|s|] == s
    ensures c.Update? && !r.1.Failed? ==> |r.0| == |s|
    ensures c.Delete? && !r.1.Failed? ==> |r.0| == |s| - 1
  {
    match c
    case GetAll => (s, List(Users.GetAll(s)))
    case GetCount => (s, Count(Users.GetCount(s)))
    case GetById(id) =>
      var res := Users.GetById(s, id);
      if res.Err? then (s, Failed(res.error)) else (s, Record(res.value))
    case Create(name, email, at) =>
      var res := Users.Create(s, name, email, at, isEmail);
      if res.Err? then (s, Failed(res.error)) else (res.value.store, Record(res.value.user))
    case Update(id, name, email) =>
      var res := Users.Update(s, id, name, email, isEmail);
      if res.Err? then (s, Failed(res.error)) else (res.value.store, Record(res.value.user))
    case Delete(id) =>
      var res := Users.Delete(s, id);
      if res.Err? then (s, Failed(res.error)) else (res.value.store, Record(res.value.user))
  }

  /** Serve a sequence of calls in order, one reply per call. */
  function Run(s: Store, calls: seq<Call>, isEmail: EmailCheck): (r: (Store, seq<Reply>))
    ensures |r.1| == |calls|
    ensures (forall i :: 0 <= i < |calls| ==> IsQuery(calls[i])) ==> r.0 == s
    decreases |calls|
  {
    if |calls| == 0 then (s, [])
    else
      var (s1, reply) := Dispatch(s, calls[0], isEmail);
      var (s2, replies) := Run(s1, calls[1..], isEmail);
      (s2, [reply] + replies)
  }

  /** Every call keeps the record-set invariant. */
  lemma DispatchPreservesValid(s: Store, c: Call, isEmail: EmailCheck)
    requires Valid(s)
    ensures Valid(Dispatch(s, c, isEmail).0)
    ensures EmailsPass(s, isEmail) ==> EmailsPass(Dispatch(s, c, isEmail).0, isEmail)
  {
    match c
    case GetAll =>
    case GetCount =>
    case GetById(id) =>
    case Create(name, email, at) =>
      if Users.Create(s, name, email, at, isEmail).Ok? {
        CreatePreservesValid(s, name, email, at, isEmail);
      }
    case Update(id, name, email) =>
      if Users.Update(s, id, name, email, isEmail).Ok? {
        UpdatePreservesValid(s, id, name, email, isEmail);
      }
    case Delete(id) =>
      if Users.Delete(s, id).Ok? {
        DeletePreservesValid(s, id, isEmail);
      }
  }

  /** Any run of calls keeps the record-set invariant. */
  lemma {:induction false} RunPreservesValid(s: Store, calls: seq<Call>, isEmail: EmailCheck)
    requires Valid(s)
    ensures Valid(Run(s, calls, isEmail).0)
    ensures EmailsPass(s, isEmail) ==> EmailsPass(Run(s, calls, isEmail).0, isEmail)
    decreases |calls|
  {
    if |calls| > 0 {
      DispatchPreservesValid(s, calls[0], isEmail);
      RunPreservesValid(Dispatch(s, calls[0], isEmail).0, calls[1..], isEmail);
    }
  }

  /** Whatever calls the server has served since it started, ids in its record set
      are unique and positive and every name is non-empty; and every email passes
      the email check, provided the check accepts the two seed addresses. */
  lemma ServerStoreAlwaysValid(johnCreatedAt: string, janeCreatedAt: string, calls: seq<Call>, isEmail: EmailCheck)
    ensures Valid(Run(InitialStore(johnCreatedAt, janeCreatedAt), calls, isEmail).0)
    ensures isEmail("john@example.com") && isEmail("jane@example.com") ==>
      EmailsPass(Run(InitialStore(johnCreatedAt, janeCreatedAt), calls, isEmail).0, isEmail)
  {
    RunPreservesValid(InitialStore(johnCreatedAt, janeCreatedAt), calls, isEmail);
    if isEmail("john@example.com") && isEmail("jane@example.com") {
      InitialEmailsPass(johnCreatedAt, janeCreatedAt, isEmail);
    }
  }

  /** From the initial records, creating "A" <a@x.com> appends it with id 3. */
  lemma CreateOnInitialStore(johnCreatedAt: string, janeCreatedAt: string, now: string, isEmail: EmailCheck)
    requires isEmail("a@x.com")
    ensures var s0 := InitialStore(johnCreatedAt, janeCreatedAt);
      var a := User(3, "A", "a@x.com", now);
      Dispatch(s0, Create("A", "a@x.com", now), isEmail) == (s0 + [a], Record(a))
  {
  }

  /** Deleting id 1 from the initial records followed by a third one removes the first. */
  lemma DeleteFirstOfThree(johnCreatedAt: string, janeCreatedAt: string, a: User, isEmail: EmailCheck)
    requires a.id == 3
    ensures var s0 := InitialStore(johnCreatedAt, janeCreatedAt);
      Dispatch(s0 + [a], Delete(1), isEmail) == ([s0[1], a], Record(s0[0]))
  {
    var s0 := InitialStore(johnCreatedAt, janeCreatedAt);
    var s1 := s0 + [a];
    assert s1[0].id == 1;
    assert FindIndex(s1, 1) == 0;
    assert s1[..0] + s1[0 + 1..] == [s0[1], a];
  }

  /** From the initial records: create "A" <a@x.com> (id 3), count (3), delete id 1
      (returns John Doe's record), list (ids 2 and 3 in that order). */
  lemma CreateCountDeleteList(johnCreatedAt: string, janeCreatedAt: string, now: string, isEmail: EmailCheck)
    requires isEmail("a@x.com")
    ensures var s0 := InitialStore(johnCreatedAt, janeCreatedAt);
      var a := User(3, "A", "a@x.com", now);
      var calls := [Create("A", "a@x.com", now), GetCount, Delete(1), GetAll];
      Run(s0, calls, isEmail).1 == [Record(a), Count(3), Record(s0[0]), List([s0[1], a])]
  {
    var s0 := InitialStore(johnCreatedAt, janeCreatedAt);
    var a := User(3, "A", "a@x.com", now);
    var s1 := s0 + [a];
    var s2 := [s0[1], a];
    CreateOnInitialStore(johnCreatedAt, janeCreatedAt, now, isEmail);
    DeleteFirstOfThree(johnCreatedAt, janeCreatedAt, a, isEmail);
    var calls := [Create("A", "a@x.com", now), GetCount, Delete(1), GetAll];
    assert calls[1..][1..][1..] == [GetAll];
    assert Run(s2, [GetAll], isEmail).1 == [List(s2)];
    assert Run(s1, calls[1..][1..], isEmail).1 == [Record(s0[0]), List(s2)];
    assert Run(s1, calls[1..], isEmail).1 == [Count(3), Record(s0[0]), List(s2)];
  }

  /** From the initial records, deleting id 2 and then creating a record hands out id 2 again. */
  lemma DeleteThenCreateReusesId(johnCreatedAt: string, janeCreatedAt: string, now: string, isEmail: EmailCheck)
    requires isEmail("a@x.com")
    ensures var s0 := InitialStore(johnCreatedAt, janeCreatedAt);
      Run(s0, [Delete(2), Create("A", "a@x.com", now)], isEmail).1[1] == Record(User(2, "A", "a@x.com", now))
  {
  }

}
