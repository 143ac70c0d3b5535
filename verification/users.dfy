/**
 The six procedures of the `users` router as pure functions over the record set.
 A mutation returns the new record set together with the record it reports; a
 thrown error becomes `Err`, and the caller keeps its record set unchanged.
 */
module Users {

  import opened Results
  import opened UserStore

  /** A field constraint of the input schema that the input breaks. */
  datatype Issue = NameRequired | InvalidEmail

  /** The two ways a procedure fails: the id names no record, or the input breaks
      the schema (every broken constraint is reported, in schema order). */
  datatype Error = NotFound | BadInput(issues: seq<Issue>)

  /** A mutation that succeeded: the new record set and the record it returns. */
  datatype Applied = Applied(store: Store, user: User)

  /** The `{name, email}` part of the create and update schemas: the name has at
      least one character and the email passes the email check. */
  function CheckInput(name: string, email: string, isEmail: EmailCheck): (issues: seq<Issue>)
    ensures NameRequired in issues <==> |name| == 0
    ensures InvalidEmail in issues <==> !isEmail(email)
    ensures issues == [] <==> |name| >= 1 && isEmail(email)
    ensures forall i, j :: 0 <= i < j < |issues| ==> issues[i] == NameRequired && issues[j] == InvalidEmail
  {
    (if |name| == 0 then [NameRequired] else []) + (if isEmail(email) then [] else [InvalidEmail])
  }

  /** `getAll`: the record set as it stands. */
  function GetAll(s: Store): seq<User> {
    s
  }

  /** `getCount`: the number of records. */
  function GetCount(s: Store): nat {
    |s|
  }

  /** `getById`: the first record carrying `id`, or `NotFound`. */
  function GetById(s: Store, id: int): (r: Result<User, Error>)
    ensures r.Ok? <==> HasId(s, id)
    ensures r.Err? ==> r.error == NotFound
    ensures r.Ok? ==> r.value.id == id
    ensures r.Ok? ==> exists k :: 0 <= k < |s| && s[k] == r.value && forall j :: 0 <= j < k ==> s[j].id != id
  {
    var k := FindIndex(s, id);
    if k == -1 then Err(NotFound) else Ok(s[k])
  }

  /** `create`: validate the input, then append a record with a fresh id and the
      caller's clock reading `now`, and return it. */
  function Create(s: Store, name: string, email: string, now: string, isEmail: EmailCheck): (r: Result<Applied, Error>)
    ensures r.Err? <==> |name| == 0 || !isEmail(email)
    ensures r.Err? ==> r.error == BadInput(CheckInput(name, email, isEmail))
    ensures r.Ok? ==> r.value.store == s + [r.value.user]
    ensures r.Ok? ==> r.value.user.name == name && r.value.user.email == email && r.value.user.createdAt == now
    ensures r.Ok? ==> forall i :: 0 <= i < |s| ==> s[i].id < r.value.user.id
    ensures r.Ok? ==> r.value.user.id == 1 || HasId(s, r.value.user.id - 1)
    ensures r.Ok? ==> r.value.user.id >= 1
  {
    var issues := CheckInput(name, email, isEmail);
    if issues != [] then Err(BadInput(issues))
    else
      var u := User(NextId(s), name, email, now);
      Ok(Applied(s + [u], u))
  }

  /** `update`: validate the input, then replace the name and email of the first
      record carrying `id`, in place, and return the updated record. */
  function Update(s: Store, id: int, name: string, email: string, isEmail: EmailCheck): (r: Result<Applied, Error>)
    ensures r.Err? <==> |name| == 0 || !isEmail(email) || !HasId(s, id)
    ensures CheckInput(name, email, isEmail) != [] ==> r == Err(BadInput(CheckInput(name, email, isEmail)))
    ensures CheckInput(name, email, isEmail) == [] && !HasId(s, id) ==> r == Err(NotFound)
    ensures r.Ok? ==>
      var k := FindIndex(s, id);
      && |r.value.store| == |s|
      && r.value.store[k] == r.value.user
      && r.value.user == User(id, name, email, s[k].createdAt)
      && forall j :: 0 <= j < |s| && j != k ==> r.value.store[j] == s[j]
  {
    var issues := CheckInput(name, email, isEmail);
    if issues != [] then Err(BadInput(issues))
    else
      var k := FindIndex(s, id);
      if k == -1 then Err(NotFound)
      else
        var u := s[k].(name := name, email := email);
        Ok(Applied(s[k := u], u))
  }

  /** `delete`: remove the first record carrying `id` (`splice(k, 1)`) and return it. */
  function Delete(s: Store, id: int): (r: Result<Applied, Error>)
    ensures r.Err? <==> !HasId(s, id)
    ensures r.Err? ==> r.error == NotFound
    ensures r.Ok? ==>
      var k := FindIndex(s, id);
      && r.value.user == s[k]
      && r.value.user.id == id
      && |r.value.store| == |s| - 1
      && (forall j :: 0 <= j < k ==> r.value.store[j] == s[j])
      && (forall j :: k <= j < |r.value.store| ==> r.value.store[j] == s[j + 1])
  {
    var k := FindIndex(s, id);
    if k == -1 then Err(NotFound)
    else Ok(Applied(s[..k] + s[k + 1..], s[k]))
  }

}
