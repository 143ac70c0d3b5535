/**
 Properties of the `users` procedures that relate several calls, or a call and the
 record-set invariant: each mutation keeps ids unique, lookups after a mutation see
 exactly its effect, and `create`/`delete`/`update` can be undone.
 */
module UsersProperties {

  import opened Results
  import opened UserStore
  import opened Users

  /** With unique ids, the first `n` records carry `n` distinct ids. */
  lemma {:induction false} PrefixIdsDistinct(s: Store, n: nat)
    requires UniqueIds(s)
    requires n <= |s|
    ensures |set i | 0 <= i < n :: s[i].id| == n
  {
    if n > 0 {
      PrefixIdsDistinct(s, n - 1);
      var before := set i | 0 <= i < n - 1 :: s[i].id;
      var after := set i | 0 <= i < n :: s[i].id;
      assert after == before + {s[n - 1].id};
      assert s[n - 1].id !in before;
    }
  }

  /** With unique ids, the record count equals the number of distinct ids. */
  lemma CountIsDistinctIds(s: Store)
    requires UniqueIds(s)
    ensures GetCount(s) == |IdSet(s)|
  {
    PrefixIdsDistinct(s, |s|);
  }

  /** `getById` on a live id of a store with unique ids returns exactly that record. */
  lemma GetByIdReturnsTheRecord(s: Store, i: int)
    requires UniqueIds(s)
    requires 0 <= i < |s|
    ensures GetById(s, s[i].id) == Ok(s[i])
  {
  }

  /** A created record takes an id no live record has, and adds exactly that id. */
  lemma CreateAddsFreshId(s: Store, name: string, email: string, now: string, isEmail: EmailCheck)
    requires |name| >= 1 && isEmail(email)
    ensures var a := Create(s, name, email, now, isEmail).value;
      && a.user.id !in IdSet(s)
      && IdSet(a.store) == IdSet(s) + {a.user.id}
  {
    var a := Create(s, name, email, now, isEmail).value;
    var t := a.store;
    forall x | x in IdSet(t) ensures x in IdSet(s) + {a.user.id} {
      var i :| 0 <= i < |t| && t[i].id == x;
      if i < |s| { assert t[i] == s[i]; }
    }
    forall x | x in IdSet(s) ensures x in IdSet(t) {
      var i :| 0 <= i < |s| && s[i].id == x;
      assert t[i] == s[i];
    }
    assert t[|s|] == a.user;
  }

  /** `create` keeps the record-set invariant, and stores only emails that pass the check. */
  lemma CreatePreservesValid(s: Store, name: string, email: string, now: string, isEmail: EmailCheck)
    requires Valid(s)
    requires |name| >= 1 && isEmail(email)
    ensures Valid(Create(s, name, email, now, isEmail).value.store)
    ensures EmailsPass(s, isEmail) ==> EmailsPass(Create(s, name, email, now, isEmail).value.store, isEmail)
  {
  }

  /** `update` keeps the record-set invariant, and stores only emails that pass the check. */
  lemma UpdatePreservesValid(s: Store, id: int, name: string, email: string, isEmail: EmailCheck)
    requires Valid(s)
    requires |name| >= 1 && isEmail(email) && HasId(s, id)
    ensures Valid(Update(s, id, name, email, isEmail).value.store)
    ensures EmailsPass(s, isEmail) ==> EmailsPass(Update(s, id, name, email, isEmail).value.store, isEmail)
  {
    ReplaceKeepsValid(s, Update(s, id, name, email, isEmail).value.store, FindIndex(s, id));
  }

  /** `delete` keeps the record-set invariant, and keeps only emails that were there. */
  lemma DeletePreservesValid(s: Store, id: int, isEmail: EmailCheck)
    requires Valid(s)
    requires HasId(s, id)
    ensures Valid(Delete(s, id).value.store)
    ensures EmailsPass(s, isEmail) ==> EmailsPass(Delete(s, id).value.store, isEmail)
  {
  }

  /** After `create`, `getById` on the new id returns the new record. */
  lemma GetByIdAfterCreate(s: Store, name: string, email: string, now: string, isEmail: EmailCheck)
    requires |name| >= 1 && isEmail(email)
    ensures var a := Create(s, name, email, now, isEmail).value;
      GetById(a.store, a.user.id) == Ok(a.user)
  {
    var a := Create(s, name, email, now, isEmail).value;
    var k := FindIndex(a.store, a.user.id);
    assert a.store[|s|] == a.user;
  }

  /** Replacing the first record with a given id by another with the same id leaves
      that position the first one with the id. */
  lemma FindIndexAfterReplace(s: Store, k: int, u: User)
    requires 0 <= k < |s|
    requires FindIndex(s, u.id) == k
    ensures FindIndex(s[k := u], u.id) == k
  {
    var t := s[k := u];
    assert t[k].id == u.id;
  }

  /** After `update`, `getById` on that id returns the updated record. */
  lemma GetByIdAfterUpdate(s: Store, id: int, name: string, email: string, isEmail: EmailCheck)
    requires |name| >= 1 && isEmail(email) && HasId(s, id)
    ensures var a := Update(s, id, name, email, isEmail).value;
      GetById(a.store, id) == Ok(a.user)
  {
    var a := Update(s, id, name, email, isEmail).value;
    var k := FindIndex(s, id);
    assert a.store == s[k := a.user];
    FindIndexAfterReplace(s, k, a.user);
  }

  /** After `delete` on a store with unique ids, the id is gone: exactly that id
      leaves the id set, and `getById` on it fails with `NotFound`. */
  lemma DeleteRemovesId(s: Store, id: int)
    requires UniqueIds(s)
    requires HasId(s, id)
    ensures IdSet(Delete(s, id).value.store) == IdSet(s) - {id}
    ensures GetById(Delete(s, id).value.store, id) == Err(NotFound)
  {
    var t := Delete(s, id).value.store;
    var k := FindIndex(s, id);
    forall x | x in IdSet(t) ensures x in IdSet(s) - {id} {
      var i :| 0 <= i < |t| && t[i].id == x;
      var i' := if i < k then i else i + 1;
      assert t[i] == s[i'];
    }
    forall x | x in IdSet(s) - {id} ensures x in IdSet(t) {
      var i :| 0 <= i < |s| && s[i].id == x;
      assert i != k;
      var i' := if i < k then i else i - 1;
      assert t[i'] == s[i];
    }
    assert !HasId(t, id) by {
      assert id !in IdSet(t);
    }
  }

  /** `delete` is undone by putting the returned record back where it was. */
  lemma DeleteThenReinsert(s: Store, id: int)
    requires HasId(s, id)
    ensures var a := Delete(s, id).value;
      var k := FindIndex(s, id);
      a.store[..k] + [a.user] + a.store[k..] == s
  {
  }

  /** Deleting the record just created restores the record set as it was. */
  lemma CreateThenDelete(s: Store, name: string, email: string, now: string, isEmail: EmailCheck)
    requires |name| >= 1 && isEmail(email)
    ensures var a := Create(s, name, email, now, isEmail).value;
      Delete(a.store, a.user.id) == Ok(Applied(s, a.user))
  {
    var a := Create(s, name, email, now, isEmail).value;
    GetByIdAfterCreate(s, name, email, now, isEmail);
    var d := Delete(a.store, a.user.id).value;
    var k := FindIndex(a.store, a.user.id);
    assert k == |s|;
    assert d.store == s;
  }

  /** Writing back the record a position already holds changes nothing. */
  lemma RewriteUnchanged(s: Store, k: int)
    requires 0 <= k < |s|
    ensures s[k := s[k]] == s
  {
  }

  /** Writing back the former record after a replacement restores the sequence. */
  lemma RewriteRestores(s: Store, k: int, u: User)
    requires 0 <= k < |s|
    ensures s[k := u][k := s[k]] == s
  {
  }

  /** A successful `update` replaces the record at the first position holding the id. */
  lemma UpdateAt(s: Store, id: int, name: string, email: string, isEmail: EmailCheck)
    requires |name| >= 1 && isEmail(email) && HasId(s, id)
    ensures var k := FindIndex(s, id);
      var u := s[k].(name := name, email := email);
      Update(s, id, name, email, isEmail) == Ok(Applied(s[k := u], u))
  {
  }

  /** Updating the record at the first position `i` holding its id, and then updating
      it back to its former name and email, restores the record set. */
  lemma UpdateThenRestore(s: Store, i: int, name: string, email: string, isEmail: EmailCheck)
    requires 0 <= i < |s|
    requires forall j :: 0 <= j < i ==> s[j].id != s[i].id
    requires |name| >= 1 && isEmail(email)
    requires |s[i].name| >= 1 && isEmail(s[i].email)
    ensures var a := Update(s, s[i].id, name, email, isEmail);
      && a.Ok?
      && Update(a.value.store, s[i].id, s[i].name, s[i].email, isEmail) == Ok(Applied(s, s[i]))
  {
    var id := s[i].id;
    var former := s[i];
    var u := former.(name := name, email := email);
    assert FindIndex(s, id) == i;
    UpdateAt(s, id, name, email, isEmail);
    FindIndexAfterReplace(s, i, u);
    var t := s[i := u];
    assert t[i].id == id;
    UpdateAt(t, id, former.name, former.email, isEmail);
    assert t[i].(name := former.name, email := former.email) == former;
    RewriteRestores(s, i, u);
  }

  /** Repeating an `update` with the same input changes nothing further. */
  lemma UpdateIdempotent(s: Store, id: int, name: string, email: string, isEmail: EmailCheck)
    requires |name| >= 1 && isEmail(email) && HasId(s, id)
    ensures var a := Update(s, id, name, email, isEmail).value;
      Update(a.store, id, name, email, isEmail) == Ok(a)
  {
    var k := FindIndex(s, id);
    var u := s[k].(name := name, email := email);
    UpdateAt(s, id, name, email, isEmail);
    FindIndexAfterReplace(s, k, u);
    var t := s[k := u];
    assert t[k].id == id;
    UpdateAt(t, id, name, email, isEmail);
    assert t[k].(name := name, email := email) == u;
    RewriteUnchanged(t, k);
  }

  /** Ids are recomputed from the current maximum: after deleting the record with the
      largest id, the next `create` gets an id no larger than the deleted one, and gets
      that very id exactly when the next-largest id is one less (or none is left). */
  lemma DeleteMaxThenCreate(s: Store, name: string, email: string, now: string, isEmail: EmailCheck)
    requires Valid(s)
    requires |s| > 0
    requires |name| >= 1 && isEmail(email)
    ensures var m := MaxId(s);
      var d := Delete(s, m);
      && d.Ok?
      && var c := Create(d.value.store, name, email, now, isEmail);
      && c.Ok?
      && c.value.user.id <= m
      && (c.value.user.id == m <==> m == 1 || HasId(d.value.store, m - 1))
  {
  }

  /** `create` adds one record and `delete` removes one; `update` keeps the count. */
  lemma CountAfterMutations(s: Store, id: int, name: string, email: string, now: string, isEmail: EmailCheck)
    ensures Create(s, name, email, now, isEmail).Ok? ==> GetCount(Create(s, name, email, now, isEmail).value.store) == GetCount(s) + 1
    ensures Update(s, id, name, email, isEmail).Ok? ==> GetCount(Update(s, id, name, email, isEmail).value.store) == GetCount(s)
    ensures Delete(s, id).Ok? ==> GetCount(Delete(s, id).value.store) == GetCount(s) - 1
  {
  }

}
