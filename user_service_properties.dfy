/**
 * Properties of the user service that relate several calls or need the
 * table's invariant: the invariant is preserved, listings partition the table,
 * soft delete is idempotent, and what the cache then serves.
 */
module UserServiceProperties {
  import opened Wrappers
  import opened UserEvents
  import opened UserService

  // ---------------------------------------------------------------------------
  // Repository queries under the invariant

  /** With unique emails, `findByEmail` finds THE row with that email. */
  lemma FindByEmailUnique(s: Service, u: UserRow)
    requires Consistent(s) && u in s.users
    ensures FindByEmail(s.users, u.email) == Some(u)
  {
    var v := FindByEmail(s.users, u.email).value;
    var a :| 0 <= a < |s.users| && s.users[a] == u;
    var b :| 0 <= b < |s.users| && s.users[b] == v;
    assert s.users[a].email == s.users[b].email;
  }

  /** With increasing ids, `findById` finds the one row holding the id. */
  lemma IndexOfIdUnique(s: Service, i: nat)
    requires Consistent(s) && i < |s.users|
    ensures IndexOfId(s.users, s.users[i].id) == Some(i)
  {
    var k := IndexOfId(s.users, s.users[i].id).value;
    assert s.users[k].id == s.users[i].id;
  }

  /** Rewriting the row `findById` found, keeping its id, leaves it found at the same place. */
  lemma {:induction false} IndexOfIdAfterWrite(users: seq<UserRow>, i: nat, row: UserRow)
    requires i < |users| && IndexOfId(users, users[i].id) == Some(i) && row.id == users[i].id
    ensures IndexOfId(users[i := row], row.id) == Some(i)
  {
    if i > 0 {
      assert users[0].id != row.id;
      var rest := IndexOfId(users[1..], row.id);
      assert rest == Some(i - 1);
      assert users[1..][i - 1] == users[i];
      IndexOfIdAfterWrite(users[1..], i - 1, row);
      assert users[i := row][1..] == users[1..][i - 1 := row];
    }
  }

  // ---------------------------------------------------------------------------
  // Listings

  /** A listing holds exactly the rows whose soft-delete flag matches, and no more rows than the table. */
  lemma {:induction false} WithDeletedMembers(users: seq<UserRow>, flag: bool)
    ensures forall u :: u in WithDeleted(users, flag) <==> u in users && u.deleted == flag
    ensures |WithDeleted(users, flag)| <= |users|
  {
    if users != [] {
      WithDeletedMembers(users[1..], flag);
      assert forall x :: x in users <==> x == users[0] || x in users[1..];
    }
  }

  /** Filtering distributes over concatenation: what a loop over the table relies on. */
  lemma {:induction false} WithDeletedAppend(a: seq<UserRow>, b: seq<UserRow>, flag: bool)
    ensures WithDeleted(a + b, flag) == WithDeleted(a, flag) + WithDeleted(b, flag)
  {
    if a == [] {
      assert a + b == b;
    } else {
      var head := if a[0].deleted == flag then [a[0]] else [];
      assert (a + b)[0] == a[0];
      assert (a + b)[1..] == a[1..] + b;
      WithDeletedAppend(a[1..], b, flag);
      assert WithDeleted(a + b, flag) == head + WithDeleted(a[1..] + b, flag);
      assert WithDeleted(a, flag) == head + WithDeleted(a[1..], flag);
    }
  }

  /** One step of a listing loop: the row at `i` joins the listing exactly when its flag matches. */
  lemma WithDeletedStep(users: seq<UserRow>, i: nat, flag: bool)
    requires i < |users|
    ensures WithDeleted(users[..i + 1], flag)
      == WithDeleted(users[..i], flag) + (if users[i].deleted == flag then [users[i]] else [])
  {
    assert users[..i + 1] == users[..i] + [users[i]];
    WithDeletedAppend(users[..i], [users[i]], flag);
    assert [users[i]][1..] == [];
  }

  /**
   * `getAllUsers` and `getDeletedUsers` together list every row exactly once:
   * the active and the soft-deleted listings partition the table.
   */
  lemma {:induction false} ListingsPartitionTable(users: seq<UserRow>)
    ensures multiset(WithDeleted(users, false)) + multiset(WithDeleted(users, true)) == multiset(users)
  {
    if users != [] {
      var x, rest := users[0], users[1..];
      ListingsPartitionTable(rest);
      assert users == [x] + rest;
      assert WithDeleted(users, false) == (if !x.deleted then [x] else []) + WithDeleted(rest, false);
      assert WithDeleted(users, true) == (if x.deleted then [x] else []) + WithDeleted(rest, true);
      assert multiset(users) == multiset{x} + multiset(rest);
    }
  }

  // ---------------------------------------------------------------------------
  // addNewUser

  /** `addNewUser` keeps ids increasing and emails unique: the email pre-check is what keeps them unique. */
  lemma AddPreservesConsistent(s: Service, name: string, email: string)
    requires Consistent(s)
    ensures Consistent(Add(s, name, email).0)
  {
  }

  /** A new user shows up in the active listing; a rejected one changes no listing. */
  lemma AddThenList(s: Service, name: string, email: string)
    ensures var (t, reply) := Add(s, name, email);
      && (reply == SAVED ==> UserRow(s.nextId, name, email, false) in WithDeleted(t.users, false))
      && (reply == EMAIL_TAKEN ==> WithDeleted(t.users, false) == WithDeleted(s.users, false))
      && WithDeleted(t.users, true) == WithDeleted(s.users, true)
  {
    WithDeletedAppend(s.users, [UserRow(s.nextId, name, email, false)], true);
    WithDeletedMembers(Add(s, name, email).0.users, false);
  }

  /**
   * Because `@CachePut` caches the reply string, a lookup right after
   * `addNewUser` serves that string ("Saved" or the error) from the cache,
   * never the user row, and reads nothing.
   */
  lemma LookupAfterAddServesReply(s: Service, name: string, email: string)
    ensures var (t, reply) := Add(s, name, email);
      Lookup(t, email) == (t, AMessage(reply))
  {
  }

  // ---------------------------------------------------------------------------
  // getUserByEmail

  /** On a miss under the invariant, the lookup finds a user exactly when an active row has the email. */
  lemma LookupMissFindsActive(s: Service, email: string)
    requires Consistent(s) && email !in s.cache
    ensures Lookup(s, email).1.AUser? <==> exists u :: u in s.users && u.email == email && !u.deleted
    ensures forall u :: u in s.users && u.email == email && !u.deleted ==> Lookup(s, email).1 == AUser(u)
  {
    forall u | u in s.users && u.email == email && !u.deleted
      ensures Lookup(s, email).1 == AUser(u)
    {
      FindByEmailUnique(s, u);
    }
  }

  /** A second lookup of the same email is served from the cache and returns the same value. */
  lemma LookupTwice(s: Service, email: string)
    ensures var (t, v) := Lookup(s, email);
      Lookup(t, email) == (t, v)
  {
  }

  // ---------------------------------------------------------------------------
  // updateUser

  /**
   * On an existing id, `updateUser` either saves the edited row in place (name
   * and email changed only by non-empty arguments, id and flag kept) and leaves
   * every other row alone, or, when the new email belongs to another row,
   * throws and changes nothing.
   */
  lemma UpdateExisting(s: Service, i: nat, name: Option<string>, email: string)
    requires Consistent(s) && i < |s.users|
    ensures var (t, out) := Update(s, s.users[i].id, name, email);
      var row := Edited(s.users[i], name, email);
      && (out == UniqueViolation <==> exists j :: 0 <= j < |s.users| && j != i && s.users[j].email == row.email)
      && (out != UniqueViolation ==> out == Returned(UPDATED) && t.users == s.users[i := row])
  {
    IndexOfIdUnique(s, i);
    var row := Edited(s.users[i], name, email);
    if EmailTakenByOther(s.users, row.email, Some(s.users[i].id)) {
      var u :| u in s.users && u.email == row.email && Some(u.id) != Some(s.users[i].id);
      var j :| 0 <= j < |s.users| && s.users[j] == u;
      assert j != i;
    } else {
      forall j | 0 <= j < |s.users| && j != i
        ensures s.users[j].email != row.email
      {
        if j < i { assert s.users[j].id < s.users[i].id; } else { assert s.users[i].id < s.users[j].id; }
        assert s.users[j] in s.users;
      }
    }
  }

  lemma UpdatePreservesConsistent(s: Service, id: int, name: Option<string>, email: string)
    requires Consistent(s)
    ensures Consistent(Update(s, id, name, email).0)
  {
    match IndexOfId(s.users, id)
    case None =>
    case Some(i) =>
      UpdateExisting(s, i, name, email);
  }

  /**
   * The eviction key is the email argument, not the user's stored email: after
   * an update, a cached value under any other key (the user's old email
   * included) is still served as it was.
   */
  lemma UpdateLeavesOtherKeysCached(s: Service, id: int, name: Option<string>, email: string, key: string)
    requires key in s.cache && key != email
    ensures var t := Update(s, id, name, email).0;
      Lookup(t, key) == (t, s.cache[key])
  {
  }

  // ---------------------------------------------------------------------------
  // deleteUser

  /** On an existing id: the row stays, flagged deleted, nothing else in the table changes, its email is evicted. */
  lemma DeleteExisting(s: Service, i: nat)
    requires Consistent(s) && i < |s.users|
    ensures var (t, reply) := Delete(s, s.users[i].id);
      && reply == SOFT_DELETED
      && t.users == s.users[i := s.users[i].(deleted := true)]
      && t.cache == s.cache - {s.users[i].email}
  {
    IndexOfIdUnique(s, i);
  }

  lemma DeletePreservesConsistent(s: Service, id: int)
    requires Consistent(s)
    ensures Consistent(Delete(s, id).0)
  {
  }

  /** Deleting twice leaves the same state and reply as deleting once. */
  lemma DeleteIdempotent(s: Service, id: int)
    ensures Delete(Delete(s, id).0, id) == Delete(s, id)
  {
    match IndexOfId(s.users, id)
    case None =>
    case Some(i) =>
      var row := s.users[i].(deleted := true);
      IndexOfIdAfterWrite(s.users, i, row);
      var t := Delete(s, id).0;
      assert t.users == s.users[i := row];
      assert t.users[i] == row && row.(deleted := true) == row;
      assert t.users[i := row] == t.users;
      assert t.cache - {row.email} == t.cache;
  }

  /** After a soft delete, a lookup of the user's email misses the cache and reports the user as not found. */
  lemma LookupAfterDelete(s: Service, i: nat)
    requires Consistent(s) && i < |s.users|
    ensures var t := Delete(s, s.users[i].id).0;
      Lookup(t, s.users[i].email).1 == AMessage(USER_NOT_FOUND)
  {
    DeleteExisting(s, i);
    DeletePreservesConsistent(s, s.users[i].id);
    var t := Delete(s, s.users[i].id).0;
    var email := s.users[i].email;
    assert email !in t.cache;
    FindByEmailUnique(t, t.users[i]);
  }
}
