/**
 Account identity: the startup migration to folded addresses and the unique index on them
 (backend/internal/common/mongoWrap/client.go, query.go, backend/internal/service/auth.go).

 A call to the database may fail; `faults(k)` says how the k-th one ends. A call whose request is
 lost changes nothing, one whose reply is lost has been carried out. So a process that dies between
 two calls, or waiting for one, leaves the collection of one whose call fails in one of these ways.
 Address syntax, the password policy and hashing are parameters.
 */
module Accounts {
  import opened Wrappers
  import opened Text
  import opened Emails

  /** A stored account; `folded` is email_normalized, None where the field is missing. */
  datatype User = User(email: string, folded: Option<string>, name: string, hash: string)

  type Users = map<nat, User>

  function Folded(lower: Lower, u: User): string {
    NormalizeEmail(lower, u.email)
  }

  /* ---- the collection and its constraints --------------------------------------- */

  /** The folded field is missing or follows from the typed address. */
  ghost predicate WellFolded(lower: Lower, users: Users) {
    forall id :: id in users ==>
      users[id].folded.None? || users[id].folded == Some(Folded(lower, users[id]))
  }

  /** What a unique index on email_normalized demands; missing counts as one value. */
  ghost predicate DistinctFolded(users: Users) {
    forall a, b :: a in users && b in users && users[a].folded == users[b].folded ==> a == b
  }

  ghost predicate DistinctEmails(users: Users) {
    forall a, b :: a in users && b in users && users[a].email == users[b].email ==> a == b
  }

  /** No two accounts were made with spellings of one address. */
  ghost predicate NoCollision(lower: Lower, users: Users) {
    forall a, b :: a in users && b in users && Folded(lower, users[a]) == Folded(lower, users[b]) ==> a == b
  }

  predicate AllFilled(users: Users) {
    forall id :: id in users ==> users[id].folded.Some?
  }

  function Filled(lower: Lower, u: User): User {
    if u.folded.Some? then u else u.(folded := Some(Folded(lower, u)))
  }

  /** Every account with its folded address. */
  function Backfilled(lower: Lower, users: Users): Users {
    map id | id in users :: Filled(lower, users[id])
  }

  /** Some accounts have been filled in and nothing else has happened. */
  ghost predicate PartlyFilled(lower: Lower, before: Users, after: Users) {
    && after.Keys == before.Keys
    && forall id :: id in before ==> after[id] == before[id] || after[id] == Filled(lower, before[id])
  }

  lemma PartlyFilledTwice(lower: Lower, a: Users, b: Users, c: Users)
    requires PartlyFilled(lower, a, b) && PartlyFilled(lower, b, c)
    ensures PartlyFilled(lower, a, c)
  {
    hide Folded;
    forall id | id in a ensures c[id] == a[id] || c[id] == Filled(lower, a[id]) {
      assert id in b && id in c;
    }
  }

  lemma StartFilling(lower: Lower, users: Users)
    ensures PartlyFilled(lower, users, users)
  {
  }

  lemma FillOne(lower: Lower, users: Users, id: nat)
    requires id in users
    ensures PartlyFilled(lower, users, users[id := Filled(lower, users[id])])
  {
  }

  lemma NextUnfilled(lower: Lower, users: Users, ids: seq<nat>, i: nat)
    requires i < |ids| && Unfilled(users, ids[i..])
    requires forall j, k :: 0 <= j < k < |ids| ==> ids[j] != ids[k]
    ensures ids[i] in users && users[ids[i]].folded.None?
    ensures Unfilled(users[ids[i] := Filled(lower, users[ids[i]])], ids[i + 1..])
  {
    hide Folded;
    assert ids[i..] == [ids[i]] + ids[i + 1..];
    assert ids[i] in ids[i..];
    assert ids[i] !in ids[i + 1..];
  }

  lemma NoneUnfilled(users: Users, ids: seq<nat>)
    requires Unfilled(users, ids) && ids == []
    ensures AllFilled(users)
  {
    forall id | id in users ensures users[id].folded.Some? {
      assert id !in ids;
    }
  }

  lemma PartlyFilledKeeps(lower: Lower, before: Users, after: Users, id: nat)
    requires PartlyFilled(lower, before, after)
    ensures id in before <==> id in after
    ensures id in before ==> after[id].email == before[id].email
    ensures id in before ==> Filled(lower, after[id]) == Filled(lower, before[id])
  {
    hide Folded;
    assert id in before.Keys <==> id in after.Keys;
  }

  /** Wherever the backfill stopped, finishing it reaches the same accounts. */
  lemma BackfillResumes(lower: Lower, before: Users, after: Users)
    requires PartlyFilled(lower, before, after)
    ensures Backfilled(lower, after) == Backfilled(lower, before)
    ensures AllFilled(after) ==> after == Backfilled(lower, before)
    ensures NoCollision(lower, after) <==> NoCollision(lower, before)
  {
    forall id ensures id in before <==> id in after
      ensures id in before ==> after[id].email == before[id].email
      ensures id in before ==> Filled(lower, after[id]) == Filled(lower, before[id])
    {
      PartlyFilledKeeps(lower, before, after, id);
    }
    hide PartlyFilled, NormalizeEmail;
  }

  lemma TakenMeansCollision(lower: Lower, users: Users, id: nat, o: nat)
    requires WellFolded(lower, users) && id in users && o in users && o != id
    requires users[o].folded == Some(Folded(lower, users[id]))
    ensures !NoCollision(lower, users)
  {
    hide Folded;
    assert Folded(lower, users[o]) == Folded(lower, users[id]);
  }

  lemma FillingKeepsIndexes(lower: Lower, users: Users, id: nat, folded: bool, legacy: bool)
    requires WellFolded(lower, users) && id in users && users[id].folded.None?
    requires (folded ==> DistinctFolded(users)) && (legacy ==> DistinctEmails(users))
    requires folded ==> forall o :: o in users && o != id ==> users[o].folded != Some(Folded(lower, users[id]))
    ensures var users' := users[id := Filled(lower, users[id])];
            WellFolded(lower, users') && (folded ==> DistinctFolded(users')) && (legacy ==> DistinctEmails(users'))
  {
    hide NormalizeEmail;
  }

  lemma FilledMeansFolded(lower: Lower, users: Users)
    requires WellFolded(lower, users) && AllFilled(users)
    ensures DistinctFolded(users) <==> NoCollision(lower, users)
  {
    hide Folded;
  }

  /* ---- what the service accepts ------------------------------------------------- */

  datatype SignUp = SignUp(email: string, name: string, password: string)

  datatype SignUpError = InvalidRequest | EmptyAddress | EmailTaken | Unavailable

  /** The checks before the store is reached, and hashing: foreign to this model. */
  datatype Policy = Policy(validEmail: string -> bool, cleanName: string -> string,
                           strong: string -> bool, hash: string -> string)

  /** The account signup builds: the trimmed address to show, the folded one to match. */
  function NewUser(lower: Lower, policy: Policy, req: SignUp): Option<User> {
    var email := TrimSpace(req.email);
    if email == "" || !policy.validEmail(email) || policy.cleanName(req.name) == "" || !policy.strong(req.password)
    then None
    else Some(User(email, Some(NormalizeEmail(lower, email)), policy.cleanName(req.name), policy.hash(req.password)))
  }

  predicate Conflicts(users: Users, legacy: bool, folded: bool, u: User) {
    exists id :: id in users
      && ((folded && users[id].folded == u.folded) || (legacy && users[id].email == u.email))
  }

  /** CreateUser, service and store: the accounts afterwards and the id or the refusal. */
  function Joined(lower: Lower, policy: Policy, users: Users, legacy: bool, folded: bool, req: SignUp, newId: nat):
    (Users, Result<nat, SignUpError>)
  {
    match NewUser(lower, policy, req)
    case None => (users, Err(InvalidRequest))
    case Some(u) =>
      if u.folded == Some("") then (users, Err(EmptyAddress))
      else if newId in users || Conflicts(users, legacy, folded, u) then (users, Err(EmailTaken))
      else (users[newId := u], Ok(newId))
  }

  function WithHash(users: Users, id: nat, hash: string): Users {
    if id in users then users[id := users[id].(hash := hash)] else users
  }

  /** What FindOne on the folded address may return: some match, or nothing when there is none. */
  ghost predicate FoundBy(users: Users, folded: string, r: Option<nat>) {
    match r
    case None => forall id :: id in users ==> users[id].folded != Some(folded)
    case Some(id) => id in users && users[id].folded == Some(folded)
  }

  /** The plain indexes on applications, in the order they are asked for. */
  datatype Lookup = ByUser | ByUserAndStatus | BySearch

  const LOOKUPS: seq<Lookup> := [ByUser, ByUserAndStatus, BySearch]

  /* ---- the users collection --------------------------------------------------------- */

  class AccountStore {
    var users: Users
    var legacyIndex: bool
    var foldedIndex: bool
    var uniqueAppsIndex: bool
    var lookupIndexes: set<Lookup>
    var calls: nat
    const lower: Lower
    const faults: nat -> Fault

    /** Both indexes, where they exist, are honoured by the documents. */
    ghost predicate Valid()
      reads this
    {
      && WellFolded(lower, users)
      && (foldedIndex ==> DistinctFolded(users))
      && (legacyIndex ==> DistinctEmails(users))
    }

    ghost predicate Faulted(from: nat, to: nat) {
      exists k | from <= k < to :: !faults(k).Answered?
    }

    constructor (lower: Lower, faults: nat -> Fault, users: Users, legacy: bool, uniqueApps: bool)
      requires WellFolded(lower, users) && (legacy ==> DistinctEmails(users))
      ensures Valid() && this.users == users && legacyIndex == legacy && !foldedIndex
      ensures uniqueAppsIndex == uniqueApps && this.lower == lower && this.faults == faults
    {
      this.lower, this.faults, this.users := lower, faults, users;
      legacyIndex, foldedIndex, uniqueAppsIndex, lookupIndexes, calls := legacy, false, uniqueApps, {}, 0;
    }

    method Call() returns (fate: Fault)
      modifies this`calls
      ensures calls == old(calls) + 1 && fate == faults(old(calls))
    {
      fate := faults(calls);
      calls := calls + 1;
    }

    /** The accounts without the field, in whatever order the cursor yields them. */
    method Missing() returns (ids: seq<nat>)
      ensures Unfilled(users, ids)
      ensures forall i, j :: 0 <= i < j < |ids| ==> ids[i] != ids[j]
    {
      var todo := set id | id in users && users[id].folded.None?;
      ghost var all := todo;
      ids := [];
      while todo != {}
        invariant todo <= all
        invariant forall id :: id in ids <==> id in all - todo
        invariant forall i, j :: 0 <= i < j < |ids| ==> ids[i] != ids[j]
        decreases |todo|
      {
        var id :| id in todo;
        assert forall i :: 0 <= i < |ids| ==> ids[i] in ids;
        todo := todo - {id};
        ids := ids + [id];
      }
    }

    /** UpdateByID: refused when the index exists and another account has the value. */
    method SetFolded(id: nat) returns (ok: bool)
      requires Valid() && id in users && users[id].folded.None?
      modifies this`users, this`calls
      ensures Valid() && calls == old(calls) + 1
      ensures ok ==> users == old(users)[id := Filled(lower, old(users)[id])]
      ensures users == old(users) || users == old(users)[id := Filled(lower, old(users)[id])]
      ensures !ok && faults(old(calls)).Answered? ==> foldedIndex && !NoCollision(lower, users)
    {
      hide NormalizeEmail, WellFolded, DistinctFolded, DistinctEmails, NoCollision, Folded;
      var fate := Call();
      if fate == RequestLost {
        return false;
      }
      var value := Folded(lower, users[id]);
      var others := set o | o in users && o != id && users[o].folded == Some(value);
      if foldedIndex && others != {} {
        var o :| o in others;
        TakenMeansCollision(lower, users, id, o);
        return false;
      }
      assert forall o :: o in users && o != id && foldedIndex ==> o !in others;
      FillingKeepsIndexes(lower, users, id, foldedIndex, legacyIndex);
      users := users[id := users[id].(folded := Some(value))];
      return fate == Answered;
    }

    /** The loop of the migration: one update per account, stopping at the first failure. */
    method Backfill(ids: seq<nat>) returns (ok: bool)
      requires Valid() && Unfilled(users, ids)
      requires forall i, j :: 0 <= i < j < |ids| ==> ids[i] != ids[j]
      modifies this`users, this`calls
      ensures Valid() && PartlyFilled(lower, old(users), users) && calls >= old(calls)
      ensures ok ==> AllFilled(users)
      ensures !ok && !Faulted(old(calls), calls) ==> foldedIndex && !NoCollision(lower, users)
    {
      hide Folded, DistinctFolded, DistinctEmails, WellFolded, NoCollision, Filled, Unfilled, PartlyFilled;
      StartFilling(lower, users);
      for i := 0 to |ids|
        invariant Valid() && PartlyFilled(lower, old(users), users)
        invariant calls == old(calls) + i
        invariant Unfilled(users, ids[i..])
      {
        ghost var before := users;
        NextUnfilled(lower, users, ids, i);
        ok := SetFolded(ids[i]);
        FillOne(lower, before, ids[i]);
        StartFilling(lower, before);
        PartlyFilledTwice(lower, old(users), before, users);
        if !ok {
          assert !faults(old(calls) + i).Answered? ==> Faulted(old(calls), calls);
          return;
        }
      }
      ok := true;
      NoneUnfilled(users, ids[|ids|..]);
    }

    /** dropIndexIfPresent for the unique index on the typed address. */
    method DropLegacyIndex() returns (ok: bool)
      requires Valid()
      modifies this`legacyIndex, this`calls
      ensures Valid() && calls >= old(calls)
      ensures ok ==> !legacyIndex
      ensures legacyIndex ==> old(legacyIndex)
      ensures !ok ==> Faulted(old(calls), calls)
    {
      var fate := Call();
      assert fate != Answered ==> !faults(old(calls)).Answered?;
      if fate == Answered && legacyIndex {
        fate := Call();
        assert fate != Answered ==> !faults(old(calls) + 1).Answered?;
        if fate != RequestLost {
          legacyIndex := false;
        }
      }
      ok := fate == Answered;
    }

    /** migrateUserEmailNormalized: fill in every missing field, then drop the old index. */
    method MigrateEmails() returns (ok: bool)
      requires Valid()
      modifies this`users, this`calls, this`legacyIndex
      ensures Valid() && PartlyFilled(lower, old(users), users) && calls >= old(calls)
      ensures legacyIndex ==> old(legacyIndex)
      ensures old(legacyIndex) && !legacyIndex ==> AllFilled(users)
      ensures ok ==> AllFilled(users) && !legacyIndex
      ensures !ok && !Faulted(old(calls), calls) ==> foldedIndex && !NoCollision(lower, users)
    {
      hide Folded, DistinctFolded, DistinctEmails, WellFolded, NoCollision, Filled, PartlyFilled, AllFilled;
      StartFilling(lower, users);
      var fate := Call();
      if fate != Answered {
        assert !faults(old(calls)).Answered?;
        return false;
      }
      var ids := Missing();
      ok := Backfill(ids);
      if ok {
        ok := DropLegacyIndex();
      }
    }

    /** dropLegacyUniqueAppIndex. */
    method DropUniqueAppsIndex() returns (ok: bool)
      requires Valid()
      modifies this`uniqueAppsIndex, this`calls
      ensures Valid() && calls >= old(calls)
      ensures ok ==> !uniqueAppsIndex
      ensures uniqueAppsIndex ==> old(uniqueAppsIndex)
      ensures !ok ==> Faulted(old(calls), calls)
    {
      var fate := Call();
      assert fate != Answered ==> !faults(old(calls)).Answered?;
      if fate == Answered && uniqueAppsIndex {
        fate := Call();
        assert fate != Answered ==> !faults(old(calls) + 1).Answered?;
        if fate != RequestLost {
          uniqueAppsIndex := false;
        }
      }
      ok := fate == Answered;
    }

    /** CreateOne for the unique index: nothing to do when it exists, refused when values repeat. */
    method CreateFoldedIndex() returns (ok: bool)
      requires Valid()
      modifies this`foldedIndex, this`calls
      ensures Valid() && calls == old(calls) + 1
      ensures ok ==> foldedIndex
      ensures old(foldedIndex) ==> foldedIndex
      ensures !ok && faults(old(calls)).Answered? ==> !foldedIndex && !DistinctFolded(users)
    {
      var fate := Call();
      if fate == RequestLost || foldedIndex {
        return fate == Answered;
      }
      var distinct := forall a, b :: a in users && b in users && users[a].folded == users[b].folded ==> a == b;
      if distinct {
        foldedIndex := true;
      }
      ok := distinct && fate == Answered;
    }

    /** The plain lookup indexes on applications; errors are collected, not returned early. */
    method CreateLookupIndexes() returns (ok: bool)
      modifies this`lookupIndexes, this`calls
      ensures calls == old(calls) + 3
      ensures ok <==> !Faulted(old(calls), calls)
      ensures ok ==> lookupIndexes >= {ByUser, ByUserAndStatus, BySearch}
      ensures forall l :: l in lookupIndexes <==>
                l in old(lookupIndexes) || exists i | 0 <= i < 3 :: l == LOOKUPS[i] && !faults(old(calls) + i).RequestLost?
    {
      ok := true;
      for i := 0 to 3
        invariant calls == old(calls) + i
        invariant ok <==> !Faulted(old(calls), calls)
        invariant forall l :: l in lookupIndexes <==>
                    l in old(lookupIndexes) || exists j | 0 <= j < i :: l == LOOKUPS[j] && !faults(old(calls) + j).RequestLost?
      {
        var fate := Call();
        if fate != RequestLost {
          lookupIndexes := lookupIndexes + {LOOKUPS[i]};
        }
        if fate != Answered {
          assert !faults(old(calls) + i).Answered?;
          ok := false;
        }
      }
      assert ok ==> faults(old(calls)).Answered? && faults(old(calls) + 1).Answered? && faults(old(calls) + 2).Answered?;
      assert LOOKUPS[0] == ByUser && LOOKUPS[1] == ByUserAndStatus && LOOKUPS[2] == BySearch;
    }

    /**
     EnsureIndexes, run at every start. Its final state is what is left behind wherever a call
     fails, so the contract covers every state the process can stop in.

     Accounts are only ever filled in; the old index outlives every state in which one is
     missing; the new one appears only over distinct values. Without a failing call the run
     succeeds exactly when no two addresses fold together.
     */
    method EnsureIndexes() returns (ok: bool)
      requires Valid()
      modifies this
      ensures Valid() && calls >= old(calls)
      ensures StartUp(lower, old(users), old(legacyIndex), old(foldedIndex), users, legacyIndex, foldedIndex, ok)
      ensures ok ==> !uniqueAppsIndex && NoCollision(lower, old(users))
      ensures ok ==> lookupIndexes >= {ByUser, ByUserAndStatus, BySearch}
      ensures !ok && !Faulted(old(calls), calls) ==> !NoCollision(lower, old(users))
      ensures !ok && !Faulted(old(calls), calls) && !old(foldedIndex) ==>
                users == Backfilled(lower, old(users)) && !legacyIndex && !foldedIndex
    {
      hide Folded, DistinctFolded, DistinctEmails, WellFolded, NoCollision, Filled, PartlyFilled, AllFilled, Backfilled;
      ghost var first := calls;
      StartFilling(lower, users);
      ok := DropUniqueAppsIndex();
      if !ok {
        return;
      }
      label Cleared:
      ghost var second := calls;
      ok := MigrateEmails();
      BackfillResumes(lower, old(users), users);
      if !ok {
        LaterFault(second, first, calls, calls);
        return;
      }
      FilledMeansFolded(lower, users);
      ghost var third := calls;
      var unique := CreateFoldedIndex();
      var lookups := CreateLookupIndexes();
      ok := unique && lookups;
      assert !lookups ==> Faulted(first, calls) by {
        if !lookups {
          LaterFault(third + 1, first, calls, calls);
        }
      }
      assert !unique && !faults(third).Answered? ==> Faulted(first, calls);
    }

    /** CreateUser: validated and hashed by the service, inserted by the store. */
    method CreateUser(policy: Policy, req: SignUp, newId: nat) returns (r: Result<nat, SignUpError>)
      requires Valid()
      modifies this`users, this`calls
      ensures Valid()
      ensures r != Err(Unavailable) ==>
                (users, r) == Joined(lower, policy, old(users), legacyIndex, foldedIndex, req, newId)
      ensures r.Ok? ==>
                && r.value == newId && newId !in old(users)
                && users == old(users)[newId := User(TrimSpace(req.email), Some(lower(TrimSpace(req.email))),
                                                     policy.cleanName(req.name), policy.hash(req.password))]
      ensures r == Err(Unavailable) ==>
                && !faults(old(calls)).Answered?
                && users == (if faults(old(calls)).RequestLost? then old(users)
                             else Joined(lower, policy, old(users), legacyIndex, foldedIndex, req, newId).0)
    {
      FoldingATrimmedAddress(lower, req.email);
      assert NormalizeEmail(lower, req.email) == lower(TrimSpace(req.email));
      hide NormalizeEmail, TrimSpace;
      var user := NewUser(lower, policy, req);
      if user.None? {
        return Err(InvalidRequest);
      }
      if user.value.folded == Some("") {
        return Err(EmptyAddress);
      }
      var fate := Call();
      if fate == RequestLost {
        return Err(Unavailable);
      }
      if newId in users || Conflicts(users, legacyIndex, foldedIndex, user.value) {
        return if fate == Answered then Err(EmailTaken) else Err(Unavailable);
      }
      JoiningKeepsFolding(lower, policy, users, req, newId);
      JoiningKeepsIndexes(users, legacyIndex, foldedIndex, user.value, newId);
      users := users[newId := user.value];
      return if fate == Answered then Ok(newId) else Err(Unavailable);
    }

    method FindUserByEmail(typed: string) returns (r: Option<nat>)
      ensures FoundBy(users, NormalizeEmail(lower, typed), r)
    {
      hide NormalizeEmail;
      var matches := set id | id in users && users[id].folded == Some(NormalizeEmail(lower, typed));
      if matches == {} {
        assert forall id :: id in users ==> id !in matches;
        return None;
      }
      var id :| id in matches;
      return Some(id);
    }

    /** Changes one hash, and reports whether the account was there; a lost reply reports nothing. */
    method EditUserPassword(id: nat, hash: string) returns (found: Option<bool>)
      requires Valid()
      modifies this`users, this`calls
      ensures Valid()
      ensures users == if faults(old(calls)).RequestLost? then old(users) else WithHash(old(users), id, hash)
      ensures found == if faults(old(calls)).Answered? then Some(id in old(users)) else None
    {
      hide NormalizeEmail;
      var fate := Call();
      if fate == RequestLost {
        return None;
      }
      found := if fate == Answered then Some(id in users) else None;
      if id in users {
        users := users[id := users[id].(hash := hash)];
      }
    }

    lemma LaterFault(from: nat, first: nat, to: nat, last: nat)
      requires first <= from && to <= last
      ensures Faulted(from, to) ==> Faulted(first, last)
    {
    }
  }

  /** `ids` are the accounts that still lack the folded address. */
  ghost predicate Unfilled(users: Users, ids: seq<nat>) {
    forall id :: id in ids <==> id in users && users[id].folded.None?
  }

  /* ---- a collection on which the migration fails --------------------------------------- */

  /** Two accounts the old index admits, made with two spellings of one address. */
  const TWO_SPELLINGS: Users := map[
    1 := User("Ada@example.com", None, "Ada", "h1"),
    2 := User("ada@example.com", None, "ada", "h2")
  ]

  /**
   With the old index in place and no failing call, the start-up refuses and leaves both accounts
   filled in with the same folded address under neither unique index.
   */
  method CollisionLosesBothIndexes(lower: Lower)
    returns (ok: bool, legacy: bool, folded: bool, users: Users)
    requires NormalizeEmail(lower, "Ada@example.com") == NormalizeEmail(lower, "ada@example.com")
    ensures !ok && !legacy && !folded
    ensures users.Keys == {1, 2} && users[1].folded.Some? && users[1].folded == users[2].folded
  {
    hide NormalizeEmail;
    assert "Ada@example.com"[0] != "ada@example.com"[0];
    assert DistinctEmails(TWO_SPELLINGS) && WellFolded(lower, TWO_SPELLINGS);
    assert Folded(lower, TWO_SPELLINGS[1]) == Folded(lower, TWO_SPELLINGS[2]);
    assert !NoCollision(lower, TWO_SPELLINGS);
    var store := new AccountStore(lower, k => Answered, TWO_SPELLINGS, true, false);
    ok := store.EnsureIndexes();
    assert Backfilled(lower, TWO_SPELLINGS).Keys == {1, 2};
    legacy, folded, users := store.legacyIndex, store.foldedIndex, store.users;
  }

  /* ---- starting again after a failure ------------------------------------------------ */

  /** What one start may do to the accounts and the two unique indexes. */
  ghost predicate StartUp(lower: Lower, users: Users, legacy: bool, folded: bool,
                          users': Users, legacy': bool, folded': bool, ok: bool)
  {
    && PartlyFilled(lower, users, users')
    && (legacy' ==> legacy)
    && (legacy && !legacy' ==> AllFilled(users'))
    && (folded ==> folded')
    && (folded' && !folded ==> AllFilled(users') && DistinctFolded(users'))
    && (ok ==> AllFilled(users') && !legacy' && folded' && DistinctFolded(users'))
  }

  datatype Database = Database(users: Users, legacy: bool, folded: bool, ok: bool)

  /** Starts in a row, each from what the last one left behind. */
  ghost predicate Restarts(lower: Lower, run: seq<Database>) {
    forall i :: 0 <= i < |run| - 1 ==>
      var a, b := run[i], run[i + 1];
      StartUp(lower, a.users, a.legacy, a.folded, b.users, b.legacy, b.folded, b.ok)
  }

  /**
   However often the migration is interrupted: no account is lost or altered beyond its folded
   address, the old unique index is there as long as an account lacks one, and the first start
   that succeeds has reached exactly the accounts of an uninterrupted run.
   */
  lemma {:induction false} RestartsConverge(lower: Lower, run: seq<Database>, n: nat)
    requires n < |run| && Restarts(lower, run)
    ensures PartlyFilled(lower, run[0].users, run[n].users)
    ensures run[0].legacy && !AllFilled(run[n].users) ==> run[n].legacy
    ensures n > 0 && run[n].ok ==> run[n].users == Backfilled(lower, run[0].users)
                                   && DistinctFolded(run[n].users) && run[n].folded && !run[n].legacy
  {
    hide PartlyFilled, DistinctFolded, Backfilled, Filled, NoCollision;
    if n == 0 {
      StartFilling(lower, run[0].users);
    } else {
      RestartsConverge(lower, run, n - 1);
      var a, b := run[n - 1], run[n];
      assert b == run[n - 1 + 1];
      PartlyFilledTwice(lower, run[0].users, a.users, b.users);
      BackfillResumes(lower, run[0].users, b.users);
      if AllFilled(a.users) {
        FilledStaysFilled(lower, a.users, b.users);
      }
    }
  }

  lemma FilledStaysFilled(lower: Lower, a: Users, b: Users)
    requires PartlyFilled(lower, a, b) && AllFilled(a)
    ensures AllFilled(b)
  {
    hide Folded;
    assert a.Keys == b.Keys;
    forall id | id in b ensures b[id].folded.Some? {
      assert id in a.Keys;
    }
  }

  /* ---- one account per address ---------------------------------------------------------- */

  lemma JoiningKeepsFolding(lower: Lower, policy: Policy, users: Users, req: SignUp, newId: nat)
    requires WellFolded(lower, users) && NewUser(lower, policy, req).Some?
    ensures WellFolded(lower, users[newId := NewUser(lower, policy, req).value])
  {
    hide NormalizeEmail, TrimSpace;
  }

  lemma JoiningKeepsIndexes(users: Users, legacy: bool, folded: bool, u: User, newId: nat)
    requires newId !in users && !Conflicts(users, legacy, folded, u)
    requires (folded ==> DistinctFolded(users)) && (legacy ==> DistinctEmails(users))
    ensures folded ==> DistinctFolded(users[newId := u])
    ensures legacy ==> DistinctEmails(users[newId := u])
  {
  }

  /** What a migrated collection keeps from then on. */
  ghost predicate Migrated(lower: Lower, users: Users) {
    WellFolded(lower, users) && AllFilled(users) && DistinctFolded(users)
  }

  datatype AccountOp = Join(policy: Policy, req: SignUp, newId: nat) | SetPassword(id: nat, hash: string)

  function ApplyOp(lower: Lower, users: Users, op: AccountOp): Users {
    match op
    case Join(policy, req, newId) => Joined(lower, policy, users, false, true, req, newId).0
    case SetPassword(id, hash) => WithHash(users, id, hash)
  }

  function ApplyAll(lower: Lower, users: Users, ops: seq<AccountOp>): Users {
    if ops == [] then users else ApplyOp(lower, ApplyAll(lower, users, ops[..|ops| - 1]), ops[|ops| - 1])
  }

  lemma OpKeepsMigrated(lower: Lower, users: Users, op: AccountOp)
    requires Migrated(lower, users)
    ensures Migrated(lower, ApplyOp(lower, users, op))
    ensures forall id :: id in users ==>
              id in ApplyOp(lower, users, op) && ApplyOp(lower, users, op)[id].email == users[id].email
  {
    hide NormalizeEmail, TrimSpace;
    match op
    case Join(policy, req, newId) =>
      if NewUser(lower, policy, req).Some? {
        JoiningKeepsFolding(lower, policy, users, req, newId);
      }
    case SetPassword(id, hash) =>
  }

  /** Once the index exists, no run of signups and password changes lets two addresses fold together. */
  lemma {:induction false} AddressesStayUnique(lower: Lower, users: Users, ops: seq<AccountOp>)
    requires Migrated(lower, users)
    ensures Migrated(lower, ApplyAll(lower, users, ops)) && NoCollision(lower, ApplyAll(lower, users, ops))
    ensures forall id :: id in users ==>
              id in ApplyAll(lower, users, ops) && ApplyAll(lower, users, ops)[id].email == users[id].email
  {
    hide ApplyOp, DistinctFolded, WellFolded, NoCollision, AllFilled;
    if ops != [] {
      AddressesStayUnique(lower, users, ops[..|ops| - 1]);
      OpKeepsMigrated(lower, ApplyAll(lower, users, ops[..|ops| - 1]), ops[|ops| - 1]);
    }
    FilledMeansFolded(lower, ApplyAll(lower, users, ops));
  }

  /**
   An account, once there, is what every later login finds with any spelling that folds to its
   address, and no other spelling finds it.
   */
  lemma AnySpellingFindsTheAccount(lower: Lower, users: Users, ops: seq<AccountOp>, id: nat, typed: string,
                                   found: Option<nat>)
    requires Migrated(lower, users) && id in users
    requires FoundBy(ApplyAll(lower, users, ops), NormalizeEmail(lower, typed), found)
    ensures found == Some(id) <==> NormalizeEmail(lower, typed) == Folded(lower, users[id])
  {
    hide NormalizeEmail, ApplyAll;
    AddressesStayUnique(lower, users, ops);
    var after := ApplyAll(lower, users, ops);
    assert after[id].folded == Some(Folded(lower, after[id])) == Some(Folded(lower, users[id]));
  }

  /** A signup that passes validation is refused exactly when some account folds to its address. */
  lemma RefusedIffTaken(lower: Lower, policy: Policy, users: Users, req: SignUp, newId: nat)
    requires Migrated(lower, users) && newId !in users && NewUser(lower, policy, req).Some?
    requires NormalizeEmail(lower, req.email) != ""
    ensures Joined(lower, policy, users, false, true, req, newId).1 == Err(EmailTaken)
       <==> exists id :: id in users && Folded(lower, users[id]) == NormalizeEmail(lower, req.email)
    ensures Joined(lower, policy, users, false, true, req, newId).1 != Err(EmailTaken) ==>
              var users' := Joined(lower, policy, users, false, true, req, newId).0;
              newId in users' && Folded(lower, users'[newId]) == NormalizeEmail(lower, req.email)
  {
    FoldingATrimmedAddress(lower, req.email);
    hide NormalizeEmail, TrimSpace;
    var u := NewUser(lower, policy, req).value;
    assert u.folded == Some(NormalizeEmail(lower, req.email));
    if id :| id in users && Folded(lower, users[id]) == NormalizeEmail(lower, req.email) {
      assert users[id].folded == u.folded;
    }
  }
}
