/**
 What an account holds over any run of signups and password changes: the address and name typed at
 its signup and the hash of its last password (backend/internal/service/auth.go, Signup and
 ChangePassword).
 */
module AccountRuns {
  import opened Wrappers
  import opened Text
  import opened Emails
  import opened Accounts

  /** Everything one signup does: the account it stores, or the reason it stores none. */
  lemma SignupStores(lower: Lower, policy: Policy, users: Users, legacy: bool, folded: bool, req: SignUp, newId: nat)
    ensures var (users', r) := Joined(lower, policy, users, legacy, folded, req, newId);
            var email := TrimSpace(req.email);
            && (r == Err(InvalidRequest) <==>
                  email == "" || !policy.validEmail(email) || policy.cleanName(req.name) == "" || !policy.strong(req.password))
            && (r == Err(EmptyAddress) ==> lower(email) == "")
            && (r == Err(EmailTaken) ==>
                  newId in users || exists id :: id in users && ((folded && users[id].folded == Some(lower(email)))
                                                                 || (legacy && users[id].email == email)))
            && (r.Err? ==> users' == users && r != Err(Unavailable))
            && (r.Ok? ==>
                  && r.value == newId && newId !in users && lower(email) != ""
                  && users' == users[newId := User(email, Some(lower(email)), policy.cleanName(req.name),
                                                   policy.hash(req.password))]
                  && forall id :: id in users ==> !(folded && users[id].folded == Some(lower(email)))
                                                  && !(legacy && users[id].email == email))
  {
    TrimSpaceIdempotent(req.email);
    hide TrimSpace;
  }

  /** A password change gives one account the new hash, and changes nothing else anywhere. */
  lemma PasswordChangeIsLocal(lower: Lower, users: Users, id: nat, hash: string, other: nat)
    ensures var users' := ApplyOp(lower, users, SetPassword(id, hash));
            && (other in users' <==> other in users)
            && (other in users && other != id ==> users'[other] == users[other])
            && (id in users ==> users'[id].hash == hash && users'[id].email == users[id].email
                                && users'[id].name == users[id].name && users'[id].folded == users[id].folded)
  {
  }

  /** Operation k stores a hash for the account: the signup that makes it, or a password change on it. */
  predicate SetsHash(lower: Lower, users: Users, ops: seq<AccountOp>, id: nat, k: nat)
    requires k < |ops|
  {
    var before := ApplyAll(lower, users, ops[..k]);
    match ops[k]
    case Join(_, _, newId) => newId == id && id !in before && id in ApplyAll(lower, users, ops[..k + 1])
    case SetPassword(changed, _) => changed == id && id in before
  }

  /** What it stores. */
  function HashSet(op: AccountOp): string {
    match op
    case Join(policy, req, _) => policy.hash(req.password)
    case SetPassword(_, hash) => hash
  }

  /** Nothing before the run, or operation k with nothing after it, stored the account's hash last. */
  predicate LastHash(lower: Lower, users: Users, ops: seq<AccountOp>, id: nat, last: Option<nat>) {
    match last
    case None => id in users && forall k | 0 <= k < |ops| :: !SetsHash(lower, users, ops, id, k)
    case Some(k) => k < |ops| && SetsHash(lower, users, ops, id, k)
                    && forall j | k < j < |ops| :: !SetsHash(lower, users, ops, id, j)
  }

  lemma ApplyNext(lower: Lower, users: Users, ops: seq<AccountOp>, k: nat)
    requires k < |ops|
    ensures ApplyAll(lower, users, ops[..k + 1]) == ApplyOp(lower, ApplyAll(lower, users, ops[..k]), ops[k])
  {
    hide ApplyOp;
    assert ops[..k + 1][..k] == ops[..k];
  }

  lemma SetsHashInPrefix(lower: Lower, users: Users, ops: seq<AccountOp>, id: nat, n: nat)
    requires n <= |ops|
    ensures forall k | 0 <= k < n :: SetsHash(lower, users, ops[..n], id, k) == SetsHash(lower, users, ops, id, k)
  {
    hide ApplyAll;
    forall k | 0 <= k < n
      ensures SetsHash(lower, users, ops[..n], id, k) == SetsHash(lower, users, ops, id, k)
    {
      assert ops[..n][..k] == ops[..k] && ops[..n][..k + 1] == ops[..k + 1];
    }
  }

  /** One operation: the account is untouched, or gets the hash the operation sets. */
  lemma OneOperation(lower: Lower, users: Users, op: AccountOp, id: nat)
    ensures var users' := ApplyOp(lower, users, op);
            var sets := match op case Join(_, _, newId) => newId == id && id !in users && id in users'
                                 case SetPassword(changed, _) => changed == id && id in users;
            && (sets ==> id in users' && users'[id].hash == HashSet(op))
            && (!sets ==> (id in users' <==> id in users) && (id in users ==> users'[id] == users[id]))
            && (id in users ==> id in users' && users'[id].email == users[id].email && users'[id].name == users[id].name)
  {
    match op
    case Join(policy, req, newId) =>
      SignupStores(lower, policy, users, false, true, req, newId);
      hide Joined, TrimSpace;
    case SetPassword(changed, hash) =>
  }

  /**
   Over every run: an account is stored with the hash its last signup or password change gives, that
   is the policy's hash of the password typed, whoever else signs up or changes a password.
   */
  lemma {:induction false} HashIsOfTheLastPassword(lower: Lower, users: Users, ops: seq<AccountOp>, id: nat)
    returns (last: Option<nat>)
    requires id in ApplyAll(lower, users, ops)
    ensures LastHash(lower, users, ops, id, last)
    ensures ApplyAll(lower, users, ops)[id].hash == if last.None? then users[id].hash else HashSet(ops[last.value])
  {
    hide ApplyOp;
    if ops == [] {
      return None;
    }
    var n := |ops| - 1;
    var before, op := ApplyAll(lower, users, ops[..n]), ops[n];
    ApplyNext(lower, users, ops, n);
    assert ops[..n + 1] == ops;
    OneOperation(lower, before, op, id);
    SetsHashInPrefix(lower, users, ops, id, n);
    if SetsHash(lower, users, ops, id, n) {
      last := Some(n);
    } else {
      last := HashIsOfTheLastPassword(lower, users, ops[..n], id);
    }
  }

  /**
   From signup to login: whatever happens to other accounts, the account a signup made is found by
   every spelling that folds to the address it was made with, shows that address trimmed and the
   cleaned name, and until its password changes holds the hash of the password it was made with.
   */
  lemma SignupThenFind(lower: Lower, users: Users, policy: Policy, req: SignUp, newId: nat, ops: seq<AccountOp>,
                       typed: string, found: Option<nat>)
    requires Migrated(lower, users) && Joined(lower, policy, users, false, true, req, newId).1.Ok?
    requires forall k | 0 <= k < |ops| && ops[k].SetPassword? :: ops[k].id != newId
    requires lower(TrimSpace(typed)) == lower(TrimSpace(req.email))
    requires FoundBy(ApplyAll(lower, ApplyOp(lower, users, Join(policy, req, newId)), ops), lower(TrimSpace(typed)), found)
    ensures var after := ApplyAll(lower, ApplyOp(lower, users, Join(policy, req, newId)), ops);
            && found == Some(newId) && newId in after
            && after[newId].email == TrimSpace(req.email) && after[newId].name == policy.cleanName(req.name)
            && after[newId].hash == policy.hash(req.password)
  {
    SignupStores(lower, policy, users, false, true, req, newId);
    TrimSpaceIdempotent(req.email);
    OpKeepsMigrated(lower, users, Join(policy, req, newId));
    hide TrimSpace, ApplyAll, Migrated, Joined, FoundBy;
    var users' := ApplyOp(lower, users, Join(policy, req, newId));
    AnySpellingFindsTheAccount(lower, users', ops, newId, typed, found);
    SignupIsKept(lower, users', ops, newId);
  }

  /** Without a password change on it, an account is what it was. */
  lemma {:induction false} SignupIsKept(lower: Lower, users: Users, ops: seq<AccountOp>, id: nat)
    requires id in users && forall k | 0 <= k < |ops| && ops[k].SetPassword? :: ops[k].id != id
    ensures id in ApplyAll(lower, users, ops) && ApplyAll(lower, users, ops)[id] == users[id]
  {
    hide ApplyOp;
    if ops != [] {
      var n := |ops| - 1;
      SignupIsKept(lower, users, ops[..n], id);
      OneOperation(lower, ApplyAll(lower, users, ops[..n]), ops[n], id);
    }
  }
}
