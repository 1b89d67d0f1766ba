/** What the application endpoints keep over whole runs: validity, patches, isolation of users. */
module ApplicationRuns {
  import opened Wrappers
  import opened Text
  import opened Sanitising
  import opened Domain
  import opened Listings
  import opened Applications

  /* ---- every stored document is valid ----------------------------------------- */

  ghost predicate GoodText(s: string, max: nat) {
    |s| <= max && Inert(s)
  }

  /** A stored link is empty or an http(s) URL with a host. */
  ghost predicate GoodLink(env: Env, link: string) {
    || link == ""
    || (|link| <= MAX_LINK && env.parseUrl(link).Some? && env.parseUrl(link).value.host != ""
        && env.parseUrl(link).value.scheme in {"http", "https"})
  }

  ghost predicate GoodPay(c: Compensation) {
    GoodText(c.equity, MAX_EQUITY) && GoodList(c.benefits, MAX_BENEFIT, MAX_BENEFITS)
  }

  ghost predicate GoodApplication(env: Env, a: Application) {
    && a.company != "" && GoodText(a.company, MAX_COMPANY)
    && a.position != "" && GoodText(a.position, MAX_POSITION)
    && a.status in STATUSES
    && GoodLink(env, a.link)
    && GoodText(a.description, MAX_DESCRIPTION)
    && GoodText(a.notes, MAX_NOTES)
    && GoodList(a.location, MAX_LOCATION, MAX_LOCATIONS)
    && GoodList(a.tags, MAX_TAG, MAX_TAGS)
    && (a.compensation.Some? ==> GoodPay(a.compensation.value))
  }

  ghost predicate GoodDocs(env: Env, docs: Docs) {
    Keyed(docs) && forall id :: id in docs ==> GoodApplication(env, docs[id])
  }

  /** A value a valid patch may put into a field. */
  ghost predicate GoodValue(env: Env, f: Field, v: Value) {
    match f
    case CompanyName => v.Text? && v.text != "" && GoodText(v.text, MAX_COMPANY)
    case PositionTitle => v.Text? && v.text != "" && GoodText(v.text, MAX_POSITION)
    case Status => v.Text? && v.text in STATUSES
    case Location => v.Items? && GoodList(v.items, MAX_LOCATION, MAX_LOCATIONS)
    case Link => v.Text? && GoodLink(env, v.text)
    case Description => v.Text? && GoodText(v.text, MAX_DESCRIPTION)
    case Tags => v.Items? && GoodList(v.items, MAX_TAG, MAX_TAGS)
    case Notes => v.Text? && GoodText(v.text, MAX_NOTES)
    case AppliedAt => v.Instant?
    case NextFollowUpAt => v.Instant? || v == Nothing
    case Pay => v == Nothing || (v.Compensated? && GoodPay(v.pay))
    case UpdatedAt => v.Instant?
  }

  ghost predicate GoodSet(env: Env, s: Changes) {
    forall f :: f in s ==> GoodValue(env, f, s[f])
  }

  lemma LinkIsGood(env: Env, link: string)
    ensures JobLink(env, link).Ok? ==> GoodLink(env, JobLink(env, link).value)
  {
  }

  lemma SentIsGood(env: Env, p: Patch, f: Field)
    requires Rejection(env, p).None? && Sent(env, p, f).Some?
    ensures GoodValue(env, f, Sent(env, p, f).value)
  {
    hide Clean, Cleaned, TrimSpace, JobLink, GoodLink, GoodList, STATUSES;
    if p.link.Some? {
      LinkIsGood(env, p.link.value);
    }
    match f case _ =>
  }

  lemma SetIsGood(env: Env, p: Patch)
    requires Rejection(env, p).None?
    ensures GoodSet(env, SetOf(env, p))
  {
    hide Rejection, Sent, GoodValue;
    forall f | f in SetOf(env, p) ensures GoodValue(env, f, SetOf(env, p)[f]) {
      SentIsGood(env, p, f);
    }
  }

  lemma ApplySetKeepsGood(env: Env, a: Application, s: Changes)
    requires GoodApplication(env, a) && GoodSet(env, s)
    ensures GoodApplication(env, ApplySet(a, s))
  {
    hide GoodText, GoodLink, GoodList, GoodPay, STATUSES;
  }

  lemma CreatedIsGood(env: Env, owner: nat, req: CreateRequest, sent: int)
    ensures var r := NewApplication(env, owner, req, sent);
            r.Ok? ==> GoodApplication(env, r.value) && r.value.owner == owner
  {
    hide Clean, Cleaned, JobLink, GoodLink, GoodList, StatusOf, STATUSES;
    LinkIsGood(env, req.link);
  }

  lemma GoodAfterInsert(env: Env, docs: Docs, app: Application, newId: nat, now: int)
    requires GoodDocs(env, docs) && GoodApplication(env, app)
    ensures GoodDocs(env, Inserted(docs, app, newId, now).0)
  {
    hide GoodText, GoodLink, GoodList, GoodPay, STATUSES;
  }

  lemma GoodAfterUpdate(env: Env, docs: Docs, owner: nat, id: nat, s: Changes, now: int)
    requires GoodDocs(env, docs) && GoodSet(env, s)
    ensures GoodDocs(env, Updated(docs, owner, id, s, now).0)
  {
    hide GoodApplication, ApplySet;
    if Owns(docs, owner, id) {
      var stamped := s[UpdatedAt := Instant(now)];
      ApplySetKeepsGood(env, docs[id], stamped);
      ApplySetKeepsIdentity(docs[id], stamped);
    }
  }

  lemma ApplySetKeepsIdentity(a: Application, s: Changes)
    ensures var b := ApplySet(a, s); b.id == a.id && b.owner == a.owner && b.createdAt == a.createdAt
  {
  }

  lemma StepKeepsGood(env: Env, docs: Docs, op: Op)
    requires GoodDocs(env, docs)
    ensures GoodDocs(env, Step(env, docs, op).0)
  {
    hide GoodApplication, NewApplication, SetOf, Rejection, ObjectId, Listing, Inserted, Updated;
    match op
    case Create(user, req, newId, sent, now) =>
      if ObjectId(user).Some? {
        var uid := ObjectId(user).value;
        CreatedIsGood(env, uid, req, sent);
        if NewApplication(env, uid, req, sent).Ok? {
          GoodAfterInsert(env, docs, NewApplication(env, uid, req, sent).value, newId, now);
        }
      }
    case Update(user, id, patch, now) =>
      if ParseIds(user, id).Ok? && Rejection(env, patch).None? {
        SetIsGood(env, patch);
        GoodAfterUpdate(env, docs, ParseIds(user, id).value.0, ParseIds(user, id).value.1, SetOf(env, patch), now);
      }
    case _ =>
  }

  /** The collection after a run of requests. */
  function After(env: Env, docs: Docs, ops: seq<Op>): (r: Docs)
    requires Keyed(docs)
    ensures Keyed(r)
    decreases |ops|
  {
    if ops == [] then docs else
      StepKeepsKeys(env, docs, ops[0]);
      After(env, Step(env, docs, ops[0]).0, ops[1..])
  }

  /** Every document any run of requests leaves behind, starting from an empty collection, is valid. */
  lemma ReachableDocsAreValid(env: Env, ops: seq<Op>)
    ensures GoodDocs(env, After(env, map[], ops))
  {
    RunKeepsGood(env, map[], ops);
  }

  lemma {:induction false} RunKeepsGood(env: Env, docs: Docs, ops: seq<Op>)
    requires GoodDocs(env, docs)
    ensures GoodDocs(env, After(env, docs, ops))
    decreases |ops|
  {
    hide GoodApplication, Step;
    if ops != [] {
      StepKeepsKeys(env, docs, ops[0]);
      StepKeepsGood(env, docs, ops[0]);
      RunKeepsGood(env, Step(env, docs, ops[0]).0, ops[1..]);
    }
  }

  /* ---- what a PATCH changes ------------------------------------------------------- */

  /** The stored value of a field. */
  function FieldOf(a: Application, f: Field): Value {
    match f
    case CompanyName => Text(a.company)
    case PositionTitle => Text(a.position)
    case Status => Text(a.status)
    case Location => Items(a.location)
    case Link => Text(a.link)
    case Description => Text(a.description)
    case Tags => Items(a.tags)
    case Notes => Text(a.notes)
    case AppliedAt => Instant(a.appliedAt)
    case NextFollowUpAt => if a.followUp.Some? then Instant(a.followUp.value) else Nothing
    case Pay => if a.compensation.Some? then Compensated(a.compensation.value) else Nothing
    case UpdatedAt => Instant(a.updatedAt)
  }

  /** $set gives exactly the fields it names the values it names. */
  lemma SetChangesOnlyItsFields(env: Env, a: Application, s: Changes, f: Field)
    requires GoodSet(env, s)
    ensures FieldOf(ApplySet(a, s), f) == if f in s then s[f] else FieldOf(a, f)
  {
    hide GoodText, GoodLink, GoodList, GoodPay, STATUSES;
    if f in s {
      assert GoodValue(env, f, s[f]);
    }
    match f case _ =>
  }

  /** Two documents of one origin with the same fields are the same. */
  lemma FieldsDetermine(a: Application, b: Application)
    requires a.id == b.id && a.owner == b.owner && a.createdAt == b.createdAt
    requires forall f: Field :: FieldOf(a, f) == FieldOf(b, f)
    ensures a == b
  {
    assert FieldOf(a, CompanyName) == FieldOf(b, CompanyName);
    assert FieldOf(a, PositionTitle) == FieldOf(b, PositionTitle);
    assert FieldOf(a, Status) == FieldOf(b, Status);
    assert FieldOf(a, Location) == FieldOf(b, Location);
    assert FieldOf(a, Link) == FieldOf(b, Link);
    assert FieldOf(a, Description) == FieldOf(b, Description);
    assert FieldOf(a, Tags) == FieldOf(b, Tags);
    assert FieldOf(a, Notes) == FieldOf(b, Notes);
    assert FieldOf(a, AppliedAt) == FieldOf(b, AppliedAt);
    assert FieldOf(a, NextFollowUpAt) == FieldOf(b, NextFollowUpAt);
    assert FieldOf(a, Pay) == FieldOf(b, Pay);
    assert FieldOf(a, UpdatedAt) == FieldOf(b, UpdatedAt);
  }

  /** Two $sets in a row are their right-biased union. */
  lemma SetsCompose(env: Env, a: Application, s: Changes, t: Changes)
    requires GoodSet(env, s) && GoodSet(env, t)
    ensures ApplySet(ApplySet(a, s), t) == ApplySet(a, s + t)
  {
    hide ApplySet, FieldOf, GoodValue;
    assert GoodSet(env, s + t);
    var x, y := ApplySet(ApplySet(a, s), t), ApplySet(a, s + t);
    forall f: Field ensures FieldOf(x, f) == FieldOf(y, f) {
      SetChangesOnlyItsFields(env, a, s, f);
      SetChangesOnlyItsFields(env, ApplySet(a, s), t, f);
      SetChangesOnlyItsFields(env, a, s + t, f);
    }
    ApplySetKeepsIdentity(a, s);
    ApplySetKeepsIdentity(ApplySet(a, s), t);
    ApplySetKeepsIdentity(a, s + t);
    FieldsDetermine(x, y);
  }

  function Later<T>(a: Option<T>, b: Option<T>): Option<T> {
    if b.Some? then b else a
  }

  function LaterNullable<T>(a: Nullable<T>, b: Nullable<T>): Nullable<T> {
    if b.Absent? then a else b
  }

  /** One patch that says what `p` and then `q` say. */
  function Merge(p: Patch, q: Patch): Patch {
    Patch(Later(p.company, q.company), Later(p.position, q.position), Later(p.status, q.status),
          Later(p.location, q.location), Later(p.link, q.link), Later(p.description, q.description),
          Later(p.tags, q.tags), Later(p.notes, q.notes), Later(p.appliedAt, q.appliedAt),
          LaterNullable(p.followUp, q.followUp), LaterNullable(p.compensation, q.compensation))
  }

  lemma MergeSends(env: Env, p: Patch, q: Patch, f: Field)
    requires Rejection(env, p).None? && Rejection(env, q).None?
    ensures Sent(env, Merge(p, q), f) == Later(Sent(env, p, f), Sent(env, q, f))
  {
    hide Clean, Cleaned, TrimSpace, JobLink, STATUSES, CleanCompensation;
    match f case _ =>
  }

  lemma MergeIsUnion(env: Env, p: Patch, q: Patch)
    requires Rejection(env, p).None? && Rejection(env, q).None?
    ensures Rejection(env, Merge(p, q)).None?
    ensures SetOf(env, Merge(p, q)) == SetOf(env, p) + SetOf(env, q)
  {
    MergeIsAccepted(env, p, q);
    hide Rejection, Sent, Merge;
    forall f: Field ensures Sent(env, Merge(p, q), f) == Later(Sent(env, p, f), Sent(env, q, f)) {
      MergeSends(env, p, q, f);
    }
  }

  lemma MergeIsAccepted(env: Env, p: Patch, q: Patch)
    requires Rejection(env, p).None? && Rejection(env, q).None?
    ensures Rejection(env, Merge(p, q)).None?
  {
    hide Clean, TrimSpace, JobLink, STATUSES;
  }

  /**
   Two accepted patches in a row are one patch that merges them, with the time of the last one
   that said anything. This holds of the whole collection and of the answer, whoever owns the
   document and whether or not it is there.
   */
  lemma PatchesCompose(env: Env, docs: Docs, owner: nat, id: nat, p: Patch, q: Patch, first: int, second: int)
    requires Keyed(docs) && Rejection(env, p).None? && Rejection(env, q).None?
    ensures var s, t, both := SetOf(env, p), SetOf(env, q), SetOf(env, Merge(p, q));
            Updated(Updated(docs, owner, id, s, first).0, owner, id, t, second) ==
            Updated(docs, owner, id, both, if t == map[] then first else second)
  {
    hide Rejection, SetOf, Merge, ApplySet;
    MergeIsUnion(env, p, q);
    SetIsGood(env, p);
    SetIsGood(env, q);
    var s, t := SetOf(env, p), SetOf(env, q);
    if Owns(docs, owner, id) {
      if s == map[] {
        assert s + t == t;
      } else if t == map[] {
        assert s + t == s;
        ApplySetKeepsIdentity(docs[id], s[UpdatedAt := Instant(first)]);
      } else {
        var a, s', t' := docs[id], s[UpdatedAt := Instant(first)], t[UpdatedAt := Instant(second)];
        assert GoodSet(env, s') && GoodSet(env, t');
        SetsCompose(env, a, s', t');
        ApplySetKeepsIdentity(a, s');
        assert s' + t' == (s + t)[UpdatedAt := Instant(second)];
        assert docs[id := ApplySet(a, s')][id := ApplySet(ApplySet(a, s'), t')] ==
               docs[id := ApplySet(ApplySet(a, s'), t')];
        assert s + t != map[] by {
          var f :| f in t;
          assert f in s + t;
        }
      }
    }
  }

  /* ---- users cannot observe each other ---------------------------------------------- */

  function Owner(op: Op): Option<nat> {
    ObjectId(op.user)
  }

  /** The documents of one user. */
  function View(docs: Docs, owner: nat): (r: Docs)
    requires Keyed(docs)
    ensures Keyed(r)
  {
    map id | id in docs && docs[id].owner == owner :: docs[id]
  }

  /** No operation is handed an identifier that is in use, now or later in the run. */
  ghost predicate FreshIds(docs: Docs, ops: seq<Op>) {
    && (forall i :: 0 <= i < |ops| && ops[i].Create? ==> ops[i].newId !in docs)
    && (forall i, j :: 0 <= i < j < |ops| && ops[i].Create? && ops[j].Create? ==> ops[i].newId != ops[j].newId)
  }

  lemma MatchingSeesOnlyOwn(env: Env, docs: Docs, owner: nat, q: Query)
    requires Keyed(docs)
    ensures Matching(env, docs, owner, q) == Matching(env, View(docs, owner), owner, q)
  {
    var own := View(docs, owner);
    forall a ensures a in Matching(env, docs, owner, q) <==> a in Matching(env, own, owner, q) {
      if a in docs.Values && a.owner == owner {
        assert own[a.id] == a && a.id in own;
      }
    }
  }

  lemma ListSeesOnlyOwn(env: Env, docs: Docs, user: string, q: Query)
    requires Keyed(docs) && ObjectId(user).Some?
    ensures ListAnswer(env, docs, user, q) == ListAnswer(env, View(docs, ObjectId(user).value), user, q)
  {
    hide Matches, View, ObjectId, STATUSES;
    var owner := ObjectId(user).value;
    KeyedMatching(env, docs, owner, q);
    MatchingSeesOnlyOwn(env, docs, owner, q);
  }

  /** A user's request is answered from that user's documents alone, and changes only them. */
  lemma OwnStep(env: Env, docs: Docs, op: Op, owner: nat)
    requires Keyed(docs) && Owner(op) == Some(owner)
    requires op.Create? ==> op.newId !in docs
    ensures Step(env, docs, op).1 == Step(env, View(docs, owner), op).1
    ensures Keyed(Step(env, docs, op).0)
    ensures View(Step(env, docs, op).0, owner) == Step(env, View(docs, owner), op).0
  {
    hide NewApplication, ApplySet, SetOf, Rejection, ObjectId, ListAnswer;
    StepKeepsKeys(env, docs, op);
    match op
    case Create(user, req, newId, sent, now) =>
      CreatedIsGood(env, owner, req, sent);
    case List(user, query) =>
      ListSeesOnlyOwn(env, docs, user, query);
    case Update(user, id, patch, now) =>
      if ParseIds(user, id).Ok? && Owns(docs, owner, ParseIds(user, id).value.1) {
        ApplySetKeepsIdentity(docs[ParseIds(user, id).value.1], SetOf(env, patch)[UpdatedAt := Instant(now)]);
      }
    case _ =>
  }

  /** Somebody else's request leaves a user's documents as they are. */
  lemma OtherStep(env: Env, docs: Docs, op: Op, owner: nat)
    requires Keyed(docs) && Owner(op) != Some(owner)
    ensures Keyed(Step(env, docs, op).0)
    ensures View(Step(env, docs, op).0, owner) == View(docs, owner)
  {
    hide NewApplication, ApplySet, SetOf, Rejection, ObjectId, ListAnswer;
    StepKeepsKeys(env, docs, op);
    match op
    case Create(user, req, newId, sent, now) =>
      if ObjectId(user).Some? {
        CreatedIsGood(env, ObjectId(user).value, req, sent);
      }
    case Update(user, id, patch, now) =>
      if ParseIds(user, id).Ok? && Owns(docs, ParseIds(user, id).value.0, ParseIds(user, id).value.1) {
        ApplySetKeepsIdentity(docs[ParseIds(user, id).value.1], SetOf(env, patch)[UpdatedAt := Instant(now)]);
      }
    case _ =>
  }

  lemma StepTakesOneId(env: Env, docs: Docs, op: Op)
    requires Keyed(docs)
    ensures forall id :: id in Step(env, docs, op).0 ==> id in docs || (op.Create? && id == op.newId)
  {
    hide NewApplication, ApplySet, SetOf, Rejection, ObjectId, ListAnswer;
  }

  lemma FreshIdsStayFresh(env: Env, docs: Docs, ops: seq<Op>)
    requires Keyed(docs) && FreshIds(docs, ops) && ops != []
    ensures FreshIds(Step(env, docs, ops[0]).0, ops[1..])
  {
    hide Step;
    StepTakesOneId(env, docs, ops[0]);
  }

  /** The answers to the requests of one user in a run of everybody's. */
  function AnswersTo(env: Env, docs: Docs, ops: seq<Op>, owner: nat): seq<Answer>
    requires Keyed(docs)
    decreases |ops|
  {
    if ops == [] then [] else
      StepKeepsKeys(env, docs, ops[0]);
      var (docs', answer) := Step(env, docs, ops[0]);
      (if Owner(ops[0]) == Some(owner) then [answer] else []) + AnswersTo(env, docs', ops[1..], owner)
  }

  function Answers(env: Env, docs: Docs, ops: seq<Op>): seq<Answer>
    requires Keyed(docs)
    decreases |ops|
  {
    if ops == [] then [] else
      StepKeepsKeys(env, docs, ops[0]);
      var (docs', answer) := Step(env, docs, ops[0]);
      [answer] + Answers(env, docs', ops[1..])
  }

  /** A run without the requests of anyone else. */
  function Only(ops: seq<Op>, owner: nat): seq<Op> {
    if ops == [] then []
    else (if Owner(ops[0]) == Some(owner) then [ops[0]] else []) + Only(ops[1..], owner)
  }

  /**
   Non-interference: whatever the other users do and however the requests interleave, one user
   receives exactly the answers of the run in which nobody else was there.
   */
  lemma {:induction false} UsersDoNotInterfere(env: Env, docs: Docs, ops: seq<Op>, owner: nat)
    requires Keyed(docs) && FreshIds(docs, ops)
    ensures AnswersTo(env, docs, ops, owner) == Answers(env, View(docs, owner), Only(ops, owner))
    ensures View(After(env, docs, ops), owner) == After(env, View(docs, owner), Only(ops, owner))
    decreases |ops|
  {
    hide Step, View, Owner;
    if ops != [] {
      var op, rest := ops[0], ops[1..];
      StepKeepsKeys(env, docs, op);
      FreshIdsStayFresh(env, docs, ops);
      var docs' := Step(env, docs, op).0;
      UsersDoNotInterfere(env, docs', rest, owner);
      if Owner(op) == Some(owner) {
        OwnStep(env, docs, op, owner);
        var kept := Only(ops, owner);
        assert kept == [op] + Only(rest, owner);
        assert kept[0] == op && kept[1..] == Only(rest, owner);
      } else {
        OtherStep(env, docs, op, owner);
        assert Only(ops, owner) == Only(rest, owner);
        assert AnswersTo(env, docs, ops, owner) == AnswersTo(env, docs', rest, owner);
      }
    }
  }

  /** Somebody else's document answers like one that was never there. */
  lemma ForeignLooksAbsent(env: Env, docs: Docs, op: Op, owner: nat, id: nat)
    requires Keyed(docs) && Owner(op) == Some(owner)
    requires id in docs && docs[id].owner != owner
    requires op.Create? ==> op.newId !in docs
    ensures Step(env, docs, op).1 == Step(env, docs - {id}, op).1
  {
    hide Step;
    OwnStep(env, docs, op, owner);
    OwnStep(env, docs - {id}, op, owner);
    assert View(docs, owner) == View(docs - {id}, owner);
  }

  /** From an empty collection: a user alone and a user among others see the same. */
  lemma UsersSeeOnlyTheirOwn(env: Env, ops: seq<Op>, owner: nat)
    requires FreshIds(map[], ops)
    ensures AnswersTo(env, map[], ops, owner) == Answers(env, map[], Only(ops, owner))
  {
    UsersDoNotInterfere(env, map[], ops, owner);
    assert View(map[], owner) == map[];
  }
}
