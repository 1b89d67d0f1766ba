/**
 The application endpoints over one collection, every operation scoped by its owner:
 backend/internal/service/application.go and backend/internal/common/mongoWrap/application.go.

 Parsing a URL and matching a search text (a case-insensitive literal regular expression) are
 parameters, and so are the fresh identifier and the clock readings of an operation.
 */
module Applications {
  import opened Wrappers
  import opened Text
  import opened Sanitising
  import opened Domain
  import opened Listings

  const MAX_COMPANY: nat := 200
  const MAX_POSITION: nat := 200
  const MAX_LINK: nat := 2000
  const MAX_DESCRIPTION: nat := 50_000
  const MAX_NOTES: nat := 20_000
  const MAX_LOCATION: nat := 200
  const MAX_LOCATIONS: nat := 20
  const MAX_TAG: nat := 50
  const MAX_TAGS: nat := 30
  const MAX_EQUITY: nat := 200
  const MAX_BENEFIT: nat := 100
  const MAX_BENEFITS: nat := 30
  const MAX_SEARCH: nat := 200
  const DEFAULT_PAGE_SIZE: int := 20
  const MAX_PAGE_SIZE: int := 200

  datatype Url = Url(scheme: string, host: string)

  datatype Env = Env(parseUrl: string -> Option<Url>, like: (string, string) -> bool)

  /** A rejected field, no such application, or a failure of the database. */
  datatype Error = Invalid(field: string) | NotFound | Internal

  /* ---- identifiers --------------------------------------------------------- */

  function HexDigit(c: char): Option<nat> {
    if '0' <= c <= '9' then Some((c - '0') as nat)
    else if 'a' <= c <= 'f' then Some((c - 'a') as nat + 10)
    else if 'A' <= c <= 'F' then Some((c - 'A') as nat + 10)
    else None
  }

  function HexValue(s: string): Option<nat> {
    if s == "" then Some(0) else
      var front, d := HexValue(s[..|s| - 1]), HexDigit(s[|s| - 1]);
      if front.Some? && d.Some? then Some(front.value * 16 + d.value) else None
  }

  /** bson.ObjectIDFromHex: 24 hexadecimal digits of either case. */
  function ObjectId(hex: string): Option<nat> {
    if |hex| == 24 then HexValue(hex) else None
  }

  function LowerHex(c: char): char {
    if 'A' <= c <= 'F' then 'a' + (c - 'A') else c
  }

  lemma SameDigit(c: char, d: char)
    requires HexDigit(c).Some? && HexDigit(d).Some?
    ensures HexDigit(c) == HexDigit(d) <==> LowerHex(c) == LowerHex(d)
  {
  }

  predicate SameUpToCase(a: string, b: string)
    requires |a| == |b|
  {
    forall i :: 0 <= i < |a| ==> LowerHex(a[i]) == LowerHex(b[i])
  }

  lemma SameUpToCaseSnoc(a: string, b: string)
    requires |a| == |b| && a != ""
    ensures var n := |a| - 1;
            SameUpToCase(a, b) <==> SameUpToCase(a[..n], b[..n]) && LowerHex(a[n]) == LowerHex(b[n])
  {
    hide LowerHex;
    var n := |a| - 1;
    if SameUpToCase(a[..n], b[..n]) && LowerHex(a[n]) == LowerHex(b[n]) {
      forall i | 0 <= i < |a| ensures LowerHex(a[i]) == LowerHex(b[i]) {
        assert i < n ==> a[..n][i] == a[i] && b[..n][i] == b[i];
      }
    }
  }

  /** Two written identifiers are one exactly when they differ in the case of letters only. */
  lemma {:induction false} SameIdentifier(a: string, b: string)
    requires |a| == |b| && HexValue(a).Some? && HexValue(b).Some?
    ensures HexValue(a) == HexValue(b) <==> SameUpToCase(a, b)
  {
    hide LowerHex, SameUpToCase, HexValue, HexDigit;
    if a != "" {
      var n := |a| - 1;
      LastDigit(a);
      LastDigit(b);
      SameIdentifier(a[..n], b[..n]);
      SameDigit(a[n], b[n]);
      SameUpToCaseSnoc(a, b);
    } else {
      NothingDiffers(a, b);
    }
  }

  lemma LastDigit(a: string)
    requires a != "" && HexValue(a).Some?
    ensures var front, d := HexValue(a[..|a| - 1]), HexDigit(a[|a| - 1]);
            front.Some? && d.Some? && d.value < 16 && HexValue(a).value == front.value * 16 + d.value
  {
  }

  lemma NothingDiffers(a: string, b: string)
    requires |a| == |b| == 0
    ensures SameUpToCase(a, b) && HexValue(a) == HexValue(b)
  {
  }

  /** Both identifiers at once: a malformed application id is an application that is not there. */
  function ParseIds(user: string, id: string): Result<(nat, nat), Error> {
    if ObjectId(user).None? then Err(Invalid("user_id"))
    else if ObjectId(id).None? then Err(NotFound)
    else Ok((ObjectId(user).value, ObjectId(id).value))
  }

  /* ---- validation ------------------------------------------------------------ */

  /** validateJobLink. */
  function JobLink(env: Env, link: string): Result<string, Error> {
    var l := TrimSpace(link);
    if l == "" then Ok("")
    else if |l| > MAX_LINK then Err(Invalid("job_link"))
    else
      var u := env.parseUrl(l);
      if u.None? || (u.value.scheme != "http" && u.value.scheme != "https") || u.value.host == ""
      then Err(Invalid("job_link")) else Ok(l)
  }

  function CleanCompensation(c: Compensation): Compensation {
    c.(equity := Clean(c.equity, MAX_EQUITY), benefits := Cleaned(c.benefits, MAX_BENEFIT, MAX_BENEFITS))
  }

  function StatusOf(req: CreateRequest): string {
    var s := TrimSpace(req.status);
    if s == "" then "applied" else s
  }

  /** The document Create inserts, before the store stamps its id and times. */
  function NewApplication(env: Env, owner: nat, req: CreateRequest, sent: int): Result<Application, Error> {
    if Clean(req.company, MAX_COMPANY) == "" then Err(Invalid("company_name"))
    else if Clean(req.position, MAX_POSITION) == "" then Err(Invalid("position_title"))
    else if StatusOf(req) !in STATUSES then Err(Invalid("status"))
    else if JobLink(env, req.link).Err? then Err(JobLink(env, req.link).error)
    else Ok(Application(
      0, owner,
      Clean(req.company, MAX_COMPANY),
      Clean(req.position, MAX_POSITION),
      StatusOf(req),
      Cleaned(req.location, MAX_LOCATION, MAX_LOCATIONS),
      JobLink(env, req.link).value,
      Clean(req.description, MAX_DESCRIPTION),
      Cleaned(req.tags, MAX_TAG, MAX_TAGS),
      Clean(req.notes, MAX_NOTES),
      (match req.compensation case None => None case Some(c) => Some(CleanCompensation(c))),
      (match req.appliedAt case None => sent case Some(t) => t),
      req.followUp, 0, 0))
  }

  /* ---- the $set of a PATCH ----------------------------------------------------- */

  datatype Field = CompanyName | PositionTitle | Status | Location | Link | Description | Tags | Notes
    | AppliedAt | NextFollowUpAt | Pay | UpdatedAt

  datatype Value = Text(text: string) | Items(items: seq<string>) | Instant(at: int)
    | Compensated(pay: Compensation) | Nothing

  type Changes = map<Field, Value>

  /** What a valid patch says about one field. */
  function Sent(env: Env, p: Patch, f: Field): Option<Value> {
    match f
    case CompanyName => if p.company.Some? then Some(Text(Clean(p.company.value, MAX_COMPANY))) else None
    case PositionTitle => if p.position.Some? then Some(Text(Clean(p.position.value, MAX_POSITION))) else None
    case Status => if p.status.Some? then Some(Text(TrimSpace(p.status.value))) else None
    case Location =>
      if p.location.Some? then Some(Items(Cleaned(p.location.value, MAX_LOCATION, MAX_LOCATIONS))) else None
    case Link =>
      if p.link.Some? && JobLink(env, p.link.value).Ok? then Some(Text(JobLink(env, p.link.value).value)) else None
    case Description =>
      if p.description.Some? then Some(Text(Clean(p.description.value, MAX_DESCRIPTION))) else None
    case Tags => if p.tags.Some? then Some(Items(Cleaned(p.tags.value, MAX_TAG, MAX_TAGS))) else None
    case Notes => if p.notes.Some? then Some(Text(Clean(p.notes.value, MAX_NOTES))) else None
    case AppliedAt => if p.appliedAt.Some? then Some(Instant(p.appliedAt.value)) else None
    case NextFollowUpAt =>
      (match p.followUp
       case Null => Some(Nothing)
       case Given(t) => Some(Instant(t))
       case _ => None)
    case Pay =>
      (match p.compensation
       case Null => Some(Nothing)
       case Given(c) => Some(Compensated(CleanCompensation(c)))
       case _ => None)
    case UpdatedAt => None
  }

  function SetOf(env: Env, p: Patch): Changes {
    map f: Field | Sent(env, p, f).Some? :: Sent(env, p, f).value
  }

  /** The first rejected field, in the order the service looks at them. */
  function Rejection(env: Env, p: Patch): Option<Error> {
    if p.company.Some? && Clean(p.company.value, MAX_COMPANY) == "" then Some(Invalid("company_name"))
    else if p.position.Some? && Clean(p.position.value, MAX_POSITION) == "" then Some(Invalid("position_title"))
    else if p.status.Some? && TrimSpace(p.status.value) !in STATUSES then Some(Invalid("status"))
    else if p.link.Some? && JobLink(env, p.link.value).Err? then Some(JobLink(env, p.link.value).error)
    else if p.followUp.Malformed? then Some(Invalid("next_follow_up_at"))
    else if p.compensation.Malformed? then Some(Invalid("compensation"))
    else None
  }

  function TextIn(set_: Changes, f: Field, was: string): string {
    if f in set_ && set_[f].Text? then set_[f].text else was
  }

  function ItemsIn(set_: Changes, f: Field, was: seq<string>): seq<string> {
    if f in set_ && set_[f].Items? then set_[f].items else was
  }

  function TimeIn(set_: Changes, f: Field, was: int): int {
    if f in set_ && set_[f].Instant? then set_[f].at else was
  }

  /** $set: the fields named are replaced, a null is stored as nothing. */
  function ApplySet(a: Application, s: Changes): Application {
    a.(company := TextIn(s, CompanyName, a.company),
       position := TextIn(s, PositionTitle, a.position),
       status := TextIn(s, Status, a.status),
       location := ItemsIn(s, Location, a.location),
       link := TextIn(s, Link, a.link),
       description := TextIn(s, Description, a.description),
       tags := ItemsIn(s, Tags, a.tags),
       notes := TextIn(s, Notes, a.notes),
       appliedAt := TimeIn(s, AppliedAt, a.appliedAt),
       followUp := if NextFollowUpAt !in s then a.followUp
                   else if s[NextFollowUpAt].Instant? then Some(s[NextFollowUpAt].at) else None,
       compensation := if Pay !in s then a.compensation
                       else if s[Pay].Compensated? then Some(s[Pay].pay) else None,
       updatedAt := TimeIn(s, UpdatedAt, a.updatedAt))
  }

  /* ---- one operation on the collection ------------------------------------------ */

  type Docs = map<nat, Application>

  datatype Op =
    | Create(user: string, req: CreateRequest, newId: nat, sent: int, now: int)
    | Get(user: string, id: string)
    | List(user: string, query: Query)
    | Update(user: string, id: string, patch: Patch, now: int)
    | Delete(user: string, id: string)

  datatype Answer = Document(app: Application) | Listed(page: ListPage) | Deleted | Failed(error: Error)

  datatype ListPage = ListPage(apps: seq<Application>, number: int, size: int, total: nat)

  predicate Owns(docs: Docs, owner: nat, id: nat) {
    id in docs && docs[id].owner == owner
  }

  /** InsertOne with a stamped id: a taken _id is a duplicate-key error. */
  function Inserted(docs: Docs, app: Application, newId: nat, now: int): (Docs, Answer) {
    var stamped := app.(id := newId, createdAt := now, updatedAt := now);
    if newId in docs then (docs, Failed(Internal)) else (docs[newId := stamped], Document(stamped))
  }

  function Found(docs: Docs, owner: nat, id: nat): Answer {
    if Owns(docs, owner, id) then Document(docs[id]) else Failed(NotFound)
  }

  /** An empty $set is a read; any other also stamps updated_at. */
  function Updated(docs: Docs, owner: nat, id: nat, s: Changes, now: int): (Docs, Answer) {
    if s == map[] || !Owns(docs, owner, id) then (docs, Found(docs, owner, id))
    else
      var app := ApplySet(docs[id], s[UpdatedAt := Instant(now)]);
      (docs[id := app], Document(app))
  }

  function Removed(docs: Docs, owner: nat, id: nat): (Docs, Answer) {
    if Owns(docs, owner, id) then (docs - {id}, Deleted) else (docs, Failed(NotFound))
  }

  predicate Matches(env: Env, owner: nat, q: Query, a: Application) {
    && a.owner == owner
    && (q.status == "" || a.status == q.status)
    && (q.tag == "" || q.tag in a.tags)
    && (q.search == "" || env.like(q.search, a.company) || env.like(q.search, a.position)
        || (exists t :: t in a.tags && env.like(q.search, t)) || env.like(q.search, a.notes))
  }

  function Matching(env: Env, docs: Docs, owner: nat, q: Query): set<Application> {
    set a | a in docs.Values && Matches(env, owner, q, a)
  }

  /** Every document is stored under its own id. */
  ghost predicate Keyed(docs: Docs) {
    forall id :: id in docs ==> docs[id].id == id
  }

  lemma KeyedMatching(env: Env, docs: Docs, owner: nat, q: Query)
    requires Keyed(docs)
    ensures DistinctIds(Matching(env, docs, owner, q))
  {
  }

  /** Every document the query matches, newest first. */
  function Listing(env: Env, docs: Docs, owner: nat, q: Query): (l: seq<Application>)
    requires Keyed(docs)
    ensures Lists(l, Matching(env, docs, owner, q))
  {
    KeyedMatching(env, docs, owner, q);
    Sorted(Matching(env, docs, owner, q))
  }

  function PageNumber(q: Query): int {
    if q.page < 1 then 1 else q.page
  }

  function PageSize(q: Query): int {
    if q.size < 1 then DEFAULT_PAGE_SIZE else if q.size > MAX_PAGE_SIZE then MAX_PAGE_SIZE else q.size
  }

  function ListAnswer(env: Env, docs: Docs, user: string, q: Query): Answer
    requires Keyed(docs)
  {
    if ObjectId(user).None? then Failed(Invalid("user_id"))
    else if q.status != "" && q.status !in STATUSES then Failed(Invalid("status"))
    else if |q.search| > MAX_SEARCH then Failed(Invalid("q"))
    else
      var l := Listing(env, docs, ObjectId(user).value, q);
      Listed(ListPage(Page(l, PageNumber(q), PageSize(q)), PageNumber(q), PageSize(q), |l|))
  }

  /** Whatever the page, its documents are the caller's and have the status and the tag asked for. */
  lemma ListedMatch(env: Env, docs: Docs, owner: nat, q: Query, page: int, size: int)
    requires Keyed(docs) && page >= 1 && size >= 1
    ensures forall a | a in Page(Listing(env, docs, owner, q), page, size) ::
              a in docs.Values && a.owner == owner
              && (q.status != "" ==> a.status == q.status) && (q.tag != "" ==> q.tag in a.tags)
  {
    hide Listing;
    var l := Listing(env, docs, owner, q);
    forall a | a in Page(l, page, size)
      ensures a in Matching(env, docs, owner, q)
    {
      assert a in l;
    }
  }

  /** What one request does to the collection and answers. */
  function Step(env: Env, docs: Docs, op: Op): (r: (Docs, Answer))
    requires Keyed(docs)
  {
    match op
    case Create(user, req, newId, sent, now) =>
      if ObjectId(user).None? then (docs, Failed(Invalid("user_id")))
      else
        var app := NewApplication(env, ObjectId(user).value, req, sent);
        if app.Err? then (docs, Failed(app.error)) else Inserted(docs, app.value, newId, now)
    case Get(user, id) =>
      var ids := ParseIds(user, id);
      (docs, if ids.Err? then Failed(ids.error) else Found(docs, ids.value.0, ids.value.1))
    case List(user, query) => (docs, ListAnswer(env, docs, user, query))
    case Update(user, id, patch, now) =>
      var ids := ParseIds(user, id);
      if ids.Err? then (docs, Failed(ids.error))
      else if Rejection(env, patch).Some? then (docs, Failed(Rejection(env, patch).value))
      else Updated(docs, ids.value.0, ids.value.1, SetOf(env, patch), now)
    case Delete(user, id) =>
      var ids := ParseIds(user, id);
      if ids.Err? then (docs, Failed(ids.error)) else Removed(docs, ids.value.0, ids.value.1)
  }

  lemma StepKeepsKeys(env: Env, docs: Docs, op: Op)
    requires Keyed(docs)
    ensures Keyed(Step(env, docs, op).0)
  {
    hide NewApplication, Rejection, SetOf, ObjectId, Listing;
  }

  /* ---- the service ------------------------------------------------------------------ */

  /** The applications collection. */
  class Collection {
    var docs: Docs

    ghost predicate Valid()
      reads this
    {
      Keyed(docs)
    }

    constructor ()
      ensures Valid() && docs == map[]
    {
      docs := map[];
    }

    method CreateApplication(app: Application, newId: nat, now: int) returns (answer: Answer)
      requires Valid()
      modifies this
      ensures Valid() && (docs, answer) == Inserted(old(docs), app, newId, now)
    {
      var stamped := app.(id := newId, createdAt := now, updatedAt := now);
      if newId in docs {
        return Failed(Internal);
      }
      docs := docs[newId := stamped];
      return Document(stamped);
    }

    method FindApplication(id: nat, owner: nat) returns (answer: Answer)
      ensures answer == Found(docs, owner, id)
    {
      if id in docs && docs[id].owner == owner {
        return Document(docs[id]);
      }
      return Failed(NotFound);
    }

    method UpdateApplication(id: nat, owner: nat, s: Changes, now: int) returns (answer: Answer)
      requires Valid()
      modifies this
      ensures Valid() && (docs, answer) == Updated(old(docs), owner, id, s, now)
    {
      if s == map[] {
        answer := FindApplication(id, owner);
        return;
      }
      var stamped := s[UpdatedAt := Instant(now)];
      if id !in docs || docs[id].owner != owner {
        return Failed(NotFound);
      }
      docs := docs[id := ApplySet(docs[id], stamped)];
      return Document(docs[id]);
    }

    method DeleteApplication(id: nat, owner: nat) returns (answer: Answer)
      requires Valid()
      modifies this
      ensures Valid() && (docs, answer) == Removed(old(docs), owner, id)
    {
      if id !in docs || docs[id].owner != owner {
        return Failed(NotFound);
      }
      docs := docs - {id};
      return Deleted;
    }
  }

  class Service {
    const env: Env
    const store: Collection

    constructor (env: Env, store: Collection)
      ensures this.env == env && this.store == store
    {
      this.env, this.store := env, store;
    }

    /** Create: every field is cleaned before the document is built. */
    method Create(user: string, req: CreateRequest, newId: nat, sent: int, now: int) returns (answer: Answer)
      requires store.Valid()
      modifies store
      ensures store.Valid()
      ensures (store.docs, answer) == Step(env, old(store.docs), Op.Create(user, req, newId, sent, now))
    {
      hide Clean, Cleaned, TrimSpace, ObjectId, Keyed, STATUSES;
      var uid := ObjectId(user);
      if uid.None? {
        return Failed(Invalid("user_id"));
      }
      var company := Clean(req.company, MAX_COMPANY);
      if company == "" {
        return Failed(Invalid("company_name"));
      }
      var position := Clean(req.position, MAX_POSITION);
      if position == "" {
        return Failed(Invalid("position_title"));
      }
      var status := TrimSpace(req.status);
      if status == "" {
        status := "applied";
      }
      if status !in STATUSES {
        return Failed(Invalid("status"));
      }
      var link := JobLink(env, req.link);
      if link.Err? {
        return Failed(link.error);
      }
      var appliedAt := sent;
      if req.appliedAt.Some? {
        appliedAt := req.appliedAt.value;
      }
      var location := CleanList(req.location, MAX_LOCATION, MAX_LOCATIONS);
      var tags := CleanList(req.tags, MAX_TAG, MAX_TAGS);
      var compensation: Option<Compensation> := None;
      if req.compensation.Some? {
        var pay := Compensate(req.compensation.value);
        compensation := Some(pay);
      }
      var app := Application(0, uid.value, company, position, status, location, link.value,
                             Clean(req.description, MAX_DESCRIPTION), tags, Clean(req.notes, MAX_NOTES),
                             compensation, appliedAt, req.followUp, 0, 0);
      answer := store.CreateApplication(app, newId, now);
    }

    method Compensate(c: Compensation) returns (r: Compensation)
      ensures r == CleanCompensation(c)
    {
      var benefits := CleanList(c.benefits, MAX_BENEFIT, MAX_BENEFITS);
      return Compensation(c.baseSalary, c.bonus, Clean(c.equity, MAX_EQUITY), benefits);
    }

    method Get(user: string, id: string) returns (answer: Answer)
      requires store.Valid()
      ensures answer == Step(env, store.docs, Op.Get(user, id)).1
    {
      hide ObjectId;
      var ids := ParseIds(user, id);
      if ids.Err? {
        return Failed(ids.error);
      }
      answer := store.FindApplication(ids.value.1, ids.value.0);
    }

    method List(user: string, query: Query) returns (answer: Answer)
      requires store.Valid()
      ensures answer == Step(env, store.docs, Op.List(user, query)).1
      ensures answer.Listed? ==>
                ObjectId(user).Some? && forall a | a in answer.page.apps ::
                  && a in store.docs.Values && a.owner == ObjectId(user).value
                  && (query.status != "" ==> a.status == query.status) && (query.tag != "" ==> query.tag in a.tags)
    {
      hide ObjectId, Listing, Page, STATUSES, Lists, DistinctIds;
      var uid := ObjectId(user);
      if uid.None? {
        return Failed(Invalid("user_id"));
      }
      if query.status != "" && query.status !in STATUSES {
        return Failed(Invalid("status"));
      }
      if |query.search| > MAX_SEARCH {
        return Failed(Invalid("q"));
      }
      var page, size := query.page, query.size;
      if page < 1 {
        page := 1;
      }
      if size < 1 {
        size := DEFAULT_PAGE_SIZE;
      }
      if size > MAX_PAGE_SIZE {
        size := MAX_PAGE_SIZE;
      }
      var l := Listing(env, store.docs, uid.value, query);
      ListedMatch(env, store.docs, uid.value, query, page, size);
      return Listed(ListPage(Page(l, page, size), page, size, |l|));
    }

    method Update(user: string, id: string, patch: Patch, now: int) returns (answer: Answer)
      requires store.Valid()
      modifies store
      ensures store.Valid()
      ensures (store.docs, answer) == Step(env, old(store.docs), Op.Update(user, id, patch, now))
    {
      hide Keyed, SetOf, Sent, Updated, Rejection, ObjectId;
      var ids := ParseIds(user, id);
      if ids.Err? {
        return Failed(ids.error);
      }
      var s := BuildSet(patch);
      if s.Err? {
        return Failed(s.error);
      }
      answer := store.UpdateApplication(ids.value.1, ids.value.0, s.value, now);
    }

    /** The `set` map Update fills, field by field, giving up at the first rejected one. */
    method BuildSet(patch: Patch) returns (r: Result<Changes, Error>)
      ensures r == Outcome(Rejection(env, patch), SetOf(env, patch))
    {
      hide Clean, Cleaned, TrimSpace, JobLink, STATUSES, SetOf, SetUpTo;
      var s: Changes := map[];
      if patch.company.Some? {
        var company := Clean(patch.company.value, MAX_COMPANY);
        if company == "" {
          return Err(Invalid("company_name"));
        }
        s := s[CompanyName := Text(company)];
      }
      NextSent(env, patch, 0);
      if patch.position.Some? {
        var position := Clean(patch.position.value, MAX_POSITION);
        if position == "" {
          return Err(Invalid("position_title"));
        }
        s := s[PositionTitle := Text(position)];
      }
      NextSent(env, patch, 1);
      if patch.status.Some? {
        var status := TrimSpace(patch.status.value);
        if status !in STATUSES {
          return Err(Invalid("status"));
        }
        s := s[Status := Text(status)];
      }
      NextSent(env, patch, 2);
      if patch.link.Some? {
        var link := JobLink(env, patch.link.value);
        if link.Err? {
          return Err(link.error);
        }
        s := s[Link := Text(link.value)];
      }
      NextSent(env, patch, 3);
      s := AddFreeFields(patch, s);
      r := AddNullables(patch, s);
    }

    /** The fields no value of which is rejected. */
    method AddFreeFields(patch: Patch, before: Changes) returns (s: Changes)
      requires before == SetUpTo(env, patch, 4)
      ensures s == SetUpTo(env, patch, 9)
    {
      hide Clean, Cleaned, SetUpTo, JobLink, TrimSpace, CleanCompensation;
      s := before;
      if patch.description.Some? {
        s := s[Description := Text(Clean(patch.description.value, MAX_DESCRIPTION))];
      }
      NextSent(env, patch, 4);
      if patch.notes.Some? {
        s := s[Notes := Text(Clean(patch.notes.value, MAX_NOTES))];
      }
      NextSent(env, patch, 5);
      if patch.location.Some? {
        var location := CleanList(patch.location.value, MAX_LOCATION, MAX_LOCATIONS);
        s := s[Location := Items(location)];
      }
      NextSent(env, patch, 6);
      if patch.tags.Some? {
        var tags := CleanList(patch.tags.value, MAX_TAG, MAX_TAGS);
        s := s[Tags := Items(tags)];
      }
      NextSent(env, patch, 7);
      if patch.appliedAt.Some? {
        s := s[AppliedAt := Instant(patch.appliedAt.value)];
      }
      NextSent(env, patch, 8);
    }

    /** The fields a null clears. */
    method AddNullables(patch: Patch, before: Changes) returns (r: Result<Changes, Error>)
      requires before == SetUpTo(env, patch, 9)
      ensures r ==
        if patch.followUp.Malformed? then Err(Invalid("next_follow_up_at"))
        else if patch.compensation.Malformed? then Err(Invalid("compensation"))
        else Ok(SetOf(env, patch))
    {
      hide SetUpTo, SetOf, CleanCompensation;
      var followUp: Nullable<Value> := Absent;
      match patch.followUp {
        case Absent =>
        case Null => followUp := Null;
        case Malformed => followUp := Malformed;
        case Given(t) => followUp := Given(Instant(t));
      }
      r := ApplyNullable(before, NextFollowUpAt, "next_follow_up_at", followUp);
      if r.Err? {
        return;
      }
      NextSent(env, patch, 9);
      var pay: Nullable<Value> := Absent;
      match patch.compensation {
        case Absent =>
        case Null => pay := Null;
        case Malformed => pay := Malformed;
        case Given(c) =>
          var cleaned := Compensate(c);
          pay := Given(Compensated(cleaned));
      }
      r := ApplyNullable(r.value, Pay, "compensation", pay);
      NextSent(env, patch, 10);
      EverythingSent(env, patch);
    }

    /** applyNullable: absent leaves the field alone, null clears it, a value replaces it. */
    method ApplyNullable(s: Changes, f: Field, name: string, raw: Nullable<Value>)
      returns (r: Result<Changes, Error>)
      ensures raw.Absent? ==> r == Ok(s)
      ensures raw.Null? ==> r == Ok(s[f := Nothing])
      ensures raw.Malformed? ==> r == Err(Invalid(name))
      ensures raw.Given? ==> r == Ok(s[f := raw.value])
    {
      match raw
      case Absent => return Ok(s);
      case Null => return Ok(s[f := Nothing]);
      case Malformed => return Err(Invalid(name));
      case Given(v) => return Ok(s[f := v]);
    }

    method Delete(user: string, id: string) returns (answer: Answer)
      requires store.Valid()
      modifies store
      ensures store.Valid()
      ensures (store.docs, answer) == Step(env, old(store.docs), Op.Delete(user, id))
    {
      hide Keyed, ObjectId;
      var ids := ParseIds(user, id);
      if ids.Err? {
        return Failed(ids.error);
      }
      answer := store.DeleteApplication(ids.value.1, ids.value.0);
    }
  }

  /** The order in which Update looks at the fields. */
  const ORDER: seq<Field> := [CompanyName, PositionTitle, Status, Link, Description, Notes, Location, Tags,
                              AppliedAt, NextFollowUpAt, Pay]

  function Outcome(rejected: Option<Error>, s: Changes): Result<Changes, Error> {
    if rejected.Some? then Err(rejected.value) else Ok(s)
  }

  /** The part of a patch's $set about the first `n` fields. */
  ghost function SetUpTo(env: Env, p: Patch, n: nat): Changes
    requires n <= |ORDER|
  {
    if n == 0 then map[] else
      var s, f := SetUpTo(env, p, n - 1), ORDER[n - 1];
      if Sent(env, p, f).Some? then s[f := Sent(env, p, f).value] else s
  }

  lemma NextSent(env: Env, p: Patch, n: nat)
    requires n < |ORDER|
    ensures SetUpTo(env, p, 0) == map[]
    ensures var s, f := SetUpTo(env, p, n), ORDER[n];
            SetUpTo(env, p, n + 1) == if Sent(env, p, f).Some? then s[f := Sent(env, p, f).value] else s
  {
    hide Sent;
  }

  lemma {:induction false} SentUpTo(env: Env, p: Patch, n: nat, f: Field)
    requires n <= |ORDER|
    ensures f in SetUpTo(env, p, n) <==> f in ORDER[..n] && Sent(env, p, f).Some?
    ensures f in SetUpTo(env, p, n) ==> SetUpTo(env, p, n)[f] == Sent(env, p, f).value
  {
    hide Sent, ORDER;
    if n > 0 {
      SentUpTo(env, p, n - 1, f);
      assert ORDER[..n] == ORDER[..n - 1] + [ORDER[n - 1]];
    }
  }

  lemma EverythingSent(env: Env, p: Patch)
    ensures SetUpTo(env, p, |ORDER|) == SetOf(env, p)
  {
    hide SetUpTo, Sent, ORDER;
    var s, all := SetUpTo(env, p, |ORDER|), SetOf(env, p);
    forall f: Field ensures f in s <==> f in all
      ensures f in s ==> s[f] == all[f]
    {
      assert ORDER[..|ORDER|] == ORDER;
      SentUpTo(env, p, |ORDER|, f);
      EveryFieldIsOrdered(f);
      NeverSent(env, p);
    }
    assert s == all;
  }

  lemma NeverSent(env: Env, p: Patch)
    ensures Sent(env, p, UpdatedAt).None?
  {
  }

  lemma EveryFieldIsOrdered(f: Field)
    ensures f in ORDER || f == UpdatedAt
  {
    match f
    case CompanyName => assert ORDER[0] == f;
    case PositionTitle => assert ORDER[1] == f;
    case Status => assert ORDER[2] == f;
    case Link => assert ORDER[3] == f;
    case Description => assert ORDER[4] == f;
    case Notes => assert ORDER[5] == f;
    case Location => assert ORDER[6] == f;
    case Tags => assert ORDER[7] == f;
    case AppliedAt => assert ORDER[8] == f;
    case NextFollowUpAt => assert ORDER[9] == f;
    case Pay => assert ORDER[10] == f;
    case UpdatedAt =>
  }
}
