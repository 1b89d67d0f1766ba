/**
 What a client reads off the answers of backend/internal/service/application.go: which documents
 a listing holds, and what creating, changing and deleting a document does to the next answer.
 Every statement is about requests, documents and answers, field by field.
 */
module ApplicationAnswers {
  import opened Wrappers
  import opened Text
  import opened Sanitising
  import opened Domain
  import opened Listings
  import opened Applications
  import opened ApplicationRuns
  import opened Paging

  /* ---- identifiers ------------------------------------------------------------------ */

  predicate HexText(s: string) {
    forall i | 0 <= i < |s| :: '0' <= s[i] <= '9' || 'a' <= s[i] <= 'f' || 'A' <= s[i] <= 'F'
  }

  lemma {:induction false} HexTextHasValue(s: string)
    ensures HexValue(s).Some? <==> HexText(s)
  {
    hide HexDigit;
    if s != "" {
      var n := |s| - 1;
      HexTextHasValue(s[..n]);
      OneDigit(s[n]);
    }
  }

  lemma OneDigit(c: char)
    ensures HexDigit(c).Some? <==> '0' <= c <= '9' || 'a' <= c <= 'f' || 'A' <= c <= 'F'
  {
  }

  /** Exactly texts of 24 hexadecimal digits are identifiers. */
  lemma IdentifierIff(s: string)
    ensures ObjectId(s).Some? <==> |s| == 24 && HexText(s)
  {
    HexTextHasValue(s);
  }

  /* ---- what a listing holds ------------------------------------------------------------ */

  const SIX: seq<string> := ["applied", "phone_screen", "onsite", "offer", "rejected", "withdrawn"]

  lemma StatusesAreSix(s: string)
    ensures s in STATUSES <==> s in SIX
  {
  }

  /** The document is on that page of the answers to the query. */
  predicate OnPage(env: Env, docs: Docs, user: string, q: Query, page: nat, a: Application)
    requires Keyed(docs)
  {
    var answer := ListAnswer(env, docs, user, q.(page := page));
    page >= 1 && answer.Listed? && a in answer.page.apps
  }

  ghost predicate OnSomePage(env: Env, docs: Docs, user: string, q: Query, a: Application)
    requires Keyed(docs)
  {
    exists page: nat :: OnPage(env, docs, user, q, page, a)
  }

  /** A query is refused exactly for a malformed user, a status that is none of the six, or a long search. */
  lemma QueryRefusedIff(env: Env, docs: Docs, user: string, q: Query)
    requires Keyed(docs)
    ensures ListAnswer(env, docs, user, q).Listed? <==>
            ObjectId(user).Some? && (q.status == "" || q.status in SIX) && |q.search| <= 200
    ensures ListAnswer(env, docs, user, q).Listed? <==> Refused(env, user, q).None?
  {
    StatusesAreSix(q.status);
    hide ObjectId, Listing, Page, STATUSES, SIX;
  }

  /** The number and size of a page: at least 1, and 20 by default and 200 at most. */
  lemma PageAsked(env: Env, docs: Docs, user: string, q: Query)
    requires Keyed(docs) && ListAnswer(env, docs, user, q).Listed?
    ensures var page := ListAnswer(env, docs, user, q).page;
            && page.number == (if q.page >= 1 then q.page else 1)
            && page.size == (if q.size < 1 then 20 else if q.size > 200 then 200 else q.size)
            && |page.apps| <= page.size
            && (page.number * page.size <= page.total ==> |page.apps| == page.size)
  {
    hide ObjectId, Listing, STATUSES, Page;
    PageLength(Listing(env, docs, ObjectId(user).value, q), PageNumber(q), PageSize(q));
  }

  lemma PageLength(l: seq<Application>, number: int, size: int)
    requires number >= 1 && size >= 1
    ensures |Page(l, number, size)| <= size
    ensures number * size <= |l| ==> |Page(l, number, size)| == size
  {
    NonNegative(number - 1, size);
    assert number * size == (number - 1) * size + size;
  }

  lemma {:induction false} AnsweredIsOnAPage(env: Env, docs: Docs, user: string, q: Query, pages: nat, a: Application)
    requires Keyed(docs) && a in Paging.Answered(env, docs, user, q, pages)
    ensures OnSomePage(env, docs, user, q, a)
  {
    hide ListAnswer;
    if pages > 0 && !OnPage(env, docs, user, q, pages, a) {
      AnsweredIsOnAPage(env, docs, user, q, pages - 1, a);
    }
  }

  lemma ListedIsReached(env: Env, docs: Docs, user: string, q: Query, a: Application)
    requires Keyed(docs) && Refused(env, user, q).None?
    requires a in Listing(env, docs, ObjectId(user).value, q)
    ensures OnSomePage(env, docs, user, q, a)
  {
    hide ListAnswer, Listing, STATUSES, Paging.Answered, Lists, OnSomePage, Matching, Keyed, PageSize;
    var l := Listing(env, docs, ObjectId(user).value, q);
    PagingIsExact(env, docs, user, q, |l|);
    SizeIsPositive(q);
    EnoughPages(|l|, PageSize(q));
    assert l[..|l|] == l;
    AnsweredIsOnAPage(env, docs, user, q, |l|, a);
  }

  lemma SizeIsPositive(q: Query)
    ensures PageSize(q) >= 1
  {
  }

  lemma PageIsListed(env: Env, docs: Docs, user: string, q: Query, page: nat, a: Application)
    requires Keyed(docs) && Refused(env, user, q).None? && OnPage(env, docs, user, q, page, a)
    ensures a in Listing(env, docs, ObjectId(user).value, q)
  {
    hide ListAnswer, Listing, Refused, Lists, Matching, Keyed, PageSize;
    OnePage(env, docs, user, q, page, q.size);
    assert q.(page := page, size := q.size) == q.(page := page) && q.(size := q.size) == q;
  }

  lemma ListedIsOnAPage(env: Env, docs: Docs, user: string, q: Query, a: Application)
    requires Keyed(docs) && Refused(env, user, q).None?
    ensures OnSomePage(env, docs, user, q, a) <==> a in Listing(env, docs, ObjectId(user).value, q)
  {
    hide ListAnswer, Listing, STATUSES, OnPage;
    if a in Listing(env, docs, ObjectId(user).value, q) {
      ListedIsReached(env, docs, user, q, a);
    }
    if page: nat :| OnPage(env, docs, user, q, page, a) {
      PageIsListed(env, docs, user, q, page, a);
    }
  }

  lemma EnoughPages(n: nat, size: int)
    requires size >= 1
    ensures n * size >= n
  {
  }

  /**
   Whatever the page size, a document is on some page exactly when it is stored, belongs to the
   caller, has the status and the tag asked for, and holds the search text in its company, its
   position, one of its tags or its notes.
   */
  lemma ListedIffAsked(env: Env, docs: Docs, user: string, q: Query, a: Application)
    requires Keyed(docs) && ObjectId(user).Some? && (q.status == "" || q.status in SIX) && |q.search| <= 200
    ensures OnSomePage(env, docs, user, q, a) <==>
            && a in docs.Values
            && a.owner == ObjectId(user).value
            && (q.status != "" ==> a.status == q.status)
            && (q.tag != "" ==> q.tag in a.tags)
            && (q.search != "" ==> env.like(q.search, a.company) || env.like(q.search, a.position)
                                   || env.like(q.search, a.notes) || exists t | t in a.tags :: env.like(q.search, t))
  {
    QueryRefusedIff(env, docs, user, q);
    hide ObjectId, OnSomePage, Refused, ListAnswer, SIX, STATUSES, Keyed;
    ListedIsOnAPage(env, docs, user, q, a);
    assert a in Listing(env, docs, ObjectId(user).value, q) <==> a in Matching(env, docs, ObjectId(user).value, q);
  }

  /** Through all the pages the later application comes first, and of two at one instant the greater id. */
  lemma PagesInOrder(env: Env, docs: Docs, user: string, q: Query, pages: nat, i: nat, j: nat)
    requires Keyed(docs) && Refused(env, user, q).None?
    requires i < j < |Paging.Answered(env, docs, user, q, pages)|
    ensures var all := Paging.Answered(env, docs, user, q, pages);
            all[i].appliedAt > all[j].appliedAt || (all[i].appliedAt == all[j].appliedAt && all[i].id > all[j].id)
  {
    hide Paging.Answered, Listing, ObjectId, Refused;
    PagingIsExact(env, docs, user, q, pages);
  }

  /* ---- the six listings -------------------------------------------------------------------- */

  function TotalOf(env: Env, docs: Docs, user: string, q: Query): nat
    requires Keyed(docs)
  {
    var answer := ListAnswer(env, docs, user, q);
    if answer.Listed? then answer.page.total else 0
  }

  function Totals(env: Env, docs: Docs, user: string, q: Query, n: nat): nat
    requires Keyed(docs) && n <= |SIX|
  {
    if n == 0 then 0 else Totals(env, docs, user, q, n - 1) + TotalOf(env, docs, user, q.(status := SIX[n - 1]))
  }

  /** What the first n of the six listings hold. */
  function InFirst(env: Env, docs: Docs, owner: nat, q: Query, n: nat): set<Application>
    requires n <= |SIX|
  {
    set a | a in Matching(env, docs, owner, q) && a.status in SIX[..n]
  }

  lemma TotalIsCount(env: Env, docs: Docs, user: string, q: Query)
    requires Keyed(docs) && Refused(env, user, q).None?
    ensures TotalOf(env, docs, user, q) == |Matching(env, docs, ObjectId(user).value, q)|
  {
    hide ObjectId, Page, Matching, STATUSES;
    KeyedMatching(env, docs, ObjectId(user).value, q);
  }

  lemma OneMoreStatus(env: Env, docs: Docs, owner: nat, q: Query, n: nat)
    requires n < |SIX| && q.status == ""
    ensures |InFirst(env, docs, owner, q, n + 1)| ==
            |InFirst(env, docs, owner, q, n)| + |Matching(env, docs, owner, q.(status := SIX[n]))|
  {
    var before, next := InFirst(env, docs, owner, q, n), Matching(env, docs, owner, q.(status := SIX[n]));
    StatusIsPartOfTheFilter(env, docs, owner, q, SIX[n]);
    hide Matching;
    assert SIX[..n + 1] == SIX[..n] + [SIX[n]];
    assert SIX[n] !in SIX[..n];
    assert InFirst(env, docs, owner, q, n + 1) == before + next;
    assert before !! next;
  }

  lemma StatusIsPartOfTheFilter(env: Env, docs: Docs, owner: nat, q: Query, s: string)
    requires q.status == "" && s != ""
    ensures Matching(env, docs, owner, q.(status := s)) == set a | a in Matching(env, docs, owner, q) && a.status == s
  {
  }

  lemma {:induction false} TotalsAdd(env: Env, docs: Docs, user: string, q: Query, n: nat)
    requires Keyed(docs) && Refused(env, user, q).None? && q.status == "" && n <= |SIX|
    ensures Totals(env, docs, user, q, n) == |InFirst(env, docs, ObjectId(user).value, q, n)|
  {
    hide ObjectId, Matching, TotalOf, STATUSES, SIX;
    if n == 0 {
      assert InFirst(env, docs, ObjectId(user).value, q, 0) == {};
    } else {
      TotalsAdd(env, docs, user, q, n - 1);
      OneMoreStatus(env, docs, ObjectId(user).value, q, n - 1);
      StatusIsAllowed(env, user, q, n - 1);
      TotalIsCount(env, docs, user, q.(status := SIX[n - 1]));
    }
  }

  lemma StatusIsAllowed(env: Env, user: string, q: Query, n: nat)
    requires Refused(env, user, q).None? && n < |SIX|
    ensures Refused(env, user, q.(status := SIX[n])).None?
  {
    hide ObjectId;
    StatusesAreSix(SIX[n]);
  }

  /**
   Over validated documents the listing without a status is the six listings with one, together:
   the totals add up, and a document of one listing is on a page of exactly one of the six.
   */
  lemma SixListingsPartition(env: Env, docs: Docs, user: string, q: Query, a: Application)
    requires GoodDocs(env, docs) && Refused(env, user, q).None? && q.status == ""
    ensures TotalOf(env, docs, user, q) == Totals(env, docs, user, q, 6)
    ensures OnSomePage(env, docs, user, q, a) <==>
            exists n: nat | n < 6 :: OnSomePage(env, docs, user, q.(status := SIX[n]), a)
    ensures forall m: nat, n: nat | m < 6 && n < 6 && OnSomePage(env, docs, user, q.(status := SIX[m]), a)
              && OnSomePage(env, docs, user, q.(status := SIX[n]), a) :: m == n
  {
    hide ObjectId, OnSomePage, Matching, TotalOf, Totals, STATUSES, SIX;
    var owner := ObjectId(user).value;
    SixInAll(env, docs, owner, q);
    TotalsAdd(env, docs, user, q, 6);
    TotalIsCount(env, docs, user, q);
    QueryRefusedIff(env, docs, user, q);
    ListedIffAsked(env, docs, user, q, a);
    forall n: nat | n < 6
      ensures OnSomePage(env, docs, user, q.(status := SIX[n]), a) <==>
              OnSomePage(env, docs, user, q, a) && a.status == SIX[n]
    {
      StatusNarrows(env, docs, user, q, a, n);
    }
    SixDiffer();
    if OnSomePage(env, docs, user, q, a) {
      GoodStatus(env, docs, a);
    }
  }

  lemma SixDiffer()
    ensures |SIX| == 6 && forall m: nat, n: nat | m < 6 && n < 6 && SIX[m] == SIX[n] :: m == n
  {
  }

  lemma GoodStatus(env: Env, docs: Docs, a: Application)
    requires GoodDocs(env, docs) && a in docs.Values
    ensures a.status in SIX
  {
    StatusesAreSix(a.status);
    hide STATUSES, SIX;
    assert GoodApplication(env, a);
  }

  lemma StatusNarrows(env: Env, docs: Docs, user: string, q: Query, a: Application, n: nat)
    requires Keyed(docs) && Refused(env, user, q).None? && q.status == "" && n < |SIX|
    ensures OnSomePage(env, docs, user, q.(status := SIX[n]), a) <==>
            OnSomePage(env, docs, user, q, a) && a.status == SIX[n]
  {
    hide ObjectId, OnSomePage, Keyed, ListAnswer;
    StatusIsAllowed(env, user, q, n);
    StatusIsPartOfTheFilter(env, docs, ObjectId(user).value, q, SIX[n]);
    ListedIsOnAPage(env, docs, user, q, a);
    ListedIsOnAPage(env, docs, user, q.(status := SIX[n]), a);
    hide Matching;
  }

  /** Every document the query matches has one of the six statuses. */
  lemma SixInAll(env: Env, docs: Docs, owner: nat, q: Query)
    requires GoodDocs(env, docs)
    ensures |SIX| == 6 && InFirst(env, docs, owner, q, 6) == Matching(env, docs, owner, q)
  {
    assert SIX[..6] == SIX;
    forall a | a in Matching(env, docs, owner, q)
      ensures a.status in SIX[..6]
    {
      GoodStatus(env, docs, a);
    }
  }

  /* ---- creating ------------------------------------------------------------------------------- */

  /** A link is accepted exactly when it is blank or a short http(s) URL with a host, and kept trimmed. */
  lemma LinkIff(env: Env, link: string)
    ensures var l, url := TrimSpace(link), env.parseUrl(TrimSpace(link));
            && (JobLink(env, link).Ok? <==>
                  l == "" || (|l| <= 2000 && url.Some? && (url.value.scheme == "http" || url.value.scheme == "https")
                              && url.value.host != ""))
            && (JobLink(env, link).Ok? ==> JobLink(env, link).value == l)
            && (JobLink(env, link).Err? ==> JobLink(env, link).error == Invalid("job_link"))
  {
  }

  /** Which requests make a document: the texts it must have, the status it may have, and a fresh id. */
  lemma CreatedIff(env: Env, docs: Docs, user: string, req: CreateRequest, newId: nat, sent: int, now: int)
    requires Keyed(docs)
    ensures Step(env, docs, Op.Create(user, req, newId, sent, now)).1.Document? <==>
            && ObjectId(user).Some? && newId !in docs
            && TrimSpace(req.company) != "" && TrimSpace(req.position) != ""
            && (TrimSpace(req.status) == "" || TrimSpace(req.status) in SIX)
            && JobLink(env, req.link).Ok?
    ensures Step(env, docs, Op.Create(user, req, newId, sent, now)).1.Document?
            || Step(env, docs, Op.Create(user, req, newId, sent, now)).0 == docs
  {
    StatusesAreSix(TrimSpace(req.status));
    StatusesAreSix("applied");
    assert SIX[0] == "applied";
    hide ObjectId, JobLink, TrimSpace, STATUSES, SIX, Cleaned;
    CleanIsBlankIff(req.company, MAX_COMPANY);
    CleanIsBlankIff(req.position, MAX_POSITION);
    hide Clean;
  }

  lemma CleanIsBlankIff(s: string, max: nat)
    requires max > 0
    ensures Clean(s, max) == "" <==> TrimSpace(s) == ""
  {
  }

  /** A refused request names a field that is at fault, or the identifier that is taken. */
  lemma RefusedCreateNamesAFault(env: Env, docs: Docs, user: string, req: CreateRequest, newId: nat, sent: int, now: int)
    requires Keyed(docs)
    ensures var answer := Step(env, docs, Op.Create(user, req, newId, sent, now)).1;
            !answer.Document? ==>
              || (answer == Failed(Invalid("user_id")) && ObjectId(user).None?)
              || (answer == Failed(Invalid("company_name")) && TrimSpace(req.company) == "")
              || (answer == Failed(Invalid("position_title")) && TrimSpace(req.position) == "")
              || (answer == Failed(Invalid("status")) && TrimSpace(req.status) !in [""] + SIX)
              || (answer == Failed(Invalid("job_link")) && JobLink(env, req.link).Err?)
              || (answer == Failed(Internal) && newId in docs)
  {
    StatusesAreSix(TrimSpace(req.status));
    LinkIff(env, req.link);
    CleanIsBlankIff(req.company, MAX_COMPANY);
    CleanIsBlankIff(req.position, MAX_POSITION);
    hide ObjectId, JobLink, TrimSpace, STATUSES, SIX, Cleaned, Clean;
  }

  /** The document a request makes, each field from the request's field of its own name. */
  predicate MadeFrom(a: Application, req: CreateRequest, sent: int) {
    && a.company == Clean(req.company, 200) && a.position == Clean(req.position, 200)
    && (a.status == if TrimSpace(req.status) == "" then "applied" else TrimSpace(req.status))
    && a.location == Cleaned(req.location, 200, 20)
    && a.link == TrimSpace(req.link)
    && a.description == Clean(req.description, 50_000) && a.notes == Clean(req.notes, 20_000)
    && a.tags == Cleaned(req.tags, 50, 30)
    && a.appliedAt == (if req.appliedAt.Some? then req.appliedAt.value else sent)
    && a.followUp == req.followUp
    && (req.compensation.None? <==> a.compensation.None?)
    && (req.compensation.Some? ==>
          var was, pay := req.compensation.value, a.compensation.value;
          && pay.baseSalary == was.baseSalary && pay.bonus == was.bonus
          && pay.equity == Clean(was.equity, 200) && pay.benefits == Cleaned(was.benefits, 100, 30))
  }

  /**
   After a document is created, its caller reads it back: the document the request made, stamped with
   the new id and the time, and with no other document touched.
   */
  lemma CreateThenGet(env: Env, docs: Docs, user: string, req: CreateRequest, id: string, sent: int, now: int)
    requires Keyed(docs) && ObjectId(id).Some?
    ensures var (docs', answer) := Step(env, docs, Op.Create(user, req, ObjectId(id).value, sent, now));
            answer.Document? ==>
              && Keyed(docs')
              && Step(env, docs', Op.Get(user, id)).1 == answer
              && MadeFrom(answer.app, req, sent)
              && answer.app.id == ObjectId(id).value && answer.app.owner == ObjectId(user).value
              && answer.app.createdAt == answer.app.updatedAt == now
              && docs' == docs[answer.app.id := answer.app]
  {
    LinkIff(env, req.link);
    hide ObjectId, TrimSpace, STATUSES, Clean, Cleaned, JobLink;
    StepKeepsKeys(env, docs, Op.Create(user, req, ObjectId(id).value, sent, now));
  }

  /* ---- reading and deleting ------------------------------------------------------------------------ */

  /** A document is read exactly by its owner under its own id; every other request finds nothing. */
  lemma GetIff(env: Env, docs: Docs, user: string, id: string)
    requires Keyed(docs)
    ensures var (docs', answer) := Step(env, docs, Op.Get(user, id));
            && docs' == docs
            && (ObjectId(user).None? <==> answer == Failed(Invalid("user_id")))
            && (answer.Document? <==> ObjectId(user).Some? && ObjectId(id).Some? && ObjectId(id).value in docs
                                      && docs[ObjectId(id).value].owner == ObjectId(user).value)
            && (answer.Document? ==> answer.app == docs[ObjectId(id).value])
            && (ObjectId(user).Some? && !answer.Document? ==> answer == Failed(NotFound))
  {
    hide ObjectId;
  }

  /** Deleting takes away exactly the documents reading finds, and the next read finds nothing. */
  lemma DeleteThenGet(env: Env, docs: Docs, user: string, id: string)
    requires Keyed(docs)
    ensures var (docs', answer) := Step(env, docs, Op.Delete(user, id));
            var read := Step(env, docs, Op.Get(user, id)).1;
            && Keyed(docs')
            && (answer == Deleted <==> read.Document?)
            && (answer != Deleted ==> docs' == docs && answer == read)
            && (answer == Deleted ==> docs' == docs - {ObjectId(id).value}
                                      && Step(env, docs', Op.Get(user, id)).1 == Failed(NotFound))
  {
    hide ObjectId;
    StepKeepsKeys(env, docs, Op.Delete(user, id));
  }

  /* ---- changing -------------------------------------------------------------------------------------- */

  /** A patch is accepted exactly when none of the fields it sends is of a kind that is refused. */
  lemma PatchAcceptedIff(env: Env, p: Patch)
    ensures Rejection(env, p).None? <==>
            && (p.company.Some? ==> TrimSpace(p.company.value) != "")
            && (p.position.Some? ==> TrimSpace(p.position.value) != "")
            && (p.status.Some? ==> TrimSpace(p.status.value) in SIX)
            && (p.link.Some? ==> JobLink(env, p.link.value).Ok?)
            && p.followUp != Malformed && p.compensation != Malformed
  {
    if p.company.Some? {
      CleanIsBlankIff(p.company.value, MAX_COMPANY);
    }
    if p.position.Some? {
      CleanIsBlankIff(p.position.value, MAX_POSITION);
    }
    if p.status.Some? {
      StatusesAreSix(TrimSpace(p.status.value));
    }
    hide Clean, TrimSpace, JobLink, STATUSES, SIX;
  }

  /** A rejected patch changes nothing, and is answered with its fault unless an identifier is malformed. */
  lemma RejectedPatchChangesNothing(env: Env, docs: Docs, user: string, id: string, p: Patch, now: int)
    requires Keyed(docs) && Rejection(env, p).Some?
    ensures Step(env, docs, Op.Update(user, id, p, now)).0 == docs
    ensures Step(env, docs, Op.Update(user, id, p, now)).1 ==
            if ObjectId(user).None? then Failed(Invalid("user_id"))
            else if ObjectId(id).None? then Failed(NotFound)
            else Failed(Rejection(env, p).value)
  {
    hide Rejection, ObjectId, SetOf;
  }

  /** The rejection of a patch names a field that is at fault. */
  lemma RejectionNamesAFault(env: Env, p: Patch)
    requires Rejection(env, p).Some?
    ensures match Rejection(env, p).value
            case Invalid(field) =>
              || (field == "company_name" && p.company.Some? && TrimSpace(p.company.value) == "")
              || (field == "position_title" && p.position.Some? && TrimSpace(p.position.value) == "")
              || (field == "status" && p.status.Some? && TrimSpace(p.status.value) !in SIX)
              || (field == "job_link" && p.link.Some? && JobLink(env, p.link.value).Err?)
              || (field == "next_follow_up_at" && p.followUp.Malformed?)
              || (field == "compensation" && p.compensation.Malformed?)
            case _ => false
  {
    if p.company.Some? {
      CleanIsBlankIff(p.company.value, MAX_COMPANY);
    }
    if p.position.Some? {
      CleanIsBlankIff(p.position.value, MAX_POSITION);
    }
    if p.status.Some? {
      StatusesAreSix(TrimSpace(p.status.value));
    }
    if p.link.Some? {
      LinkIff(env, p.link.value);
    }
    hide Clean, TrimSpace, JobLink, STATUSES, SIX;
  }

  function TextSent(sent: Option<string>, max: nat, was: string): string {
    if sent.Some? then Clean(sent.value, max) else was
  }

  function ListSent(sent: Option<seq<string>>, each: nat, max: nat, was: seq<string>): seq<string> {
    if sent.Some? then Cleaned(sent.value, each, max) else was
  }

  const NOTHING_SENT: Patch := Patch(None, None, None, None, None, None, None, None, None, Absent, Absent)

  predicate TextsPatched(a: Application, p: Patch, b: Application) {
    && b.company == TextSent(p.company, 200, a.company) && b.position == TextSent(p.position, 200, a.position)
    && b.status == (if p.status.Some? then TrimSpace(p.status.value) else a.status)
    && b.link == (if p.link.Some? then TrimSpace(p.link.value) else a.link)
    && b.description == TextSent(p.description, 50_000, a.description)
    && b.notes == TextSent(p.notes, 20_000, a.notes)
  }

  predicate ListsPatched(a: Application, p: Patch, b: Application) {
    b.location == ListSent(p.location, 200, 20, a.location) && b.tags == ListSent(p.tags, 50, 30, a.tags)
  }

  predicate TimesPatched(a: Application, p: Patch, now: int, b: Application) {
    && b.appliedAt == (if p.appliedAt.Some? then p.appliedAt.value else a.appliedAt)
    && b.followUp == (if p.followUp.Given? then Some(p.followUp.value) else if p.followUp.Null? then None else a.followUp)
    && b.updatedAt == (if p == NOTHING_SENT then a.updatedAt else now)
    && b.createdAt == a.createdAt
  }

  predicate PayPatched(a: Application, p: Patch, b: Application) {
    && (p.compensation.Absent? ==> b.compensation == a.compensation)
    && (p.compensation.Null? ==> b.compensation.None?)
    && (p.compensation.Given? ==>
          b.compensation == Some(Compensation(p.compensation.value.baseSalary, p.compensation.value.bonus,
                                              Clean(p.compensation.value.equity, 200),
                                              Cleaned(p.compensation.value.benefits, 100, 30))))
  }

  /** The document a patch leaves: every field sent in its new value, every other as it was. */
  predicate PatchedTo(a: Application, p: Patch, now: int, b: Application) {
    && b.id == a.id && b.owner == a.owner
    && TextsPatched(a, p, b) && ListsPatched(a, p, b) && TimesPatched(a, p, now, b) && PayPatched(a, p, b)
  }

  /** An accepted patch of one's own document changes it as sent, answers it, and touches no other. */
  lemma UpdateSetsFields(env: Env, docs: Docs, user: string, id: string, p: Patch, now: int)
    requires Keyed(docs) && Rejection(env, p).None?
    ensures var (docs', answer) := Step(env, docs, Op.Update(user, id, p, now));
            var read := Step(env, docs, Op.Get(user, id)).1;
            && (read.Document? ==> answer.Document? && PatchedTo(read.app, p, now, answer.app)
                                   && docs' == docs[ObjectId(id).value := answer.app])
            && (!read.Document? ==> answer == read && docs' == docs)
  {
    hide ObjectId, Rejection, SetOf, ApplySet, PatchedTo;
    var read := Step(env, docs, Op.Get(user, id)).1;
    if read.Document? {
      if SetOf(env, p) == map[] {
        EmptyPatch(env, read.app, p, now);
        assert docs[ObjectId(id).value := read.app] == docs;
      } else {
        SomethingSent(env, p);
        PatchedFields(env, read.app, p, now);
      }
    }
  }

  /** The patch names a field exactly when it sends something. */
  lemma SomethingSent(env: Env, p: Patch)
    requires Rejection(env, p).None?
    ensures SetOf(env, p) == map[] <==> p == NOTHING_SENT
  {
    hide Clean, Cleaned, TrimSpace, STATUSES, JobLink, CleanCompensation;
    var s := SetOf(env, p);
    if s == map[] {
      assert forall f: Field :: f !in s;
      assert CompanyName !in s && PositionTitle !in s && Status !in s && Location !in s && Link !in s
             && Description !in s && Tags !in s && Notes !in s && AppliedAt !in s && NextFollowUpAt !in s && Pay !in s;
    } else {
      var f :| f in s;
      assert Sent(env, p, f).Some?;
    }
  }

  lemma EmptyPatch(env: Env, a: Application, p: Patch, now: int)
    requires Rejection(env, p).None? && SetOf(env, p) == map[]
    ensures PatchedTo(a, p, now, a)
  {
    SomethingSent(env, p);
    hide SetOf, Rejection, Clean, Cleaned, TrimSpace;
  }

  lemma PatchedFields(env: Env, a: Application, p: Patch, now: int)
    requires Rejection(env, p).None? && p != NOTHING_SENT
    ensures PatchedTo(a, p, now, ApplySet(a, SetOf(env, p)[UpdatedAt := Instant(now)]))
  {
    hide TextsPatched, ListsPatched, TimesPatched, PayPatched, ApplySet, SetOf, Rejection;
    var s := SetOf(env, p)[UpdatedAt := Instant(now)];
    var b := ApplySet(a, s);
    SetIsGood(env, p);
    ApplySetKeepsIdentity(a, s);
    forall f: Field ensures FieldOf(b, f) == Patched(env, a, p, now, f) {
      assert GoodSet(env, s);
      SetChangesOnlyItsFields(env, a, s, f);
      PatchedField(env, a, p, now, f);
    }
    PatchedTexts(env, a, p, now, b);
    PatchedTimes(env, a, p, now, b);
    PatchedRest(env, a, p, now, b);
  }

  /** What a field holds after the patch. */
  function Patched(env: Env, a: Application, p: Patch, now: int, f: Field): Value {
    if f == UpdatedAt then Instant(now)
    else if Sent(env, p, f).Some? then Sent(env, p, f).value
    else FieldOf(a, f)
  }

  lemma PatchedField(env: Env, a: Application, p: Patch, now: int, f: Field)
    ensures var s := SetOf(env, p)[UpdatedAt := Instant(now)];
            (if f in s then s[f] else FieldOf(a, f)) == Patched(env, a, p, now, f)
  {
    hide Sent, FieldOf;
  }

  lemma PatchedTexts(env: Env, a: Application, p: Patch, now: int, b: Application)
    requires Rejection(env, p).None?
    requires forall f: Field :: FieldOf(b, f) == Patched(env, a, p, now, f)
    ensures TextsPatched(a, p, b)
  {
    if p.link.Some? {
      LinkIff(env, p.link.value);
    }
    hide Clean, TrimSpace, STATUSES, JobLink, Cleaned, CleanCompensation;
    assert FieldOf(b, CompanyName) == Patched(env, a, p, now, CompanyName);
    assert FieldOf(b, PositionTitle) == Patched(env, a, p, now, PositionTitle);
    assert FieldOf(b, Status) == Patched(env, a, p, now, Status);
    assert FieldOf(b, Link) == Patched(env, a, p, now, Link);
    assert FieldOf(b, Description) == Patched(env, a, p, now, Description);
    assert FieldOf(b, Notes) == Patched(env, a, p, now, Notes);
  }

  lemma PatchedTimes(env: Env, a: Application, p: Patch, now: int, b: Application)
    requires Rejection(env, p).None? && b.createdAt == a.createdAt && p != NOTHING_SENT
    requires forall f: Field :: FieldOf(b, f) == Patched(env, a, p, now, f)
    ensures TimesPatched(a, p, now, b)
  {
    hide Clean, TrimSpace, STATUSES, JobLink, Cleaned, CleanCompensation;
    assert FieldOf(b, AppliedAt) == Patched(env, a, p, now, AppliedAt);
    assert FieldOf(b, NextFollowUpAt) == Patched(env, a, p, now, NextFollowUpAt);
    assert FieldOf(b, UpdatedAt) == Patched(env, a, p, now, UpdatedAt);
  }

  lemma PatchedRest(env: Env, a: Application, p: Patch, now: int, b: Application)
    requires Rejection(env, p).None?
    requires forall f: Field :: FieldOf(b, f) == Patched(env, a, p, now, f)
    ensures ListsPatched(a, p, b) && PayPatched(a, p, b)
  {
    hide Clean, TrimSpace, STATUSES, JobLink, Cleaned;
    assert FieldOf(b, Location) == Patched(env, a, p, now, Location);
    assert FieldOf(b, Tags) == Patched(env, a, p, now, Tags);
    assert FieldOf(b, Pay) == Patched(env, a, p, now, Pay);
  }
}
