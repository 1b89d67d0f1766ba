/**
 Reading every application through the paged endpoint: frontend/src/api.ts, listAllApplications,
 against backend/internal/service/application.go, List.

 Encoding the query string and decoding the JSON envelope are left out: the request reaches the
 service as written and the page comes back as sent.
 */
module Paging {
  import opened Wrappers
  import opened Domain
  import opened Listings
  import opened Applications

  const CLIENT_PAGE_SIZE: int := 200
  const CLIENT_MAX_PAGES: int := 50

  /** Why a query is refused, if it is. */
  function Refused(env: Env, user: string, q: Query): Option<Error> {
    if ObjectId(user).None? then Some(Invalid("user_id"))
    else if q.status != "" && q.status !in STATUSES then Some(Invalid("status"))
    else if |q.search| > MAX_SEARCH then Some(Invalid("q"))
    else None
  }

  /** Paging is no part of the filter. */
  lemma ListingIgnoresPaging(env: Env, docs: Docs, owner: nat, q: Query, page: int, size: int)
    requires Keyed(docs)
    ensures Listing(env, docs, owner, q.(page := page, size := size)) == Listing(env, docs, owner, q)
  {
    KeyedMatching(env, docs, owner, q);
    assert Matching(env, docs, owner, q.(page := page, size := size)) == Matching(env, docs, owner, q);
  }

  /** The applications on pages 1 to `pages`, as the service answers them. */
  function Answered(env: Env, docs: Docs, user: string, q: Query, pages: nat): seq<Application>
    requires Keyed(docs)
  {
    if pages == 0 then [] else
      var answer := ListAnswer(env, docs, user, q.(page := pages));
      Answered(env, docs, user, q, pages - 1) + (if answer.Listed? then answer.page.apps else [])
  }

  lemma OnePage(env: Env, docs: Docs, user: string, q: Query, page: int, size: int)
    requires Keyed(docs) && Refused(env, user, q).None? && page >= 1
    ensures var l, effective := Listing(env, docs, ObjectId(user).value, q), PageSize(q.(size := size));
            && effective >= 1
            && ListAnswer(env, docs, user, q.(page := page, size := size)) ==
               Listed(ListPage(Page(l, page, effective), page, effective, |l|))
  {
    hide Listing, ObjectId, Page, STATUSES;
    ListingIgnoresPaging(env, docs, ObjectId(user).value, q, page, size);
  }

  /**
   On an unchanging collection the pages, in order, are the matching documents sorted newest
   first, each once: `pages` of them hold the first `pages` times the effective page size.
   */
  lemma {:induction false} PagingIsExact(env: Env, docs: Docs, user: string, q: Query, pages: nat)
    requires Keyed(docs) && Refused(env, user, q).None?
    ensures var l := Listing(env, docs, ObjectId(user).value, q);
            && Lists(l, Matching(env, docs, ObjectId(user).value, q))
            && (forall a :: a in l <==>
                  && a in docs.Values && a.owner == ObjectId(user).value
                  && (q.status != "" ==> a.status == q.status) && (q.tag != "" ==> q.tag in a.tags)
                  && (q.search != "" ==> env.like(q.search, a.company) || env.like(q.search, a.position)
                                         || env.like(q.search, a.notes) || exists t | t in a.tags :: env.like(q.search, t)))
            && pages * PageSize(q) >= 0
            && Answered(env, docs, user, q, pages) == l[..Min(pages * PageSize(q), |l|)]
  {
    hide Keyed, STATUSES, Answered, Pages;
    var l := Listing(env, docs, ObjectId(user).value, q);
    AnsweredPages(env, docs, user, q, pages);
    PagesArePrefix(l, pages, PageSize(q));
  }

  lemma {:induction false} AnsweredPages(env: Env, docs: Docs, user: string, q: Query, pages: nat)
    requires Keyed(docs) && Refused(env, user, q).None?
    ensures Answered(env, docs, user, q, pages) ==
            Pages(Listing(env, docs, ObjectId(user).value, q), pages, PageSize(q))
  {
    hide Listing, ListAnswer, ObjectId, Page, Refused;
    if pages > 0 {
      AnsweredPages(env, docs, user, q, pages - 1);
      OnePage(env, docs, user, q, pages, q.size);
      assert q.(page := pages, size := q.size) == q.(page := pages);
      assert q.(size := q.size) == q;
    }
  }

  /**
   listAllApplications: asks for page after page until one is empty, the total is reached or 50
   pages were read. It returns the whole list up to 10,000 matches and the first 10,000 beyond.
   */
  method ListAllApplications(service: Service, user: string, query: Query)
    returns (r: Result<seq<Application>, Error>)
    requires service.store.Valid()
    ensures Refused(service.env, user, query).Some? ==> r == Err(Refused(service.env, user, query).value)
    ensures Refused(service.env, user, query).None? ==>
              var l := Listing(service.env, service.store.docs, ObjectId(user).value, query);
              r == Ok(l[..Min(10_000, |l|)])
  {
    hide Listing, ObjectId, Page, STATUSES, ListAnswer;
    ghost var docs := service.store.docs;
    ghost var refused := Refused(service.env, user, query);
    ghost var l := if refused.None? then Listing(service.env, docs, ObjectId(user).value, query) else [];
    var all: seq<Application> := [];
    var page := 1;
    while page <= CLIENT_MAX_PAGES
      invariant 1 <= page <= CLIENT_MAX_PAGES + 1
      invariant page > 1 ==> refused.None?
      invariant all == l[..Min((page - 1) * 200, |l|)]
      decreases CLIENT_MAX_PAGES - page
    {
      var answer := service.List(user, query.(page := page, size := CLIENT_PAGE_SIZE));
      PageAnswer(service.env, docs, user, query, page, CLIENT_PAGE_SIZE);
      if answer.Failed? {
        return Err(answer.error);
      }
      PageContinues(l, page, 200);
      all := all + answer.page.apps;
      if |answer.page.apps| == 0 {
        break;
      }
      if |all| >= answer.page.total {
        break;
      }
      page := page + 1;
    }
    return Ok(all);
  }

  lemma PageAnswer(env: Env, docs: Docs, user: string, q: Query, page: int, size: int)
    requires Keyed(docs) && page >= 1 && 1 <= size <= MAX_PAGE_SIZE
    ensures var refused := Refused(env, user, q);
            ListAnswer(env, docs, user, q.(page := page, size := size)) ==
            if refused.Some? then Failed(refused.value)
            else var l := Listing(env, docs, ObjectId(user).value, q); Listed(ListPage(Page(l, page, size), page, size, |l|))
  {
    hide ObjectId, Listing, STATUSES, Page;
    if Refused(env, user, q).None? {
      OnePage(env, docs, user, q, page, size);
    }
  }

  lemma PageContinues(l: seq<Application>, page: int, size: int)
    requires page >= 1 && size >= 1
    ensures 0 <= (page - 1) * size && 0 <= page * size
    ensures l[..Min((page - 1) * size, |l|)] + Page(l, page, size) == l[..Min(page * size, |l|)]
    ensures |Page(l, page, size)| == 0 <==> |l| <= (page - 1) * size
  {
    NonNegative(page - 1, size);
    assert page * size == (page - 1) * size + size;
  }
}
