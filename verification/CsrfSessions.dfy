/**
 Which requests begin and end a session (backend/internal/service/auth.go, Login, Logout and
 ChangePassword), said of the sessions in the store and of the jars that present them.
 */
module CsrfSessions {
  import opened Wrappers
  import opened BucketNames
  import opened Cookies
  import opened Base64Url
  import opened CsrfTokens
  import opened CsrfProtocol

  /** The request passes the guard and its sign-out reaches the store for the session presented. */
  predicate SignsOut(mac: Mac, w: World, req: Request) {
    match req
    case Logout(header, deleted, _) => deleted && Guard(mac, w.jar, header)
    case ChangePassword(header, accepted, deleted, _) =>
      deleted && accepted && Guard(mac, w.jar, header) && SessionOf(w.jar) in w.live && w.live[SessionOf(w.jar)] != ""
    case _ => false
  }

  predicate Ends(mac: Mac, w: World, req: Request, id: string) {
    || req == Expiry(id)
    || (id != "" && id == SessionOf(w.jar) && SignsOut(mac, w, req))
  }

  predicate Begins(mac: Mac, w: World, req: Request, id: string) {
    && req.Login? && req.grant.Granted? && !req.grant.saved.NotWritten?
    && Guard(mac, w.jar, req.header) && SessionId(req.grant.uuid) == id
  }

  /**
   One request ends a session exactly when it is signed out by a request presenting it or expires,
   begins one exactly when a login writes it, for the user logged in, and leaves all others alone.
   */
  lemma WhatBecomesOfASession(mac: Mac, w: World, req: Request, id: string)
    ensures var live := Step(mac, w, req).live;
            && (Ends(mac, w, req, id) ==> id !in live)
            && (Begins(mac, w, req, id) ==> id in live && live[id] == req.grant.user)
            && (!Ends(mac, w, req, id) && !Begins(mac, w, req, id) ==>
                  (id in live <==> id in w.live) && (id in live ==> live[id] == w.live[id]))
  {
    hide Guard, SessionOf, SessionId, EnsureToken, WithToken, WriteCookie;
  }

  lemma SomeId(uuid: seq<Byte>)
    requires uuid != []
    ensures SessionId(uuid) != ""
  {
  }

  /** Two logins share a session id only when they drew one UUID. */
  lemma IdsAreDrawn(uuid: seq<Byte>, uuid': seq<Byte>)
    ensures SessionId(uuid) == SessionId(uuid') <==> uuid == uuid'
  {
    PaddedInjective(uuid, uuid');
  }

  /**
   A request that fails the guard, a refused or unwritten login, and a password change that is
   refused or presents no live session change neither the store nor the jar.
   */
  lemma RefusedRequestsChangeNothing(mac: Mac, w: World, req: Request)
    requires req.Login? || req.Logout? || req.ChangePassword?
    requires || !Guard(mac, w.jar, req.header)
             || (req.Login? && (req.grant.Refused? || req.grant.saved.NotWritten?))
             || (req.ChangePassword? && (!req.accepted || SessionOf(w.jar) == "" || SessionOf(w.jar) !in w.live))
    ensures Step(mac, w, req) == w
  {
  }

  /** No jar that presents the id passes the session check. */
  ghost predicate Dead(live: map<string, string>, id: string) {
    forall jar | SessionOf(jar) == id :: !HasSession(World(jar, live))
  }

  /**
   A cookie is worthless after the sign-out of its session: from then on, whatever requests follow
   and whoever presents it, it passes no session check, until a login draws that very id again.
   */
  lemma SignedOutCookieIsWorthless(mac: Mac, w: World, req: Request, reqs: seq<Request>)
    requires SignsOut(mac, w, req)
    requires forall i | 0 <= i < |reqs| && reqs[i].Login? && reqs[i].grant.Granted? ::
               SessionId(reqs[i].grant.uuid) != SessionOf(w.jar)
    ensures Dead(RunAll(mac, Step(mac, w, req), reqs).live, SessionOf(w.jar))
  {
    hide Guard, SessionOf, SessionId, Step, RunAll, SignsOut;
    var id := SessionOf(w.jar);
    if id != "" {
      WhatBecomesOfASession(mac, w, req, id);
      EndedSessionsStayEnded(mac, Step(mac, w, req), reqs, id);
    }
  }

  /** Where no request ends, expires or draws an id again, its session outlives any run. */
  lemma {:induction false} SessionsLast(mac: Mac, w: World, reqs: seq<Request>, id: string)
    requires forall i | 0 <= i < |reqs| ::
               var before := RunAll(mac, w, reqs[..i]); !Ends(mac, before, reqs[i], id) && !Begins(mac, before, reqs[i], id)
    ensures var live := RunAll(mac, w, reqs).live;
            (id in live <==> id in w.live) && (id in live ==> live[id] == w.live[id])
  {
    hide Step, Ends, Begins;
    if reqs != [] {
      var n := |reqs| - 1;
      assert forall i | 0 <= i < n :: reqs[..n][..i] == reqs[..i];
      SessionsLast(mac, w, reqs[..n], id);
      WhatBecomesOfASession(mac, RunAll(mac, w, reqs[..n]), reqs[n], id);
    }
  }

  /** The browser a login answers presents the new session, which passes the check as that user's. */
  lemma LoginBegins(mac: Mac, w: World, header: string, grant: Grant)
    requires Guard(mac, w.jar, header) && grant.Granted? && grant.saved.Written? && grant.nonce.Some?
    requires grant.uuid != []
    ensures var w' := Step(mac, w, Login(header, grant));
            var id := SessionId(grant.uuid);
            && SessionOf(w'.jar) == id && id in w'.live && w'.live[id] == grant.user
            && (HasSession(w') <==> grant.user != "")
  {
    hide Verify, Mint, WriteCookie, ReadCookie, SessionId, Guard;
    SessionIdIsPlain(grant.uuid);
    CookieRoundTrip(SessionId(grant.uuid));
    SomeId(grant.uuid);
  }

  /** The browser a sign-out answers presents no session, and its token is good for none. */
  lemma SignOutLeavesNoSession(mac: Mac, w: World, header: string, deleted: bool, nonce: seq<Byte>)
    requires Guard(mac, w.jar, header)
    ensures var w' := Step(mac, w, Logout(header, deleted, Some(nonce)));
            && SessionOf(w'.jar) == "" && !HasSession(w') && Accepts(mac, w'.jar)
            && (forall id | id != "" :: !Verify(mac, TokenOf(w'.jar), id))
    ensures HasSession(w) ==>
              Step(mac, w, ChangePassword(header, true, deleted, Some(nonce))) ==
              Step(mac, w, Logout(header, deleted, Some(nonce)))
  {
    hide Verify, Mint, WriteCookie, ReadCookie, Guard;
    FreshToken(mac, None, nonce);
    var jar := Step(mac, w, Logout(header, deleted, Some(nonce))).jar;
    forall id | id != "" ensures !Verify(mac, TokenOf(jar), id) {
      if Verify(mac, TokenOf(jar), id) {
        TokenBindsOneSession(mac, TokenOf(jar), "", id);
      }
    }
  }
}
