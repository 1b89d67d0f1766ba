/**
 Sessions and CSRF tokens over whole runs: the server's guards and handlers
 (backend/internal/authentication/session.go, middleware.go,
 backend/internal/service/auth.go) against one browser's cookie jar.
 */
module CsrfProtocol {
  import opened Wrappers
  import opened BucketNames
  import opened Cookies
  import opened CsrfTokens

  /** The two cookies, exactly as the browser stores them. */
  datatype Jar = Jar(session: Option<string>, csrf: Option<string>)

  function ValueOf(raw: Option<string>): string {
    match raw
    case None => ""
    case Some(r) => match ReadCookie(r) case None => "" case Some(v) => v
  }

  /** SessionIDFromRequest: the presented session cookie, or "" without a readable one. */
  function SessionOf(jar: Jar): string {
    ValueOf(jar.session)
  }

  function TokenOf(jar: Jar): string {
    ValueOf(jar.csrf)
  }

  predicate Accepts(mac: Mac, jar: Jar) {
    TokenOf(jar) != "" && Verify(mac, TokenOf(jar), SessionOf(jar))
  }

  function WithToken(mac: Mac, session: Option<string>, nonce: seq<Byte>, id: string): Jar {
    Jar(session, Some(WriteCookie(Mint(mac, nonce, id))))
  }

  /** The jar after a safe request, or None when no token can be minted (`nonce` is None). */
  function EnsureToken(mac: Mac, jar: Jar, nonce: Option<seq<Byte>>): Option<Jar> {
    if Accepts(mac, jar) then Some(jar)
    else match nonce
      case None => None
      case Some(n) => Some(WithToken(mac, jar.session, n, SessionOf(jar)))
  }

  /** What an unsafe request must present: cookie and header equal, and the token bound to the session. */
  predicate Guard(mac: Mac, jar: Jar, header: string) {
    TokenOf(jar) != "" && header != "" && TokenOf(jar) == header && Verify(mac, TokenOf(jar), SessionOf(jar))
  }

  /** How writing a session to its store can end. */
  datatype Saved = Written | NotWritten | WrittenWithoutTtl

  datatype Grant = Refused | Granted(uuid: seq<Byte>, user: string, saved: Saved, nonce: Option<seq<Byte>>)

  /** Requests arrive one at a time; a session may also expire in its store. */
  datatype Request =
    | Safe(nonce: Option<seq<Byte>>)
    | Login(header: string, grant: Grant)
    | Logout(header: string, deleted: bool, nonce: Option<seq<Byte>>)
    | ChangePassword(header: string, accepted: bool, deleted: bool, nonce: Option<seq<Byte>>)
    | OtherMutation(header: string)
    | Expiry(id: string)

  /** One browser and the session store: session id to user id. */
  datatype World = World(jar: Jar, live: map<string, string>)

  function LoggedIn(mac: Mac, w: World, g: Grant): World
    requires g.Granted?
  {
    var id := SessionId(g.uuid);
    if g.saved.NotWritten? then w
    else
      var live := w.live[id := g.user];
      if g.saved.WrittenWithoutTtl? || g.nonce == None then w.(live := live)
      else World(WithToken(mac, Some(WriteCookie(id)), g.nonce.value, id), live)
  }

  function SignedOut(mac: Mac, w: World, deleted: bool, nonce: Option<seq<Byte>>): World {
    var id := SessionOf(w.jar);
    var live := if id != "" && deleted then w.live - {id} else w.live;
    match nonce
    case None => w.(live := live)
    case Some(n) => World(WithToken(mac, None, n, ""), live)
  }

  /** SessionRequired: the presented session is known to the store. */
  predicate HasSession(w: World) {
    var id := SessionOf(w.jar);
    id != "" && id in w.live && w.live[id] != ""
  }

  function Step(mac: Mac, w: World, req: Request): World {
    match req
    case Safe(nonce) => (match EnsureToken(mac, w.jar, nonce) case None => w case Some(jar) => w.(jar := jar))
    case Login(header, grant) => if Guard(mac, w.jar, header) && grant.Granted? then LoggedIn(mac, w, grant) else w
    case Logout(header, deleted, nonce) =>
      if Guard(mac, w.jar, header) then SignedOut(mac, w, deleted, nonce) else w
    case ChangePassword(header, accepted, deleted, nonce) =>
      if Guard(mac, w.jar, header) && HasSession(w) && accepted then SignedOut(mac, w, deleted, nonce) else w
    case OtherMutation(_) => w
    case Expiry(id) => w.(live := w.live - {id})
  }

  function RunAll(mac: Mac, w: World, reqs: seq<Request>): World {
    if reqs == [] then w else Step(mac, RunAll(mac, w, reqs[..|reqs| - 1]), reqs[|reqs| - 1])
  }

  /* ---- The server, changing its session store in place -------------------- */

  class SessionManager {
    var live: map<string, string>
    const mac: Mac

    constructor (mac: Mac)
      ensures live == map[] && this.mac == mac
    {
      live := map[];
      this.mac := mac;
    }

    /** Writes a session and returns its cookie value, or None on a store error. */
    method CreateSession(uuid: seq<Byte>, user: string, saved: Saved) returns (cookie: Option<string>)
      modifies this
      ensures live == if saved.NotWritten? then old(live) else old(live)[SessionId(uuid) := user]
      ensures cookie == if saved.Written? then Some(WriteCookie(SessionId(uuid))) else None
    {
      var id := SessionId(uuid);
      if saved == NotWritten {
        return None;
      }
      live := live[id := user];
      if saved == WrittenWithoutTtl {
        return None;
      }
      cookie := Some(WriteCookie(id));
    }

    method DeleteSession(id: string, deleted: bool)
      modifies this
      ensures live == if deleted then old(live) - {id} else old(live)
    {
      if deleted {
        live := live - {id};
      }
    }

    /** EnsureCSRFToken: keeps a token that still verifies, otherwise sets a fresh cookie. */
    method EnsureCSRFToken(jar: Jar, nonce: Option<seq<Byte>>) returns (r: Option<Jar>)
      ensures r == EnsureToken(mac, jar, nonce)
    {
      var id := SessionOf(jar);
      if TokenOf(jar) != "" && Verify(mac, TokenOf(jar), id) {
        return Some(jar);
      }
      match nonce {
        case None => return None;
        case Some(n) => return Some(Jar(jar.session, Some(WriteCookie(Mint(mac, n, id)))));
      }
    }

    /** The cookies of a sign-out: none when no anonymous token can be minted. */
    method SignOut(jar: Jar, deleted: bool, nonce: Option<seq<Byte>>) returns (jar': Jar)
      modifies this
      ensures World(jar', live) == SignedOut(mac, World(jar, old(live)), deleted, nonce)
      ensures live == if deleted && SessionOf(jar) != "" then old(live) - {SessionOf(jar)} else old(live)
    {
      var id := SessionOf(jar);
      if id != "" {
        DeleteSession(id, deleted);
      }
      match nonce {
        case None => jar' := jar;
        case Some(n) => jar' := Jar(None, Some(WriteCookie(Mint(mac, n, ""))));
      }
    }

    /** One request through the middleware and its handler; returns the jar the response leaves. */
    method Handle(jar: Jar, req: Request) returns (jar': Jar)
      modifies this
      ensures World(jar', live) == Step(mac, World(jar, old(live)), req)
    {
      jar' := jar;
      match req {
        case Safe(nonce) =>
          var r := EnsureCSRFToken(jar, nonce);
          if r.Some? {
            jar' := r.value;
          }
        case Login(header, grant) =>
          if !Guard(mac, jar, header) || grant == Refused {
            return;
          }
          var cookie := CreateSession(grant.uuid, grant.user, grant.saved);
          if cookie == None || grant.nonce == None {
            return;
          }
          jar' := Jar(cookie, Some(WriteCookie(Mint(mac, grant.nonce.value, SessionId(grant.uuid)))));
        case Logout(header, deleted, nonce) =>
          if Guard(mac, jar, header) {
            jar' := SignOut(jar, deleted, nonce);
          }
        case ChangePassword(header, accepted, deleted, nonce) =>
          if Guard(mac, jar, header) && HasSession(World(jar, live)) && accepted {
            jar' := SignOut(jar, deleted, nonce);
          }
        case OtherMutation(_) =>
        case Expiry(id) => live := live - {id};
      }
    }
  }

  /* ---- The jar invariant ------------------------------------------------- */

  /** The token is absent or bound to the session held, whose id has no "!". */
  predicate JarGood(mac: Mac, jar: Jar) {
    (jar.csrf == None || Accepts(mac, jar)) && '!' !in SessionOf(jar)
  }

  lemma SessionIsCookieText(jar: Jar)
    ensures CookieText(SessionOf(jar))
  {
  }

  /** A token written for the session id a jar presents verifies exactly when that id has no "!". */
  lemma FreshToken(mac: Mac, session: Option<string>, nonce: seq<Byte>)
    ensures var id := ValueOf(session);
            var jar := WithToken(mac, session, nonce, id);
            TokenOf(jar) == Mint(mac, nonce, id) && (Accepts(mac, jar) <==> '!' !in id)
  {
    hide Verify, Mint, WriteCookie, ReadCookie, AfterBang, CookieText;
    var id := ValueOf(session);
    SessionIsCookieText(Jar(session, None));
    MintedIsCookieText(mac, nonce, id);
    CookieRoundTrip(Mint(mac, nonce, id));
    TokenBinding(mac, nonce, id, id);
  }

  /** One safe request repairs a jar exactly when its session id has no "!". */
  lemma SafeRequestRestores(mac: Mac, jar: Jar, nonce: seq<Byte>)
    ensures EnsureToken(mac, jar, Some(nonce)).Some?
    ensures JarGood(mac, EnsureToken(mac, jar, Some(nonce)).value) <==> '!' !in SessionOf(jar)
  {
    hide Verify, Mint;
    FreshToken(mac, jar.session, nonce);
    if Accepts(mac, jar) {
      TokenBindsOneSession(mac, TokenOf(jar), SessionOf(jar), SessionOf(jar));
    }
  }

  lemma {:induction false} StepKeepsJar(mac: Mac, w: World, req: Request)
    requires JarGood(mac, w.jar)
    ensures JarGood(mac, Step(mac, w, req).jar)
  {
    hide Verify, Mint, WriteCookie, ReadCookie, SessionId;
    match req
    case Safe(nonce) =>
      if nonce.Some? {
        SafeRequestRestores(mac, w.jar, nonce.value);
      }
    case Login(_, grant) =>
      if grant.Granted? && grant.nonce.Some? {
        var id := SessionId(grant.uuid);
        SessionIdIsPlain(grant.uuid);
        CookieRoundTrip(id);
        FreshToken(mac, Some(WriteCookie(id)), grant.nonce.value);
      }
    case Logout(_, _, nonce) =>
      if nonce.Some? {
        FreshToken(mac, None, nonce.value);
      }
    case ChangePassword(_, _, _, nonce) =>
      if nonce.Some? {
        FreshToken(mac, None, nonce.value);
      }
    case OtherMutation(_) =>
    case Expiry(_) =>
  }

  /** In every reachable state the token the browser holds is absent or bound to the session it holds. */
  lemma {:induction false} JarInvariant(mac: Mac, w: World, reqs: seq<Request>)
    requires JarGood(mac, w.jar)
    ensures JarGood(mac, RunAll(mac, w, reqs).jar)
  {
    hide JarGood, Step;
    if reqs != [] {
      JarInvariant(mac, w, reqs[..|reqs| - 1]);
      StepKeepsJar(mac, RunAll(mac, w, reqs[..|reqs| - 1]), reqs[|reqs| - 1]);
    }
  }

  /** Such a jar passes the guard by echoing its token, and only by that. */
  lemma GoodJarPassesGuard(mac: Mac, jar: Jar, header: string)
    requires JarGood(mac, jar)
    ensures Guard(mac, jar, header) <==> jar.csrf.Some? && header == TokenOf(jar)
  {
  }

  /** A login that hands out a new session id retires the token that authorised it. */
  lemma LoginRotatesToken(mac: Mac, w: World, header: string, grant: Grant)
    requires Guard(mac, w.jar, header) && grant.Granted? && grant.saved.Written? && grant.nonce.Some?
    requires SessionId(grant.uuid) != SessionOf(w.jar)
    ensures var jar := Step(mac, w, Login(header, grant)).jar;
            && SessionOf(jar) == SessionId(grant.uuid) && Accepts(mac, jar)
            && !Verify(mac, header, SessionOf(jar)) && !Guard(mac, jar, header)
  {
    hide Verify, Mint, WriteCookie, ReadCookie, SessionId;
    var id := SessionId(grant.uuid);
    SessionIdIsPlain(grant.uuid);
    CookieRoundTrip(id);
    FreshToken(mac, Some(WriteCookie(id)), grant.nonce.value);
    if Verify(mac, header, id) {
      TokenBindsOneSession(mac, header, SessionOf(w.jar), id);
    }
  }

  /** A session that has ended never comes back unless its very id is drawn again. */
  lemma {:induction false} EndedSessionsStayEnded(mac: Mac, w: World, reqs: seq<Request>, id: string)
    requires id !in w.live
    requires forall i | 0 <= i < |reqs| && reqs[i].Login? && reqs[i].grant.Granted? :: SessionId(reqs[i].grant.uuid) != id
    ensures id !in RunAll(mac, w, reqs).live
  {
    hide Verify, Mint, WriteCookie, ReadCookie, SessionId, EnsureToken;
    if reqs != [] {
      var n := |reqs| - 1;
      EndedSessionsStayEnded(mac, w, reqs[..n], id);
      assert reqs[n].Login? && reqs[n].grant.Granted? ==> SessionId(reqs[n].grant.uuid) != id;
    }
  }
}
