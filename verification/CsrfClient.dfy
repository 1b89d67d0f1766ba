/**
 The browser client's request protocol (frontend/src/api.ts): which jars a
 mutating request gets through from, with its one retry.
 */
module CsrfClient {
  import opened Wrappers
  import opened BucketNames
  import opened Base64Url
  import opened Cookies
  import opened CsrfTokens
  import opened CsrfProtocol

  /* ---- What the page script makes of a cookie ---------------------------- */

  function EscapeDigit(c: char): int {
    if '0' <= c <= '9' then c as int - '0' as int
    else if 'a' <= c <= 'f' then c as int - 'a' as int + 10
    else if 'A' <= c <= 'F' then c as int - 'A' as int + 10
    else -1
  }

  /** Value of an escape "%XY" at the front of `s`, or -1. */
  function EscapeAt(s: string): int {
    if |s| >= 3 && s[0] == '%' && EscapeDigit(s[1]) >= 0 && EscapeDigit(s[2]) >= 0
    then EscapeDigit(s[1]) * 16 + EscapeDigit(s[2]) else -1
  }

  /** A C2 or C3 byte and the continuation byte after it: a character up to U+00FF in UTF-8. */
  predicate Latin1Pair(lead: int, next: int) {
    (lead == 0xC2 || lead == 0xC3) && 0x80 <= next < 0xC0
  }

  function Latin1(lead: int, next: int): string
    requires Latin1Pair(lead, next)
  {
    [(lead % 4 * 64 + next - 0x80) as char]
  }

  /**
   document.cookie, which reads the stored bytes as UTF-8, and decodeURIComponent, up to the
   characters a header can carry. A character above U+00FF, raw or escaped, can be read but makes
   fetch reject before anything is sent, and malformed UTF-8 is read as U+FFFD, which is one of
   those; so both count as failures.
   */
  function Decode(s: string): Option<string>
    decreases |s|
  {
    if s == "" then Some("")
    else if s[0] != '%' && s[0] < '\U{80}' then
      (match Decode(s[1..]) case None => None case Some(r) => Some([s[0]] + r))
    else if s[0] != '%' then
      if |s| >= 2 && Latin1Pair(s[0] as int, s[1] as int) then
        (match Decode(s[2..]) case None => None case Some(r) => Some(Latin1(s[0] as int, s[1] as int) + r))
      else None
    else
      var v := EscapeAt(s);
      if 0 <= v < 0x80 then
        (match Decode(s[3..]) case None => None case Some(r) => Some([v as char] + r))
      else if v >= 0 && Latin1Pair(v, EscapeAt(s[3..])) then
        (match Decode(s[6..]) case None => None case Some(r) => Some(Latin1(v, EscapeAt(s[3..])) + r))
      else None
  }

  predicate HeaderSpace(c: char) {
    c == ' ' || c == '\t' || c == '\n' || c == '\r'
  }

  function StripFront(s: string): (r: string)
    ensures |r| <= |s|
    ensures s != "" && !HeaderSpace(s[0]) ==> r == s
  {
    if s != "" && HeaderSpace(s[0]) then StripFront(s[1..]) else s
  }

  function StripBack(s: string): (r: string)
    ensures |r| <= |s| && r <= s
    ensures s != "" && !HeaderSpace(s[|s| - 1]) ==> r == s
  {
    if s != "" && HeaderSpace(s[|s| - 1]) then StripBack(s[..|s| - 1]) else s
  }

  /** The header value that arrives: outer white space stripped, control characters refused. */
  function HeaderValue(v: string): Option<string> {
    var r := StripBack(StripFront(v));
    if forall c | c in r :: (c >= ' ' || c == '\t') && c != '\U{7f}' then Some(r) else None
  }

  /** What the server receives when the page echoes a raw cookie value. */
  function Echo(raw: string): Option<string> {
    match Decode(raw) case None => None case Some(t) => HeaderValue(t)
  }

  /* ---- The protocol ------------------------------------------------------ */

  /** Only the CSRF guard answers 403; every handler answers with something else. */
  datatype Status = Forbidden | Handled

  /** Sends of the mutating request that reach the guard, runs of its handler, and whether it ended in an answer. */
  datatype Outcome = Outcome(sends: nat, handlerRuns: nat, answered: bool)

  /** The token the script reads, or None when decodeURIComponent throws or fetch would refuse it. */
  function ReadToken(jar: Jar): Option<string> {
    match jar.csrf case None => Some("") case Some(raw) => Decode(raw)
  }

  function Answer(mac: Mac, jar: Jar, header: string): Status {
    if Guard(mac, jar, header) then Handled else Forbidden
  }

  /** ensureCsrfToken: an existing token unless forced, otherwise the one GET /health leaves. */
  method EnsureCsrfToken(mac: Mac, jar: Jar, force: bool, nonce: seq<Byte>) returns (token: Option<string>, jar': Jar)
    ensures var fetched := EnsureToken(mac, jar, Some(nonce)).value;
            if !force && ReadToken(jar) != Some("") then jar' == jar && token == ReadToken(jar)
            else jar' == fetched && token == (if ReadToken(fetched) == Some("") then None else ReadToken(fetched))
  {
    jar' := jar;
    if !force {
      token := ReadToken(jar);
      if token != Some("") {
        return;
      }
    }
    jar' := EnsureToken(mac, jar, Some(nonce)).value;
    token := ReadToken(jar');
    if token == Some("") {
      token := None;
    }
  }

  /** request() for a mutating method, with no other writer to the jar. */
  method Request(mac: Mac, jar: Jar, nonce: seq<Byte>, nonce': seq<Byte>) returns (r: Outcome)
    ensures r == Requested(mac, jar, nonce, nonce')
  {
    r := Outcome(0, 0, false);
    var token, jar1 := EnsureCsrfToken(mac, jar, false, nonce);
    if token == None {
      return;
    }
    var header := HeaderValue(token.value);
    if header == None {
      return;
    }
    var res := Answer(mac, jar1, header.value);
    r := r.(sends := 1, handlerRuns := if res == Handled then 1 else 0, answered := true);
    if res == Forbidden {
      var token', jar2 := EnsureCsrfToken(mac, jar1, true, nonce');
      if token' == None {
        return r.(answered := false);
      }
      header := HeaderValue(token'.value);
      if header == None {
        return r.(answered := false);
      }
      res := Answer(mac, jar2, header.value);
      r := r.(sends := 2, handlerRuns := if res == Handled then 1 else 0);
    }
  }

  /** The second attempt, from the jar the first left. */
  function Retried(mac: Mac, jar: Jar, nonce: seq<Byte>): Outcome {
    var fetched := EnsureToken(mac, jar, Some(nonce)).value;
    var token := ReadToken(fetched);
    if token == None || token == Some("") || HeaderValue(token.value) == None then Outcome(1, 0, false)
    else Outcome(2, if Guard(mac, fetched, HeaderValue(token.value).value) then 1 else 0, true)
  }

  function Requested(mac: Mac, jar: Jar, nonce: seq<Byte>, nonce': seq<Byte>): Outcome {
    var first := if ReadToken(jar) != Some("") then jar else EnsureToken(mac, jar, Some(nonce)).value;
    var token := ReadToken(first);
    if token == None || token == Some("") || HeaderValue(token.value) == None then Outcome(0, 0, false)
    else if Guard(mac, first, HeaderValue(token.value).value) then Outcome(1, 1, true)
    else Retried(mac, first, nonce')
  }

  /* ---- Which tokens survive the echo ------------------------------------- */

  predicate EchoSafe(s: string) {
    '%' !in s && ' ' !in s && ',' !in s
  }

  lemma {:induction false} DecodePlain(s: string)
    requires forall c | c in s :: c != '%' && c < '\U{80}'
    ensures Decode(s) == Some(s)
  {
    if s != "" {
      assert s[0] in s;
      assert forall c | c in s[1..] :: c in s;
      DecodePlain(s[1..]);
      assert s == [s[0]] + s[1..];
    }
  }

  /** A character up to U+00FF in a cookie: raw, or percent-escaped with letters of either case. */
  datatype Piece = Raw(c: char) | Escaped(c: char, upper: bool)

  predicate GoodPiece(p: Piece) {
    p.c < '\U{100}' && (p.Raw? ==> p.c != '%')
  }

  /** UTF-8 up to U+00FF (RFC 3629). */
  function Utf8(c: char): seq<int>
    requires c < '\U{100}'
  {
    if c < '\U{80}' then [c as int] else [0xC0 + c as int / 64, 0x80 + c as int % 64]
  }

  function HexLetter(n: int, upper: bool): char
    requires 0 <= n < 16
  {
    if n < 10 then ('0' as int + n) as char
    else if upper then ('A' as int + n - 10) as char else ('a' as int + n - 10) as char
  }

  function EscapeOf(b: int, upper: bool): string
    requires 0 <= b < 256
  {
    ['%', HexLetter(b / 16, upper), HexLetter(b % 16, upper)]
  }

  function PieceText(p: Piece): string
    requires GoodPiece(p)
  {
    var b := Utf8(p.c);
    match p
    case Raw(c) => if |b| == 1 then [b[0] as char] else [b[0] as char, b[1] as char]
    case Escaped(c, upper) =>
      if |b| == 1 then EscapeOf(b[0], upper) else EscapeOf(b[0], upper) + EscapeOf(b[1], upper)
  }

  function CookieOf(pieces: seq<Piece>): string
    requires forall i | 0 <= i < |pieces| :: GoodPiece(pieces[i])
  {
    if pieces == [] then "" else PieceText(pieces[0]) + CookieOf(pieces[1..])
  }

  function CharsOf(pieces: seq<Piece>): string {
    if pieces == [] then "" else [pieces[0].c] + CharsOf(pieces[1..])
  }

  lemma EscapeIsRead(b: int, upper: bool, rest: string)
    requires 0 <= b < 256
    ensures EscapeAt(EscapeOf(b, upper) + rest) == b && (EscapeOf(b, upper) + rest)[3..] == rest
  {
  }

  lemma PieceIsRead(p: Piece, rest: string)
    requires GoodPiece(p)
    ensures Decode(PieceText(p) + rest) == match Decode(rest) case None => None case Some(r) => Some([p.c] + r)
  {
    hide EscapeOf, EscapeAt;
    var b := Utf8(p.c);
    var s := PieceText(p) + rest;
    if p.Raw? {
      assert s[|b|..] == rest;
    } else if |b| == 1 {
      EscapeIsRead(b[0], p.upper, rest);
      StartsWithPercent(b[0], p.upper);
    } else {
      StartsWithPercent(b[0], p.upper);
      StartsWithPercent(b[1], p.upper);
      EscapeIsRead(b[0], p.upper, EscapeOf(b[1], p.upper) + rest);
      EscapeIsRead(b[1], p.upper, rest);
      assert s == EscapeOf(b[0], p.upper) + (EscapeOf(b[1], p.upper) + rest);
      assert s[6..] == s[3..][3..];
    }
  }

  lemma StartsWithPercent(b: int, upper: bool)
    requires 0 <= b < 256
    ensures |EscapeOf(b, upper)| == 3 && EscapeOf(b, upper)[0] == '%'
  {
  }

  /** The script reads back every text up to U+00FF, however its characters were written. */
  lemma {:induction false} CookieIsRead(pieces: seq<Piece>)
    requires forall i | 0 <= i < |pieces| :: GoodPiece(pieces[i])
    ensures Decode(CookieOf(pieces)) == Some(CharsOf(pieces))
  {
    hide Decode, PieceText, GoodPiece;
    if pieces == [] {
      NothingToRead();
    } else {
      CookieIsRead(pieces[1..]);
      PieceIsRead(pieces[0], CookieOf(pieces[1..]));
    }
  }

  lemma NothingToRead()
    ensures Decode("") == Some("")
  {
  }

  predicate OnlySpaces(s: string) {
    forall c | c in s :: c == ' ' || c == '\t' || c == '\n' || c == '\r'
  }

  /** A header value arrives without the white space around it, unless it holds a control character. */
  lemma {:induction false} HeaderArrives(before: string, t: string, after: string)
    requires OnlySpaces(before) && OnlySpaces(after)
    requires t != "" && !OnlySpaces([t[0]]) && !OnlySpaces([t[|t| - 1]])
    ensures HeaderValue(before + t + after) ==
            if exists c | c in t :: (c < ' ' && c != '\t') || c == '\U{7f}' then None else Some(t)
  {
    FrontComesOff(before, t + after);
    assert before + t + after == before + (t + after);
    BackComesOff(t, after);
    hide StripFront, StripBack;
  }

  lemma {:induction false} FrontComesOff(before: string, s: string)
    requires OnlySpaces(before) && s != "" && !OnlySpaces([s[0]])
    ensures StripFront(before + s) == s
  {
    if before == "" {
      assert before + s == s;
    } else {
      assert before[0] in before && forall c | c in before[1..] :: c in before;
      FrontComesOff(before[1..], s);
      assert (before + s)[1..] == before[1..] + s;
    }
  }

  lemma {:induction false} BackComesOff(s: string, after: string)
    requires OnlySpaces(after) && s != "" && !OnlySpaces([s[|s| - 1]])
    ensures StripBack(s + after) == s
    decreases |after|
  {
    if after == "" {
      assert s + after == s;
    } else {
      var n := |after| - 1;
      assert after[n] in after && forall c | c in after[..n] :: c in after;
      BackComesOff(s, after[..n]);
      assert (s + after)[..|s + after| - 1] == s + after[..n];
    }
  }

  lemma {:induction false} DecodeShrinks(s: string)
    requires Decode(s).Some?
    ensures |Decode(s).value| <= |s|
    ensures '%' in s ==> |Decode(s).value| < |s|
    decreases |s|
  {
    if s != "" {
      var v := EscapeAt(s);
      if s[0] != '%' && s[0] < '\U{80}' {
        DecodeShrinks(s[1..]);
        assert s == [s[0]] + s[1..];
      } else if s[0] != '%' {
        DecodeShrinks(s[2..]);
        assert s[1] != '%' && s == [s[0]] + [s[1]] + s[2..];
      } else if 0 <= v < 0x80 {
        DecodeShrinks(s[3..]);
      } else {
        DecodeShrinks(s[6..]);
      }
    }
  }

  lemma MintedEnds(mac: Mac, nonce: seq<Byte>, s: string)
    requires CookieText(s)
    ensures var t := Mint(mac, nonce, s);
            && t != "" && CookieText(t) && !HeaderSpace(t[0]) && !HeaderSpace(t[|t| - 1]) && t[0] != '"'
            && (EchoSafe(t) <==> EchoSafe(s))
  {
    hide Sign;
    var t := Mint(mac, nonce, s);
    var head, message := Encode(nonce), Encode(nonce) + "!" + s;
    var sig := Sign(mac, message);
    MintedIsCookieText(mac, nonce, s);
    EncodeAlphabet(nonce);
    SignatureIsPlain(mac, message);
    SignatureIsLetters(mac, message);
    assert t == head + "!" + s + "." + sig;
    assert head != "" ==> t[0] == head[0] && head[0] in head;
    assert sig != "" ==> t[|t| - 1] == sig[|sig| - 1] && sig[|sig| - 1] in sig;
    assert forall c :: c in t <==> c in head || c == '!' || c in s || c == '.' || c in sig;
  }

  lemma SignatureIsLetters(mac: Mac, message: string)
    ensures forall c | c in Sign(mac, message) :: InAlphabet(c)
  {
    EncodeAlphabet(mac(message));
  }

  lemma PlainEcho(t: string)
    requires t != "" && CookieText(t) && !HeaderSpace(t[0]) && !HeaderSpace(t[|t| - 1]) && '%' !in t
    ensures Echo(t) == Some(t)
  {
    DecodePlain(t);
  }

  lemma ShortEcho(raw: string, t: string)
    requires '%' in raw && |raw| <= |t|
    ensures Echo(raw) != Some(t)
  {
    if Decode(raw).Some? {
      DecodeShrinks(raw);
    }
  }

  lemma QuotedEcho(raw: string, t: string)
    requires raw != "" && raw[0] == '"' && t != "" && t[0] != '"'
    ensures Echo(raw) != Some(t)
  {
    if Decode(raw).Some? {
      assert Decode(raw).value[0] == '"';
    }
  }

  /** A freshly written token comes back as itself exactly when the session id has no "%", space or comma. */
  lemma MintedEcho(mac: Mac, nonce: seq<Byte>, s: string)
    requires CookieText(s)
    ensures Echo(WriteCookie(Mint(mac, nonce, s))) == Some(Mint(mac, nonce, s)) <==> EchoSafe(s)
  {
    hide Mint, Echo;
    var t := Mint(mac, nonce, s);
    MintedEnds(mac, nonce, s);
    if ' ' in t || ',' in t {
      QuotedEcho(WriteCookie(t), t);
    } else if '%' in t {
      ShortEcho(t, t);
    } else {
      PlainEcho(t);
    }
  }

  /* ---- When a mutating request gets through ------------------------------ */

  /**
   The jars a mutating request succeeds from: whatever token is held can be
   read and sent, and either it is accepted and echoes as the server reads it,
   or it is replaced by one whose session id has no "!", "%", space or comma.
   */
  predicate CanSucceed(mac: Mac, jar: Jar) {
    && (jar.csrf.Some? ==> Echo(jar.csrf.value).Some?)
    && (if Accepts(mac, jar) then Echo(jar.csrf.value) == Some(TokenOf(jar))
        else '!' !in SessionOf(jar) && EchoSafe(SessionOf(jar)))
  }

  lemma FetchedToken(mac: Mac, jar: Jar, nonce: seq<Byte>)
    requires !Accepts(mac, jar)
    ensures var fetched := EnsureToken(mac, jar, Some(nonce)).value;
            var token := Mint(mac, nonce, SessionOf(jar));
            && fetched.csrf == Some(WriteCookie(token)) && TokenOf(fetched) == token && token != ""
            && SessionOf(fetched) == SessionOf(jar)
            && (Accepts(mac, fetched) <==> '!' !in SessionOf(jar))
            && (Echo(fetched.csrf.value) == Some(token) <==> EchoSafe(SessionOf(jar)))
  {
    hide Mint, Verify, Echo, WriteCookie, ReadCookie;
    SessionIsCookieText(jar);
    FreshToken(mac, jar.session, nonce);
    MintedIsCookieText(mac, nonce, SessionOf(jar));
    MintedEcho(mac, nonce, SessionOf(jar));
  }

  lemma EmptyRead(jar: Jar)
    ensures ReadToken(jar) == Some("") <==> jar.csrf == None || jar.csrf == Some("")
    ensures ReadToken(jar) == Some("") ==> TokenOf(jar) == ""
  {
    if jar.csrf.Some? && jar.csrf.value != "" && Decode(jar.csrf.value).Some? {
      NonemptyDecode(jar.csrf.value);
    }
  }

  lemma NonemptyDecode(s: string)
    requires s != "" && Decode(s).Some?
    ensures Decode(s).value != ""
  {
  }

  /** The guard passes a jar's own echo exactly when it accepts the token and the echo is faithful. */
  lemma GuardOnEcho(mac: Mac, jar: Jar, header: string)
    ensures Guard(mac, jar, header) <==> Accepts(mac, jar) && header == TokenOf(jar)
  {
  }

  lemma RetrySucceeds(mac: Mac, jar: Jar, nonce: seq<Byte>)
    requires !Accepts(mac, jar)
    ensures var r := Retried(mac, jar, nonce);
            && (r.handlerRuns == 1 <==> '!' !in SessionOf(jar) && EchoSafe(SessionOf(jar)))
            && r.handlerRuns <= 1 && r.sends <= 2
  {
    hide Mint, Verify, WriteCookie, ReadCookie, Decode, HeaderValue, Guard;
    FetchedToken(mac, jar, nonce);
    var fetched := EnsureToken(mac, jar, Some(nonce)).value;
    EmptyRead(fetched);
    var token := ReadToken(fetched);
    if token.Some? && HeaderValue(token.value).Some? {
      GuardOnEcho(mac, fetched, HeaderValue(token.value).value);
    }
    EmptyWrite(Mint(mac, nonce, SessionOf(jar)), fetched);
  }

  lemma EmptyWrite(token: string, jar: Jar)
    requires jar.csrf == Some(WriteCookie(token)) && TokenOf(jar) == token && token != ""
    ensures jar.csrf != Some("")
  {
  }

  /** A held token that is accepted but echoes differently is never replaced, so the retry fails as well. */
  lemma RetryOfAccepted(mac: Mac, jar: Jar, nonce: seq<Byte>)
    requires Accepts(mac, jar) && Echo(jar.csrf.value) != Some(TokenOf(jar))
    ensures Retried(mac, jar, nonce).handlerRuns == 0 && Retried(mac, jar, nonce).sends <= 2
  {
    hide Verify, Mint, WriteCookie, ReadCookie, Decode, HeaderValue, Guard;
    var token := ReadToken(jar);
    if token.Some? && HeaderValue(token.value).Some? {
      GuardOnEcho(mac, jar, HeaderValue(token.value).value);
    }
  }

  /**
   Client retry, exactly: with working token minting and no other writer to the
   jar, a mutating request runs its handler once, within two sends, from the
   jars of `CanSucceed`, and never runs it from any other.
   */
  lemma RequestSucceeds(mac: Mac, jar: Jar, nonce: seq<Byte>, nonce': seq<Byte>)
    ensures var r := Requested(mac, jar, nonce, nonce');
            && r.handlerRuns == (if CanSucceed(mac, jar) then 1 else 0)
            && r.sends <= 2
            && (CanSucceed(mac, jar) ==> r.answered)
  {
    hide Mint, Verify, WriteCookie, ReadCookie, Decode, HeaderValue, Guard, EchoSafe;
    EmptyRead(jar);
    EchoOfEmpty();
    var token := ReadToken(jar);
    if token == Some("") {
      FetchedToken(mac, jar, nonce);
      var fetched := EnsureToken(mac, jar, Some(nonce)).value;
      EmptyRead(fetched);
      EmptyWrite(Mint(mac, nonce, SessionOf(jar)), fetched);
      FirstSend(mac, fetched, nonce');
    } else {
      FirstSend(mac, jar, nonce');
    }
  }

  lemma EchoOfEmpty()
    ensures Echo("") == Some("")
  {
  }

  /** The request from a jar whose token the script finds. */
  lemma FirstSend(mac: Mac, jar: Jar, nonce: seq<Byte>)
    requires jar.csrf.Some? && ReadToken(jar) != Some("")
    ensures var token := ReadToken(jar);
            var r := if token == None || HeaderValue(token.value) == None then Outcome(0, 0, false)
                     else if Guard(mac, jar, HeaderValue(token.value).value) then Outcome(1, 1, true)
                     else Retried(mac, jar, nonce);
            && r.handlerRuns == (if CanSucceed(mac, jar) then 1 else 0) && r.sends <= 2
            && (CanSucceed(mac, jar) ==> r.answered)
  {
    hide Mint, Verify, WriteCookie, ReadCookie, Decode, HeaderValue, Guard, EchoSafe, Retried;
    var token := ReadToken(jar);
    if token.Some? && HeaderValue(token.value).Some? {
      GuardOnEcho(mac, jar, HeaderValue(token.value).value);
      if !Accepts(mac, jar) {
        RetrySucceeds(mac, jar, nonce);
        RetriedAnswered(mac, jar, nonce);
      } else if Echo(jar.csrf.value) != Some(TokenOf(jar)) {
        RetryOfAccepted(mac, jar, nonce);
      }
    }
  }

  lemma RetriedAnswered(mac: Mac, jar: Jar, nonce: seq<Byte>)
    ensures Retried(mac, jar, nonce).handlerRuns == 1 ==> Retried(mac, jar, nonce).answered
  {
  }

  lemma {:induction false} WideByteIsUnsendable(s: string, i: nat)
    requires i < |s| && s[i] >= '\U{C4}'
    ensures Decode(s).None?
    decreases |s|
  {
    hide EscapeAt, Latin1;
    if i > 0 && s[0] != '%' && s[0] < '\U{80}' {
      WideByteIsUnsendable(s[1..], i - 1);
    } else if i >= 2 && s[0] != '%' {
      WideByteIsUnsendable(s[2..], i - 2);
    } else if s[0] == '%' {
      EscapesAreAscii(s);
      if i >= 6 {
        WideByteIsUnsendable(s[3..], i - 3);
        WideByteIsUnsendable(s[6..], i - 6);
      } else if i >= 3 {
        WideByteIsUnsendable(s[3..], i - 3);
        EscapesAreAscii(s[3..]);
        assert s[3..][i - 3] == s[i];
      }
    }
  }

  lemma EscapesAreAscii(s: string)
    ensures EscapeAt(s) >= 0 ==> |s| >= 3 && s[0] < '\U{80}' && s[1] < '\U{80}' && s[2] < '\U{80}'
  {
  }

  /**
   A CSRF cookie that holds a character above U+00FF, which any page of the same host can write,
   is never recovered from: the script finds a token, fetch refuses it, and no retry is made.
   */
  lemma WideCookieIsNotRecovered(mac: Mac, jar: Jar, i: nat, nonce: seq<Byte>, nonce': seq<Byte>)
    requires jar.csrf.Some? && i < |jar.csrf.value| && jar.csrf.value[i] >= '\U{C4}'
    ensures Requested(mac, jar, nonce, nonce') == Outcome(0, 0, false)
  {
    hide Decode;
    WideByteIsUnsendable(jar.csrf.value, i);
  }

  /* ---- Jars only the server has written ------------------------------------ */

  /** A generated session or none, and a token minted for what the jar presents or none. */
  ghost predicate ServerJar(mac: Mac, jar: Jar) {
    && (jar.session.Some? ==> exists uuid: seq<Byte> :: jar.session.value == WriteCookie(SessionId(uuid)))
    && (jar.csrf.Some? ==>
          exists nonce: seq<Byte> :: jar.csrf.value == WriteCookie(Mint(mac, nonce, SessionOf(jar))))
  }

  lemma ServerSessionIsPlain(mac: Mac, jar: Jar)
    requires ServerJar(mac, jar)
    ensures '!' !in SessionOf(jar) && EchoSafe(SessionOf(jar))
  {
    hide Mint, WriteCookie, ReadCookie, SessionId;
    if jar.session.Some? {
      var uuid: seq<Byte> :| jar.session.value == WriteCookie(SessionId(uuid));
      SessionIdIsPlain(uuid);
      CookieRoundTrip(SessionId(uuid));
    }
  }

  lemma FreshIsServers(mac: Mac, session: Option<string>, nonce: seq<Byte>)
    requires session.Some? ==> exists uuid: seq<Byte> :: session.value == WriteCookie(SessionId(uuid))
    ensures ServerJar(mac, WithToken(mac, session, nonce, ValueOf(session)))
  {
    hide Mint, WriteCookie, SessionId, ValueOf;
    var jar := WithToken(mac, session, nonce, ValueOf(session));
    assert jar.csrf.value == WriteCookie(Mint(mac, nonce, SessionOf(jar)));
  }

  lemma StepKeepsServerJar(mac: Mac, w: World, req: Request)
    requires ServerJar(mac, w.jar)
    ensures ServerJar(mac, Step(mac, w, req).jar)
  {
    hide ServerJar, WithToken, WriteCookie, ReadCookie, SessionId, Guard, Accepts, HasSession;
    match req
    case Safe(nonce) =>
      if nonce.Some? {
        KnownSession(mac, w.jar);
        FreshIsServers(mac, w.jar.session, nonce.value);
      }
    case Login(_, grant) =>
      if grant.Granted? && grant.nonce.Some? {
        SessionIdIsPlain(grant.uuid);
        CookieRoundTrip(SessionId(grant.uuid));
        FreshIsServers(mac, Some(WriteCookie(SessionId(grant.uuid))), grant.nonce.value);
      }
    case Logout(_, _, nonce) =>
      if nonce.Some? {
        FreshIsServers(mac, None, nonce.value);
      }
    case ChangePassword(_, _, _, nonce) =>
      if nonce.Some? {
        FreshIsServers(mac, None, nonce.value);
      }
    case OtherMutation(_) =>
    case Expiry(_) =>
  }

  lemma KnownSession(mac: Mac, jar: Jar)
    requires ServerJar(mac, jar)
    ensures jar.session.Some? ==> exists uuid: seq<Byte> :: jar.session.value == WriteCookie(SessionId(uuid))
  {
  }

  lemma {:induction false} RunKeepsServerJar(mac: Mac, w: World, reqs: seq<Request>)
    requires ServerJar(mac, w.jar)
    ensures ServerJar(mac, RunAll(mac, w, reqs).jar)
  {
    hide ServerJar, Step;
    if reqs != [] {
      RunKeepsServerJar(mac, w, reqs[..|reqs| - 1]);
      StepKeepsServerJar(mac, RunAll(mac, w, reqs[..|reqs| - 1]), reqs[|reqs| - 1]);
    }
  }

  lemma ServerJarSucceeds(mac: Mac, jar: Jar)
    requires ServerJar(mac, jar)
    ensures CanSucceed(mac, jar)
  {
    hide Mint, Verify, Echo, WriteCookie, ReadCookie, EchoSafe;
    ServerSessionIsPlain(mac, jar);
    if jar.csrf.Some? {
      var nonce: seq<Byte> :| jar.csrf.value == WriteCookie(Mint(mac, nonce, SessionOf(jar)));
      SessionIsCookieText(jar);
      MintedEcho(mac, nonce, SessionOf(jar));
      MintedIsCookieText(mac, nonce, SessionOf(jar));
      CookieRoundTrip(Mint(mac, nonce, SessionOf(jar)));
    }
  }

  /**
   From an empty jar, over every run of requests whatever fails in it, a mutating request gets
   through in the state the server alone has led to.
   */
  lemma ServerWrittenJarsSucceed(mac: Mac, live: map<string, string>, reqs: seq<Request>,
                                 nonce: seq<Byte>, nonce': seq<Byte>)
    ensures var jar := RunAll(mac, World(Jar(None, None), live), reqs).jar;
            CanSucceed(mac, jar) && Requested(mac, jar, nonce, nonce').handlerRuns == 1
  {
    hide CanSucceed, Requested, RunAll;
    var w := World(Jar(None, None), live);
    RunKeepsServerJar(mac, w, reqs);
    ServerJarSucceeds(mac, RunAll(mac, w, reqs).jar);
    RequestSucceeds(mac, RunAll(mac, w, reqs).jar, nonce, nonce');
  }
}
