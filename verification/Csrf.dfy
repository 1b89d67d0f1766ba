/** base64url without padding, as in section 5 of RFC 4648. */
module Base64Url {
  import opened Text
  import opened BucketNames

  function Letter(i: int): char
    requires 0 <= i < 64
  {
    if i < 26 then ('A' as int + i) as char
    else if i < 52 then ('a' as int + i - 26) as char
    else if i < 62 then ('0' as int + i - 52) as char
    else if i == 62 then '-' else '_'
  }

  predicate InAlphabet(c: char) {
    'A' <= c <= 'Z' || 'a' <= c <= 'z' || '0' <= c <= '9' || c == '-' || c == '_'
  }

  lemma LetterInAlphabet(i: int)
    requires 0 <= i < 64
    ensures InAlphabet(Letter(i))
  {
  }

  /** base64.RawURLEncoding. */
  function Encode(b: seq<Byte>): string {
    if |b| == 0 then ""
    else if |b| == 1 then [Letter(b[0] / 4), Letter(b[0] % 4 * 16)]
    else if |b| == 2 then [Letter(b[0] / 4), Letter(b[0] % 4 * 16 + b[1] / 16), Letter(b[1] % 16 * 4)]
    else [Letter(b[0] / 4), Letter(b[0] % 4 * 16 + b[1] / 16), Letter(b[1] % 16 * 4 + b[2] / 64), Letter(b[2] % 64)]
         + Encode(b[3..])
  }

  /** base64.URLEncoding: padded to a multiple of four. */
  function EncodePadded(b: seq<Byte>): string {
    Encode(b) + (if |b| % 3 == 1 then "==" else if |b| % 3 == 2 then "=" else "")
  }

  lemma {:induction false} EncodeAlphabet(b: seq<Byte>)
    ensures forall c | c in Encode(b) :: InAlphabet(c)
    decreases |b|
  {
    hide Letter, InAlphabet;
    if |b| == 1 {
      LetterInAlphabet(b[0] / 4);
      LetterInAlphabet(b[0] % 4 * 16);
    } else if |b| == 2 {
      LetterInAlphabet(b[0] / 4);
      LetterInAlphabet(b[0] % 4 * 16 + b[1] / 16);
      LetterInAlphabet(b[1] % 16 * 4);
    } else if |b| >= 3 {
      LetterInAlphabet(b[0] / 4);
      LetterInAlphabet(b[0] % 4 * 16 + b[1] / 16);
      LetterInAlphabet(b[1] % 16 * 4 + b[2] / 64);
      LetterInAlphabet(b[2] % 64);
      EncodeAlphabet(b[3..]);
    }
  }

  /** The place of a letter in the alphabet. */
  function PlaceOf(c: char): (i: int)
    ensures 0 <= i < 64
  {
    if 'A' <= c <= 'Z' then c as int - 'A' as int
    else if 'a' <= c <= 'z' then 26 + c as int - 'a' as int
    else if '0' <= c <= '9' then 52 + c as int - '0' as int
    else if c == '-' then 62 else 63
  }

  /** Reading an encoding back: every letter is six bits, first letter first. */
  function Decode(s: string): seq<Byte> {
    if |s| <= 1 then []
    else
      var first := (PlaceOf(s[0]) * 4 + PlaceOf(s[1]) / 16) as Byte;
      if |s| == 2 then [first]
      else
        var second := (PlaceOf(s[1]) % 16 * 16 + PlaceOf(s[2]) / 4) as Byte;
        if |s| == 3 then [first, second]
        else [first, second, (PlaceOf(s[2]) % 4 * 64 + PlaceOf(s[3])) as Byte] + Decode(s[4..])
  }

  lemma LetterHasPlace(i: int)
    requires 0 <= i < 64
    ensures PlaceOf(Letter(i)) == i
  {
  }

  lemma FirstGroup(a: Byte, b: Byte, c: Byte)
    ensures a / 4 * 4 + (a % 4 * 16 + b / 16) / 16 == a
    ensures (a % 4 * 16 + b / 16) % 16 * 16 + (b % 16 * 4 + c / 64) / 4 == b
    ensures (b % 16 * 4 + c / 64) % 4 * 64 + c % 64 == c
  {
  }

  lemma NothingReadsBack()
    ensures Decode("") == []
  {
  }

  lemma OneReadsBack(a: Byte)
    ensures Decode([Letter(a / 4), Letter(a % 4 * 16)]) == [a]
  {
    hide Letter, PlaceOf;
    LetterHasPlace(a / 4);
    LetterHasPlace(a % 4 * 16);
    FirstGroup(a, 0, 0);
  }

  lemma TwoReadBack(a: Byte, b: Byte)
    ensures Decode([Letter(a / 4), Letter(a % 4 * 16 + b / 16), Letter(b % 16 * 4)]) == [a, b]
  {
    hide Letter, PlaceOf;
    LetterHasPlace(a / 4);
    LetterHasPlace(a % 4 * 16 + b / 16);
    LetterHasPlace(b % 16 * 4);
    FirstGroup(a, b, 0);
  }

  lemma GroupReadsBack(a: Byte, b: Byte, c: Byte, rest: string)
    ensures var group := [Letter(a / 4), Letter(a % 4 * 16 + b / 16), Letter(b % 16 * 4 + c / 64), Letter(c % 64)];
            Decode(group + rest) == [a, b, c] + Decode(rest)
  {
    hide Letter, PlaceOf;
    LetterHasPlace(a / 4);
    LetterHasPlace(a % 4 * 16 + b / 16);
    LetterHasPlace(b % 16 * 4 + c / 64);
    LetterHasPlace(c % 64);
    FirstGroup(a, b, c);
    var group := [Letter(a / 4), Letter(a % 4 * 16 + b / 16), Letter(b % 16 * 4 + c / 64), Letter(c % 64)];
    assert (group + rest)[4..] == rest;
  }

  /** The encoding reads back to the bytes. */
  lemma {:induction false} DecodeEncode(b: seq<Byte>)
    ensures Decode(Encode(b)) == b
    decreases |b|
  {
    hide Letter, PlaceOf, Decode;
    if b == [] {
      NothingReadsBack();
    } else if |b| == 1 {
      OneReadsBack(b[0]);
    } else if |b| == 2 {
      TwoReadBack(b[0], b[1]);
    } else {
      DecodeEncode(b[3..]);
      GroupReadsBack(b[0], b[1], b[2], Encode(b[3..]));
      assert b == [b[0], b[1], b[2]] + b[3..];
    }
  }

  lemma EncodeInjective(a: seq<Byte>, b: seq<Byte>)
    requires Encode(a) == Encode(b)
    ensures a == b
  {
    DecodeEncode(a);
    DecodeEncode(b);
  }

  lemma PaddedInjective(a: seq<Byte>, b: seq<Byte>)
    ensures EncodePadded(a) == EncodePadded(b) <==> a == b
  {
    hide Encode;
    if EncodePadded(a) == EncodePadded(b) {
      PaddingEnds(a);
      PaddingEnds(b);
      EncodeInjective(a, b);
    }
  }

  /** The encoding is what stands before the padding. */
  lemma PaddingEnds(b: seq<Byte>)
    ensures var s := EncodePadded(b); Encode(b) == s[..FirstIndex(s, '=')]
  {
    EncodeAlphabet(b);
    hide Encode, FirstIndex;
    var s, e := EncodePadded(b), Encode(b);
    assert '=' !in e;
    FirstIndexUnique(e, '=', "");
    FirstIndexUnique(e, '=', "=");
    assert e + "=" + "" == e + "=" && e + "=" + "=" == e + "==";
    assert s[..|e|] == e;
    assert s == e ==> FirstIndex(s, '=') == |e|;
  }
}

/** HTTP cookie values as Go's net/http reads and writes them. */
module Cookies {
  import opened Wrappers

  predicate CookieByte(c: char) {
    ' ' <= c < '\U{7f}' && c != '"' && c != ';' && c != '\\'
  }

  predicate CookieText(s: string) {
    forall c | c in s :: CookieByte(c)
  }

  predicate Quoted(raw: string) {
    |raw| > 1 && raw[0] == '"' && raw[|raw| - 1] == '"'
  }

  /** The value the server sees, or None when it drops the cookie as malformed. */
  function ReadCookie(raw: string): (v: Option<string>)
    ensures v.Some? ==> CookieText(v.value)
  {
    var v := if Quoted(raw) then raw[1..|raw| - 1] else raw;
    if CookieText(v) then Some(v) else None
  }

  function Sanitize(v: string): (r: string)
    ensures CookieText(r)
    ensures CookieText(v) ==> r == v
  {
    if v == "" then "" else (if CookieByte(v[0]) then [v[0]] else "") + Sanitize(v[1..])
  }

  /** What goes over the wire: invalid bytes dropped, quoted if a space or comma remains. */
  function WriteCookie(v: string): string {
    var r := Sanitize(v);
    if ' ' in r || ',' in r then "\"" + r + "\"" else r
  }

  /** A well-formed value survives the trip through the browser. */
  lemma CookieRoundTrip(v: string)
    requires CookieText(v)
    ensures ReadCookie(WriteCookie(v)) == Some(v)
  {
    assert |v| > 0 ==> v[0] in v;
    if ' ' in v || ',' in v {
      var raw := "\"" + v + "\"";
      assert raw[1..|raw| - 1] == v;
    }
  }
}

/** Signed double-submit tokens (backend/internal/authentication/csrf.go). */
module CsrfTokens {
  import opened Wrappers
  import opened BucketNames
  import opened Text
  import opened Base64Url
  import opened Cookies

  /** HMAC-SHA256 (RFC 2104) under the server's secret, about which nothing is assumed. */
  type Mac = string -> seq<Byte>

  function Sign(mac: Mac, message: string): string {
    Encode(mac(message))
  }

  /** nonce "!" session "." signature */
  function Mint(mac: Mac, nonce: seq<Byte>, session: string): string {
    var message := Encode(nonce) + "!" + session;
    message + "." + Sign(mac, message)
  }

  predicate Verify(mac: Mac, token: string, session: string) {
    var sigAt := LastIndex(token, '.');
    if sigAt < 0 then false
    else
      var message, sig := token[..sigAt], token[sigAt + 1..];
      if sig != Sign(mac, message) then false
      else
        var bindAt := LastIndex(message, '!');
        if bindAt < 0 then false else message[bindAt + 1..] == session
  }

  /** The part of a session id after its last "!". */
  function AfterBang(s: string): string {
    s[LastIndex(s, '!') + 1..]
  }

  lemma SignatureIsPlain(mac: Mac, message: string)
    ensures '.' !in Sign(mac, message) && '!' !in Sign(mac, message) && '%' !in Sign(mac, message)
    ensures CookieText(Sign(mac, message)) && ' ' !in Sign(mac, message) && ',' !in Sign(mac, message)
  {
    EncodeAlphabet(mac(message));
  }

  /** A token built from any message verifies exactly for what follows the message's last "!". */
  lemma VerifySigned(mac: Mac, message: string, t: string)
    ensures Verify(mac, message + "." + Sign(mac, message), t) <==>
            '!' in message && AfterBang(message) == t
  {
    var sig := Sign(mac, message);
    SignatureIsPlain(mac, message);
    LastIndexUnique(message, '.', sig);
    var token := message + "." + sig;
    assert token[..|message|] == message && token[|message| + 1..] == sig;
  }

  lemma {:induction false} LastIndexPastPrefix(a: string, c: char, b: string)
    ensures LastIndex(a + b, c) == if LastIndex(b, c) >= 0 then |a| + LastIndex(b, c) else LastIndex(a, c)
    decreases |b|
  {
    if b == "" {
      assert a + b == a;
    } else {
      assert (a + b)[..|a + b| - 1] == a + b[..|b| - 1];
      LastIndexPastPrefix(a, c, b[..|b| - 1]);
    }
  }

  lemma AfterBangOfMessage(prefix: string, s: string)
    ensures '!' in prefix + "!" + s && AfterBang(prefix + "!" + s) == AfterBang(s)
  {
    var message := prefix + "!" + s;
    assert message[|prefix|] == '!';
    LastIndexPastPrefix(prefix + "!", '!', s);
    LastIndexUnique(prefix, '!', "");
    assert prefix + "!" + "" == prefix + "!";
  }

  /** A minted token verifies for exactly one session: what follows the last "!" of the id it was minted for. */
  lemma TokenBinding(mac: Mac, nonce: seq<Byte>, s: string, t: string)
    ensures Verify(mac, Mint(mac, nonce, s), t) <==> t == AfterBang(s)
    ensures '!' !in s ==> (Verify(mac, Mint(mac, nonce, s), t) <==> s == t)
    ensures Verify(mac, Mint(mac, nonce, s), s) <==> '!' !in s
  {
    var message := Encode(nonce) + "!" + s;
    VerifySigned(mac, message, t);
    VerifySigned(mac, message, s);
    AfterBangOfMessage(Encode(nonce), s);
    assert '!' !in AfterBang(s);
  }

  lemma AcceptedHasShape(mac: Mac, token: string, t: string) returns (p: string)
    requires Verify(mac, token, t)
    ensures '!' !in t && token == p + "!" + t + "." + Sign(mac, p + "!" + t)
  {
    hide Sign;
    var sigAt := LastIndex(token, '.');
    var message := token[..sigAt];
    var bindAt := LastIndex(message, '!');
    p := message[..bindAt];
    assert message == p + "!" + t;
    assert token == message + "." + token[sigAt + 1..];
  }

  lemma ShapeIsAccepted(mac: Mac, p: string, t: string)
    requires '!' !in t
    ensures Verify(mac, p + "!" + t + "." + Sign(mac, p + "!" + t), t)
  {
    hide Sign, Verify;
    VerifySigned(mac, p + "!" + t, t);
    AfterBangOfMessage(p, t);
  }

  /** Exactly which tokens are accepted: a signed message ending in "!" and the session id. */
  lemma AcceptedTokens(mac: Mac, token: string, t: string)
    ensures Verify(mac, token, t) <==>
            '!' !in t && exists p: string :: token == p + "!" + t + "." + Encode(mac(p + "!" + t))
  {
    hide Verify, Encode;
    if Verify(mac, token, t) {
      var p := AcceptedHasShape(mac, token, t);
      assert token == p + "!" + t + "." + Encode(mac(p + "!" + t));
    }
    forall p: string | '!' !in t && token == p + "!" + t + "." + Encode(mac(p + "!" + t))
      ensures Verify(mac, token, t)
    {
      ShapeIsAccepted(mac, p, t);
    }
  }

  /** No token is good for two sessions, so changing the session retires every earlier token. */
  lemma TokenBindsOneSession(mac: Mac, token: string, s: string, t: string)
    requires Verify(mac, token, s) && Verify(mac, token, t)
    ensures s == t && token != "" && '!' !in s
  {
  }

  /** A token minted for a well-formed id is a well-formed cookie value. */
  lemma MintedIsCookieText(mac: Mac, nonce: seq<Byte>, s: string)
    requires CookieText(s)
    ensures CookieText(Mint(mac, nonce, s)) && Mint(mac, nonce, s) != ""
  {
    hide Sign;
    EncodeAlphabet(nonce);
    var message := Encode(nonce) + "!" + s;
    SignatureIsPlain(mac, message);
    assert CookieText(message);
  }

  /** A token accepted under two secrets has one authentication code under both. */
  lemma AcceptedUnderOneSecret(mac: Mac, mac': Mac, message: string, code: seq<Byte>, t: string)
    requires Verify(mac, message + "." + Encode(code), t)
    ensures code == mac(message)
    ensures Verify(mac', message + "." + Encode(code), t) <==> mac'(message) == mac(message)
  {
    hide Encode;
    EncodeAlphabet(code);
    LastIndexUnique(message, '.', Encode(code));
    var token := message + "." + Encode(code);
    assert token[..|message|] == message && token[|message| + 1..] == Encode(code);
    EncodeInjective(code, mac(message));
    if mac'(message) != code && Encode(mac'(message)) == Encode(code) {
      EncodeInjective(code, mac'(message));
    }
  }

  /** Two tokens differ unless nonce and session are the same: a fresh nonce makes a new token. */
  lemma MintInjective(mac: Mac, n: seq<Byte>, s: string, n': seq<Byte>, s': string)
    ensures Mint(mac, n, s) == Mint(mac, n', s') <==> n == n' && s == s'
  {
    hide Encode;
    if Mint(mac, n, s) == Mint(mac, n', s') {
      var m, m' := Encode(n) + "!" + s, Encode(n') + "!" + s';
      SignatureIsPlain(mac, m);
      SignatureIsPlain(mac, m');
      LastIndexUnique(m, '.', Sign(mac, m));
      LastIndexUnique(m', '.', Sign(mac, m'));
      assert Mint(mac, n, s)[..|m|] == m && Mint(mac, n', s')[..|m'|] == m';
      EncodeAlphabet(n);
      EncodeAlphabet(n');
      FieldsUnique(Encode(n), s, '!', Encode(n'), s');
      EncodeInjective(n, n');
    }
  }

  /* ---- Session ids ------------------------------------------------------- */

  /** A random UUID, base64url with padding (session.go, generateNewToken). */
  function SessionId(uuid: seq<Byte>): string {
    EncodePadded(uuid)
  }

  lemma SessionIdIsPlain(uuid: seq<Byte>)
    ensures CookieText(SessionId(uuid))
    ensures forall c | c in SessionId(uuid) :: c != '!' && c != '.' && c != '%' && c != ' ' && c != ','
  {
    EncodeAlphabet(uuid);
  }
}
