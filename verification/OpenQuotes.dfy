/**
 Text that leaves a quote open in front of a `Forwarded` value: what the splitter and the
 resolver of backend/internal/rate-limiter/clientip.go then do, for every header.
 */
module OpenQuotes {
  import opened Wrappers
  import opened Text
  import opened ForwardedHeader
  import opened ClientIps

  /* ---- when the whole header is malformed -------------------------------------- */

  /** After an open quote the header is read as if it began inside a quoted string. */
  lemma AfterOpenQuote(t: string, header: string)
    requires !Balanced(t)
    ensures Scan(Plain, t + "," + header) == Scan(Quoted, header)
    ensures Scan(Plain, t + ",") == Quoted
  {
    hide Scan;
    ReadByte(t, ',');
    assert t + "," == t + [','];
    ScanConcat(Plain, t + ",", header);
  }

  /** Without backslashes, beginning inside or outside a quoted string gives opposite ends. */
  lemma {:induction false} WithoutBackslash(f: string)
    requires '\\' !in f
    ensures Scan(Plain, f) != Escaped && Scan(Quoted, f) != Escaped
    ensures Scan(Quoted, f) == Plain <==> Scan(Plain, f) != Plain
  {
    if f != "" {
      WithoutBackslash(f[..|f| - 1]);
      assert f[|f| - 1] != '\\';
    }
  }

  /**
   A header behind an open quote is accepted exactly when, read from inside a quoted string, it
   closes it and every one it opens. Without backslashes that is exactly when the header alone
   is malformed; so a well-formed header without backslashes is then always dropped.
   */
  lemma OpenQuoteDrops(t: string, header: string)
    requires !Balanced(t)
    ensures Balanced(t + "," + header) <==> Scan(Quoted, header) == Plain
    ensures '\\' !in header ==> (Balanced(t + "," + header) <==> !Balanced(header))
    ensures '"' !in header ==> !Balanced(t + "," + header)
  {
    hide Scan;
    AfterOpenQuote(t, header);
    if '\\' !in header {
      WithoutBackslash(header);
    }
    if '"' !in header {
      OnlyQuotesSwitch(Quoted, header);
    }
  }

  /** A dropped header leaves no chain, and the peer is used. */
  lemma OpenQuoteHidesTheChain(parse: Parser, trusted: Trust, req: Request, header: string, t: string)
    requires req.xff == [] && req.forwarded == [t + "," + header]
    requires !Balanced(t) && Scan(Quoted, header) != Plain
    ensures Chain(parse, req) == []
    ensures req.platform == "" ==> Resolve(parse, trusted, req) == req.peer
  {
    hide Scan, HeaderAddrs;
    OpenQuoteDrops(t, header);
    OneLine(parse, t + "," + header);
    DroppedWhole(parse, t + "," + header);
  }

  /* ---- which records result otherwise --------------------------------------------- */

  /** Length of the shortest part of `header` that ends the quoted string it begins in, or -1. */
  function Closing(header: string): (n: int)
    ensures n <= |header| && (n >= 0 ==> n > 0 && Scan(Quoted, header[..n]) == Plain)
    ensures forall i :: 0 <= i <= |header| && (n < 0 || i < n) ==> Scan(Quoted, header[..i]) != Plain
  {
    if header == "" then -1 else
      var front := header[..|header| - 1];
      assert forall i :: 0 <= i <= |front| ==> front[..i] == header[..i];
      assert header[..|header|] == header;
      if Closing(front) >= 0 then Closing(front)
      else if Scan(Quoted, header) == Plain then |header| else -1
  }

  /** Two lists of pieces of which the last and the first are one. */
  function Merged(p: seq<string>, q: seq<string>): seq<string>
    requires |p| >= 1 && |q| >= 1
  {
    p[..|p| - 1] + [p[|p| - 1] + q[0]] + q[1..]
  }

  /** Balanced text, followed by anything: only the pieces that meet are joined. */
  lemma {:induction false} PiecesMerge(a: string, b: string)
    requires Balanced(a)
    ensures Scan(Plain, a + b) == Scan(Plain, b)
    ensures RawPieces(a + b) == Merged(RawPieces(a), RawPieces(b))
    decreases |b|
  {
    hide Scan, RawPieces;
    StartOfHeader();
    if b == "" {
      assert a + b == a;
      var p := RawPieces(a);
      assert p[|p| - 1] + "" == p[|p| - 1];
    } else {
      var f, c := b[..|b| - 1], b[|b| - 1];
      PiecesMerge(a, f);
      ReadByte(f, c);
      ReadByte(a + f, c);
      assert b == f + [c] && a + b == a + f + [c];
      MergeNext(RawPieces(a), RawPieces(f), c);
    }
  }

  lemma MergeNext(p: seq<string>, q: seq<string>, c: char)
    requires |p| >= 1 && |q| >= 1
    ensures Merged(p, q + [""]) == Merged(p, q) + [""]
    ensures var m, k := Merged(p, q), |q| - 1;
            Merged(p, q[..k] + [q[k] + [c]]) == m[..|m| - 1] + [m[|m| - 1] + [c]]
  {
    var m, k := Merged(p, q), |q| - 1;
    var q' := q[..k] + [q[k] + [c]];
    if k == 0 {
      assert q' == [q[0] + [c]] && m == p[..|p| - 1] + [p[|p| - 1] + q[0]];
      assert p[|p| - 1] + q[0] + [c] == p[|p| - 1] + (q[0] + [c]);
    } else {
      assert q'[1..] == q[1..][..k - 1] + [q[k] + [c]];
      assert m[|m| - 1] == q[k];
    }
  }

  /** Text read inside an open quote is written on the last piece. */
  lemma {:induction false} OpenExtends(t: string, w: string)
    requires forall i :: 0 <= i < |w| ==> !Balanced(t + w[..i])
    ensures RawPieces(t + w) == Extended(t, w)
  {
    hide Scan, RawPieces;
    if w == "" {
      assert t + w == t;
      var p := RawPieces(t);
      assert p[|p| - 1] + "" == p[|p| - 1];
    } else {
      var f, c := w[..|w| - 1], w[|w| - 1];
      forall i | 0 <= i < |f| ensures !Balanced(t + f[..i]) {
        assert f[..i] == w[..i];
      }
      OpenExtends(t, f);
      assert w[..|f|] == f && !Balanced(t + f);
      ReadInside(t, f, c);
      assert w == f + [c] && t + w == t + f + [c];
    }
  }

  /**
   An accepted header behind an open quote: the whole records of the text in front stay, its
   open piece swallows the header up to the first closing quote and on to the next bare comma,
   and the rest splits as it does alone.
   */
  lemma OpenQuoteMerges(t: string, header: string)
    requires !Balanced(t) && Balanced(t + "," + header)
    ensures var n := Closing(header);
            && n > 0
            && Records(t + "," + header) ==
               Some(Trimmed(Merged(Extended(t, "," + header[..n]), RawPieces(header[n..]))))
  {
    hide Scan, RawPieces, Closing, Merged, Extended;
    OpenQuoteDrops(t, header);
    assert header[..|header|] == header;
    var n := Closing(header);
    var q, rest := header[..n], header[n..];
    var a, w := t + "," + q, "," + q;
    OpenQuoteDrops(t, q);
    assert t + "," + header == a + rest && a == t + w;
    forall i | 0 <= i < |w| ensures !Balanced(t + w[..i]) {
      if i == 0 {
        assert t + w[..0] == t;
      } else {
        assert w[..i] == "," + q[..i - 1] && q[..i - 1] == header[..i - 1];
        assert t + w[..i] == t + "," + q[..i - 1];
        OpenQuoteDrops(t, q[..i - 1]);
      }
    }
    OpenExtends(t, w);
    PiecesMerge(a, rest);
  }

  /* ---- the address can be chosen from the left -------------------------------------- */

  /** A value that is plain and holds none of the bytes the header's syntax uses. */
  predicate BareValue(v: string) {
    PlainValue(v) && '"' !in v && '\\' !in v && ',' !in v && ';' !in v
  }

  function Claim(v: string): string {
    "for=" + v + ";x=\""
  }

  function Written(u: string): string {
    "for=" + u + ";by=\"\\\"\""
  }

  /** Bare text followed by text read in quotes; both halves of the witness have this form. */
  lemma ScanBare(b: string, w: string)
    requires '"' !in b
    ensures Scan(Plain, b + w) == Scan(Plain, w)
  {
    ScanConcat(Plain, b, w);
    OnlyQuotesSwitch(Plain, b);
  }

  lemma {:induction false} QuotedPlainText(f: string)
    requires '"' !in f && '\\' !in f
    ensures Scan(Quoted, f) == Quoted
  {
    WithoutBackslash(f);
    OnlyQuotesSwitch(Quoted, f);
  }

  lemma ClaimIsOpen(v: string)
    requires BareValue(v)
    ensures !Balanced(Claim(v))
  {
    hide Scan;
    var b := "for=" + v + ";x=";
    ScanBare(b, "\"");
    assert Claim(v) == b + "\"";
    OneQuote();
  }

  lemma OneQuote()
    ensures Scan(Plain, "\"") == Quoted && Scan(Quoted, "\"") == Plain
    ensures Scan(Plain, "\\\"\"") == Plain && Scan(Quoted, "\\\"\"") == Plain
  {
    ReadByte("", '"');
    ReadByte("", '\\');
    ReadByte("" + ['\\'], '"');
    ReadByte("" + ['\\'] + ['"'], '"');
    assert "\"" == "" + ['"'];
    assert "\\\"\"" == "" + ['\\'] + ['"'] + ['"'];
  }

  /** The header is well formed alone and still well formed behind an open quote. */
  lemma WrittenEitherWay(u: string)
    requires BareValue(u)
    ensures Balanced(Written(u)) && Scan(Quoted, Written(u)) == Plain
  {
    hide Scan;
    var b := "for=" + u + ";by=";
    var tail := "\\\"\"";
    OneQuote();
    assert Written(u) == b + "\"" + tail;
    ScanConcat(Plain, b + "\"", tail);
    ScanBare(b, "\"");
    ScanConcat(Quoted, b + "\"", tail);
    ScanConcat(Quoted, b, "\"");
    QuotedPlainText(b);
  }

  lemma PlainEndsAreTrimmed(s: string)
    requires s != "" && ' ' < s[0] < '\U{7f}' && ' ' < s[|s| - 1] < '\U{7f}'
    ensures TrimSpace(s) == s
  {
    hide SpaceRune, SpaceAtFront, SpaceAtBack;
    var n, m := SpaceAtFront(s), SpaceAtBack(s);
    if n > 0 {
      RuneStopsBefore(s, 0, n, 0);
    }
    if m > 0 {
      RuneStopsBefore(s, |s| - m, m, |s| - 1);
    }
  }

  /** A header that is a single record starting with a "for" parameter yields that address. */
  lemma OneRecord(parse: Parser, header: string, v: string, rest: string)
    requires header == "for=" + v + ";" + rest && BareValue(v) && TrimSpace(header) == header
    requires Balanced(header) && forall i :: 0 <= i < |header| ==> !TopComma(header, i)
    ensures HeaderAddrs(parse, header) == Appended([], ParseAddr(parse, v))
  {
    hide ParseAddr, Scan, RawPieces, TrimSpace, ForValue, PlainValue, RecordAddr;
    RecordIsOnePiece(header);
    assert Trimmed([header]) == [header];
    assert NamesFor("for");
    ForValueIsRead("for", v);
    assert "for" + "=" + v == "for=" + v;
    FirstForDecides(parse, "for=" + v, rest);
    OnlyEntry(parse, header);
  }

  lemma OnlyEntry(parse: Parser, entry: string)
    ensures RecordAddrs(parse, [entry]) == Appended([], RecordAddr(parse, entry))
  {
    hide RecordAddr;
    assert [entry][..0] == [];
  }

  lemma NoCommaNoSplit(s: string, at: nat)
    requires at < |s| && !Balanced(s[..at]) && ',' !in s[..at] && ',' !in s[at + 1..]
    ensures forall i :: 0 <= i < |s| ==> !TopComma(s, i)
  {
    hide Scan;
    forall i | 0 <= i < |s| ensures !TopComma(s, i) {
      if i < at {
        assert s[i] == s[..at][i];
      } else if i > at {
        assert s[i] == s[at + 1..][i - at - 1];
      }
    }
  }

  lemma NoCommas(v: string)
    requires BareValue(v)
    ensures ',' !in Claim(v) && ',' !in Written(v)
  {
    hide PlainValue;
  }

  /** Read alone, the header yields its own address; behind the claim, the claimed one. */
  lemma ClaimedFirst(parse: Parser, v: string, u: string)
    requires BareValue(v) && BareValue(u)
    ensures HeaderAddrs(parse, Written(u)) == Appended([], ParseAddr(parse, u))
    ensures HeaderAddrs(parse, Claim(v) + "," + Written(u)) == Appended([], ParseAddr(parse, v))
  {
    hide ParseAddr, Scan, BareValue, TrimSpace, HeaderAddrs;
    WrittenEitherWay(u);
    ClaimIsOpen(v);
    OpenQuoteDrops(Claim(v), Written(u));
    NoCommas(v);
    NoCommas(u);
    var alone, both := Written(u), Claim(v) + "," + Written(u);
    PlainEndsAreTrimmed(alone);
    PlainEndsAreTrimmed(both);
    assert alone == "for=" + u + ";" + "by=\"\\\"\"";
    OneRecord(parse, alone, u, "by=\"\\\"\"");
    assert both == "for=" + v + ";" + ("x=\"," + alone);
    assert both[..|Claim(v)|] == Claim(v) && both[|Claim(v)| + 1..] == alone;
    NoCommaNoSplit(both, |Claim(v)|);
    OneRecord(parse, both, v, "x=\"," + alone);
  }

  /**
   With one escaped quote in the header the open quote does not drop it: the merged record
   starts with the text's own "for" parameter, and the client address is the one it names.
   */
  lemma OpenQuoteChoosesTheAddress(parse: Parser, trusted: Trust, req: Request, v: string, u: string)
    requires BareValue(v) && BareValue(u) && req.xff == [] && req.forwarded == [Written(u)]
    requires req.peer.Some? && trusted(req.peer.value) && req.platform == ""
    requires ParseAddr(parse, v).Some? && !trusted(ParseAddr(parse, v).value)
    requires ParseAddr(parse, u).Some? && !trusted(ParseAddr(parse, u).value)
    ensures Balanced(Written(u)) && !Balanced(Claim(v))
    ensures Resolve(parse, trusted, req) == ParseAddr(parse, u)
    ensures Resolve(parse, trusted, req.(forwarded := [Claim(v) + "," + Written(u)])) == ParseAddr(parse, v)
  {
    hide ParseAddr, Scan, BareValue, HeaderAddrs, Claim, Written;
    WrittenEitherWay(u);
    ClaimIsOpen(v);
    ClaimedFirst(parse, v, u);
    OneLine(parse, Written(u));
    OneLine(parse, Claim(v) + "," + Written(u));
    assert forall a: seq<Addr> :: [] + a == a;
  }

  /* ---- the exact condition -------------------------------------------------------- */

  /**
   Text that may be put in front of any single Forwarded value: whatever the header, the
   parser, the trust list and the peer, an address the header already decides stays decided.
   */
  ghost predicate Harmless(t: string) {
    forall parse: Parser, trusted: Trust, req: Request ::
      req.xff == [] && |req.forwarded| == 1 && Rightmost(trusted, Chain(parse, req)).Some? ==>
        Resolve(parse, trusted, req.(forwarded := [t + "," + req.forwarded[0]])) == Resolve(parse, trusted, req)
  }

  const WITNESS_PEER: Addr := Addr(1, 32, "")
  const WITNESS_CLIENT: Addr := Addr(2, 32, "")

  function WitnessParser(s: string): Option<Addr> {
    if s == "c" then Some(WITNESS_CLIENT) else None
  }

  predicate WitnessTrust(a: Addr) {
    a == WITNESS_PEER
  }

  /** Exactly the texts that close every quote they open are harmless. */
  lemma HarmlessIffBalanced(t: string)
    ensures Harmless(t) <==> Balanced(t)
  {
    hide Scan, HeaderAddrs, Resolve, Rightmost, Simple, BareValue;
    if Balanced(t) {
      forall parse: Parser, trusted: Trust, req: Request
        | req.xff == [] && |req.forwarded| == 1 && Rightmost(trusted, Chain(parse, req)).Some?
        ensures Resolve(parse, trusted, req.(forwarded := [t + "," + req.forwarded[0]])) == Resolve(parse, trusted, req)
      {
        assert req.forwarded == [req.forwarded[0]];
        ForwardedTextDoesNotMatter(parse, trusted, req, req.forwarded[0], t);
      }
    } else {
      var req := Request(Some(WITNESS_PEER), "", [], [Simple("c")]);
      WitnessAlone(req);
      var req' := req.(forwarded := [t + "," + req.forwarded[0]]);
      WitnessValue();
      SimpleRecord(WitnessParser, "c");
      OpenQuoteDrops(t, Simple("c"));
      OpenQuoteHidesTheChain(WitnessParser, WitnessTrust, req', Simple("c"), t);
      assert Resolve(WitnessParser, WitnessTrust, req') != Resolve(WitnessParser, WitnessTrust, req);
    }
  }

  function Simple(v: string): string {
    "for=" + v + ";" + "p=h"
  }

  lemma SimpleRecord(parse: Parser, v: string)
    requires BareValue(v)
    ensures '"' !in Simple(v)
    ensures HeaderAddrs(parse, Simple(v)) == Appended([], ParseAddr(parse, v))
  {
    hide Scan, RawPieces, TopComma, TrimSpace, HeaderAddrs, ParseAddr, PlainValue;
    var header := Simple(v);
    PlainEndsAreTrimmed(header);
    OnlyQuotesSwitch(Plain, header);
    CommaFree(header);
    OneRecord(parse, header, v, "p=h");
  }

  lemma WitnessAlone(req: Request)
    requires req == Request(Some(WITNESS_PEER), "", [], [Simple("c")])
    ensures Rightmost(WitnessTrust, Chain(WitnessParser, req)).Some?
    ensures Resolve(WitnessParser, WitnessTrust, req) == Some(WITNESS_CLIENT)
  {
    hide Simple, HeaderAddrs, ParseAddr, BareValue;
    WitnessValue();
    SimpleRecord(WitnessParser, "c");
    OneLine(WitnessParser, Simple("c"));
    assert [] + [WITNESS_CLIENT] == [WITNESS_CLIENT];
  }

  lemma CommaFree(s: string)
    requires ',' !in s
    ensures forall i :: 0 <= i < |s| ==> !TopComma(s, i)
  {
  }

  lemma WitnessValue()
    ensures BareValue("c") && ParseAddr(WitnessParser, "c") == Some(WITNESS_CLIENT)
  {
    PlainEndsAreTrimmed("c");
  }
}
