/**
 Which address backend/internal/rate-limiter/clientip.go answers, for requests given by what the
 proxies wrote into them: every statement is about header text, the parsers and the trust list.
 */
module ClientAnswers {
  import opened Wrappers
  import opened Text
  import opened ForwardedHeader
  import opened ClientIps
  import opened OpenQuotes

  /* ---- who is believed --------------------------------------------------------- */

  /**
   Exactly a peer that is missing or untrusted is answered whatever the headers say. For the other
   half some text has to parse to another address, since otherwise no header can say anything.
   */
  lemma HeadersCountIffPeerTrusted(parse: Parser, trusted: Trust, peer: Option<Addr>, text: string)
    requires TrimSpace(text) == text && text != "" && text != "unknown" && text[0] != '_'
    requires parse(text).Some? && parse(text) != peer
    ensures (peer.None? || !trusted(peer.value)) <==>
            forall platform, xff, forwarded ::
              Resolve(parse, trusted, Request(peer, platform, xff, forwarded)) == peer
  {
    hide TrimSpace, Chain;
    if peer.Some? && trusted(peer.value) {
      assert Resolve(parse, trusted, Request(peer, text, [], [])) == parse(text);
    }
  }

  /** Two requests from one such peer resolve alike, with any headers. */
  lemma StrangersHeadersDoNotMatter(parse: Parser, trusted: Trust, req: Request, req': Request)
    requires req'.peer == req.peer && (req.peer.None? || !trusted(req.peer.value))
    ensures Resolve(parse, trusted, req) == Resolve(parse, trusted, req') == req.peer
  {
  }

  /** What the address parsers are asked, and the identifiers they are never asked about. */
  predicate Reads(parse: Parser, text: string, addr: Option<Addr>) {
    var s := TrimSpace(text);
    addr == if s == "" || s == "unknown" || "_" <= s then None else parse(s)
  }

  lemma ReadOnce(parse: Parser, text: string, addr: Option<Addr>)
    requires Reads(parse, text, addr)
    ensures ParseAddr(parse, text) == addr && ParseAddr(parse, TrimSpace(text)) == addr
  {
    TrimSpaceIdempotent(text);
    hide TrimSpace;
  }

  /** From a trusted peer a platform header that parses is the answer; any other is passed over. */
  lemma PlatformHeaderIsTheAnswer(parse: Parser, trusted: Trust, req: Request, addr: Option<Addr>)
    requires req.peer.Some? && trusted(req.peer.value) && Reads(parse, req.platform, addr)
    ensures Resolve(parse, trusted, req) ==
            if addr.Some? then addr else Resolve(parse, trusted, req.(platform := ""))
  {
    hide Chain, TrimSpace;
    ReadOnce(parse, req.platform, addr);
    assert Chain(parse, req.(platform := "")) == Chain(parse, req) by { SameChain(parse, req); }
    NothingIsRead(parse, req.platform);
  }

  lemma SameChain(parse: Parser, req: Request)
    ensures Chain(parse, req.(platform := "")) == Chain(parse, req)
  {
  }

  lemma NothingIsRead(parse: Parser, text: string)
    ensures text == "" ==> ParseAddr(parse, text).None?
  {
  }

  /* ---- an X-Forwarded-For line -------------------------------------------------- */

  /** One part of a line: what a proxy wrote and the address it reads as, if any. */
  datatype Hop = Hop(text: string, addr: Option<Addr>)

  predicate LineOf(parse: Parser, hops: seq<Hop>) {
    |hops| >= 1 && forall i | 0 <= i < |hops| :: ',' !in hops[i].text && Reads(parse, hops[i].text, hops[i].addr)
  }

  function PartsOf(hops: seq<Hop>): (r: seq<string>)
    ensures |r| == |hops| && forall i | 0 <= i < |r| :: r[i] == hops[i].text
  {
    if hops == [] then [] else PartsOf(hops[..|hops| - 1]) + [hops[|hops| - 1].text]
  }

  /** The addresses of a line, in the order written. */
  function AddressesOf(hops: seq<Hop>): seq<Addr> {
    if hops == [] then []
    else AddressesOf(hops[..|hops| - 1]) + match hops[|hops| - 1].addr case None => [] case Some(a) => [a]
  }

  lemma {:induction false} SplitOfJoin(texts: seq<string>)
    requires |texts| >= 1 && forall i | 0 <= i < |texts| :: ',' !in texts[i]
    ensures Split(Join(texts), ',') == texts
  {
    hide Split;
    var n := |texts| - 1;
    SplitFirst(texts[n], ',', "");
    if n > 0 {
      SplitOfJoin(texts[..n]);
      SplitAtSeparator(Join(texts[..n]), ',', texts[n]);
    }
  }

  lemma {:induction false} PartsAreRead(parse: Parser, hops: seq<Hop>)
    requires forall i | 0 <= i < |hops| :: Reads(parse, hops[i].text, hops[i].addr)
    ensures PartAddrs(parse, PartsOf(hops)) == AddressesOf(hops)
  {
    hide ParseAddr, TrimSpace, Reads;
    if hops != [] {
      var n := |hops| - 1;
      PartsAreRead(parse, hops[..n]);
      ReadOnce(parse, hops[n].text, hops[n].addr);
      assert PartsOf(hops)[..n] == PartsOf(hops[..n]);
    }
  }

  /** A line contributes the addresses written in it, in order, and nothing else. */
  lemma LineListsAddresses(parse: Parser, hops: seq<Hop>)
    requires LineOf(parse, hops)
    ensures XffAddrs(parse, [Join(PartsOf(hops))]) == AddressesOf(hops)
  {
    hide PartAddrs, XffAddrs, Split, Reads, AddressesOf, Join;
    var line := Join(PartsOf(hops));
    OneLine(parse, line);
    SplitOfJoin(PartsOf(hops));
    PartsAreRead(parse, hops);
  }

  /* ---- a Forwarded header ---------------------------------------------------------- */

  /** One record: a "for" parameter, in either spelling of its value. */
  datatype Node = Node(name: string, quoted: bool, value: string, addr: Option<Addr>)

  function RecordText(n: Node): string {
    n.name + "=" + if n.quoted then "\"" + n.value + "\"" else n.value
  }

  predicate GoodNode(parse: Parser, n: Node) {
    && n.name in {"for", "For", "fOr", "foR", "FOr", "FoR", "fOR", "FOR"}
    && PlainValue(n.value) && '"' !in n.value && '\\' !in n.value && ';' !in n.value
    && (',' in n.value ==> n.quoted)
    && Reads(parse, n.value, n.addr)
  }

  predicate HeaderOf(parse: Parser, nodes: seq<Node>) {
    |nodes| >= 1 && forall i | 0 <= i < |nodes| :: GoodNode(parse, nodes[i])
  }

  function RecordsOf(nodes: seq<Node>): (r: seq<string>)
    ensures |r| == |nodes| && forall i | 0 <= i < |r| :: r[i] == RecordText(nodes[i])
  {
    if nodes == [] then [] else RecordsOf(nodes[..|nodes| - 1]) + [RecordText(nodes[|nodes| - 1])]
  }

  function NamedBy(nodes: seq<Node>): seq<Addr> {
    if nodes == [] then []
    else NamedBy(nodes[..|nodes| - 1]) + match nodes[|nodes| - 1].addr case None => [] case Some(a) => [a]
  }

  /** The parameter is recognised under exactly the eight spellings of its name. */
  lemma EightNames(name: string)
    ensures NamesFor(name) <==> name in {"for", "For", "fOr", "foR", "FOr", "FoR", "fOR", "FOR"}
  {
    if NamesFor(name) {
      assert name == [name[0], name[1], name[2]];
    }
  }

  /** A parameter of any other name names nobody. */
  lemma OtherNamesAreNotRead(name: string, v: string)
    requires TrimSpace(name) == name && '=' !in name && SpaceAtFront(name + "=") == 0 && SpaceAtBack(v) == 0
    requires name !in {"for", "For", "fOr", "foR", "FOr", "FoR", "fOR", "FOR"}
    ensures ForValue(name + "=" + v).None?
  {
    EightNames(name);
    hide SpaceRune, SpaceAtFront, SpaceAtBack, NamesFor;
    NotInsideARune(name, '=', v);
    var p := name + "=" + v;
    assert TrimSpace(p) == p;
    FirstIndexUnique(name, '=', v);
    assert p[..|name|] == name;
  }

  lemma LastParameter(parse: Parser, param: string)
    requires ';' !in param
    ensures RecordAddr(parse, param) ==
            match ForValue(param) case None => None case Some(v) => ParseAddr(parse, v)
  {
    hide ForValue, ParseAddr, Split;
    SplitFirst(param, ';', "");
    assert FirstFor([param][1..]).None?;
    assert Split(param, ';') == [param];
  }

  lemma RecordIsRead(parse: Parser, n: Node)
    requires GoodNode(parse, n)
    ensures RecordAddr(parse, RecordText(n)) == n.addr
  {
    hide ForValue, ParseAddr, Reads, RecordAddr, PlainValue;
    EightNames(n.name);
    ForValueIsRead(n.name, n.value);
    ReadOnce(parse, n.value, n.addr);
    assert ';' !in RecordText(n);
    assert n.name + ("=" + ("\"" + n.value + "\"")) == n.name + "=\"" + n.value + "\"";
    assert RecordText(n) == n.name + "=" + n.value || RecordText(n) == n.name + "=\"" + n.value + "\"";
    LastParameter(parse, RecordText(n));
  }

  lemma BareRecord(s: string)
    requires '"' !in s && ',' !in s
    ensures Record(s)
  {
    OnlyQuotesSwitch(Plain, s);
    assert forall i | 0 <= i < |s| :: s[i] in s;
  }

  lemma QuotedRecord(b: string, v: string)
    requires '"' !in b && ',' !in b && '"' !in v && '\\' !in v
    ensures Record(b + "\"" + v + "\"")
  {
    hide Scan;
    var open := b + "\"";
    var s := open + v + "\"";
    ScanBare(b, "\"");
    OneQuote();
    ScanConcat(Plain, open, v);
    QuotedPlainText(v);
    ScanConcat(Plain, open + v, "\"");
    forall i | 0 <= i < |s| ensures !TopComma(s, i) {
      if s[i] == ',' {
        assert |open| <= i < |open + v|;
        var w := v[..i - |open|];
        assert s[..i] == open + w;
        QuotedPlainText(w);
        ScanConcat(Plain, open, w);
      }
    }
  }

  lemma NodeIsARecord(parse: Parser, n: Node)
    requires GoodNode(parse, n)
    ensures Record(RecordText(n)) && TrimSpace(RecordText(n)) == RecordText(n)
  {
    hide Record, Reads, SpaceAtFront, SpaceAtBack, SpaceRune;
    var s := RecordText(n);
    EightNames(n.name);
    NameIsTrimmed(n.name);
    if n.quoted {
      QuotedRecord(n.name + "=", n.value);
      assert s == n.name + "=" + "\"" + n.value + "\"";
      QuotedIsTrimmed(n.value);
      NotInsideARune(n.name, '=', "\"" + n.value + "\"");
    } else {
      BareRecord(s);
      NotInsideARune(n.name, '=', n.value);
    }
  }

  lemma {:induction false} RecordsAreRead(parse: Parser, nodes: seq<Node>)
    requires forall i | 0 <= i < |nodes| :: GoodNode(parse, nodes[i])
    ensures RecordAddrs(parse, RecordsOf(nodes)) == NamedBy(nodes)
  {
    hide RecordAddr, GoodNode, RecordText;
    if nodes != [] {
      var n := |nodes| - 1;
      RecordsAreRead(parse, nodes[..n]);
      RecordIsRead(parse, nodes[n]);
      assert RecordsOf(nodes)[..n] == RecordsOf(nodes[..n]);
    }
  }

  /** A header contributes the addresses its records name, in order, and nothing else. */
  lemma HeaderListsAddresses(parse: Parser, nodes: seq<Node>)
    requires HeaderOf(parse, nodes)
    ensures HeaderAddrs(parse, Join(RecordsOf(nodes))) == NamedBy(nodes)
  {
    hide RecordAddrs, GoodNode, NamedBy, Join, TrimSpace, RecordText, Record;
    var texts := RecordsOf(nodes);
    forall i | 0 <= i < |texts| ensures Record(texts[i]) && TrimSpace(texts[i]) == texts[i] {
      NodeIsARecord(parse, nodes[i]);
    }
    SplitAfterJoin(texts);
    RecordsAreRead(parse, nodes);
  }

  /* ---- the whole request -------------------------------------------------------------- */

  /** What the proxies wrote: X-Forwarded-For lines and Forwarded headers, in the order received. */
  datatype Path = Path(lines: seq<seq<Hop>>, headers: seq<seq<Node>>)

  predicate GoodPath(parse: Parser, path: Path) {
    && (forall i | 0 <= i < |path.lines| :: LineOf(parse, path.lines[i]))
    && (forall i | 0 <= i < |path.headers| :: HeaderOf(parse, path.headers[i]))
  }

  predicate Carries(req: Request, path: Path)
    requires (forall i | 0 <= i < |path.lines| :: path.lines[i] != [])
    requires (forall i | 0 <= i < |path.headers| :: path.headers[i] != [])
  {
    && |req.xff| == |path.lines| && |req.forwarded| == |path.headers|
    && (forall i | 0 <= i < |req.xff| :: req.xff[i] == Join(PartsOf(path.lines[i])))
    && (forall i | 0 <= i < |req.forwarded| :: req.forwarded[i] == Join(RecordsOf(path.headers[i])))
  }

  function InLines(lines: seq<seq<Hop>>): seq<Addr> {
    if lines == [] then [] else InLines(lines[..|lines| - 1]) + AddressesOf(lines[|lines| - 1])
  }

  function InHeaders(headers: seq<seq<Node>>): seq<Addr> {
    if headers == [] then [] else InHeaders(headers[..|headers| - 1]) + NamedBy(headers[|headers| - 1])
  }

  lemma {:induction false} LinesAreRead(parse: Parser, lines: seq<seq<Hop>>, xff: seq<string>)
    requires forall i | 0 <= i < |lines| :: LineOf(parse, lines[i]) && lines[i] != []
    requires |xff| == |lines| && forall i | 0 <= i < |lines| :: xff[i] == Join(PartsOf(lines[i]))
    ensures XffAddrs(parse, xff) == InLines(lines)
  {
    hide XffAddrs, AddressesOf, PartsOf, Join;
    if lines == [] {
      NoLines(parse);
    } else {
      var n := |lines| - 1;
      LinesAreRead(parse, lines[..n], xff[..n]);
      LineListsAddresses(parse, lines[n]);
      XffAddrsConcat(parse, xff[..n], [xff[n]]);
      assert xff == xff[..n] + [xff[n]];
    }
  }

  lemma {:induction false} HeadersAreRead(parse: Parser, headers: seq<seq<Node>>, forwarded: seq<string>)
    requires forall i | 0 <= i < |headers| :: HeaderOf(parse, headers[i]) && headers[i] != []
    requires |forwarded| == |headers| && forall i | 0 <= i < |headers| :: forwarded[i] == Join(RecordsOf(headers[i]))
    ensures ForwardedAddrs(parse, forwarded) == InHeaders(headers)
  {
    hide HeaderAddrs, NamedBy, RecordsOf, Join, GoodNode;
    if headers != [] {
      var n := |headers| - 1;
      HeadersAreRead(parse, headers[..n], forwarded[..n]);
      HeaderListsAddresses(parse, headers[n]);
    }
  }

  /** The chain of a request is what the proxies wrote, earliest hop first. */
  lemma ChainIsWhatWasWritten(parse: Parser, req: Request, path: Path)
    requires GoodPath(parse, path) && Carries(req, path)
    ensures Chain(parse, req) == InLines(path.lines) + InHeaders(path.headers)
  {
    hide XffAddrs, ForwardedAddrs, InLines, InHeaders, Reads, GoodNode, Join;
    assert forall i | 0 <= i < |path.lines| :: path.lines[i] != [] && LineOf(parse, path.lines[i]);
    LinesAreRead(parse, path.lines, req.xff);
    assert forall i | 0 <= i < |path.headers| :: path.headers[i] != [] && HeaderOf(parse, path.headers[i]);
    HeadersAreRead(parse, path.headers, req.forwarded);
  }

  /** The rightmost untrusted address of a chain, wherever it stands. */
  lemma RightmostUntrustedIsTheAnswer(parse: Parser, trusted: Trust, req: Request,
                                      left: seq<Addr>, x: Addr, right: seq<Addr>)
    requires req.peer.Some? && trusted(req.peer.value) && req.platform == ""
    requires Chain(parse, req) == left + [x] + right
    requires !trusted(x) && forall i | 0 <= i < |right| :: trusted(right[i])
    ensures Resolve(parse, trusted, req) == Some(x)
  {
    hide Chain;
    RightmostOfConcat(trusted, left + [x], right);
    assert (left + [x])[|left + [x]| - 1] == x;
  }

  /**
   Behind a trusted peer, without a platform header: the answer is the last written address that
   is not on the trust list, and the peer when there is none.
   */
  lemma ClientIsLastUntrusted(parse: Parser, trusted: Trust, req: Request, path: Path, at: nat)
    requires req.peer.Some? && trusted(req.peer.value) && req.platform == ""
    requires GoodPath(parse, path) && Carries(req, path)
    ensures var written := InLines(path.lines) + InHeaders(path.headers);
            && ((forall i | 0 <= i < |written| :: trusted(written[i])) ==> Resolve(parse, trusted, req) == req.peer)
            && (at < |written| && !trusted(written[at]) && (forall i | at < i < |written| :: trusted(written[i])) ==>
                  Resolve(parse, trusted, req) == Some(written[at]))
  {
    hide Chain, InLines, InHeaders, GoodPath, Carries;
    ChainIsWhatWasWritten(parse, req, path);
    var written := InLines(path.lines) + InHeaders(path.headers);
    if at < |written| && !trusted(written[at]) && (forall i | at < i < |written| :: trusted(written[i])) {
      assert written == written[..at] + [written[at]] + written[at + 1..];
      RightmostUntrustedIsTheAnswer(parse, trusted, req, written[..at], written[at], written[at + 1..]);
    }
  }
}
