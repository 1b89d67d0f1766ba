/**
 Resolving the client address behind trusted proxies:
 backend/internal/rate-limiter/clientip.go, ClientIP, forwardedChain, forwardedFor.

 The address parsers of net and net/netip are the parameter `parse`, the list of trusted
 prefixes the parameter `trusted`.
 */
module ClientIps {
  import opened Wrappers
  import opened Text
  import opened ForwardedHeader

  /** A parsed, unmapped address: numeric value, width in bits, zone. */
  datatype Addr = Addr(value: nat, width: nat, zone: string)

  type Parser = string -> Option<Addr>
  type Trust = Addr -> bool

  /**
   What ClientIP reads of a request: the address of the TCP peer (None when it does not parse),
   the value of the configured platform header ("" when absent or not configured), and every
   line of the two forwarding headers in the order received.
   */
  datatype Request = Request(peer: Option<Addr>, platform: string, xff: seq<string>, forwarded: seq<string>)

  /** parseAddr: "unknown" and identifiers starting with "_" carry no address. */
  function ParseAddr(parse: Parser, raw: string): Option<Addr> {
    var s := TrimSpace(raw);
    if s == "" || s == "unknown" || s[0] == '_' then None else parse(s)
  }

  /* ---- the "for" parameter of one record ------------------------------------ */

  function LowerAscii(c: char): char {
    if 'A' <= c <= 'Z' then 'a' + (c - 'A') else c
  }

  /** strings.EqualFold against "for"; no other letter folds to one of its three. */
  predicate NamesFor(name: string) {
    |name| == 3 && LowerAscii(name[0]) == 'f' && LowerAscii(name[1]) == 'o' && LowerAscii(name[2]) == 'r'
  }

  function TrimQuotes(s: string): (r: string)
    ensures r != "" ==> r[0] != '"' && r[|r| - 1] != '"'
    decreases |s|
  {
    if s != "" && s[0] == '"' then TrimQuotes(s[1..])
    else if s != "" && s[|s| - 1] == '"' then TrimQuotes(s[..|s| - 1])
    else s
  }

  /** The value of one parameter when it is a "for" parameter. */
  function ForValue(param: string): Option<string> {
    var p := TrimSpace(param);
    var eq := FirstIndex(p, '=');
    if eq < |p| && NamesFor(TrimSpace(p[..eq])) then Some(TrimQuotes(TrimSpace(p[eq + 1..]))) else None
  }

  /** Only the first "for" parameter of a record is looked at, whether or not it parses. */
  function FirstFor(params: seq<string>): Option<string> {
    if params == [] then None
    else if ForValue(params[0]).Some? then ForValue(params[0])
    else FirstFor(params[1..])
  }

  function RecordAddr(parse: Parser, entry: string): Option<Addr> {
    match FirstFor(Split(entry, ';'))
    case None => None
    case Some(value) => ParseAddr(parse, value)
  }

  /** A value as a proxy writes it: no white space around it, no quote at either end. */
  predicate PlainValue(v: string) {
    v != "" && SpaceAtFront(v) == 0 && SpaceAtBack(v) == 0 && v[0] != '"' && v[|v| - 1] != '"'
  }

  lemma NotInsideARune(a: string, c: char, b: string)
    requires ' ' < c < '\U{7f}' && SpaceAtFront(a + [c]) == 0 && SpaceAtBack(b) == 0
    ensures SpaceAtFront(a + [c] + b) == 0 && SpaceAtBack(a + [c] + b) == 0
  {
    NothingInFront(a, c, b);
    NothingBehind(a, c, b);
  }

  lemma NothingInFront(a: string, c: char, b: string)
    requires ' ' < c < '\U{7f}' && SpaceAtFront(a + [c]) == 0
    ensures SpaceAtFront(a + [c] + b) == 0
  {
    hide SpaceRune, SpaceAtFront, SpaceAtBack;
    var s := a + [c] + b;
    var n := SpaceAtFront(s);
    if n > 0 {
      RuneStopsBefore(s, 0, n, |a|);
      NoRune(a + [c], n);
      assert (a + [c])[0..n] == s[0..n];
      SameRune(a + [c], 0, s, 0, n);
    }
  }

  lemma NothingBehind(a: string, c: char, b: string)
    requires ' ' < c < '\U{7f}' && SpaceAtBack(b) == 0
    ensures SpaceAtBack(a + [c] + b) == 0
  {
    hide SpaceRune, SpaceAtFront, SpaceAtBack;
    var s := a + [c] + b;
    var m := SpaceAtBack(s);
    if m > 0 {
      RuneStopsBefore(s, |s| - m, m, |a|);
      NoRune(b, m);
      assert b[|b| - m..|b|] == s[|s| - m..|s|];
      SameRune(b, |b| - m, s, |s| - m, m);
    }
  }

  /** A printable ASCII byte is no part of a white-space rune. */
  lemma RuneStopsBefore(s: string, i: nat, n: nat, at: nat)
    requires SpaceRune(s, i, n) && at < |s| && ' ' < s[at] < '\U{7f}'
    ensures 1 <= n <= 3 && i + n <= |s| && (i + n <= at || at < i)
  {
  }

  /** The value is read back bare or quoted, under any spelling of the name. */
  lemma ForValueIsRead(name: string, v: string)
    requires NamesFor(name) && PlainValue(v)
    ensures ForValue(name + "=" + v) == Some(v)
    ensures ForValue(name + "=\"" + v + "\"") == Some(v)
  {
    hide SpaceRune, SpaceAtFront, SpaceAtBack;
    NameIsTrimmed(name);
    var bare, quoted := name + "=" + v, name + "=\"" + v + "\"";
    NotInsideARune(name, '=', v);
    assert name + "=" + ("\"" + v + "\"") == quoted;
    QuotedIsTrimmed(v);
    NotInsideARune(name, '=', "\"" + v + "\"");
    assert TrimSpace(bare) == bare && TrimSpace(quoted) == quoted && TrimSpace(name) == name;
    FirstIndexUnique(name, '=', v);
    FirstIndexUnique(name, '=', "\"" + v + "\"");
    assert bare[..|name|] == name && bare[|name| + 1..] == v;
    assert quoted[..|name|] == name && quoted[|name| + 1..] == "\"" + v + "\"";
    QuotesComeOff(v);
  }

  lemma NameIsTrimmed(name: string)
    requires NamesFor(name)
    ensures SpaceAtFront(name) == 0 && SpaceAtBack(name) == 0 && SpaceAtFront(name + "=") == 0
    ensures '=' !in name
  {
  }

  lemma QuotedIsTrimmed(v: string)
    ensures SpaceAtFront("\"" + v + "\"") == 0 && SpaceAtBack("\"" + v + "\"") == 0
  {
    hide SpaceRune;
    var s := "\"" + v + "\"";
    var n, m := SpaceAtFront(s), SpaceAtBack(s);
    if n > 0 {
      RuneStopsBefore(s, 0, n, 0);
    }
    if m > 0 {
      RuneStopsBefore(s, |s| - m, m, |s| - 1);
    }
  }

  lemma QuotesComeOff(v: string)
    requires PlainValue(v)
    ensures TrimQuotes(v) == v && TrimQuotes("\"" + v + "\"") == v
  {
    var s := "\"" + v + "\"";
    assert s[1..] == v + "\"";
    assert (v + "\"")[..|v|] == v && (v + "\"")[0] == v[0];
  }

  /** Parameters of other names are passed over; the first "for" ends the search. */
  lemma FirstForDecides(parse: Parser, param: string, rest: string)
    requires ';' !in param
    ensures RecordAddr(parse, param + ";" + rest) ==
            match ForValue(param) case None => RecordAddr(parse, rest) case Some(v) => ParseAddr(parse, v)
  {
    hide ForValue, ParseAddr, Split;
    SplitFirst(param, ';', rest);
    var all := Split(param + ";" + rest, ';');
    assert all[0] == param && all[1..] == Split(rest, ';');
  }

  lemma {:induction false} FirstForSkips(params: seq<string>, i: nat)
    requires i <= |params| && forall j :: 0 <= j < i ==> ForValue(params[j]).None?
    ensures FirstFor(params) == FirstFor(params[i..])
    decreases i
  {
    if i > 0 {
      FirstForSkips(params[1..], i - 1);
      assert params[1..][i - 1..] == params[i..];
    }
  }

  method ForwardedFor(parse: Parser, entry: string) returns (addr: Option<Addr>)
    ensures addr == RecordAddr(parse, entry)
  {
    hide ForValue, Split;
    var params := Split(entry, ';');
    for i := 0 to |params|
      invariant forall j :: 0 <= j < i ==> ForValue(params[j]).None?
    {
      var value := ForValue(params[i]);
      if value.Some? {
        FirstForSkips(params, i);
        return ParseAddr(parse, value.value);
      }
    }
    FirstForSkips(params, |params|);
    return None;
  }

  /* ---- the chain -------------------------------------------------------------- */

  function Appended(chain: seq<Addr>, addr: Option<Addr>): seq<Addr> {
    if addr.Some? then chain + [addr.value] else chain
  }

  /** The addresses among the parts of one X-Forwarded-For line. */
  function PartAddrs(parse: Parser, parts: seq<string>): seq<Addr> {
    if parts == [] then []
    else Appended(PartAddrs(parse, parts[..|parts| - 1]), ParseAddr(parse, TrimSpace(parts[|parts| - 1])))
  }

  function RecordAddrs(parse: Parser, entries: seq<string>): seq<Addr> {
    if entries == [] then []
    else Appended(RecordAddrs(parse, entries[..|entries| - 1]), RecordAddr(parse, entries[|entries| - 1]))
  }

  /** A `Forwarded` header that ends inside quotes is dropped whole. */
  function HeaderAddrs(parse: Parser, header: string): seq<Addr> {
    match Records(header)
    case None => []
    case Some(entries) => RecordAddrs(parse, entries)
  }

  function XffAddrs(parse: Parser, lines: seq<string>): seq<Addr> {
    if lines == [] then []
    else XffAddrs(parse, lines[..|lines| - 1]) + PartAddrs(parse, Split(lines[|lines| - 1], ','))
  }

  function ForwardedAddrs(parse: Parser, headers: seq<string>): seq<Addr> {
    if headers == [] then []
    else ForwardedAddrs(parse, headers[..|headers| - 1]) + HeaderAddrs(parse, headers[|headers| - 1])
  }

  /** Every hop, earliest first, X-Forwarded-For before Forwarded. */
  function Chain(parse: Parser, req: Request): seq<Addr> {
    XffAddrs(parse, req.xff) + ForwardedAddrs(parse, req.forwarded)
  }

  lemma PartAddrsNext(parse: Parser, parts: seq<string>, p: nat)
    requires p < |parts|
    ensures PartAddrs(parse, parts[..p + 1]) ==
            Appended(PartAddrs(parse, parts[..p]), ParseAddr(parse, TrimSpace(parts[p])))
  {
    hide ParseAddr, TrimSpace;
    assert parts[..p + 1][..p] == parts[..p];
  }

  lemma RecordAddrsNext(parse: Parser, entries: seq<string>, e: nat)
    requires e < |entries|
    ensures RecordAddrs(parse, entries[..e + 1]) ==
            Appended(RecordAddrs(parse, entries[..e]), RecordAddr(parse, entries[e]))
  {
    hide RecordAddr;
    assert entries[..e + 1][..e] == entries[..e];
  }

  lemma LinesNext(parse: Parser, lines: seq<string>, h: nat)
    requires h < |lines|
    ensures XffAddrs(parse, lines[..h + 1]) == XffAddrs(parse, lines[..h]) + PartAddrs(parse, Split(lines[h], ','))
    ensures ForwardedAddrs(parse, lines[..h + 1]) == ForwardedAddrs(parse, lines[..h]) + HeaderAddrs(parse, lines[h])
  {
    hide PartAddrs, HeaderAddrs, Split;
    assert lines[..h + 1][..h] == lines[..h];
  }

  /** forwardedChain: two loops over header lines, each over the parts of a line. */
  method ForwardedChain(parse: Parser, req: Request) returns (out: seq<Addr>)
    ensures out == Chain(parse, req)
  {
    hide ParseAddr, RecordAddr, Split, Records, TrimSpace, XffAddrs, ForwardedAddrs, PartAddrs, RecordAddrs;
    NoLines(parse);
    out := [];
    for h := 0 to |req.xff|
      invariant out == XffAddrs(parse, req.xff[..h])
    {
      var parts := Split(req.xff[h], ',');
      ghost var before := out;
      for p := 0 to |parts|
        invariant out == before + PartAddrs(parse, parts[..p])
      {
        PartAddrsNext(parse, parts, p);
        var addr := ParseAddr(parse, TrimSpace(parts[p]));
        if addr.Some? {
          out := out + [addr.value];
        }
      }
      assert parts[..|parts|] == parts;
      LinesNext(parse, req.xff, h);
    }
    assert req.xff[..|req.xff|] == req.xff;
    ghost var xff := out;
    for h := 0 to |req.forwarded|
      invariant out == xff + ForwardedAddrs(parse, req.forwarded[..h])
    {
      var entries := SplitForwarded(req.forwarded[h]);
      ghost var before := out;
      if entries.Some? {
        for e := 0 to |entries.value|
          invariant out == before + RecordAddrs(parse, entries.value[..e])
        {
          RecordAddrsNext(parse, entries.value, e);
          var addr := ForwardedFor(parse, entries.value[e]);
          if addr.Some? {
            out := out + [addr.value];
          }
        }
        assert entries.value[..|entries.value|] == entries.value;
      }
      assert out == before + HeaderAddrs(parse, req.forwarded[h]);
      LinesNext(parse, req.forwarded, h);
    }
    assert req.forwarded[..|req.forwarded|] == req.forwarded;
  }

  lemma NoLines(parse: Parser)
    ensures XffAddrs(parse, []) == [] && ForwardedAddrs(parse, []) == []
    ensures PartAddrs(parse, []) == [] && RecordAddrs(parse, []) == []
  {
  }

  /* ---- the walk ---------------------------------------------------------------- */

  /** The rightmost address not on the trust list. */
  function Rightmost(trusted: Trust, chain: seq<Addr>): (r: Option<Addr>)
    ensures r.None? <==> forall i :: 0 <= i < |chain| ==> trusted(chain[i])
    ensures r.Some? ==> !trusted(r.value) && r.value in chain
  {
    if chain == [] then None
    else if !trusted(chain[|chain| - 1]) then Some(chain[|chain| - 1])
    else Rightmost(trusted, chain[..|chain| - 1])
  }

  /** The address the limiter keys on; None for netip's zero Addr. */
  function Resolve(parse: Parser, trusted: Trust, req: Request): Option<Addr> {
    if req.peer.None? || !trusted(req.peer.value) then req.peer
    else if req.platform != "" && ParseAddr(parse, req.platform).Some? then ParseAddr(parse, req.platform)
    else if Rightmost(trusted, Chain(parse, req)).Some? then Rightmost(trusted, Chain(parse, req))
    else req.peer
  }

  method ClientIP(parse: Parser, trusted: Trust, req: Request) returns (addr: Option<Addr>)
    ensures addr == Resolve(parse, trusted, req)
    ensures req.peer.None? || !trusted(req.peer.value) ==> addr == req.peer
    ensures addr.None? ==> req.peer.None?
  {
    hide ParseAddr, Chain;
    if req.peer.None? || !trusted(req.peer.value) {
      return req.peer;
    }
    if req.platform != "" {
      var a := ParseAddr(parse, req.platform);
      if a.Some? {
        return a;
      }
    }
    var chain := ForwardedChain(parse, req);
    var i := |chain| - 1;
    assert chain[..i + 1] == chain;
    while i >= 0
      invariant -1 <= i < |chain|
      invariant Rightmost(trusted, chain) == Rightmost(trusted, chain[..i + 1])
    {
      assert chain[..i + 1][..i] == chain[..i];
      if !trusted(chain[i]) {
        return Some(chain[i]);
      }
      i := i - 1;
    }
    return req.peer;
  }

  /* ---- what may be written on the left ---------------------------------------- */

  /** An untrusted hop hides everything to its left; a fully trusted chain hides nothing. */
  lemma {:induction false} RightmostOfConcat(trusted: Trust, left: seq<Addr>, chain: seq<Addr>)
    ensures Rightmost(trusted, left + chain) ==
            if Rightmost(trusted, chain).Some? then Rightmost(trusted, chain) else Rightmost(trusted, left)
    decreases |chain|
  {
    if chain == [] {
      assert left + chain == left;
    } else {
      var c := left + chain;
      assert c[|c| - 1] == chain[|chain| - 1];
      assert c[..|c| - 1] == left + chain[..|chain| - 1];
      if trusted(chain[|chain| - 1]) {
        RightmostOfConcat(trusted, left, chain[..|chain| - 1]);
      }
    }
  }

  lemma {:induction false} PartAddrsConcat(parse: Parser, a: seq<string>, b: seq<string>)
    ensures PartAddrs(parse, a + b) == PartAddrs(parse, a) + PartAddrs(parse, b)
    decreases |b|
  {
    hide ParseAddr, TrimSpace;
    if b == [] {
      assert a + b == a;
    } else {
      assert (a + b)[..|a + b| - 1] == a + b[..|b| - 1];
      PartAddrsConcat(parse, a, b[..|b| - 1]);
    }
  }

  lemma {:induction false} RecordAddrsConcat(parse: Parser, a: seq<string>, b: seq<string>)
    ensures RecordAddrs(parse, a + b) == RecordAddrs(parse, a) + RecordAddrs(parse, b)
    decreases |b|
  {
    hide RecordAddr;
    if b == [] {
      assert a + b == a;
    } else {
      assert (a + b)[..|a + b| - 1] == a + b[..|b| - 1];
      RecordAddrsConcat(parse, a, b[..|b| - 1]);
    }
  }

  lemma {:induction false} XffAddrsConcat(parse: Parser, a: seq<string>, b: seq<string>)
    ensures XffAddrs(parse, a + b) == XffAddrs(parse, a) + XffAddrs(parse, b)
    decreases |b|
  {
    hide PartAddrs, Split;
    if b == [] {
      assert a + b == a;
    } else {
      assert (a + b)[..|a + b| - 1] == a + b[..|b| - 1];
      XffAddrsConcat(parse, a, b[..|b| - 1]);
    }
  }

  lemma {:induction false} ForwardedAddrsConcat(parse: Parser, a: seq<string>, b: seq<string>)
    ensures ForwardedAddrs(parse, a + b) == ForwardedAddrs(parse, a) + ForwardedAddrs(parse, b)
    decreases |b|
  {
    hide HeaderAddrs;
    if b == [] {
      assert a + b == a;
    } else {
      assert (a + b)[..|a + b| - 1] == a + b[..|b| - 1];
      ForwardedAddrsConcat(parse, a, b[..|b| - 1]);
    }
  }

  lemma OneLine(parse: Parser, line: string)
    ensures XffAddrs(parse, [line]) == PartAddrs(parse, Split(line, ','))
    ensures ForwardedAddrs(parse, [line]) == HeaderAddrs(parse, line)
  {
    hide HeaderAddrs, PartAddrs, Split;
    assert [line][..0] == [];
  }

  /** Text and a comma in front of an X-Forwarded-For line put the text's addresses in front. */
  lemma XffTextInFront(parse: Parser, t: string, line: string)
    ensures XffAddrs(parse, [t + "," + line]) == XffAddrs(parse, [t]) + XffAddrs(parse, [line])
  {
    hide PartAddrs, XffAddrs, Split;
    OneLine(parse, t + "," + line);
    OneLine(parse, t);
    OneLine(parse, line);
    SplitAtSeparator(t, ',', line);
    PartAddrsConcat(parse, Split(t, ','), Split(line, ','));
  }

  /** The same for a Forwarded header, when the text in front closes every quote it opens. */
  lemma ForwardedTextInFront(parse: Parser, t: string, header: string)
    requires Balanced(t)
    ensures HeaderAddrs(parse, t + "," + header) ==
            if Balanced(header) then HeaderAddrs(parse, t) + HeaderAddrs(parse, header) else []
  {
    hide Scan, RawPieces, RecordAddrs;
    PiecesSplitAtComma(t, header);
    if Balanced(header) {
      var a, b := RawPieces(t), RawPieces(header);
      assert Trimmed(a + b) == Trimmed(a) + Trimmed(b);
      RecordAddrsConcat(parse, Trimmed(a), Trimmed(b));
    }
  }

  /** What a request with `left` hops in front of its own resolves to. */
  lemma LeftOfChain(parse: Parser, trusted: Trust, req: Request, req': Request, left: seq<Addr>)
    requires req'.peer == req.peer && req'.platform == req.platform
    requires Chain(parse, req') == left + Chain(parse, req)
    ensures Rightmost(trusted, Chain(parse, req)).Some? ==>
              Resolve(parse, trusted, req') == Resolve(parse, trusted, req)
    ensures req.peer.Some? && trusted(req.peer.value) && req.platform == ""
            && Rightmost(trusted, Chain(parse, req)).None? ==>
              Resolve(parse, trusted, req') ==
              if Rightmost(trusted, left).Some? then Rightmost(trusted, left) else req.peer
  {
    hide Chain, ParseAddr;
    RightmostOfConcat(trusted, left, Chain(parse, req));
  }

  /**
   Any text and a comma in front of the first X-Forwarded-For value leaves the answer alone as
   soon as the chain holds an untrusted address. Behind a trusted peer without a platform
   header that condition is needed: otherwise the rightmost untrusted address of the text wins.
   */
  lemma XffTextDoesNotMatter(parse: Parser, trusted: Trust, req: Request, t: string)
    requires req.xff != []
    ensures var req' := req.(xff := [t + "," + req.xff[0]] + req.xff[1..]);
            && (Rightmost(trusted, Chain(parse, req)).Some? ==>
                  Resolve(parse, trusted, req') == Resolve(parse, trusted, req))
            && (req.peer.Some? && trusted(req.peer.value) && req.platform == ""
                && Rightmost(trusted, Chain(parse, req)).None? ==>
                  Resolve(parse, trusted, req') ==
                  var claimed := Rightmost(trusted, XffAddrs(parse, [t]));
                  if claimed.Some? then claimed else req.peer)
  {
    hide XffAddrs, ForwardedAddrs, Resolve, Rightmost;
    var first, rest := req.xff[0], req.xff[1..];
    var req' := req.(xff := [t + "," + first] + rest);
    XffTextInFront(parse, t, first);
    XffAddrsConcat(parse, [t + "," + first], rest);
    XffAddrsConcat(parse, [first], rest);
    assert req.xff == [first] + rest;
    var a, b, c, d := XffAddrs(parse, [t]), XffAddrs(parse, [first]), XffAddrs(parse, rest),
      ForwardedAddrs(parse, req.forwarded);
    assert ((a + b) + c) + d == a + ((b + c) + d);
    LeftOfChain(parse, trusted, req, req', a);
  }

  /** Whole X-Forwarded-For lines added before the others: the same statement. */
  lemma XffLinesDoNotMatter(parse: Parser, trusted: Trust, req: Request, lines: seq<string>)
    ensures var req' := req.(xff := lines + req.xff);
            && (Rightmost(trusted, Chain(parse, req)).Some? ==>
                  Resolve(parse, trusted, req') == Resolve(parse, trusted, req))
            && (req.peer.Some? && trusted(req.peer.value) && req.platform == ""
                && Rightmost(trusted, Chain(parse, req)).None? ==>
                  Resolve(parse, trusted, req') ==
                  var claimed := Rightmost(trusted, XffAddrs(parse, lines));
                  if claimed.Some? then claimed else req.peer)
  {
    hide XffAddrs, ForwardedAddrs, Resolve, Rightmost;
    XffAddrsConcat(parse, lines, req.xff);
    var a, b, d := XffAddrs(parse, lines), XffAddrs(parse, req.xff), ForwardedAddrs(parse, req.forwarded);
    assert (a + b) + d == a + (b + d);
    LeftOfChain(parse, trusted, req, req.(xff := lines + req.xff), a);
  }

  /** Quote-balanced text in front of a single Forwarded value, without X-Forwarded-For lines. */
  lemma ForwardedTextDoesNotMatter(parse: Parser, trusted: Trust, req: Request, header: string, t: string)
    requires req.xff == [] && req.forwarded == [header] && Balanced(t)
    ensures var req' := req.(forwarded := [t + "," + header]);
            && (Rightmost(trusted, Chain(parse, req)).Some? ==>
                  Resolve(parse, trusted, req') == Resolve(parse, trusted, req))
            && (req.peer.Some? && trusted(req.peer.value) && req.platform == "" && Balanced(header)
                && Rightmost(trusted, Chain(parse, req)).None? ==>
                  Resolve(parse, trusted, req') ==
                  var claimed := Rightmost(trusted, HeaderAddrs(parse, t));
                  if claimed.Some? then claimed else req.peer)
  {
    hide HeaderAddrs, Resolve, Balanced;
    OneLine(parse, header);
    OneLine(parse, t + "," + header);
    ForwardedTextInFront(parse, t, header);
    assert [] + HeaderAddrs(parse, header) == HeaderAddrs(parse, header);
    if Balanced(header) {
      LeftOfChain(parse, trusted, req, req.(forwarded := [t + "," + header]), HeaderAddrs(parse, t));
    } else {
      assert HeaderAddrs(parse, header) == [] by { DroppedWhole(parse, header); }
    }
  }

  lemma DroppedWhole(parse: Parser, header: string)
    requires !Balanced(header)
    ensures HeaderAddrs(parse, header) == []
  {
  }
}
