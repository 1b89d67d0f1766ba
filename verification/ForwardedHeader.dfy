/**
 Splitting a `Forwarded` header (section 4 of RFC 7239) into records without tearing quoted
 strings apart: backend/internal/rate-limiter/clientip.go, splitForwarded.
 */
module ForwardedHeader {
  import opened Wrappers
  import opened Text

  datatype Mode = Plain | Quoted | Escaped

  /** One step of the scanner: the `inQuotes` and `escaped` flags after reading `c`. */
  function Next(m: Mode, c: char): Mode {
    match m
    case Plain => if c == '"' then Quoted else Plain
    case Quoted => if c == '\\' then Escaped else if c == '"' then Plain else Quoted
    case Escaped => Quoted
  }

  /** The mode after reading all of `s` in mode `m`. */
  function Scan(m: Mode, s: string): Mode {
    if s == "" then m else Next(Scan(m, s[..|s| - 1]), s[|s| - 1])
  }

  predicate Balanced(s: string) {
    Scan(Plain, s) == Plain
  }

  /** A comma outside quotes at position `i`. */
  predicate TopComma(s: string, i: nat)
    requires i < |s|
  {
    s[i] == ',' && Balanced(s[..i])
  }

  function TopCommas(s: string): nat {
    if s == "" then 0 else TopCommas(s[..|s| - 1]) + if TopComma(s, |s| - 1) then 1 else 0
  }

  /** Balanced text without a comma outside quotes: one record. */
  ghost predicate Record(s: string) {
    Balanced(s) && forall i :: 0 <= i < |s| ==> !TopComma(s, i)
  }

  /** The text between the commas outside quotes, before trimming. */
  function RawPieces(s: string): (r: seq<string>)
    ensures |r| >= 1
  {
    if s == "" then [""] else
      var before := RawPieces(s[..|s| - 1]);
      var k := |before| - 1;
      if TopComma(s, |s| - 1) then before + [""] else before[..k] + [before[k] + [s[|s| - 1]]]
  }

  function Join(parts: seq<string>): string
    requires |parts| >= 1
  {
    if |parts| == 1 then parts[0] else Join(parts[..|parts| - 1]) + "," + parts[|parts| - 1]
  }

  function Trimmed(parts: seq<string>): (r: seq<string>)
    ensures |r| == |parts| && forall i :: 0 <= i < |r| ==> r[i] == TrimSpace(parts[i])
  {
    seq(|parts|, i requires 0 <= i < |parts| => TrimSpace(parts[i]))
  }

  /** Reading one more byte: only a comma outside quotes opens a new piece. */
  lemma ReadByte(s: string, c: char)
    ensures forall m :: Scan(m, s + [c]) == Next(Scan(m, s), c)
    ensures RawPieces(s + [c]) ==
            var before := RawPieces(s);
            if Balanced(s) && c == ',' then before + [""]
            else before[..|before| - 1] + [before[|before| - 1] + [c]]
  {
    assert (s + [c])[..|s|] == s;
  }

  /** The records of a header, or None for one that ends inside a quoted string. */
  function Records(header: string): Option<seq<string>> {
    if Balanced(header) then Some(Trimmed(RawPieces(header))) else None
  }

  lemma StartOfHeader()
    ensures RawPieces("") == [""] && Scan(Plain, "") == Plain
  {
  }

  /** splitForwarded: one pass with a start index and two flags. */
  method SplitForwarded(header: string) returns (entries: Option<seq<string>>)
    ensures entries == Records(header)
  {
    hide Scan, RawPieces, TrimSpace;
    assert RawPieces(header[..0]) == [""] && Scan(Plain, header[..0]) == Plain by {
      StartOfHeader();
    }
    var out: seq<string> := [];
    var start, inQuotes, escaped := 0, false, false;
    ghost var raw: seq<string> := [];
    for i := 0 to |header|
      invariant 0 <= start <= i
      invariant escaped ==> inQuotes
      invariant Scan(Plain, header[..i]) == if escaped then Escaped else if inQuotes then Quoted else Plain
      invariant RawPieces(header[..i]) == raw + [header[start..i]]
      invariant out == Trimmed(raw)
    {
      var c := header[i];
      ReadByte(header[..i], c);
      assert header[..i + 1] == header[..i] + [c];
      assert header[start..i + 1] == header[start..i] + [c];
      assert (raw + [header[start..i]])[..|raw|] == raw;
      if inQuotes {
        if escaped {
          escaped := false;
        } else if c == '\\' {
          escaped := true;
        } else if c == '"' {
          inQuotes := false;
        }
      } else if c == '"' {
        inQuotes := true;
      } else if c == ',' {
        out := out + [TrimSpace(header[start..i])];
        raw := raw + [header[start..i]];
        start := i + 1;
        assert header[start..i + 1] == "";
      }
    }
    assert header[..|header|] == header;
    if inQuotes {
      return None;
    }
    out := out + [TrimSpace(header[start..])];
    assert out == Trimmed(raw + [header[start..]]);
    return Some(out);
  }

  /* ---- what the pieces are ------------------------------------------------ */

  lemma {:induction false} ScanConcat(m: Mode, a: string, b: string)
    ensures Scan(m, a + b) == Scan(Scan(m, a), b)
    decreases |b|
  {
    if b == "" {
      assert a + b == a;
    } else {
      assert (a + b)[..|a + b| - 1] == a + b[..|b| - 1];
      ScanConcat(m, a, b[..|b| - 1]);
    }
  }

  /** Nothing is lost: the pieces, joined with commas, are the header. */
  lemma {:induction false} PiecesJoinBack(s: string)
    ensures Join(RawPieces(s)) == s
  {
    if s != "" {
      var t, c := s[..|s| - 1], s[|s| - 1];
      PiecesJoinBack(t);
      var before := RawPieces(t);
      var k := |before| - 1;
      assert s == t + [c];
      if TopComma(s, |s| - 1) {
        assert (before + [""])[..k + 1] == before;
      } else {
        var r := before[..k] + [before[k] + [c]];
        assert r[..k] == before[..k];
      }
    }
  }

  /** There is one more piece than there are commas outside quotes. */
  lemma {:induction false} PiecesCountCommas(s: string)
    ensures |RawPieces(s)| == TopCommas(s) + 1
  {
    if s != "" {
      PiecesCountCommas(s[..|s| - 1]);
    }
  }

  lemma CommaResets(t: string, f: string)
    requires Balanced(t)
    ensures Scan(Plain, t + "," + f) == Scan(Plain, f)
  {
    ScanConcat(Plain, t + ",", f);
    ReadByte(t, ',');
  }

  /** Balanced text in front of a comma splits off, whatever follows. */
  lemma {:induction false} PiecesSplitAtComma(t: string, f: string)
    requires Balanced(t)
    ensures Balanced(t + "," + f) <==> Balanced(f)
    ensures RawPieces(t + "," + f) == RawPieces(t) + RawPieces(f)
    decreases |f|
  {
    hide Scan, RawPieces;
    if f == "" {
      assert t + "," + f == t + [','];
      ReadByte(t, ',');
      StartOfHeader();
    } else {
      var f', c := f[..|f| - 1], f[|f| - 1];
      PiecesSplitAtComma(t, f');
      CommaResets(t, f');
      ReadByte(f', c);
      ReadByte(t + "," + f', c);
      assert f == f' + [c] && t + "," + f == t + "," + f' + [c];
      var whole, k := RawPieces(t) + RawPieces(f'), |RawPieces(f')| - 1;
      assert whole[..|whole| - 1] == RawPieces(t) + RawPieces(f')[..k];
    }
    CommaResets(t, f);
  }

  lemma {:induction false} RecordIsOnePiece(s: string)
    requires forall i :: 0 <= i < |s| ==> !TopComma(s, i)
    ensures RawPieces(s) == [s]
  {
    if s != "" {
      var t := s[..|s| - 1];
      forall i | 0 <= i < |t| ensures !TopComma(t, i) {
        assert t[..i] == s[..i] && !TopComma(s, i);
      }
      RecordIsOnePiece(t);
      assert s == t + [s[|s| - 1]];
    }
  }

  lemma {:induction false} JoinOfRecords(records: seq<string>)
    requires |records| >= 1 && forall i :: 0 <= i < |records| ==> Record(records[i])
    ensures Balanced(Join(records)) && RawPieces(Join(records)) == records
  {
    var k := |records| - 1;
    RecordIsOnePiece(records[k]);
    if k > 0 {
      JoinOfRecords(records[..k]);
      PiecesSplitAtComma(Join(records[..k]), records[k]);
    } else {
      assert records == [records[0]];
    }
  }

  lemma {:induction false} PiecesAreRecords(s: string)
    requires Balanced(s)
    ensures forall i :: 0 <= i < |RawPieces(s)| ==> Record(RawPieces(s)[i])
  {
    var j := LastTopComma(s);
    if j < 0 {
      RecordIsOnePiece(s);
    } else {
      var t, f := s[..j], s[j + 1..];
      assert s == t + "," + f;
      PiecesSplitAtComma(t, f);
      PiecesAreRecords(t);
      forall i | 0 <= i < |f| ensures !TopComma(f, i) {
        assert s[..j + 1 + i] == t + "," + f[..i];
        PiecesSplitAtComma(t, f[..i]);
        assert !TopComma(s, j + 1 + i);
      }
      RecordIsOnePiece(f);
    }
  }

  function LastTopComma(s: string): (j: int)
    ensures -1 <= j < |s|
    ensures j >= 0 ==> TopComma(s, j)
    ensures forall i :: 0 <= i < |s| && j < i ==> !TopComma(s, i)
  {
    if s == "" then -1
    else if TopComma(s, |s| - 1) then |s| - 1
    else
      var t := s[..|s| - 1];
      assert forall i :: 0 <= i < |t| ==> t[..i] == s[..i];
      assert forall i :: 0 <= i < |t| ==> (TopComma(t, i) <==> TopComma(s, i));
      LastTopComma(t)
  }

  /**
   The pieces are the only way to read the header: records joined with commas give the header
   back exactly when they are its pieces. A header that ends inside quotes has no such reading.
   */
  lemma OneReading(header: string, records: seq<string>)
    requires |records| >= 1
    ensures (Join(records) == header && forall i :: 0 <= i < |records| ==> Record(records[i]))
       <==> (Balanced(header) && records == RawPieces(header))
  {
    if Join(records) == header && forall i :: 0 <= i < |records| ==> Record(records[i]) {
      JoinOfRecords(records);
    }
    if Balanced(header) && records == RawPieces(header) {
      PiecesJoinBack(header);
      PiecesAreRecords(header);
    }
  }

  /** Joining trimmed records and splitting returns them. */
  lemma SplitAfterJoin(records: seq<string>)
    requires |records| >= 1
    requires forall i :: 0 <= i < |records| ==> Record(records[i]) && TrimSpace(records[i]) == records[i]
    ensures Records(Join(records)) == Some(records)
  {
    JoinOfRecords(records);
    assert Trimmed(records) == records;
  }

  /* ---- trimming keeps records whole ---------------------------------------- */

  /** Text without quotes neither opens nor closes a quoted string. */
  lemma {:induction false} OnlyQuotesSwitch(m: Mode, f: string)
    requires '"' !in f
    ensures Scan(m, f) == Plain <==> m == Plain
  {
    if f != "" {
      OnlyQuotesSwitch(m, f[..|f| - 1]);
    }
  }

  lemma {:induction false} TrimLeftKeepsRecord(s: string)
    requires Record(s)
    ensures Record(TrimLeft(s))
    decreases |s|
  {
    var n := SpaceAtFront(s);
    if n > 0 {
      var w, t := s[..n], s[n..];
      assert s == w + t;
      OnlyQuotesSwitch(Plain, w);
      ScanConcat(Plain, w, t);
      forall i | 0 <= i < |t| ensures !TopComma(t, i) {
        ScanConcat(Plain, w, t[..i]);
        assert s[..n + i] == w + t[..i] && !TopComma(s, n + i);
      }
      TrimLeftKeepsRecord(t);
    }
  }

  lemma {:induction false} TrimRightKeepsRecord(s: string)
    requires Record(s)
    ensures Record(TrimRight(s))
    decreases |s|
  {
    var n := SpaceAtBack(s);
    if n > 0 {
      var t, w := s[..|s| - n], s[|s| - n..];
      assert s == t + w;
      ScanConcat(Plain, t, w);
      OnlyQuotesSwitch(Scan(Plain, t), w);
      forall i | 0 <= i < |t| ensures !TopComma(t, i) {
        assert t[..i] == s[..i] && !TopComma(s, i);
      }
      TrimRightKeepsRecord(t);
    }
  }

  /** Splitting is a normal form: joining what it returned and splitting again changes nothing. */
  lemma SplitIsNormalForm(header: string)
    requires Balanced(header)
    ensures Records(header).Some? && |Records(header).value| >= 1
    ensures Records(Join(Records(header).value)) == Records(header)
  {
    PiecesAreRecords(header);
    var records := Records(header).value;
    forall i | 0 <= i < |records| ensures Record(records[i]) && TrimSpace(records[i]) == records[i] {
      var raw := RawPieces(header)[i];
      TrimLeftKeepsRecord(raw);
      TrimRightKeepsRecord(TrimLeft(raw));
      TrimSpaceIdempotent(raw);
    }
    SplitAfterJoin(records);
  }

  /* ---- the grammar of section 4 of RFC 7239 --------------------------------- */

  /** One character of a quoted string: plain text, or a backslash and any character. */
  datatype Atom = Text(c: char) | Pair(c: char)

  /** A header is a run of bare characters and quoted strings. */
  datatype Item = Bare(c: char) | QuotedString(body: seq<Atom>)

  predicate GoodAtom(a: Atom) {
    a.Text? ==> a.c != '"' && a.c != '\\'
  }

  predicate GoodItem(it: Item) {
    match it
    case Bare(c) => c != '"'
    case QuotedString(body) => forall i :: 0 <= i < |body| ==> GoodAtom(body[i])
  }

  predicate GoodItems(items: seq<Item>) {
    forall i :: 0 <= i < |items| ==> GoodItem(items[i])
  }

  function BodyText(body: seq<Atom>): string {
    if body == [] then "" else
      var a := body[|body| - 1];
      BodyText(body[..|body| - 1]) + (if a.Pair? then ['\\', a.c] else [a.c])
  }

  function ItemText(it: Item): string {
    match it
    case Bare(c) => [c]
    case QuotedString(body) => "\"" + BodyText(body) + "\""
  }

  function HeaderText(items: seq<Item>): string {
    if items == [] then "" else HeaderText(items[..|items| - 1]) + ItemText(items[|items| - 1])
  }

  /** The items between bare commas. */
  function Groups(items: seq<Item>): (r: seq<seq<Item>>)
    ensures |r| >= 1
  {
    if items == [] then [[]] else
      var before, it := Groups(items[..|items| - 1]), items[|items| - 1];
      var k := |before| - 1;
      if it == Bare(',') then before + [[]] else before[..k] + [before[k] + [it]]
  }

  function Texts(groups: seq<seq<Item>>): (r: seq<string>)
    ensures |r| == |groups| && forall i :: 0 <= i < |r| ==> r[i] == HeaderText(groups[i])
  {
    seq(|groups|, i requires 0 <= i < |groups| => HeaderText(groups[i]))
  }

  /** The pieces of `s` with `w` written on the end of the last one. */
  function Extended(s: string, w: string): seq<string> {
    var before := RawPieces(s);
    before[..|before| - 1] + [before[|before| - 1] + w]
  }

  lemma ReadInside(s: string, w: string, c: char)
    requires RawPieces(s + w) == Extended(s, w)
    requires !Balanced(s + w) || c != ','
    ensures RawPieces(s + w + [c]) == Extended(s, w + [c])
    ensures Scan(Plain, s + w + [c]) == Next(Scan(Plain, s + w), c)
  {
    hide Scan, RawPieces;
    ReadByte(s + w, c);
    var before := RawPieces(s);
    var k := |before| - 1;
    assert Extended(s, w)[..k] == before[..k];
    assert before[k] + w + [c] == before[k] + (w + [c]);
  }

  lemma QuoteOpens(s: string)
    requires Balanced(s)
    ensures RawPieces(s + ['"']) == Extended(s, ['"'])
  {
    hide Scan, RawPieces;
    ReadByte(s, '"');
  }

  /** Inside a quoted string no byte splits anything. */
  lemma {:induction false} BodyIsOpaque(s: string, body: seq<Atom>)
    requires Balanced(s) && GoodItem(QuotedString(body))
    ensures Scan(Plain, s + ("\"" + BodyText(body))) == Quoted
    ensures RawPieces(s + ("\"" + BodyText(body))) == Extended(s, "\"" + BodyText(body))
  {
    hide Scan, RawPieces, Extended;
    if body == [] {
      ReadByte(s, '"');
      assert "\"" + BodyText(body) == ['"'];
      QuoteOpens(s);
    } else {
      var front, a := body[..|body| - 1], body[|body| - 1];
      BodyIsOpaque(s, front);
      var w := "\"" + BodyText(front);
      if a.Pair? {
        ReadInside(s, w, '\\');
        assert s + w + ['\\'] == s + (w + ['\\']);
        ReadInside(s, w + ['\\'], a.c);
        assert "\"" + BodyText(body) == w + ['\\'] + [a.c];
        assert s + (w + ['\\']) + [a.c] == s + (w + ['\\'] + [a.c]);
      } else {
        ReadInside(s, w, a.c);
        assert "\"" + BodyText(body) == w + [a.c];
        assert s + w + [a.c] == s + (w + [a.c]);
      }
    }
  }

  /** A bare comma opens a piece; every other item is written on the last one. */
  lemma ReadItem(s: string, it: Item)
    requires Balanced(s) && GoodItem(it)
    ensures Balanced(s + ItemText(it))
    ensures RawPieces(s + ItemText(it)) ==
            if it == Bare(',') then RawPieces(s) + [""] else Extended(s, ItemText(it))
  {
    hide Scan, RawPieces, BodyText;
    match it
    case Bare(c) =>
      ReadByte(s, c);
    case QuotedString(body) =>
      var w := "\"" + BodyText(body);
      BodyIsOpaque(s, body);
      ReadInside(s, w, '"');
      assert ItemText(it) == w + ['"'];
      assert s + ItemText(it) == s + w + ['"'];
  }

  lemma GroupsGrow(front: seq<Item>, it: Item)
    ensures Texts(Groups(front + [it])) ==
            var before := Texts(Groups(front));
            if it == Bare(',') then before + [""]
            else before[..|before| - 1] + [before[|before| - 1] + ItemText(it)]
  {
    hide ItemText, HeaderText, Groups;
    GroupsSnoc(front, it);
    var before := Groups(front);
    NothingRead();
    HeaderGrows(before[|before| - 1], it);
  }

  lemma GroupsSnoc(front: seq<Item>, it: Item)
    ensures Groups(front + [it]) ==
            var before := Groups(front);
            if it == Bare(',') then before + [[]]
            else before[..|before| - 1] + [before[|before| - 1] + [it]]
  {
    assert (front + [it])[..|front|] == front;
  }

  lemma HeaderGrows(items: seq<Item>, it: Item)
    ensures HeaderText(items + [it]) == HeaderText(items) + ItemText(it)
  {
    assert (items + [it])[..|items|] == items;
  }

  /** Text made of whole quoted strings is balanced, and its pieces are cut at bare commas only. */
  lemma {:induction false} GrammarSplits(items: seq<Item>)
    requires GoodItems(items)
    ensures Balanced(HeaderText(items)) && RawPieces(HeaderText(items)) == Texts(Groups(items))
  {
    hide Scan, RawPieces, ItemText, Groups, Texts;
    if items == [] {
      StartOfHeader();
      NoGroups();
    } else {
      var front, it := items[..|items| - 1], items[|items| - 1];
      GrammarSplits(front);
      ReadItem(HeaderText(front), it);
      GroupsGrow(front, it);
      assert items == front + [it];
    }
  }

  lemma NoGroups()
    ensures Texts(Groups([])) == [""]
  {
  }

  /** What has been read: whole items, and the characters of a quoted string still open. */
  function Reading(s: string): (seq<Item>, seq<Atom>) {
    if s == "" then ([], []) else
      var t, c := s[..|s| - 1], s[|s| - 1];
      var (items, body) := Reading(t);
      Read(Scan(Plain, t), c, items, body)
  }

  function Read(m: Mode, c: char, items: seq<Item>, body: seq<Atom>): (seq<Item>, seq<Atom>) {
    match m
    case Plain => if c == '"' then (items, []) else (items + [Bare(c)], [])
    case Quoted =>
      if c == '\\' then (items, body)
      else if c == '"' then (items + [QuotedString(body)], [])
      else (items, body + [Text(c)])
    case Escaped => (items, body + [Pair(c)])
  }

  function OpenText(m: Mode, body: seq<Atom>): string {
    match m
    case Plain => ""
    case Quoted => "\"" + BodyText(body)
    case Escaped => "\"" + BodyText(body) + "\\"
  }

  lemma {:induction false} ReadingIsFaithful(s: string)
    ensures GoodItems(Reading(s).0) && GoodItem(QuotedString(Reading(s).1))
    ensures s == HeaderText(Reading(s).0) + OpenText(Scan(Plain, s), Reading(s).1)
  {
    hide RawPieces, HeaderText, BodyText;
    if s == "" {
      NothingRead();
    } else {
      var t, c := s[..|s| - 1], s[|s| - 1];
      ReadingIsFaithful(t);
      var (items, body) := Reading(t);
      ReadAnother(t, c, Scan(Plain, t), items, body);
      assert s == t + [c];
    }
  }

  lemma NothingRead()
    ensures HeaderText([]) == ""
  {
  }

  lemma ReadAnother(t: string, c: char, m: Mode, items: seq<Item>, body: seq<Atom>)
    requires GoodItems(items) && GoodItem(QuotedString(body))
    requires t == HeaderText(items) + OpenText(m, body)
    ensures var (items', body') := Read(m, c, items, body);
            && GoodItems(items') && GoodItem(QuotedString(body'))
            && t + [c] == HeaderText(items') + OpenText(Next(m, c), body')
  {
    hide HeaderText, BodyText;
    match m
    case Plain =>
      HeaderGrows(items, Bare(c));
      EmptyBody();
    case Quoted =>
      HeaderGrows(items, QuotedString(body));
      BodyGrows(body, Text(c));
    case Escaped =>
      BodyGrows(body, Pair(c));
  }

  lemma EmptyBody()
    ensures BodyText([]) == ""
  {
  }

  lemma BodyGrows(body: seq<Atom>, a: Atom)
    ensures BodyText(body + [a]) == BodyText(body) + (if a.Pair? then ['\\', a.c] else [a.c])
  {
    assert (body + [a])[..|body|] == body;
  }

  /**
   splitForwarded succeeds exactly on headers made of bare characters and whole quoted strings,
   and then cuts them at the bare commas and nowhere else.
   */
  lemma SplitFollowsGrammar(header: string)
    ensures Records(header).Some? <==>
            exists items: seq<Item> :: GoodItems(items) && HeaderText(items) == header
    ensures forall items: seq<Item> :: GoodItems(items) && HeaderText(items) == header ==>
              Records(header) == Some(Trimmed(Texts(Groups(items))))
  {
    hide Scan, RawPieces, Trimmed, Texts, Groups, HeaderText, Reading;
    forall items: seq<Item> | GoodItems(items) && HeaderText(items) == header
      ensures Records(header) == Some(Trimmed(Texts(Groups(items))))
    {
      GrammarSplits(items);
    }
    if Balanced(header) {
      ReadingIsFaithful(header);
      assert GoodItems(Reading(header).0) && HeaderText(Reading(header).0) == header;
    }
  }
}
