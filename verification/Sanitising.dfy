/**
 Normalising free text before it is stored: backend/internal/service/application.go, clean and
 cleanList. Strings are bytes, so the caps count bytes and may cut a rune or an entity in two.
 */
module Sanitising {
  import opened Wrappers
  import opened Text

  /** html.EscapeString on one byte. */
  function Entity(c: char): (r: string)
    ensures r != ""
  {
    if c == '&' then "&amp;"
    else if c == '<' then "&lt;"
    else if c == '>' then "&gt;"
    else if c == '"' then "&#34;"
    else if c == '\'' then "&#39;"
    else [c]
  }

  /** No byte that could open a tag or close an attribute. */
  predicate Inert(s: string) {
    '<' !in s && '>' !in s && '"' !in s && '\'' !in s
  }

  function Escape(s: string): (r: string)
    ensures |r| >= |s|
  {
    if s == "" then "" else Entity(s[0]) + Escape(s[1..])
  }

  lemma {:induction false} EscapedIsInert(s: string)
    ensures Inert(Escape(s))
  {
    if s != "" {
      EscapedIsInert(s[1..]);
      assert Inert(Entity(s[0]));
    }
  }

  predicate StartsWith(s: string, p: string) {
    |p| <= |s| && s[..|p|] == p
  }

  /** What a consumer that decodes the five entities shows. */
  function Unescape(s: string): string
    decreases |s|
  {
    if s == "" then ""
    else if s[0] != '&' then [s[0]] + Unescape(s[1..])
    else if StartsWith(s, "&amp;") then "&" + Unescape(s[5..])
    else if StartsWith(s, "&lt;") then "<" + Unescape(s[4..])
    else if StartsWith(s, "&gt;") then ">" + Unescape(s[4..])
    else if StartsWith(s, "&#34;") then "\"" + Unescape(s[5..])
    else if StartsWith(s, "&#39;") then "'" + Unescape(s[5..])
    else [s[0]] + Unescape(s[1..])
  }

  lemma UnescapeEntity(c: char, rest: string)
    ensures Unescape(Entity(c) + rest) == [c] + Unescape(rest)
  {
    var e := Entity(c);
    var s := e + rest;
    Whole(e, rest);
    assert s[0] == e[0];
    if c == '&' {
      assert StartsWith(s, "&amp;");
    } else if c == '<' {
      assert s[1] == 'l' && StartsWith(s, "&lt;");
    } else if c == '>' {
      assert s[1] == 'g' && StartsWith(s, "&gt;");
    } else if c == '"' {
      assert s[1] == '#' && s[3] == '4' && StartsWith(s, "&#34;");
    } else if c == '\'' {
      assert s[1] == '#' && s[3] == '9' && StartsWith(s, "&#39;");
    }
  }

  lemma Whole(e: string, rest: string)
    ensures StartsWith(e + rest, e) && (e + rest)[|e|..] == rest
  {
  }

  /** Escaping loses nothing. */
  lemma {:induction false} UnescapeEscape(s: string)
    ensures Unescape(Escape(s)) == s
  {
    if s != "" {
      UnescapeEscape(s[1..]);
      UnescapeEntity(s[0], Escape(s[1..]));
      assert s == [s[0]] + s[1..];
    }
  }

  function Cut(s: string, max: nat): string {
    if |s| > max then s[..max] else s
  }

  function Clean(value: string, max: nat): (r: string)
    ensures |r| <= max && Inert(r)
    ensures max > 0 ==> (r == "" <==> TrimSpace(value) == "")
  {
    EscapedIsInert(TrimSpace(value));
    Cut(Escape(TrimSpace(value)), max)
  }

  /* ---- what escaping changes ---------------------------------------------------- */

  predicate Special(c: char) {
    c == '&' || c == '<' || c == '>' || c == '"' || c == '\''
  }

  lemma {:induction false} EscapeConcat(a: string, b: string)
    ensures Escape(a + b) == Escape(a) + Escape(b)
  {
    if a == "" {
      assert a + b == b;
    } else {
      assert (a + b)[1..] == a[1..] + b;
      EscapeConcat(a[1..], b);
    }
  }

  predicate HasSpecial(s: string) {
    exists i :: 0 <= i < |s| && Special(s[i])
  }

  /** Without special bytes nothing changes; with one the text grows and holds an ampersand. */
  lemma {:induction false} EscapeChanges(s: string)
    ensures !HasSpecial(s) ==> Escape(s) == s
    ensures HasSpecial(s) ==> |Escape(s)| > |s| && HasSpecial(Escape(s))
  {
    if s != "" {
      var t, e := s[1..], Escape(s);
      EscapeChanges(t);
      if Special(s[0]) {
        assert e[0] == '&' && Special(e[0]);
      } else if HasSpecial(s) {
        var i :| 0 <= i < |s| && Special(s[i]);
        assert t[i - 1] == s[i];
        var j :| 0 <= j < |Escape(t)| && Special(Escape(t)[j]);
        assert e[j + 1] == Escape(t)[j];
      } else {
        assert forall i :: 0 <= i < |t| ==> t[i] == s[i + 1];
        assert s == [s[0]] + t;
      }
    }
  }

  /** Bytes before the first ampersand of an escaped text are bytes of the text. */
  lemma {:induction false} PlainFront(t: string, n: nat)
    requires n <= |Escape(t)| && '&' !in Escape(t)[..n]
    ensures n <= |t| && t[..n] == Escape(t)[..n]
    decreases n
  {
    if n > 0 {
      var e, rest := Escape(t), Escape(t[1..]);
      assert e[..n][0] == e[0] == Entity(t[0])[0];
      assert e[1..] == rest && rest[..n - 1] == e[..n][1..];
      PlainFront(t[1..], n - 1);
      assert t[..n] == [t[0]] + t[1..][..n - 1] && e[..n] == [e[0]] + rest[..n - 1];
    }
  }

  lemma EscapeSnoc(front: string, c: char)
    ensures Escape(front + [c]) == Escape(front) + Entity(c)
  {
    hide Escape, Entity;
    EscapeConcat(front, [c]);
    EscapeOne(c);
  }

  lemma EscapeOne(c: char)
    ensures Escape([c]) == Entity(c)
  {
    hide Entity;
    assert [c][1..] == "" && Escape("") == "";
  }

  /** Bytes after the last semicolon of an escaped text are bytes of the text. */
  lemma {:induction false} PlainBack(t: string, n: nat)
    requires n <= |Escape(t)| && ';' !in Escape(t)[|Escape(t)| - n..]
    ensures n <= |t| && t[|t| - n..] == Escape(t)[|Escape(t)| - n..]
    decreases n
  {
    hide Escape, Entity;
    EscapeNothing();
    if n > 0 {
      PlainLast(t, n);
      var front, back := t[..|t| - 1], Escape(t)[|Escape(t)| - n..];
      assert back[..n - 1] == Escape(front)[|Escape(front)| - (n - 1)..];
      PlainBack(front, n - 1);
      assert t[|t| - n..] == front[|front| - (n - 1)..] + [t[|t| - 1]];
    }
  }

  lemma EscapeNothing()
    ensures Escape("") == ""
  {
  }

  lemma PlainLast(t: string, n: nat)
    requires t != "" && 0 < n <= |Escape(t)| && ';' !in Escape(t)[|Escape(t)| - n..]
    ensures var e, front := Escape(t), t[..|t| - 1];
            && e == Escape(front) + [t[|t| - 1]]
            && e[|e| - n..] == Escape(front)[|Escape(front)| - (n - 1)..] + [t[|t| - 1]]
  {
    hide Escape;
    EscapeSnoc(t[..|t| - 1], t[|t| - 1]);
    assert t == t[..|t| - 1] + [t[|t| - 1]];
    var e, last := Escape(t), Entity(t[|t| - 1]);
    assert e[|e| - n..][n - 1] == e[|e| - 1] == last[|last| - 1];
  }

  /** Escaping a trimmed text leaves it trimmed. */
  lemma EscapeStaysTrimmed(t: string)
    requires SpaceAtFront(t) == 0 && SpaceAtBack(t) == 0
    ensures TrimSpace(Escape(t)) == Escape(t)
  {
    hide Escape, SpaceRune;
    EscapedFront(t);
    EscapedBack(t);
  }

  lemma EscapedFront(t: string)
    requires SpaceAtFront(t) == 0
    ensures SpaceAtFront(Escape(t)) == 0
  {
    hide Escape, SpaceRune, SpaceAtFront;
    var e := Escape(t);
    var n := SpaceAtFront(e);
    if n > 0 {
      RuneAt(e, 0, n);
      PlainFront(t, n);
      NoRune(t, n);
      SameRune(t, 0, e, 0, n);
    }
  }

  lemma EscapedBack(t: string)
    requires SpaceAtBack(t) == 0
    ensures SpaceAtBack(Escape(t)) == 0
  {
    hide Escape, SpaceRune, SpaceAtBack;
    var e := Escape(t);
    var n := SpaceAtBack(e);
    if n > 0 {
      RuneAt(e, |e| - n, n);
      PlainBack(t, n);
      NoRune(t, n);
      SameRune(t, |t| - n, e, |e| - n, n);
    }
  }

  lemma RuneAt(s: string, i: nat, n: nat)
    requires SpaceRune(s, i, n)
    ensures i + n <= |s| && 1 <= n <= 3
    ensures '&' !in s[i..i + n] && ';' !in s[i..i + n]
  {
  }

  /* ---- lists ------------------------------------------------------------------- */

  /** First occurrences of the nonempty items, in order. */
  function Distinct(items: seq<string>): seq<string> {
    if items == [] then [] else
      var r, x := Distinct(items[..|items| - 1]), items[|items| - 1];
      if x == "" || x in r then r else r + [x]
  }

  /** Every nonempty item once, and nothing else. */
  lemma {:induction false} DistinctItems(items: seq<string>)
    ensures var r := Distinct(items);
            && (forall x :: x in r <==> x in items && x != "")
            && forall i, j :: 0 <= i < j < |r| ==> r[i] != r[j]
  {
    if items != [] {
      var front, x := items[..|items| - 1], items[|items| - 1];
      DistinctItems(front);
      assert items == front + [x];
      var r, d := Distinct(items), Distinct(front);
      assert r == if x == "" || x in d then d else d + [x];
      forall y ensures y in r <==> y in items && y != "" {
        assert y in items <==> y in front || y == x;
        assert y in r <==> y in d || (y == x && x != "");
      }
      forall i, j | 0 <= i < j < |r| ensures r[i] != r[j] {
        assert r[i] == d[i] && d[i] in d;
        assert r[j] == if j < |d| then d[j] else x;
      }
    }
  }

  function CleanEach(values: seq<string>, max: nat): (r: seq<string>)
    ensures |r| == |values| && forall i :: 0 <= i < |r| ==> r[i] == Clean(values[i], max)
  {
    seq(|values|, i requires 0 <= i < |values| => Clean(values[i], max))
  }

  /** What a list field holds: the first `maxLen` distinct nonempty cleaned items. */
  function Cleaned(values: seq<string>, maxItem: nat, maxLen: nat): (r: seq<string>)
    ensures GoodList(r, maxItem, maxLen)
  {
    var each := CleanEach(values, maxItem);
    var d := Distinct(each);
    DistinctItems(each);
    assert forall i :: 0 <= i < |d| ==> d[i] in each;
    if |d| > maxLen then d[..maxLen] else d
  }

  ghost predicate GoodList(items: seq<string>, maxItem: nat, maxLen: nat) {
    && |items| <= maxLen
    && (forall i :: 0 <= i < |items| ==> items[i] != "" && |items[i]| <= maxItem && Inert(items[i]))
    && (forall i, j :: 0 <= i < j < |items| ==> items[i] != items[j])
  }

  /** Item i of the result first occurs at position at[i] of the input. */
  ghost predicate FirstAt(items: seq<string>, r: seq<string>, at: seq<nat>) {
    && |at| == |r|
    && (forall i :: 0 <= i < |r| ==> at[i] < |items| && items[at[i]] == r[i])
    && (forall i, j :: 0 <= i < |r| && 0 <= j < at[i] ==> items[j] != r[i])
    && (forall i, j :: 0 <= i < j < |r| ==> at[i] < at[j])
  }

  lemma OneMoreItem(front: seq<string>, x: string, d: seq<string>, at: seq<nat>)
    requires FirstAt(front, d, at)
    ensures FirstAt(front + [x], d, at)
    ensures x !in front ==> FirstAt(front + [x], d + [x], at + [|front|])
  {
    var items := front + [x];
    assert forall j :: 0 <= j < |front| ==> items[j] == front[j] && front[j] in front;
  }

  lemma {:induction false} DistinctIsFirst(items: seq<string>) returns (at: seq<nat>)
    ensures FirstAt(items, Distinct(items), at)
  {
    hide FirstAt;
    if items == [] {
      at := [];
      NothingFirst();
    } else {
      var front, x := items[..|items| - 1], items[|items| - 1];
      at := DistinctIsFirst(front);
      DistinctItems(front);
      OneMoreItem(front, x, Distinct(front), at);
      assert items == front + [x];
      if x != "" && x !in Distinct(front) {
        at := at + [|front|];
      }
    }
  }

  lemma NothingFirst()
    ensures FirstAt([], Distinct([]), [])
  {
  }

  /** Past the first `max` items an item first occurs later than those. */
  lemma OccursLater(items: seq<string>, d: seq<string>, at: seq<nat>, max: nat, k: nat, j: nat)
    requires FirstAt(items, d, at) && 0 < max <= k < |d| && j < |items| && items[j] == d[k]
    ensures at[max - 1] < j
  {
    assert at[max - 1] < at[k];
    assert !(j < at[k]);
  }

  lemma PastTheFirst(d: seq<string>, max: nat, x: string) returns (k: nat)
    requires max <= |d| && x in d && x !in d[..max]
    ensures max <= k < |d| && d[k] == x
  {
    assert d == d[..max] + d[max..];
    assert x in d[max..];
    var i :| 0 <= i < |d[max..]| && d[max..][i] == x;
    k := max + i;
  }

  /** An item that does not fit comes after everything that does. */
  lemma LeftOutIsLater(items: seq<string>, at: seq<nat>, max: nat, j: nat)
    requires FirstAt(items, Distinct(items), at) && j < |items| && items[j] != ""
    requires var d := Distinct(items); |d| > max && items[j] !in d[..max]
    ensures max > 0 ==> at[max - 1] < j
  {
    hide Distinct, FirstAt;
    AllFit(items, j);
    var k := PastTheFirst(Distinct(items), max, items[j]);
    if max > 0 {
      OccursLater(items, Distinct(items), at, max, k, j);
    }
  }

  lemma AllFit(items: seq<string>, j: nat)
    requires j < |items| && items[j] != ""
    ensures items[j] in Distinct(items)
  {
    DistinctItems(items);
  }

  lemma FirstAtPrefix(items: seq<string>, d: seq<string>, at: seq<nat>, n: nat)
    requires FirstAt(items, d, at) && n <= |d|
    ensures FirstAt(items, d[..n], at[..n])
  {
  }

  lemma DistinctNonempty(items: seq<string>)
    ensures var d := Distinct(items); forall i :: 0 <= i < |d| ==> d[i] != ""
  {
    hide Distinct;
    DistinctItems(items);
    var d := Distinct(items);
    forall i | 0 <= i < |d| ensures d[i] != "" {
      assert d[i] in d;
    }
  }

  /** The first `max` distinct items, where each first occurs. */
  lemma FirstFew(items: seq<string>, max: nat) returns (at: seq<nat>)
    ensures var d := Distinct(items);
            var r := if |d| > max then d[..max] else d;
            && FirstAt(items, r, at) && |at| == |r|
            && (forall i :: 0 <= i < |r| ==> r[i] != "")
            && (forall j :: 0 <= j < |items| && items[j] != "" && items[j] !in r ==>
                  |r| == max && (r != [] ==> at[|r| - 1] < j))
  {
    hide Distinct, FirstAt;
    var d := Distinct(items);
    var all := DistinctIsFirst(items);
    DistinctNonempty(items);
    SameLength(items, d, all);
    var r := if |d| > max then d[..max] else d;
    at := all[..|r|];
    FirstAtPrefix(items, d, all, |r|);
    assert d[..|r|] == r;
    forall j | 0 <= j < |items| && items[j] != "" && items[j] !in r
      ensures |r| == max && (r != [] ==> at[|r| - 1] < j)
    {
      AllFit(items, j);
      LeftOutIsLater(items, all, max, j);
    }
  }

  lemma SameLength(items: seq<string>, d: seq<string>, at: seq<nat>)
    requires FirstAt(items, d, at)
    ensures |at| == |d|
  {
  }

  /**
   A list field holds the first of its nonempty cleaned items: each where it first occurs, in that
   order, and one is left out only when as many as fit occur before it.
   */
  lemma CleanedKeepsTheFirst(values: seq<string>, maxItem: nat, maxLen: nat) returns (at: seq<nat>)
    ensures var each, r := CleanEach(values, maxItem), Cleaned(values, maxItem, maxLen);
            && FirstAt(each, r, at) && |at| == |r|
            && (forall i :: 0 <= i < |r| ==> r[i] != "")
            && (forall j :: 0 <= j < |each| && each[j] != "" && each[j] !in r ==>
                  |r| == maxLen && (r != [] ==> at[|r| - 1] < j))
  {
    hide Distinct, GoodList, FirstAt;
    at := FirstFew(CleanEach(values, maxItem), maxLen);
  }

  /** Cleaning cuts only the end off a text that decodes to the trimmed one, and only past the cap. */
  lemma CleanCutsOnlyTheEnd(value: string, max: nat) returns (rest: string)
    ensures Unescape(Clean(value, max) + rest) == TrimSpace(value)
    ensures rest != "" ==> |Clean(value, max)| == max
    ensures Inert(rest)
  {
    var e := Escape(TrimSpace(value));
    EscapedIsInert(TrimSpace(value));
    UnescapeEscape(TrimSpace(value));
    hide Escape, Unescape, TrimSpace;
    rest := if |e| > max then e[max..] else "";
    assert Clean(value, max) + rest == e;
  }

  /** Reading further items only ever appends. */
  lemma {:induction false} DistinctGrows(items: seq<string>, i: nat)
    requires i <= |items|
    ensures Distinct(items[..i]) <= Distinct(items)
    decreases |items|
  {
    if i < |items| {
      var front := items[..|items| - 1];
      assert front[..i] == items[..i];
      DistinctGrows(front, i);
    } else {
      assert items[..i] == items;
    }
  }

  lemma DistinctNext(each: seq<string>, i: nat)
    requires i < |each|
    ensures Distinct(each[..i + 1]) ==
            var r := Distinct(each[..i]); if each[i] == "" || each[i] in r then r else r + [each[i]]
  {
    assert each[..i + 1][..i] == each[..i];
  }

  lemma NothingSeen(items: seq<string>)
    requires items == []
    ensures Distinct(items) == []
  {
  }

  /** cleanList: one pass, a set of what was seen, and a break at the cap. */
  method CleanList(values: seq<string>, maxItem: nat, maxLen: nat) returns (out: seq<string>)
    requires maxLen >= 1
    ensures out == Cleaned(values, maxItem, maxLen)
  {
    hide Clean, Distinct, GoodList;
    ghost var each := CleanEach(values, maxItem);
    out := [];
    var seen: set<string> := {};
    NothingSeen(each[..0]);
    for i := 0 to |values|
      invariant out == Distinct(each[..i]) && |out| < maxLen
      invariant forall x :: x in seen <==> x in out
    {
      var v := Clean(values[i], maxItem);
      DistinctNext(each, i);
      if v != "" && v !in seen {
        seen := seen + {v};
        out := out + [v];
        if |out| == maxLen {
          DistinctGrows(each, i + 1);
          return;
        }
      }
    }
    assert each[..|values|] == each;
  }
}
