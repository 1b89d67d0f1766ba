/**
 Byte strings and the parts of Go's `strings` package the repository leans on.

 A Go string is a sequence of bytes, so every `char` here stands for one byte.
 Unicode white space therefore appears as its UTF-8 encoding.
 */
module Text {
  import opened Wrappers

  /** Index of the last `c`, or -1 (strings.LastIndex with a one-byte separator). */
  function LastIndex(s: string, c: char): (r: int)
    ensures -1 <= r < |s|
    ensures r >= 0 ==> s[r] == c && c !in s[r + 1..]
    ensures r < 0 ==> c !in s
  {
    if |s| == 0 then -1
    else if s[|s| - 1] == c then |s| - 1
    else LastIndex(s[..|s| - 1], c)
  }

  /** The last occurrence is found however the string is presented. */
  lemma {:induction false} LastIndexUnique(a: string, c: char, b: string)
    requires c !in b
    ensures LastIndex(a + [c] + b, c) == |a|
    decreases |b|
  {
    var s := a + [c] + b;
    if b != "" {
      assert s[|s| - 1] == b[|b| - 1];
      assert s[..|s| - 1] == a + [c] + b[..|b| - 1];
      LastIndexUnique(a, c, b[..|b| - 1]);
    }
  }

  /** Index of the first `c`, or the length when there is none. */
  function FirstIndex(s: string, c: char): (r: nat)
    ensures r <= |s| && c !in s[..r]
    ensures r < |s| ==> s[r] == c
  {
    if |s| == 0 || s[0] == c then 0 else 1 + FirstIndex(s[1..], c)
  }

  lemma {:induction false} FirstIndexUnique(a: string, c: char, b: string)
    requires c !in a
    ensures FirstIndex(a + [c] + b, c) == |a|
  {
    var s := a + [c] + b;
    if a != "" {
      assert s[0] == a[0];
      assert s[1..] == a[1..] + [c] + b;
      FirstIndexUnique(a[1..], c, b);
    }
  }

  /** strings.Split with a one-byte separator. */
  function Split(s: string, c: char): (parts: seq<string>)
    ensures |parts| >= 1
    decreases |s|
  {
    var i := FirstIndex(s, c);
    if i == |s| then [s] else [s[..i]] + Split(s[i + 1..], c)
  }

  /** Splitting at one occurrence of the separator splits both sides independently. */
  lemma {:induction false} SplitAtSeparator(a: string, c: char, b: string)
    ensures Split(a + [c] + b, c) == Split(a, c) + Split(b, c)
    decreases |a|
  {
    hide Split, FirstIndex;
    var i := FirstIndex(a, c);
    if i == |a| {
      SplitFirst(a, c, b);
    } else {
      SplitStep(a, c, b, i);
      SplitAtSeparator(a[i + 1..], c, b);
      var head, middle, end := [a[..i]], Split(a[i + 1..], c), Split(b, c);
      assert head + (middle + end) == (head + middle) + end;
    }
  }

  lemma SplitFirst(a: string, c: char, b: string)
    requires c !in a
    ensures Split(a, c) == [a]
    ensures Split(a + [c] + b, c) == [a] + Split(b, c)
  {
    hide FirstIndex;
    var s := a + [c] + b;
    FirstIndexUnique(a, c, b);
    assert s[..|a|] == a && s[|a| + 1..] == b;
  }

  lemma SplitStep(a: string, c: char, b: string, i: nat)
    requires i < |a| && i == FirstIndex(a, c)
    ensures Split(a, c) == [a[..i]] + Split(a[i + 1..], c)
    ensures Split(a + [c] + b, c) == [a[..i]] + Split(a[i + 1..] + [c] + b, c)
  {
    var rest := a[i + 1..];
    var tail := rest + [c] + b;
    assert a == a[..i] + [c] + rest && a + [c] + b == a[..i] + [c] + tail;
    SplitFirst(a[..i], c, rest);
    SplitFirst(a[..i], c, tail);
  }

  /** Two fields are recovered from their join when neither first field holds the separator. */
  lemma FieldsUnique(a: string, b: string, c: char, a': string, b': string)
    requires c !in a && c !in a'
    requires a + [c] + b == a' + [c] + b'
    ensures a == a' && b == b'
  {
    FirstIndexUnique(a, c, b);
    FirstIndexUnique(a', c, b');
    var s := a + [c] + b;
    assert a == s[..|a|] && b == s[|a| + 1..];
    assert a' == s[..|a|] && b' == s[|a| + 1..];
  }

  /* ---- strings.TrimSpace ------------------------------------------------- */

  predicate AsciiSpace(c: char) {
    c == ' ' || '\t' <= c <= '\r'
  }

  /** Three-byte encodings of U+1680, U+2000-200A, U+2028, U+2029, U+202F, U+205F, U+3000. */
  predicate WideSpace(a: char, b: char, c: char) {
    || (a == '\U{E1}' && b == '\U{9A}' && c == '\U{80}')
    || (a == '\U{E2}' && b == '\U{80}' &&
        ('\U{80}' <= c <= '\U{8A}' || c == '\U{A8}' || c == '\U{A9}' || c == '\U{AF}'))
    || (a == '\U{E2}' && b == '\U{81}' && c == '\U{9F}')
    || (a == '\U{E3}' && b == '\U{80}' && c == '\U{80}')
  }

  /** A white-space rune of n bytes at position i. */
  predicate SpaceRune(s: string, i: nat, n: nat) {
    && i + n <= |s|
    && ((n == 1 && AsciiSpace(s[i]))
        || (n == 2 && s[i] == '\U{C2}' && (s[i + 1] == '\U{85}' || s[i + 1] == '\U{A0}'))
        || (n == 3 && WideSpace(s[i], s[i + 1], s[i + 2])))
  }

  /** Length of the white-space rune `s` starts with, or 0. */
  function SpaceAtFront(s: string): (n: nat)
    ensures n > 0 ==> SpaceRune(s, 0, n)
  {
    if SpaceRune(s, 0, 1) then 1 else if SpaceRune(s, 0, 2) then 2 else if SpaceRune(s, 0, 3) then 3 else 0
  }

  /** Length of the white-space rune `s` ends with, or 0. */
  function SpaceAtBack(s: string): (n: nat)
    ensures n > 0 ==> n <= |s| && SpaceRune(s, |s| - n, n)
  {
    if |s| >= 1 && SpaceRune(s, |s| - 1, 1) then 1
    else if |s| >= 2 && SpaceRune(s, |s| - 2, 2) then 2
    else if |s| >= 3 && SpaceRune(s, |s| - 3, 3) then 3
    else 0
  }

  function TrimLeft(s: string): (r: string)
    ensures SpaceAtFront(r) == 0
    decreases |s|
  {
    var n := SpaceAtFront(s);
    if n == 0 then s else TrimLeft(s[n..])
  }

  function TrimRight(s: string): (r: string)
    ensures SpaceAtBack(r) == 0 && r <= s
    decreases |s|
  {
    var n := SpaceAtBack(s);
    if n == 0 then s else TrimRight(s[..|s| - n])
  }

  /** Equal bytes are the same rune. */
  lemma SameRune(t: string, i: nat, e: string, j: nat, n: nat)
    requires SpaceRune(e, j, n)
    requires i + n <= |t| && t[i..i + n] == e[j..j + n]
    ensures SpaceRune(t, i, n)
  {
    var w := e[j..j + n];
    assert t[i] == t[i..i + n][0] == w[0] == e[j];
    if n >= 2 {
      assert t[i + 1] == t[i..i + n][1] == w[1] == e[j + 1];
    }
    if n == 3 {
      assert t[i + 2] == t[i..i + n][2] == w[2] == e[j + 2];
    }
  }

  /** A text without white space at an end has no white-space rune there. */
  lemma NoRune(s: string, n: nat)
    requires 1 <= n <= 3 && n <= |s|
    ensures SpaceAtFront(s) == 0 ==> !SpaceRune(s, 0, n)
    ensures SpaceAtBack(s) == 0 ==> !SpaceRune(s, |s| - n, n)
  {
    hide SpaceRune;
  }

  lemma PrefixStaysTrimmed(t: string, r: string)
    requires SpaceAtFront(t) == 0 && r <= t
    ensures SpaceAtFront(r) == 0
  {
  }

  /** strings.TrimSpace: no white-space rune is left at either end. */
  function TrimSpace(s: string): (r: string)
    ensures SpaceAtFront(r) == 0 && SpaceAtBack(r) == 0
  {
    var t := TrimLeft(s);
    var r := TrimRight(t);
    PrefixStaysTrimmed(t, r);
    r
  }

  /** Trimming is idempotent, which is why folding a trimmed address equals folding the typed one. */
  lemma TrimSpaceIdempotent(s: string)
    ensures TrimSpace(TrimSpace(s)) == TrimSpace(s)
  {
  }

  /** Nothing but whole white-space runes. */
  predicate WhiteSpace(s: string)
    decreases |s|
  {
    s == "" || (SpaceAtFront(s) > 0 && WhiteSpace(s[SpaceAtFront(s)..]))
  }

  lemma {:induction false} WhiteSpaceConcat(a: string, b: string)
    requires WhiteSpace(a) && WhiteSpace(b)
    ensures WhiteSpace(a + b)
    decreases |a|
  {
    if a == "" {
      assert a + b == b;
    } else {
      var n := SpaceAtFront(a);
      FirstRune(a, b);
      assert (a + b)[n..] == a[n..] + b;
      WhiteSpaceConcat(a[n..], b);
    }
  }

  lemma FirstRune(a: string, b: string)
    requires SpaceAtFront(a) > 0
    ensures SpaceAtFront(a + b) == SpaceAtFront(a)
  {
    var s := a + b;
    assert s[..|a|] == a;
    assert forall i :: 0 <= i < |a| ==> s[i] == a[i];
  }

  lemma OneRuneIsWhite(s: string, i: nat, n: nat)
    requires SpaceRune(s, i, n)
    ensures i + n <= |s| && WhiteSpace(s[i..i + n])
  {
    var w := s[i..i + n];
    SameRune(w, 0, s, i, n);
    assert w[n..] == "" && SpaceAtFront(w) == n;
  }

  lemma {:induction false} TrimLeftTakesWhiteSpace(s: string) returns (a: string)
    ensures s == a + TrimLeft(s) && WhiteSpace(a)
    decreases |s|
  {
    hide WhiteSpace, SpaceRune, SpaceAtFront, TrimLeft;
    NothingIsWhite();
    TrimLeftStep(s);
    var n := SpaceAtFront(s);
    if n == 0 {
      a := "";
    } else {
      OneRuneIsWhite(s, 0, n);
      var w, t := s[0..n], s[n..];
      var rest := TrimLeftTakesWhiteSpace(t);
      WhiteSpaceConcat(w, rest);
      a := w + rest;
      assert s == w + t;
      Regroup(w, rest, TrimLeft(t));
    }
  }

  lemma TrimLeftStep(s: string)
    ensures var n := SpaceAtFront(s);
            if n == 0 then TrimLeft(s) == s else n <= |s| && TrimLeft(s) == TrimLeft(s[n..])
  {
  }

  lemma Regroup(a: string, b: string, c: string)
    ensures a + (b + c) == (a + b) + c
  {
  }

  lemma {:induction false} TrimRightTakesWhiteSpace(s: string) returns (b: string)
    ensures s == TrimRight(s) + b && WhiteSpace(b)
    decreases |s|
  {
    hide WhiteSpace, SpaceRune, SpaceAtBack;
    NothingIsWhite();
    var n := SpaceAtBack(s);
    if n == 0 {
      b := "";
    } else {
      var k := |s| - n;
      OneRuneIsWhite(s, k, n);
      var w, t := s[k..k + n], s[..k];
      var rest := TrimRightTakesWhiteSpace(t);
      WhiteSpaceConcat(rest, w);
      b := rest + w;
      assert s == t + w;
    }
  }

  lemma NothingIsWhite()
    ensures WhiteSpace("")
  {
  }

  /** Trimming takes white space off both ends and leaves the rest as it is. */
  lemma TrimSpaceTakesOnlyWhiteSpace(s: string) returns (a: string, b: string)
    ensures s == a + TrimSpace(s) + b && WhiteSpace(a) && WhiteSpace(b)
    ensures SpaceAtFront(TrimSpace(s)) == 0 && SpaceAtBack(TrimSpace(s)) == 0
  {
    hide WhiteSpace, SpaceAtFront, SpaceAtBack;
    a := TrimLeftTakesWhiteSpace(s);
    b := TrimRightTakesWhiteSpace(TrimLeft(s));
  }
}
