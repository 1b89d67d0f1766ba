/**
 What a stored value shows, and cleaning it once more, as an edit form does that sends back what it
 was given: backend/internal/service/application.go, clean applied by Create and again by Update.
 */
module Recleaning {
  import opened Text
  import opened Sanitising

  /** A beginning of "amp;amp;amp;...". */
  predicate AmpTail(s: string) {
    if |s| < 4 then s == "amp;"[..|s|] else s[..4] == "amp;" && AmpTail(s[4..])
  }

  /**
   The values a second cleaning leaves alone: they do not end in white space, and either hold no
   ampersand, or fill the cap and are nothing but repetitions of "amp;" after the first one, so
   that the cut hides what the second escape adds.
   */
  predicate Stable(r: string, max: nat) {
    && SpaceAtBack(r) == 0
    && ('&' !in r || (|r| == max && AmpTail(r[FirstIndex(r, '&') + 1..])))
  }

  lemma AmpEscapes(s: string)
    ensures Escape("amp;" + s) == "amp;" + Escape(s)
    ensures Escape("&" + s) == "&amp;" + Escape(s)
  {
    EscapeConcat("amp;", s);
    EscapeChanges("amp;");
    EscapeConcat("&", s);
    EscapeOne('&');
  }

  /** Escaping shifts a text by "amp;"; only its repetitions do not notice. */
  lemma {:induction false} TailRepeats(s: string)
    ensures s <= "amp;" + Escape(s) <==> AmpTail(s)
  {
    hide Escape;
    if |s| >= 4 && s[..4] == "amp;" {
      var t := s[4..];
      assert s == "amp;" + t;
      AmpEscapes(t);
      TailRepeats(t);
      SamePrefix("amp;", t, "amp;" + Escape(t));
    } else if |s| >= 4 {
      assert ("amp;" + Escape(s))[..4] == "amp;";
    } else {
      assert ("amp;" + Escape(s))[..|s|] == "amp;"[..|s|];
    }
  }

  lemma SamePrefix(p: string, a: string, b: string)
    ensures p + a <= p + b <==> a <= b
  {
    if p + a <= p + b {
      assert a == (p + a)[|p|..] && (p + b)[..|p + a|][|p|..] == b[..|a|];
    }
  }

  /** Bytes of white space: none of them occurs in "amp;". */
  predicate SpaceByte(c: char) {
    c == ' ' || '\t' <= c <= '\r' || c >= '\U{80}'
  }

  predicate SpaceBytes(w: string) {
    forall i :: 0 <= i < |w| ==> SpaceByte(w[i])
  }

  lemma {:induction false} SpaceNeverFits(x: string, w: string)
    requires w != "" && SpaceBytes(w)
    ensures !(x + w <= "amp;" + Escape(x))
  {
    hide Escape;
    if x + w <= "amp;" + Escape(x) {
      var s, e := x + w, "amp;" + Escape(x);
      assert s[|x|] == w[0] && SpaceByte(w[0]);
      assert e[..4] == "amp;" && e[|x|] == w[0];
      assert forall i :: 0 <= i < |s| ==> s[i] == e[i];
      assert |x| >= 4;
      var y := x[4..];
      assert x[..4] == "amp;" by {
        assert forall i :: 0 <= i < 4 ==> x[i] == s[i];
      }
      assert x == "amp;" + y && s == "amp;" + (y + w);
      AmpEscapes(y);
      SamePrefix("amp;", y + w, "amp;" + Escape(y));
      SpaceNeverFits(y, w);
    }
  }

  lemma {:induction false} TrimmedAwaySpace(s: string)
    ensures TrimRight(s) <= s && SpaceBytes(s[|TrimRight(s)|..])
    decreases |s|
  {
    var n := SpaceAtBack(s);
    if n > 0 {
      var t := s[..|s| - n];
      TrimmedAwaySpace(t);
      RuneBytes(s, |s| - n, n);
      var k := |TrimRight(t)|;
      forall i | 0 <= i < |s[k..]| ensures SpaceByte(s[k..][i]) {
        if k + i < |t| {
          assert t[k..][i] == s[k..][i];
        }
      }
    }
  }

  lemma RuneBytes(s: string, i: nat, n: nat)
    requires SpaceRune(s, i, n)
    ensures i + n <= |s| && forall j :: i <= j < i + n ==> SpaceByte(s[j])
  {
  }

  /** Where the first ampersand of an inert text moves the rest. */
  lemma EscapeAtAmp(r: string)
    requires Inert(r) && '&' in r
    ensures var i := FirstIndex(r, '&');
            i < |r| && Escape(r) == r[..i + 1] + ("amp;" + Escape(r[i + 1..]))
  {
    hide Escape, FirstIndex, Inert, HasSpecial;
    var i := FirstIndex(r, '&');
    assert i < |r|;
    var head, rest := r[..i], r[i + 1..];
    assert !HasSpecial(head) by {
      NoSpecials(r, head);
    }
    EscapeChanges(head);
    assert r == head + ("&" + rest);
    EscapeConcat(head, "&" + rest);
    AmpEscapes(rest);
    assert r[..i + 1] == head + "&";
    Regrouped(head, Escape(rest));
  }

  lemma Regrouped(head: string, e: string)
    ensures head + ("&amp;" + e) == head + "&" + ("amp;" + e)
  {
    assert "&amp;" + e == "&" + ("amp;" + e);
  }

  lemma NoSpecials(r: string, head: string)
    requires Inert(r) && head <= r && '&' !in head
    ensures !HasSpecial(head)
  {
    forall i | 0 <= i < |head| ensures !Special(head[i]) {
      assert head[i] in head && r[i] == head[i] && r[i] in r;
    }
  }

  /** When escaping an inert text and cutting it back gives the text again. */
  lemma CutOfEscape(r: string, max: nat)
    requires Inert(r) && |r| <= max
    ensures Cut(Escape(r), max) == r <==>
            '&' !in r || (|r| == max && AmpTail(r[FirstIndex(r, '&') + 1..]))
  {
    hide Escape, Inert;
    if '&' !in r {
      NoSpecials(r, r);
      EscapeChanges(r);
    } else {
      EscapeAtAmp(r);
      var i := FirstIndex(r, '&');
      var head, rest := r[..i + 1], r[i + 1..];
      assert r == head + rest;
      TailRepeats(rest);
      SamePrefix(head, rest, "amp;" + Escape(rest));
      assert |Escape(r)| > |r|;
    }
  }

  /** A text that ends in white space is not what escaping its trimmed form and cutting yields. */
  lemma SpaceIsLost(u: string, w: string, max: nat)
    requires w != "" && SpaceBytes(w) && Inert(u + w)
    ensures Cut(Escape(u), max) != u + w
  {
    hide Escape, Inert;
    InertPart(u, w);
    if '&' !in u {
      NoSpecials(u, u);
      EscapeChanges(u);
    } else {
      EscapeAtAmp(u);
      var i := FirstIndex(u, '&');
      var head, rest := u[..i + 1], u[i + 1..];
      assert u + w == head + (rest + w);
      SpaceNeverFits(rest, w);
      SamePrefix(head, rest + w, "amp;" + Escape(rest));
    }
  }

  lemma InertPart(u: string, w: string)
    requires Inert(u + w)
    ensures Inert(u)
  {
    assert forall c :: c in u ==> c in u + w;
  }

  /** What is stored never begins with white space, though the cut may leave some at the end. */
  lemma StoredFront(value: string, max: nat)
    ensures SpaceAtFront(Clean(value, max)) == 0
  {
    hide Escape, SpaceAtFront, SpaceAtBack;
    EscapedFront(TrimSpace(value));
    PrefixStaysTrimmed(Escape(TrimSpace(value)), Clean(value, max));
  }

  lemma TrimOfStored(r: string)
    requires SpaceAtFront(r) == 0
    ensures var u := TrimSpace(r);
            && u <= r && SpaceBytes(r[|u|..]) && r == u + r[|u|..]
            && (u == r <==> SpaceAtBack(r) == 0)
  {
    hide SpaceAtFront, SpaceAtBack;
    TrimmedAwaySpace(r);
    FrontIsTrimmed(r);
  }

  lemma FrontIsTrimmed(r: string)
    requires SpaceAtFront(r) == 0
    ensures TrimSpace(r) == TrimRight(r) && (SpaceAtBack(r) == 0 ==> TrimRight(r) == r)
  {
  }

  /**
   For every text and every cap: storing a value that was read back leaves it alone exactly when
   it is one of the stable ones. Below the cap that is exactly when the text held none of the
   five escaped bytes.
   */
  lemma CleanAgain(value: string, max: nat)
    ensures var r := Clean(value, max);
            Clean(r, max) == r <==> Stable(r, max)
    ensures |Escape(TrimSpace(value))| < max ==>
              (Stable(Clean(value, max), max) <==> !HasSpecial(TrimSpace(value)))
  {
    var r := Clean(value, max);
    ReadBack(value, max);
    if |Escape(TrimSpace(value))| < max {
      BelowTheCap(TrimSpace(value), max);
    }
  }

  lemma ReadBack(value: string, max: nat)
    ensures var r := Clean(value, max);
            Clean(r, max) == r <==> Stable(r, max)
  {
    hide Escape, TrimSpace, SpaceAtFront, SpaceAtBack, AmpTail, SpaceBytes, Inert;
    var r := Clean(value, max);
    StoredFront(value, max);
    TrimOfStored(r);
    CutOfEscape(r, max);
    var u := TrimSpace(r);
    if u != r {
      SpaceIsLost(u, r[|u|..], max);
    }
  }

  lemma BelowTheCap(t: string, max: nat)
    requires SpaceAtFront(t) == 0 && SpaceAtBack(t) == 0 && |Escape(t)| < max
    ensures Stable(Escape(t), max) <==> !HasSpecial(t)
  {
    hide Escape, SpaceAtFront, SpaceAtBack;
    EscapedBack(t);
    EscapedIsInert(t);
    EscapeChanges(t);
    var e := Escape(t);
    if HasSpecial(t) {
      var i :| 0 <= i < |e| && Special(e[i]);
      assert e[i] in e;
      assert e[i] == '&';
    } else {
      assert '&' !in e by {
        forall i | 0 <= i < |e| ensures e[i] != '&' {
          assert !Special(t[i]);
        }
      }
    }
  }

  /** The cut can leave white space, which a second cleaning takes away. */
  lemma CutLeavesASpace()
    ensures Clean("ab c", 3) == "ab " && Clean("ab ", 3) == "ab"
  {
    hide Escape, TrimSpace, HasSpecial;
    NothingSpecial();
    Plain("ab c");
    Plain("ab");
    TrimsOneSpace();
    TrimOfPlain("ab c");
    assert "ab c"[..3] == "ab ";
  }

  lemma NothingSpecial()
    ensures !HasSpecial("ab c") && !HasSpecial("ab") && !HasSpecial("a") && !HasSpecial("b") && !HasSpecial("amp;b")
  {
  }

  /** An ampersand is escaped every time it is saved. */
  lemma AmpersandGrows()
    ensures Clean("a&b", 200) == "a&amp;b" && Clean("a&amp;b", 200) == "a&amp;amp;b"
  {
    hide Escape, TrimSpace, HasSpecial;
    NothingSpecial();
    TrimOfPlain("a&b");
    TrimOfPlain("a&amp;b");
    EscapeConcat("a", "&b");
    EscapeConcat("a", "&amp;b");
    Plain("a");
    Plain("b");
    Plain("amp;b");
    AmpEscapes("b");
    AmpEscapes("amp;b");
    assert "a&b" == "a" + "&b" && "a&amp;b" == "a" + "&amp;b";
    assert "&b" == "&" + "b" && "&amp;b" == "&" + "amp;b";
    assert "a" + "&amp;b" == "a&amp;b" && "&amp;" + "b" == "&amp;b" && "a" + ("&amp;" + "amp;b") == "a&amp;amp;b";
  }

  lemma Plain(s: string)
    requires !HasSpecial(s)
    ensures Escape(s) == s
  {
    EscapeChanges(s);
  }

  lemma TrimsOneSpace()
    ensures TrimSpace("ab ") == "ab"
  {
    assert SpaceAtBack("ab ") == 1 && "ab "[..2] == "ab" && SpaceAtBack("ab") == 0;
  }

  lemma TrimOfPlain(s: string)
    requires s != "" && ' ' < s[0] < '\U{7f}' && ' ' < s[|s| - 1] < '\U{7f}'
    ensures TrimSpace(s) == s
  {
  }

  /* ---- what a stored value shows ------------------------------------------------- */

  /** The text ends at `k` in a beginning of "&amp;", and the cap cuts just that much of its escape. */
  predicate HiddenAt(t: string, max: nat, k: nat)
    requires k < |t|
  {
    |t| - k <= 4 && t[k..] == "&amp;"[..|t| - k] && max == |Escape(t[..k])| + |t| - k
  }

  /** Cut inside the escape of a last "&" so that what is left of it is the text's own end. */
  predicate CutHides(t: string, max: nat) {
    exists k | 0 <= k < |t| :: HiddenAt(t, max, k)
  }

  /** A part of an entity decodes to itself. */
  lemma PartOfEntity(c: char, n: nat)
    requires n < |Entity(c)|
    ensures Unescape(Entity(c)[..n]) == Entity(c)[..n]
  {
    hide Unescape;
    var p := Entity(c)[..n];
    if n > 0 {
      assert p[0] == '&';
      NoWholeEntity(c, n);
      LoneAmpersand(p);
      NoAmpersand(p[1..]);
      assert p == ['&'] + p[1..];
    } else {
      NoAmpersand(p);
    }
  }

  lemma NoWholeEntity(c: char, n: nat)
    requires 0 < n < |Entity(c)|
    ensures var p := Entity(c)[..n];
            && '&' !in p[1..]
            && !StartsWith(p, "&amp;") && !StartsWith(p, "&lt;") && !StartsWith(p, "&gt;")
            && !StartsWith(p, "&#34;") && !StartsWith(p, "&#39;")
  {
    var p := Entity(c)[..n];
    assert ';' !in p;
    HoldsLast(p, "&amp;");
    HoldsLast(p, "&lt;");
    HoldsLast(p, "&gt;");
    HoldsLast(p, "&#34;");
    HoldsLast(p, "&#39;");
  }

  lemma HoldsLast(p: string, e: string)
    requires e != ""
    ensures StartsWith(p, e) ==> e[|e| - 1] in p
  {
    if StartsWith(p, e) {
      assert p[|e| - 1] == p[..|e|][|e| - 1];
    }
  }

  lemma LoneAmpersand(p: string)
    requires p != "" && p[0] == '&'
    requires !StartsWith(p, "&amp;") && !StartsWith(p, "&lt;") && !StartsWith(p, "&gt;")
    requires !StartsWith(p, "&#34;") && !StartsWith(p, "&#39;")
    ensures Unescape(p) == ['&'] + Unescape(p[1..])
  {
  }

  lemma {:induction false} NoAmpersand(s: string)
    requires '&' !in s
    ensures Unescape(s) == s
  {
    if s != "" {
      NoAmpersand(s[1..]);
      assert s == [s[0]] + s[1..];
    }
  }

  /** Past the first byte's entity the rest decides. */
  lemma HidesFurtherOn(t: string, max: nat)
    requires t != "" && |Entity(t[0])| <= max
    ensures CutHides(t, max) <==> CutHides(t[1..], max - |Entity(t[0])|)
  {
    hide Escape, Entity;
    var e, rest := |Entity(t[0])|, t[1..];
    forall k | 1 <= k < |t|
      ensures HiddenAt(t, max, k) <==> HiddenAt(rest, max - e, k - 1)
    {
      assert t[..k][1..] == rest[..k - 1] && t[k..] == rest[k - 1..];
      EscapeHead(t[..k]);
    }
    if HiddenAt(t, max, 0) {
      FirstIsWhole(t, max);
    }
    if CutHides(rest, max - e) {
      var k :| 0 <= k < |rest| && HiddenAt(rest, max - e, k);
      assert HiddenAt(t, max, k + 1);
    }
  }

  lemma EscapeHead(s: string)
    requires s != ""
    ensures Escape(s) == Entity(s[0]) + Escape(s[1..])
  {
    hide Entity;
  }

  lemma FirstIsWhole(t: string, max: nat)
    requires t != "" && HiddenAt(t, max, 0)
    ensures t[0] == '&' && max == |t| && max < |Entity(t[0])| && t == Entity(t[0])[..max]
  {
    assert t[0..] == t && t[..0] == "" && Escape("") == "";
  }

  /** Where the escape of the first byte is cut, only a text that is that part of it shows. */
  lemma HidesAtOnce(t: string, max: nat)
    requires t != "" && max < |Entity(t[0])|
    ensures CutHides(t, max) <==> t == Entity(t[0])[..max]
  {
    hide Escape, Entity;
    forall k | 1 <= k < |t|
      ensures !HiddenAt(t, max, k)
    {
      EscapeHead(t[..k]);
    }
    if HiddenAt(t, max, 0) {
      FirstIsWhole(t, max);
    }
    if t == Entity(t[0])[..max] {
      PartIsHidden(t, max);
    }
  }

  lemma PartIsHidden(t: string, max: nat)
    requires t != "" && max < |Entity(t[0])| && t == Entity(t[0])[..max]
    ensures HiddenAt(t, max, 0)
  {
    assert |t| == max && Entity(t[0])[0] == t[0];
    assert t[0] == '&' && t[0..] == t && t[..0] == "" && Escape("") == "";
  }

  lemma {:induction false} CutShows(t: string, max: nat)
    requires |Escape(t)| > max
    ensures Unescape(Escape(t)[..max]) == t <==> CutHides(t, max)
    decreases |t|
  {
    hide Escape, Unescape, Entity, CutHides;
    if t == "" {
      EscapeNothing();
    } else {
      var e, rest := Entity(t[0]), t[1..];
      EscapeHead(t);
      assert t == [t[0]] + rest;
      if |e| <= max {
        CutShows(rest, max - |e|);
        assert Escape(t)[..max] == e + Escape(rest)[..max - |e|];
        UnescapeEntity(t[0], Escape(rest)[..max - |e|]);
        HidesFurtherOn(t, max);
        SamePart(t[0], Unescape(Escape(rest)[..max - |e|]), rest);
      } else {
        assert Escape(t)[..max] == e[..max];
        PartOfEntity(t[0], max);
        HidesAtOnce(t, max);
      }
    }
  }

  lemma SamePart(c: char, a: string, b: string)
    ensures [c] + a == [c] + b <==> a == b
  {
    if [c] + a == [c] + b {
      assert a == ([c] + a)[1..] && b == ([c] + b)[1..];
    }
  }

  /**
   For every text and cap: a stored value still shows as the trimmed text that was typed exactly
   when its escape fits the cap, or is cut inside the escape of a "&" the text ends with, or ends
   with up to "&amp", at the very place where what is left is the text's own end.
   */
  lemma CleanKeepsText(value: string, max: nat)
    ensures var t := TrimSpace(value);
            Unescape(Clean(value, max)) == t <==> |Escape(t)| <= max || CutHides(t, max)
  {
    hide Escape, Unescape, TrimSpace, CutHides;
    var t := TrimSpace(value);
    if |Escape(t)| <= max {
      UnescapeEscape(t);
    } else {
      CutShows(t, max);
    }
  }
}
