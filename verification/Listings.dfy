/** Newest first, identifiers breaking ties, and cutting the order into pages. */
module Listings {
  import opened Domain

  /** The sort key {applied_at: -1, _id: -1}. */
  predicate Newer(a: Application, b: Application) {
    a.appliedAt > b.appliedAt || (a.appliedAt == b.appliedAt && a.id > b.id)
  }

  ghost predicate DistinctIds(s: set<Application>) {
    forall a, b :: a in s && b in s && a.id == b.id ==> a == b
  }

  predicate IsNewest(s: set<Application>, a: Application) {
    a in s && forall b :: b in s && b != a ==> Newer(a, b)
  }

  lemma {:induction false} NewestExists(s: set<Application>)
    requires s != {} && DistinctIds(s)
    ensures exists a :: IsNewest(s, a)
    decreases |s|
  {
    var x :| x in s;
    var rest := s - {x};
    if rest == {} {
      assert s == {x};
      assert IsNewest(s, x);
    } else {
      NewestExists(rest);
      var m :| IsNewest(rest, m);
      var top := if Newer(x, m) then x else m;
      forall b | b in s && b != top ensures Newer(top, b) {
        assert b == x || b in rest;
        assert x.id != m.id;
      }
      assert IsNewest(s, top);
    }
  }

  function Newest(s: set<Application>): (a: Application)
    requires s != {} && DistinctIds(s)
    ensures IsNewest(s, a)
  {
    NewestExists(s);
    var a :| IsNewest(s, a);
    a
  }

  ghost predicate InOrder(l: seq<Application>) {
    forall i, j :: 0 <= i < j < |l| ==> Newer(l[i], l[j])
  }

  ghost predicate Lists(l: seq<Application>, s: set<Application>) {
    InOrder(l) && forall a :: a in l <==> a in s
  }

  /** The documents of `s`, each once, newest first. */
  function Sorted(s: set<Application>): (l: seq<Application>)
    requires DistinctIds(s)
    ensures Lists(l, s) && |l| == |s|
    decreases |s|
  {
    if s == {} then [] else
      var a := Newest(s);
      var rest := Sorted(s - {a});
      InFront(s, a, rest);
      [a] + rest
  }

  lemma InFront(s: set<Application>, a: Application, rest: seq<Application>)
    requires IsNewest(s, a) && Lists(rest, s - {a})
    ensures Lists([a] + rest, s)
  {
    forall j | 0 <= j < |rest| ensures Newer(a, rest[j]) {
      assert rest[j] in rest;
    }
  }

  lemma FirstIsNewest(s: set<Application>, l: seq<Application>)
    requires Lists(l, s) && l != []
    ensures IsNewest(s, l[0])
  {
    forall b | b in s && b != l[0] ensures Newer(l[0], b) {
      assert b in l;
    }
    assert l[0] in l;
  }

  lemma RestIsOlder(s: set<Application>, l: seq<Application>)
    requires Lists(l, s) && l != []
    ensures Lists(l[1..], s - {l[0]})
  {
    var rest := l[1..];
    assert l == [l[0]] + rest;
    forall j | 0 <= j < |rest| ensures rest[j] != l[0] {
      assert Newer(l[0], l[j + 1]);
    }
    forall b ensures b in rest <==> b in s - {l[0]} {
      assert b in l <==> b == l[0] || b in rest;
    }
  }

  /** No other list has these documents in this order. */
  lemma {:induction false} SortedIsUnique(s: set<Application>, l: seq<Application>)
    requires DistinctIds(s) && Lists(l, s)
    ensures l == Sorted(s)
    decreases |l|
  {
    hide *;
    if l == [] {
      NothingListed(s);
      SortedStep(s);
    } else {
      SomethingListed(s, l);
      FirstIsNewest(s, l);
      OnlyNewest(s, l[0], Newest(s));
      RestIsOlder(s, l);
      SortedStep(s);
      SortedIsUnique(s - {l[0]}, l[1..]);
      assert l == [l[0]] + l[1..];
    }
  }

  lemma SortedStep(s: set<Application>)
    requires DistinctIds(s)
    ensures s == {} ==> Sorted(s) == []
    ensures forall a :: a in s ==> DistinctIds(s - {a})
    ensures s != {} ==> Sorted(s) == [Newest(s)] + Sorted(s - {Newest(s)})
  {
  }

  lemma NothingListed(s: set<Application>)
    requires Lists([], s)
    ensures s == {}
  {
    forall a ensures a !in s {
      assert a in [] <==> a in s;
    }
  }

  lemma SomethingListed(s: set<Application>, l: seq<Application>)
    requires Lists(l, s) && l != []
    ensures s != {} && l[0] in s
  {
    assert l[0] in l;
  }

  lemma OnlyNewest(s: set<Application>, a: Application, b: Application)
    requires IsNewest(s, a) && IsNewest(s, b)
    ensures a == b
  {
  }

  function Min(a: int, b: int): int {
    if a < b then a else b
  }

  /** Skip and limit. */
  function Page(l: seq<Application>, page: int, size: int): (r: seq<Application>)
    requires page >= 1 && size >= 1
  {
    var from, to := (page - 1) * size, page * size;
    NonNegative(page - 1, size);
    assert to == from + size;
    l[Min(from, |l|)..Min(to, |l|)]
  }

  lemma NonNegative(a: int, b: int)
    requires a >= 0 && b >= 0
    ensures a * b >= 0
  {
  }

  /** The first `pages` pages, one after another. */
  function Pages(l: seq<Application>, pages: nat, size: int): seq<Application>
    requires size >= 1
  {
    if pages == 0 then [] else Pages(l, pages - 1, size) + Page(l, pages, size)
  }

  /** Consecutive pages are a prefix of the list: nothing repeated, nothing skipped. */
  lemma {:induction false} PagesArePrefix(l: seq<Application>, pages: nat, size: int)
    requires size >= 1
    ensures pages * size >= 0 && Pages(l, pages, size) == l[..Min(pages * size, |l|)]
  {
    NonNegative(pages, size);
    if pages > 0 {
      PagesArePrefix(l, pages - 1, size);
      assert pages * size == (pages - 1) * size + size;
    }
  }
}
