/**
 Names of rate-limit buckets (backend/internal/rate-limiter/limiter.go).

 Time is a number of nanoseconds since Go's zero time. A bucket is named after
 the scope, the key type, a fingerprint of the value, the window in seconds and
 the start of the aligned window; the module proves that the printed name
 determines all five.
 */
module BucketNames {
  import opened Text

  type Time = int
  type Duration = int

  const SECOND: int := 1_000_000_000

  /** Seconds from Go's zero time to the Unix epoch. */
  const UNIX_EPOCH: int := 62_135_596_800

  type Byte = n: int | 0 <= n < 256

  type Sum256 = s: seq<Byte> | |s| == 32 witness seq(32, _ => 0)

  /** crypto/sha256, about which nothing is assumed. */
  type Digest = string -> Sum256

  datatype Key = Key(scope: string, kind: string, value: string)

  datatype Rule = Rule(limit: int, window: Duration)

  /** One rule applied to one key: the unit that owns a bucket. */
  datatype Charge = Charge(key: Key, rule: Rule)

  /* ---- Windows ----------------------------------------------------------- */

  predicate WholeSeconds(w: Duration) {
    w > 0 && w % SECOND == 0
  }

  /** time.Time.Truncate: down to a multiple of the window since the zero time. */
  function Truncate(t: Time, w: Duration): (r: Time)
    ensures w > 0 ==> r <= t < r + w && r == w * (t / w)
  {
    if w <= 0 then t else t - t % w
  }

  /** int64(d.Seconds()), which drops the fraction. */
  function InSeconds(d: Duration): int {
    if d < 0 then -((-d) / SECOND) else d / SECOND
  }

  /** Two instants share an aligned window exactly when neither is a window after the other's start. */
  lemma SameWindow(t: Time, u: Time, w: Duration)
    requires w > 0
    ensures Truncate(t, w) == Truncate(u, w) <==> Truncate(t, w) <= u < Truncate(t, w) + w
    ensures t <= u ==> Truncate(t, w) <= Truncate(u, w)
    ensures t <= u && Truncate(t, w) != Truncate(u, w) ==> Truncate(t, w) + w <= Truncate(u, w)
  {
    var a, b := Truncate(t, w), Truncate(u, w);
    if t / w < u / w {
      Scaled(w, t / w + 1, u / w);
    } else if u / w < t / w {
      Scaled(w, u / w + 1, t / w);
    }
  }

  lemma Scaled(w: int, a: int, b: int)
    requires w > 0 && a <= b
    ensures w * a <= w * b
  {
  }

  function WindowStart(t: Time, w: Duration): int {
    Truncate(t, w) / SECOND - UNIX_EPOCH
  }

  lemma WindowStartUnique(t: Time, u: Time, w: Duration)
    requires WholeSeconds(w)
    ensures WindowStart(t, w) == WindowStart(u, w) <==> Truncate(t, w) == Truncate(u, w)
  {
    WholeSecondStart(t, w);
    WholeSecondStart(u, w);
  }

  lemma WholeSecondStart(t: Time, w: Duration)
    requires WholeSeconds(w)
    ensures Truncate(t, w) % SECOND == 0
  {
    var k, q := w / SECOND, t / w;
    assert w == SECOND * k;
    assert w * q == SECOND * (k * q);
    MultipleOfSecond(k * q);
  }

  lemma MultipleOfSecond(n: int)
    ensures (SECOND * n) % SECOND == 0
  {
  }

  /* ---- Printing ---------------------------------------------------------- */

  function Digit(i: int): char
    requires 0 <= i < 16
  {
    "0123456789abcdef"[i]
  }

  lemma DigitsDistinct(i: int, j: int)
    requires 0 <= i < 16 && 0 <= j < 16
    ensures Digit(i) == Digit(j) ==> i == j
    ensures Digit(i) != ':' && Digit(i) != '-'
  {
  }

  function Digits(n: nat): (s: string)
    ensures |s| >= 1 && (n >= 10 ==> |s| >= 2)
  {
    if n < 10 then [Digit(n)] else Digits(n / 10) + [Digit(n % 10)]
  }

  /** fmt's %d. */
  function Decimal(n: int): string {
    if n < 0 then "-" + Digits(-n) else Digits(n)
  }

  lemma {:induction false} DigitsPlain(n: nat)
    ensures ':' !in Digits(n) && '-' !in Digits(n)
  {
    DigitsDistinct(n % 10, 0);
    if n >= 10 {
      DigitsPlain(n / 10);
    }
  }

  lemma {:induction false} DigitsInjective(a: nat, b: nat)
    requires Digits(a) == Digits(b)
    ensures a == b
  {
    hide Digit;
    var s, t := Digits(a), Digits(b);
    assert s[|s| - 1] == Digit(a % 10) && t[|t| - 1] == Digit(b % 10);
    DigitsDistinct(a % 10, b % 10);
    if a >= 10 {
      assert b >= 10;
      assert s[..|s| - 1] == Digits(a / 10) && t[..|t| - 1] == Digits(b / 10);
      DigitsInjective(a / 10, b / 10);
    }
  }

  lemma SignShows(a: int, b: int)
    requires a < 0 <= b
    ensures Decimal(a) != Decimal(b)
  {
    DigitsPlain(b);
    assert Decimal(a)[0] == '-';
    assert Decimal(b)[0] in Decimal(b);
  }

  lemma SameTail(s: string, t: string)
    requires "-" + s == "-" + t
    ensures s == t
  {
    assert s == ("-" + s)[1..] && t == ("-" + t)[1..];
  }

  lemma DecimalInjective(a: int, b: int)
    requires Decimal(a) == Decimal(b)
    ensures a == b
  {
    hide Digits;
    if a < 0 <= b {
      SignShows(a, b);
    } else if b < 0 <= a {
      SignShows(b, a);
    } else if a < 0 {
      SameTail(Digits(-a), Digits(-b));
      DigitsInjective(-a, -b);
    } else {
      DigitsInjective(a, b);
    }
  }

  lemma DecimalPlain(n: int)
    ensures ':' !in Decimal(n)
  {
    DigitsPlain(if n < 0 then -n else n);
  }

  /** encoding/hex. */
  function Hex(bytes: seq<Byte>): (s: string)
    ensures |s| == 2 * |bytes|
  {
    if bytes == [] then "" else [Digit(bytes[0] / 16), Digit(bytes[0] % 16)] + Hex(bytes[1..])
  }

  lemma {:induction false} HexPlain(bytes: seq<Byte>)
    ensures ':' !in Hex(bytes)
  {
    if bytes != [] {
      DigitsDistinct(bytes[0] / 16, 0);
      DigitsDistinct(bytes[0] % 16, 0);
      HexPlain(bytes[1..]);
    }
  }

  lemma {:induction false} HexInjective(a: seq<Byte>, b: seq<Byte>)
    requires Hex(a) == Hex(b)
    ensures a == b
  {
    assert |a| == |b|;
    if a != [] {
      hide Digit;
      assert Hex(a)[0] == Digit(a[0] / 16) && Hex(b)[0] == Digit(b[0] / 16);
      assert Hex(a)[1] == Digit(a[0] % 16) && Hex(b)[1] == Digit(b[0] % 16);
      DigitsDistinct(a[0] / 16, b[0] / 16);
      DigitsDistinct(a[0] % 16, b[0] % 16);
      assert Hex(a)[2..] == Hex(a[1..]) && Hex(b)[2..] == Hex(b[1..]);
      HexInjective(a[1..], b[1..]);
      assert a == [a[0]] + a[1..] && b == [b[0]] + b[1..];
    }
  }

  /* ---- Names ------------------------------------------------------------- */

  /** The 128 bits of digest that stand for a key's value. */
  function Fingerprint(sha: Digest, value: string): seq<Byte> {
    sha(value)[..16]
  }

  /** "rl:scope:type:fingerprint:seconds:start", named by a clock reading `t`. */
  function BucketName(sha: Digest, c: Charge, t: Time): string {
    "rl" + ":" + (c.key.scope + ":" + (c.key.kind + ":" + (Hex(Fingerprint(sha, c.key.value)) + ":" +
    (Decimal(InSeconds(c.rule.window)) + ":" + Decimal(WindowStart(t, c.rule.window))))))
  }

  /** What the repository puts in a name: colon-free identifiers and whole-second windows. */
  predicate GoodCharge(c: Charge) {
    ':' !in c.key.scope && ':' !in c.key.kind && WholeSeconds(c.rule.window)
  }

  /** Charges that share a counter: same scope and type, same fingerprint, same window length. */
  predicate SameCounter(sha: Digest, a: Charge, b: Charge) {
    && a.key.scope == b.key.scope && a.key.kind == b.key.kind
    && sha(a.key.value)[..16] == sha(b.key.value)[..16]
    && a.rule.window == b.rule.window
  }

  /** Printed names coincide exactly when the counter and the aligned window do. */
  lemma NameInjective(sha: Digest, a: Charge, t: Time, b: Charge, u: Time)
    requires GoodCharge(a) && GoodCharge(b)
    ensures BucketName(sha, a, t) == BucketName(sha, b, u) <==>
            SameCounter(sha, a, b) && Truncate(t, a.rule.window) == Truncate(u, b.rule.window)
  {
    if SameCounter(sha, a, b) {
      WindowStartUnique(t, u, a.rule.window);
    }
    if BucketName(sha, a, t) == BucketName(sha, b, u) {
      var pa, pb := Fingerprint(sha, a.key.value), Fingerprint(sha, b.key.value);
      var na, nb := Decimal(InSeconds(a.rule.window)), Decimal(InSeconds(b.rule.window));
      var sa, sb := Decimal(WindowStart(t, a.rule.window)), Decimal(WindowStart(u, b.rule.window));
      HexPlain(pa); HexPlain(pb);
      DecimalPlain(InSeconds(a.rule.window)); DecimalPlain(InSeconds(b.rule.window));
      FieldsUnique("rl", a.key.scope + ":" + (a.key.kind + ":" + (Hex(pa) + ":" + (na + ":" + sa))), ':',
                   "rl", b.key.scope + ":" + (b.key.kind + ":" + (Hex(pb) + ":" + (nb + ":" + sb))));
      FieldsUnique(a.key.scope, a.key.kind + ":" + (Hex(pa) + ":" + (na + ":" + sa)), ':',
                   b.key.scope, b.key.kind + ":" + (Hex(pb) + ":" + (nb + ":" + sb)));
      FieldsUnique(a.key.kind, Hex(pa) + ":" + (na + ":" + sa), ':', b.key.kind, Hex(pb) + ":" + (nb + ":" + sb));
      FieldsUnique(Hex(pa), na + ":" + sa, ':', Hex(pb), nb + ":" + sb);
      FieldsUnique(na, sa, ':', nb, sb);
      HexInjective(pa, pb);
      DecimalInjective(InSeconds(a.rule.window), InSeconds(b.rule.window));
      assert a.rule.window == b.rule.window;
      DecimalInjective(WindowStart(t, a.rule.window), WindowStart(u, b.rule.window));
      WindowStartUnique(t, u, a.rule.window);
    }
  }

  /**
   The same on the digest itself: a bucket belongs to one scope, one key type, one window and the
   first 128 bits of the digest of one value. Values whose digests differ there never share one.
   */
  lemma ValuesOwnTheirBuckets(sha: Digest, a: Charge, t: Time, b: Charge, u: Time)
    requires GoodCharge(a) && GoodCharge(b)
    ensures BucketName(sha, a, t) == BucketName(sha, b, u) <==>
            && a.key.scope == b.key.scope && a.key.kind == b.key.kind && a.rule.window == b.rule.window
            && sha(a.key.value)[..16] == sha(b.key.value)[..16]
            && Truncate(t, a.rule.window) == Truncate(u, b.rule.window)
  {
    hide BucketName, Truncate;
    NameInjective(sha, a, t, b, u);
  }
}
