/**
 Which peers are believed, and which addresses count as one client:
 backend/internal/rate-limiter/clientip.go, ParseTrustedProxies, isTrusted and bucketValue.
 Addresses are numbers of 32 or 128 bits; reading and printing them are parameters.
 */
module TrustedProxies {
  import opened Wrappers
  import opened Text
  import opened ClientIps
  import opened BucketNames

  /** The `bits` leading bits of `value`. */
  datatype Prefix = Prefix(value: int, width: nat, bits: nat)

  datatype Parsers = Parsers(prefix: string -> Option<Prefix>, addr: string -> Option<Addr>)

  function Pow2(n: nat): (r: nat)
    ensures r > 0
  {
    if n == 0 then 1 else 2 * Pow2(n - 1)
  }

  /** The value without its last `k` bits. */
  function Leading(value: int, k: nat): int {
    value / Pow2(k)
  }

  /** netip.Prefix.Contains: same family, no zone, same leading bits. */
  predicate Contains(p: Prefix, a: Addr) {
    && a.zone == "" && a.width == p.width && p.bits <= p.width
    && Leading(a.value, p.width - p.bits) == Leading(p.value, p.width - p.bits)
  }

  /** netip.Prefix.Masked: the other bits cleared. */
  function Masked(p: Prefix): Prefix {
    if p.bits <= p.width then p.(value := Pow2(p.width - p.bits) * Leading(p.value, p.width - p.bits)) else p
  }

  lemma MaskedContainsTheSame(p: Prefix, a: Addr)
    ensures Contains(Masked(p), a) <==> Contains(p, a)
  {
    hide Leading;
    if p.bits <= p.width {
      Rounded(p.value, p.width - p.bits);
    }
  }

  lemma Rounded(v: int, k: nat)
    ensures Leading(Pow2(k) * Leading(v, k), k) == Leading(v, k)
  {
    var m, q := Pow2(k), Leading(v, k);
    hide Pow2, Leading;
    Multiple(m, q);
    IsQuotient(m * q, k);
  }

  lemma IsQuotient(v: int, k: nat)
    ensures Leading(v, k) == v / Pow2(k)
  {
  }

  lemma Multiple(m: int, q: int)
    requires m > 0
    ensures (m * q) / m == q
  {
    var a := m * q;
    var k := a / m;
    assert a == m * k + a % m;
    if k < q {
      Scaled(m, k + 1, q);
    } else if q < k {
      Scaled(m, q + 1, k);
    }
  }

  /** The q-th aligned block of `size` values. */
  predicate InBlock(v: int, size: int, q: int) {
    q * size <= v < (q + 1) * size
  }

  /** A prefix admits one aligned block of addresses: the block its own value lies in. */
  lemma PrefixIsABlock(p: Prefix, a: Addr)
    requires a.zone == "" && a.width == p.width && p.bits <= p.width
    ensures var size := Pow2(p.width - p.bits);
            Contains(p, a) <==> exists q: int :: InBlock(a.value, size, q) && InBlock(p.value, size, q)
  {
    var size := Pow2(p.width - p.bits);
    hide Pow2, InBlock, Leading;
    IsQuotient(a.value, p.width - p.bits);
    IsQuotient(p.value, p.width - p.bits);
    InItsBlock(a.value, size);
    InItsBlock(p.value, size);
    if q: int :| InBlock(a.value, size, q) && InBlock(p.value, size, q) {
      OnlyBlock(a.value, size, q);
      OnlyBlock(p.value, size, q);
    }
  }

  lemma InItsBlock(v: int, size: int)
    requires size > 0
    ensures InBlock(v, size, v / size)
  {
    assert v == size * (v / size) + v % size;
  }

  lemma OnlyBlock(v: int, size: int, q: int)
    requires size > 0 && InBlock(v, size, q)
    ensures v / size == q
  {
    InItsBlock(v, size);
    var k := v / size;
    if k < q {
      Scaled(size, k + 1, q);
    } else if q < k {
      Scaled(size, q + 1, k);
    }
  }

  /** What one entry of the setting describes: a CIDR, or a bare address as a single host. */
  function Described(parsers: Parsers, part: string): Option<Prefix> {
    if parsers.prefix(part).Some? then parsers.prefix(part)
    else if parsers.addr(part).Some? then
      var a := parsers.addr(part).value; Some(Prefix(a.value, a.width, a.width))
    else None
  }

  /** A bare address admits itself alone, whatever zone it was written with. */
  lemma BareAddressIsOneHost(parsers: Parsers, part: string, a: Addr)
    requires parsers.prefix(part).None? && parsers.addr(part).Some?
    ensures var host := parsers.addr(part).value;
            Contains(Described(parsers, part).value, a) <==> a == host.(zone := "")
  {
    assert Pow2(0) == 1 && forall v :: Leading(v, 0) == v;
  }

  predicate Trusts(prefixes: seq<Prefix>, a: Addr) {
    exists i :: 0 <= i < |prefixes| && Contains(prefixes[i], a)
  }

  method IsTrusted(prefixes: seq<Prefix>, a: Addr) returns (trusted: bool)
    ensures trusted == Trusts(prefixes, a)
  {
    hide Contains;
    for i := 0 to |prefixes|
      invariant forall j :: 0 <= j < i ==> !Contains(prefixes[j], a)
    {
      if Contains(prefixes[i], a) {
        return true;
      }
    }
    return false;
  }

  ghost predicate Named(parsers: Parsers, parts: seq<string>, a: Addr) {
    exists i :: 0 <= i < |parts| && Names(parsers, parts[i], a)
  }

  ghost predicate Names(parsers: Parsers, part: string, a: Addr) {
    TrimSpace(part) != "" && Described(parsers, TrimSpace(part)).Some?
    && Contains(Described(parsers, TrimSpace(part)).value, a)
  }

  predicate Readable(parsers: Parsers, part: string) {
    TrimSpace(part) == "" || Described(parsers, TrimSpace(part)).Some?
  }

  ghost predicate AllReadable(parsers: Parsers, parts: seq<string>) {
    forall i :: 0 <= i < |parts| ==> Readable(parsers, parts[i])
  }

  /**
   The setting is refused exactly when an entry that is not blank describes nothing; otherwise
   an address is trusted exactly when some entry describes it.
   */
  method ParseTrustedProxies(parsers: Parsers, raw: string) returns (r: Option<seq<Prefix>>)
    ensures r.Some? <==> AllReadable(parsers, Split(raw, ','))
    ensures r.Some? ==> forall a :: Trusts(r.value, a) <==> Named(parsers, Split(raw, ','), a)
  {
    hide Contains, TrimSpace, Split, Described;
    var parts := Split(raw, ',');
    var out: seq<Prefix> := [];
    for i := 0 to |parts|
      invariant forall j :: 0 <= j < i ==> Readable(parsers, parts[j])
      invariant forall a :: Trusts(out, a) <==> Named(parsers, parts[..i], a)
    {
      assert parts[..i + 1] == parts[..i] + [parts[i]];
      ghost var before := out;
      var part := TrimSpace(parts[i]);
      if part != "" {
        var p := parsers.prefix(part);
        if p.Some? {
          assert Described(parsers, part) == p by { Cidr(parsers, part); }
          out := out + [Masked(p.value)];
        } else {
          var a := parsers.addr(part);
          BareOrNothing(parsers, part);
          if a.None? {
            assert !Readable(parsers, parts[i]) && !AllReadable(parsers, parts);
            return None;
          }
          out := out + [Prefix(a.value.value, a.value.width, a.value.width)];
        }
      }
      forall a ensures Trusts(out, a) <==> Named(parsers, parts[..i + 1], a) {
        NamedSnoc(parsers, parts[..i], parts[i], a);
        if part != "" {
          TrustsSnoc(before, out[|before|], a);
          MaskedContainsTheSame(Described(parsers, part).value, a);
        }
      }
    }
    assert parts[..|parts|] == parts;
    return Some(out);
  }

  lemma Cidr(parsers: Parsers, part: string)
    requires parsers.prefix(part).Some?
    ensures Described(parsers, part) == parsers.prefix(part)
  {
  }

  lemma BareOrNothing(parsers: Parsers, part: string)
    requires parsers.prefix(part).None?
    ensures Described(parsers, part) ==
            match parsers.addr(part) case None => None case Some(a) => Some(Prefix(a.value, a.width, a.width))
  {
  }

  lemma TrustsSnoc(prefixes: seq<Prefix>, p: Prefix, a: Addr)
    ensures Trusts(prefixes + [p], a) <==> Trusts(prefixes, a) || Contains(p, a)
  {
    hide Contains;
    var all := prefixes + [p];
    assert all[|prefixes|] == p;
    if Trusts(prefixes, a) {
      var i :| 0 <= i < |prefixes| && Contains(prefixes[i], a);
      assert all[i] == prefixes[i];
    }
  }

  lemma NamedSnoc(parsers: Parsers, parts: seq<string>, part: string, a: Addr)
    ensures Named(parsers, parts + [part], a) <==> Named(parsers, parts, a) || Names(parsers, part, a)
  {
    hide Names;
    var all := parts + [part];
    assert all[|parts|] == part;
    if Named(parsers, parts, a) {
      var i :| 0 <= i < |parts| && Names(parsers, parts[i], a);
      assert all[i] == parts[i];
    }
  }

  /* ---- one client, one bucket ---------------------------------------------------- */

  datatype Printer = Printer(host: Addr -> string, network: int -> string)

  const TWO_TO_32: int := 0x1_0000_0000
  const TWO_TO_64: int := 0x1_0000_0000_0000_0000

  /** ::ffff:0:0/96, the IPv4 addresses written as IPv6. */
  predicate Is4In6(a: Addr) {
    a.width == 128 && a.value / TWO_TO_32 == 0xffff
  }

  function Unmap(a: Addr): Addr {
    if Is4In6(a) then Addr(a.value % TWO_TO_32, 32, "") else a
  }

  /** bucketValue: IPv4 by host, IPv6 by /64, nothing readable as "unknown". */
  function BucketValue(printer: Printer, addr: Option<Addr>): string {
    match addr
    case None => "unknown"
    case Some(a) => if a.width == 32 || Is4In6(a) then printer.host(Unmap(a)) else printer.network(a.value / TWO_TO_64)
  }

  /** Printed forms determine what was printed. */
  ghost predicate Faithful(printer: Printer) {
    && (forall a, b :: printer.host(a) == printer.host(b) ==> a == b)
    && (forall m, n :: printer.network(m) == printer.network(n) ==> m == n)
    && (forall a, n :: printer.host(a) != printer.network(n))
    && (forall a :: printer.host(a) != "unknown") && (forall n :: printer.network(n) != "unknown")
  }

  /** Addresses as netip builds them: a zone only on IPv6. */
  predicate WellFormed(a: Addr) {
    (a.width == 32 && a.zone == "") || a.width == 128
  }

  /**
   Two addresses are one client exactly when they are the same IPv4 host, mapped or not, or share
   the first 64 bits of an IPv6 address, whatever their zones.
   */
  lemma SameClient(printer: Printer, a: Addr, b: Addr)
    requires Faithful(printer) && WellFormed(a) && WellFormed(b)
    ensures BucketValue(printer, Some(a)) == BucketValue(printer, Some(b)) <==>
            || (Unmap(a).width == 32 && Unmap(a) == Unmap(b))
            || (Unmap(a).width == 128 == Unmap(b).width && a.value / TWO_TO_64 == b.value / TWO_TO_64)
    ensures BucketValue(printer, Some(a)) != BucketValue(printer, None)
  {
  }
}
