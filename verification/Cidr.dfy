/** IP addresses and prefixes as `net/netip` treats them: an address is a family and a number below
    2^32 or 2^128, and a prefix names a block of addresses (section 3.1 of RFC 4632, section 2.3 of RFC 4291).
    The tests the client runs on bit lengths are proved against the sets of addresses they stand for. */
module Cidr {

  function Pow2(n: nat): (r: nat)
    ensures r > 0
  {
    if n == 0 then 1 else 2 * Pow2(n - 1)
  }

  datatype Family = V4 | V6

  function Width(f: Family): nat {
    match f case V4 => 32 case V6 => 128
  }

  datatype RawAddr = Addr(family: Family, num: nat)

  type Addr = a: RawAddr | a.num < Pow2(Width(a.family)) witness Addr(V4, 0)

  datatype RawPrefix = Prefix(addr: Addr, bits: nat)

  type Prefix = p: RawPrefix | p.bits <= Width(p.addr.family) witness Prefix(Addr(V4, 0), 0)

  /** The number of addresses of a prefix of `bits` bits. */
  function Size(f: Family, bits: nat): nat
    requires bits <= Width(f)
  {
    Pow2(Width(f) - bits)
  }

  /** `x` with its last bits cleared, those below `d`. */
  function RoundDown(x: nat, d: nat): (r: nat)
    requires d > 0
    ensures r <= x
  {
    ModBound(x, d);
    x - x % d
  }

  /** The address with all but its first `bits` bits cleared. */
  function Mask(a: Addr, bits: nat): Addr
    requires bits <= Width(a.family)
  {
    Addr(a.family, RoundDown(a.num, Size(a.family, bits)))
  }

  function Masked(p: Prefix): Prefix {
    Prefix(Mask(p.addr, p.bits), p.bits)
  }

  predicate IsHost(p: Prefix) {
    p.bits == Width(p.addr.family)
  }

  /** `Prefix.Contains`: same family, and the first `bits` bits agree. */
  predicate Contains(p: Prefix, a: Addr) {
    && p.addr.family == a.family
    && p.addr.num / Size(a.family, p.bits) == a.num / Size(a.family, p.bits)
  }

  /** `Prefix.Overlaps`: masks both addresses to the shorter length. */
  predicate Overlaps(p: Prefix, o: Prefix) {
    if p == o then true
    else if p.addr.family != o.addr.family then false
    else
      var bits := if p.bits < o.bits then p.bits else o.bits;
      if bits == 0 then true else Mask(p.addr, bits) == Mask(o.addr, bits)
  }

  // Kinds of address, as `netip.Addr` tells them apart.

  predicate Is4In6(a: Addr) {
    a.family == V6 && a.num / Pow2(32) == 0xffff
  }

  predicate IsUnspecified(a: Addr) {
    a.num == 0
  }

  predicate IsLoopback(a: Addr) {
    match a.family case V4 => a.num / Pow2(24) == 127 case V6 => a.num == 1
  }

  predicate IsMulticast(a: Addr) {
    match a.family case V4 => a.num / Pow2(28) == 0xe case V6 => a.num / Pow2(120) == 0xff
  }

  predicate IsLinkLocalUnicast(a: Addr) {
    match a.family case V4 => a.num / Pow2(16) == 0xa9fe case V6 => a.num / Pow2(118) == 0x3fa
  }

  // ----- arithmetic -----

  lemma {:induction false} Pow2Add(m: nat, n: nat)
    ensures Pow2(m + n) == Pow2(m) * Pow2(n)
  {
    if m != 0 {
      Pow2Add(m - 1, n);
      assert Pow2(m + n) == 2 * (Pow2(m - 1) * Pow2(n));
    }
  }

  lemma MulLe(a: int, b: int, d: int)
    requires a <= b && d >= 0
    ensures a * d <= b * d
  {
  }

  lemma MulSucc(a: int, d: int)
    ensures (a + 1) * d == a * d + d
  {
  }

  lemma MulAssoc(a: int, b: int, c: int)
    ensures a * (b * c) == (a * c) * b
  {
  }

  lemma ModBound(x: nat, d: nat)
    requires d > 0
    ensures x % d <= x
  {
    if x < d {
      QuotientUnique(x, d, 0, x);
    }
  }

  /** Rounding down is multiplying the quotient back. */
  lemma RoundDownIsQuotient(x: nat, d: nat)
    requires d > 0
    ensures RoundDown(x, d) == x / d * d
    ensures RoundDown(x, d) / d == x / d
  {
    DivBounds(x, d);
    assert x == x / d * d + x % d;
    QuotientUnique(x / d * d, d, x / d, 0);
  }

  lemma DivBounds(x: int, d: int)
    requires d > 0
    ensures x / d * d <= x < x / d * d + d
  {
  }

  lemma QuotientUnique(x: int, d: int, q: int, r: int)
    requires d > 0 && x == q * d + r && 0 <= r < d
    ensures x / d == q && x % d == r
  {
    var q' := x / d;
    DivBounds(x, d);
    if q > q' {
      MulLe(q' + 1, q, d);
      MulSucc(q', d);
    } else if q < q' {
      MulLe(q + 1, q', d);
      MulSucc(q, d);
    }
  }

  lemma MulPositive(a: nat, b: nat)
    requires a > 0 && b > 0
    ensures a * b > 0
  {
  }

  lemma Regroup(y: int, q: int, a: int, b: int, s: int)
    requires y == q * b + s
    ensures y * a == q * (a * b) + s * a
  {
    calc {
      y * a;
      (q * b + s) * a;
      (q * b) * a + s * a;
      q * (b * a) + s * a;
      q * (a * b) + s * a;
    }
  }

  lemma DivDiv(x: nat, a: nat, b: nat)
    requires a > 0 && b > 0
    ensures a * b > 0 && x / (a * b) == x / a / b
  {
    var y := x / a;
    var q := y / b;
    var r, s := x - y * a, y - q * b;
    DivBounds(x, a);
    DivBounds(y, b);
    MulPositive(a, b);
    Regroup(y, q, a, b, s);
    MulLe(0, s, a);
    MulLe(s + 1, b, a);
    MulSucc(s, a);
    assert b * a == a * b;
    QuotientUnique(x, a * b, q, s * a + r);
  }

  /** Addresses that agree on the first `long` bits agree on the first `short` bits. */
  lemma ShorterQuotient(f: Family, x: nat, y: nat, short: nat, long: nat)
    requires short <= long <= Width(f)
    requires x / Size(f, long) == y / Size(f, long)
    ensures x / Size(f, short) == y / Size(f, short)
  {
    Pow2Add(Width(f) - long, long - short);
    DivDiv(x, Size(f, long), Pow2(long - short));
    DivDiv(y, Size(f, long), Pow2(long - short));
  }

  lemma MaskIsQuotient(a: Addr, b: Addr, bits: nat)
    requires a.family == b.family && bits <= Width(a.family)
    ensures Mask(a, bits) == Mask(b, bits) <==> a.num / Size(a.family, bits) == b.num / Size(b.family, bits)
  {
    hide RoundDown, Pow2;
    RoundDownIsQuotient(a.num, Size(a.family, bits));
    RoundDownIsQuotient(b.num, Size(b.family, bits));
  }

  lemma WholeFamily(a: Addr)
    ensures a.num / Size(a.family, 0) == 0
  {
    QuotientUnique(a.num, Size(a.family, 0), 0, a.num);
  }

  // ----- blocks of addresses -----

  lemma ContainsOwnAddress(p: Prefix)
    ensures Contains(p, p.addr)
  {
  }

  /** A prefix holds the addresses of its family from the masked one on, as many as its length leaves. */
  lemma ContainsIff(p: Prefix, a: Addr)
    ensures Contains(p, a) <==>
            && a.family == p.addr.family
            && Masked(p).addr.num <= a.num < Masked(p).addr.num + Size(a.family, p.bits)
  {
    hide Pow2;
    if a.family == p.addr.family {
      var d := Size(a.family, p.bits);
      var first := Masked(p).addr.num;
      RoundDownIsQuotient(p.addr.num, d);
      DivBounds(a.num, d);
      if first <= a.num < first + d {
        QuotientUnique(a.num, d, p.addr.num / d, a.num - first);
      }
    }
  }

  /** The overlap test says exactly that the two blocks share an address. */
  lemma OverlapsIffShared(p: Prefix, o: Prefix)
    ensures Overlaps(p, o) <==> exists a: Addr :: Contains(p, a) && Contains(o, a)
  {
    if p.bits <= o.bits {
      OverlapsShorter(p, o);
    } else {
      OverlapsShorter(o, p);
      assert Overlaps(p, o) == Overlaps(o, p);
    }
  }

  /** Blocks are nested or disjoint: whoever overlaps a shorter prefix lies inside it. */
  lemma OverlapsShorter(p: Prefix, o: Prefix)
    requires p.bits <= o.bits
    ensures Overlaps(p, o) <==> exists a: Addr :: Contains(p, a) && Contains(o, a)
    ensures Overlaps(p, o) ==> forall a: Addr | Contains(o, a) :: Contains(p, a)
  {
    if p.addr.family == o.addr.family {
      MaskIsQuotient(p.addr, o.addr, p.bits);
      WholeFamily(p.addr);
      WholeFamily(o.addr);
      assert Overlaps(p, o) <==> Contains(p, o.addr);
    }
    if Overlaps(p, o) {
      assert Contains(p, o.addr) && Contains(o, o.addr);
      forall a: Addr | Contains(o, a)
        ensures Contains(p, a)
      {
        ShorterQuotient(a.family, o.addr.num, a.num, p.bits, o.bits);
      }
    }
    if a: Addr :| Contains(p, a) && Contains(o, a) {
      ShorterQuotient(a.family, o.addr.num, a.num, p.bits, o.bits);
    }
  }

  lemma HostIsItself(p: Prefix, a: Addr)
    requires IsHost(p)
    ensures Contains(p, a) <==> a == p.addr
  {
    assert Size(p.addr.family, p.bits) == 1;
  }

  /** A block given by its first address, counted in units of 2^`shift`. */
  function Block(f: Family, units: nat, shift: nat, bits: nat): Prefix
    requires shift <= Width(f) && units < Pow2(Width(f) - shift) && bits <= Width(f)
  {
    UnitsFit(f, units, shift);
    Prefix(Addr(f, units * Pow2(shift)), bits)
  }

  lemma UnitsFit(f: Family, units: nat, shift: nat)
    requires shift <= Width(f) && units < Pow2(Width(f) - shift)
    ensures units * Pow2(shift) < Pow2(Width(f))
  {
    Pow2Add(Width(f) - shift, shift);
    MulLe(units + 1, Pow2(Width(f) - shift), Pow2(shift));
    MulSucc(units, Pow2(shift));
  }

  /** A block whose length matches its unit holds the addresses with those leading bits. */
  lemma BlockContains(f: Family, units: nat, shift: nat, a: Addr)
    requires shift <= Width(f) && units < Pow2(Width(f) - shift)
    ensures Contains(Block(f, units, shift, Width(f) - shift), a) <==> a.family == f && a.num / Pow2(shift) == units
  {
    hide Pow2;
    QuotientUnique(units * Pow2(shift), Pow2(shift), units, 0);
  }

  /** A block shorter than its unit. */
  lemma ShortBlockContains(f: Family, units: nat, shift: nat, bits: nat, q: nat, a: Addr)
    requires bits <= Width(f) && shift <= Width(f) - bits && units < Pow2(Width(f) - shift)
    requires units == q * Pow2(Width(f) - bits - shift)
    ensures Contains(Block(f, units, shift, bits), a) <==> a.family == f && a.num / Pow2(Width(f) - bits) == q
  {
    hide Pow2;
    var big := Pow2(Width(f) - bits);
    Pow2Add(Width(f) - bits - shift, shift);
    Regroup(units, q, Pow2(shift), Pow2(Width(f) - bits - shift), 0);
    assert units * Pow2(shift) == q * big;
    QuotientUnique(units * Pow2(shift), big, q, 0);
  }

  lemma Pow2Values()
    ensures Pow2(4) == 16 && Pow2(8) == 256 && Pow2(16) == 65536
    ensures Pow2(32) > 1
  {
    assert Pow2(4) == 16;
    Pow2Add(4, 4);
    Pow2Add(8, 8);
    Pow2Add(16, 16);
  }

  /** The search step of an access-control check: family, bit length, first address. */
  predicate Covers(route: Prefix, dest: Prefix) {
    && route.addr.family == dest.addr.family
    && route.bits <= dest.bits
    && Contains(route, dest.addr)
  }

  /** A block that starts inside the family ends inside it. */
  lemma WithinFamily(f: Family, bits: nat, q: nat, offset: nat)
    requires bits <= Width(f)
    requires q * Size(f, bits) < Pow2(Width(f)) && offset < Size(f, bits)
    ensures q * Size(f, bits) + offset < Pow2(Width(f))
  {
    var size, blocks := Size(f, bits), Pow2(bits);
    Pow2Add(bits, Width(f) - bits);
    if q >= blocks {
      MulLe(blocks, q, size);
    } else {
      MulLe(q + 1, blocks, size);
      MulSucc(q, size);
    }
  }

  /** One step of a shorter block lands in the next block of the longer length, still inside. */
  lemma NextSmallBlock(start: nat, small: nat, more: nat)
    requires small > 0 && more >= 2 && small * more > 0 && start % (small * more) == 0
    ensures small < small * more
    ensures (start + small) / (small * more) == start / (small * more)
    ensures (start + small) / small == start / small + 1
  {
    var q := start / (small * more);
    MulLe(2, more, small);
    assert more * small == small * more;
    assert start == q * (small * more);
    QuotientUnique(start + small, small * more, q, small);
    MulAssoc(q, small, more);
    MulSucc(q * more, small);
    QuotientUnique(start, small, q * more, 0);
    QuotientUnique(start + small, small, q * more + 1, 0);
  }

  lemma Pow2AtLeastTwo(n: nat)
    requires n > 0
    ensures Pow2(n) >= 2
  {
  }

  lemma Aligned(p: Prefix)
    requires p == Masked(p)
    ensures var d := Size(p.addr.family, p.bits);
            p.addr.num % d == 0 && p.addr.num == p.addr.num / d * d
  {
    RoundDownIsQuotient(p.addr.num, Size(p.addr.family, p.bits));
  }

  /** Two addresses of one block that no longer prefix can hold together. */
  lemma SplitBlock(dest: Prefix, bits: nat) returns (a: Addr)
    requires dest == Masked(dest) && dest.bits < bits <= Width(dest.addr.family)
    ensures Contains(dest, a) && a.family == dest.addr.family
    ensures a.num / Size(a.family, bits) != dest.addr.num / Size(a.family, bits)
  {
    var f, start := dest.addr.family, dest.addr.num;
    var small, more := Size(f, bits), Pow2(bits - dest.bits);
    Pow2Add(Width(f) - bits, bits - dest.bits);
    Pow2AtLeastTwo(bits - dest.bits);
    Aligned(dest);
    NextSmallBlock(start, small, more);
    var big := Size(f, dest.bits);
    WithinFamily(f, dest.bits, start / big, small);
    a := Addr(f, start + small);
  }

  /** The coverage test is exact: for a canonical destination it says that every address of the
      destination lies in the route. */
  lemma CoversIffSubset(route: Prefix, dest: Prefix)
    requires dest == Masked(dest)
    ensures Covers(route, dest) <==> forall a: Addr | Contains(dest, a) :: Contains(route, a)
  {
    if Covers(route, dest) {
      forall a: Addr | Contains(dest, a)
        ensures Contains(route, a)
      {
        ShorterQuotient(a.family, dest.addr.num, a.num, route.bits, dest.bits);
      }
    } else if Contains(route, dest.addr) {
      var a := SplitBlock(dest, route.bits);
      assert Contains(dest, a) && !Contains(route, a);
    } else {
      assert Contains(dest, dest.addr) && !Contains(route, dest.addr);
    }
  }
}
