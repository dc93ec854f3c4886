/** Addresses, ranges and CIDR blocks (net/address/address.go). */
module Address {
  import opened Basics
  import opened Bits

  const ADDRESS_BITS: nat := 32

  /** [start, end) */
  datatype Range = Range(start: nat, end: nat) {
    function Size(): int {
      end - start
    }

    predicate Contains(x: nat) {
      start <= x < end
    }

    predicate Overlaps(other: Range) {
      !(start >= other.end || end <= other.start)
    }
  }

  ghost predicate Covers(ranges: seq<Range>, x: nat) {
    exists i :: 0 <= i < |ranges| && ranges[i].Contains(x)
  }

  lemma CoversAppend(ranges: seq<Range>, r: Range, x: nat)
    ensures Covers(ranges + [r], x) <==> Covers(ranges, x) || r.Contains(x)
    ensures Covers([r] + ranges, x) <==> Covers(ranges, x) || r.Contains(x)
  {
    var a, p := ranges + [r], [r] + ranges;
    assert a[|ranges|] == r && p[0] == r;
    if i :| 0 <= i < |ranges| && ranges[i].Contains(x) {
      assert a[i] == ranges[i] && p[i + 1] == ranges[i];
    }
    if i :| 0 <= i < |p| && p[i].Contains(x) {
      assert i > 0 ==> p[i] == ranges[i - 1];
    }
  }

  // ---------------------------------------------------------------- msb

  /** v has k + 1 bits, of which the s highest are set. */
  ghost predicate TopOnes(v: nat, k: nat, s: nat) {
    Pow2(k) <= v < Pow2(k + 1) && s <= k + 1 && Shr(v, k + 1 - s) == Pow2(s) - 1
  }

  /** With s ones on top, or-ing v shifted by s doubles their number. */
  lemma SmearTop(x: nat, s: nat, t: nat)
    requires t <= s && x < Pow2(s + t) && Shr(x, t) == Pow2(s) - 1
    ensures Or(x, Shr(x, s)) == Pow2(s + t) - 1
  {
    assert Shr(x, s) == Pow2(t) - 1 by {
      ShrShr(x, t, s - t);
      ShrOnes(t, s - t);
    }
    assert x - Low(x, t) == Pow2(s + t) - Pow2(t) by {
      Split(x, t);
      Pow2Add(s, t);
      OneLessTimes(Pow2(s), Pow2(t));
    }
    OrLowOnes(x, t);
  }

  lemma OneLessTimes(a: nat, b: nat)
    ensures (a - 1) * b == a * b - b
  {
  }

  lemma SmearMore(v: nat, k: nat, c: nat, s: nat)
    requires 0 < c <= k && TopOnes(v, k, c) && c <= s <= 2 * c && s <= k + 1
    ensures TopOnes(Or(v, Shr(v, c)), k, s)
  {
    ShrLess(v, c);
    OrBounds(v, Shr(v, c), k + 1);
    SmearShifted(v, c, k + 1 - s, s - c);
  }

  /** With all bits set there is nothing left to set. */
  lemma SmearAll(v: nat, k: nat, c: nat)
    requires TopOnes(v, k, k + 1)
    ensures TopOnes(Or(v, Shr(v, c)), k, k + 1)
  {
    ShrLess(v, c);
    OrBounds(v, Shr(v, c), k + 1);
  }

  lemma Smear(v: nat, k: nat, c: nat)
    requires c > 0 && TopOnes(v, k, Min(c, k + 1))
    ensures TopOnes(Or(v, Shr(v, c)), k, Min(2 * c, k + 1))
  {
    if c <= k {
      SmearMore(v, k, c, Min(2 * c, k + 1));
    } else {
      SmearAll(v, k, c);
    }
  }

  /** The same, seen after shifting out the j lowest bits. */
  lemma SmearShifted(v: nat, c: nat, j: nat, t: nat)
    requires t <= c && v < Pow2(c + t + j) && Shr(v, j + t) == Pow2(c) - 1
    ensures Shr(Or(v, Shr(v, c)), j) == Pow2(c + t) - 1
  {
    var x := Shr(v, j);
    assert x < Pow2(c + t) by { ShrBounds(v, c + t, j); }
    assert Shr(x, t) == Pow2(c) - 1 by { ShrShr(v, j, t); }
    assert Shr(Or(v, Shr(v, c)), j) == Or(x, Shr(x, c)) by {
      OrShr(v, Shr(v, c), j);
      ShrShr(v, c, j);
      ShrShr(v, j, c);
    }
    SmearTop(x, c, t);
  }

  /** v |= v >> c */
  method SmearBy(v: nat, c: nat, ghost k: nat) returns (w: nat)
    requires c > 0 && (v > 0 ==> TopOnes(v, k, Min(c, k + 1)))
    ensures v == 0 ==> w == 0
    ensures v > 0 ==> w > 0 && TopOnes(w, k, Min(2 * c, k + 1))
  {
    w := Or(v, Shr(v, c));
    ShrLess(v, c);
    OrZero(v);
    if v > 0 { Smear(v, k, c); }
  }

  /** The highest bit set in v. */
  method Msb(v: nat) returns (m: nat)
    requires v < Pow2(ADDRESS_BITS)
    ensures v == 0 ==> m == 0
    ensures v > 0 ==> IsPow2(m) && m <= v < 2 * m
  {
    ghost var k := 0;
    if v > 0 { k := TopBitInRange(v); }
    var w := SmearBy(v, 1, k);
    w := SmearBy(w, 2, k);
    w := SmearBy(w, 4, k);
    w := SmearBy(w, 8, k);
    w := SmearBy(w, 16, k);
    if v > 0 { AllOnes(w, k); }
    m := (w + 1) / 2;
  }

  lemma TopBitInRange(v: nat) returns (k: nat)
    requires 0 < v < Pow2(ADDRESS_BITS)
    ensures k < ADDRESS_BITS && Pow2(k) <= v < Pow2(k + 1) && TopOnes(v, k, 1)
  {
    k := TopBit(v);
    Pow2Order(k, ADDRESS_BITS);
    ShrTopBit(v, k);
  }

  /** All k + 1 bits of w are set. */
  lemma AllOnes(w: nat, k: nat)
    requires TopOnes(w, k, k + 1)
    ensures (w + 1) / 2 == Pow2(k) && IsPow2(Pow2(k))
  {
    PowerIsPow2(k);
  }

  // ---------------------------------------------------------------- aligned blocks

  /** A CIDR block: a power-of-two number of addresses, aligned to its size. */
  ghost predicate Block(r: Range) {
    r.start < r.end && IsPow2(r.Size()) && r.start % r.Size() == 0
  }

  predicate Inside(c: Range, r: Range) {
    r.start <= c.start && c.end <= r.end
  }

  lemma MultipleIsAligned(q: nat, d: nat)
    requires d > 0
    ensures (q * d) % d == 0
  {
    Quotient(q * d, d, q, 0);
  }

  /** Rounding start up to the next multiple of m, and to the next odd multiple of m / 2. */
  lemma RoundUp(start: nat, m: nat)
    requires m > 0
    ensures (start - start % m + m) % m == 0
    ensures m % 2 == 0 ==> (start - start % m + m / 2) % (m / 2) == 0 && (start - start % m + m) % (m / 2) == 0
  {
    var q := start / m;
    assert start - start % m == q * m;
    assert q * m + m == (q + 1) * m;
    MultipleIsAligned(q + 1, m);
    if m % 2 == 0 {
      var h := m / 2;
      assert q * m == (2 * q) * h by { assert m == 2 * h; }
      assert (2 * q) * h + h == (2 * q + 1) * h && (2 * q) * h + m == (2 * q + 2) * h;
      MultipleIsAligned(2 * q + 1, h);
      MultipleIsAligned(2 * q + 2, h);
    }
  }

  /** The first multiple of m at or after start. */
  lemma NextMultiple(start: nat, u: nat, m: nat)
    requires m > 0 && u >= start && u % m == 0 && start % m > 0
    ensures u >= start - start % m + m
  {
    var q, p := start / m, u / m;
    assert start == q * m + start % m && u == p * m;
    assert (p - q) * m == p * m - q * m;
    Multiple(p - q - 1, m);
    assert (p - q - 1) * m == (p - q) * m - m;
  }

  lemma DivMod(v: nat, m: nat) returns (q: nat, r: nat)
    requires m > 0
    ensures v == q * m + r && r < m && r == v % m
  {
    q, r := v / m, v % m;
  }

  lemma HalfRemainder(v: nat, m: nat, h: nat, q: nat, r: nat)
    requires m == 2 * h && v == q * m + r && r < m
    ensures v % h == if r < h then r else r - h
  {
    TwiceTimes(q, m, h);
    HalfQuotient(v, h, q, r);
  }

  lemma TwiceTimes(q: nat, m: nat, h: nat)
    requires m == 2 * h
    ensures q * m == (2 * q) * h
  {
  }

  lemma HalfQuotient(v: nat, h: nat, q: nat, r: nat)
    requires v == (2 * q) * h + r && r < 2 * h
    ensures v % h == if r < h then r else r - h
  {
    if r < h {
      Quotient(v, h, 2 * q, r);
    } else {
      assert (2 * q + 1) * h == (2 * q) * h + h;
      Quotient(v, h, 2 * q + 1, r - h);
    }
  }

  lemma MaskIsRemainder(x: nat, m: nat)
    requires IsPow2(m)
    ensures And(x, m - 1) == x % m
  {
    var k: nat :| m == Pow2(k);
    AndLowOnes(x, k);
    ShiftIsDivision(x, k);
  }

  /** The block chosen for a range of which m is the highest bit of the size; maskedSize
      and maskedStart are the remainders of size and start by m. */
  function PickBlock(start: nat, m: nat, maskedSize: nat, maskedStart: nat): Range
    requires maskedStart < m
  {
    if maskedStart == 0 then Range(start, start + m)
    else if m - maskedStart <= maskedSize then Range(start + (m - maskedStart), start + (m - maskedStart) + m)
    else
      var half := m / 2;
      if half >= maskedStart then Range(start + (half - maskedStart), start + (half - maskedStart) + half)
      else Range(start + (m - maskedStart), start + (m - maskedStart) + half)
  }

  lemma PickedBlock(r: Range, m: nat)
    requires r.start < r.end && IsPow2(m) && m <= r.Size() < 2 * m
    ensures var c := PickBlock(r.start, m, r.Size() - m, r.start % m);
            Block(c) && Inside(c, r) && (c.Size() == m || 2 * c.Size() == m)
  {
    var ms := r.start % m;
    if ms > 0 {
      RoundUp(r.start, m);
      PowerIsPow2(0);
      assert Pow2(0) == 1;
      if m > 1 { HalfPow2(1, m); }
    }
  }

  lemma PickedBlockIsBiggest(r: Range, m: nat, u: Range)
    requires r.start < r.end && IsPow2(m) && m <= r.Size() < 2 * m
    requires Block(u) && Inside(u, r)
    ensures u.Size() <= PickBlock(r.start, m, r.Size() - m, r.start % m).Size()
  {
    var s := u.Size();
    if m < s {
      HalfPow2(m, s);
    } else if s == m {
      if r.start % m > 0 { NextMultiple(r.start, u.start, m); }
    } else {
      HalfPow2(s, m);
    }
  }

  /** An aligned block of more than a quarter of the range, and none in it is bigger. */
  ghost predicate BiggestIn(c: Range, r: Range) {
    && Block(c) && Inside(c, r) && r.Size() < 4 * c.Size()
    && forall u :: Block(u) && Inside(u, r) ==> u.Size() < c.Size() || (u.Size() == c.Size() && c.start <= u.start)
  }

  lemma PickedSuits(r: Range, m: nat)
    requires r.start < r.end && IsPow2(m) && m <= r.Size() < 2 * m
    ensures BiggestIn(PickBlock(r.start, m, r.Size() - m, r.start % m), r)
  {
    PickedBlock(r, m);
    var c := PickBlock(r.start, m, r.Size() - m, r.start % m);
    forall u | Block(u) && Inside(u, r)
      ensures u.Size() < c.Size() || (u.Size() == c.Size() && c.start <= u.start) {
      PickedBlockIsBiggest(r, m, u);
      if u.Size() == c.Size() { PickedIsLowest(r, m, u); }
    }
  }

  /** Of the blocks of its size, it is the lowest in the range. */
  lemma PickedIsLowest(r: Range, m: nat, u: Range)
    requires r.start < r.end && IsPow2(m) && m <= r.Size() < 2 * m
    requires Block(u) && Inside(u, r) && u.Size() == PickBlock(r.start, m, r.Size() - m, r.start % m).Size()
    ensures PickBlock(r.start, m, r.Size() - m, r.start % m).start <= u.start
  {
    var ms := r.start % m;
    if ms > 0 {
      if u.Size() == m {
        NextMultiple(r.start, u.start, m);
      } else {
        HalfPow2(u.Size(), m);
        var q, rest := DivMod(r.start, m);
        HalfRemainder(r.start, m, u.Size(), q, rest);
        LowestHalf(r.start, u.start, u.Size(), rest);
      }
    }
  }

  /** The first multiple of h from start on. */
  lemma LowestHalf(start: nat, u: nat, h: nat, rest: nat)
    requires h > 0 && u >= start && u % h == 0 && rest < 2 * h && start % h == if rest < h then rest else rest - h
    ensures u >= start + if rest == 0 then 0 else if rest <= h then h - rest else 2 * h - rest
  {
    if start % h > 0 { NextMultiple(start, u, h); }
  }

  /** The biggest block inside the range; it is more than a quarter of it. */
  method BiggestInside(r: Range) returns (c: Range)
    requires r.start < r.end < Pow2(ADDRESS_BITS)
    ensures BiggestIn(c, r)
  {
    var size: nat := r.Size();
    var sizeMsb := Msb(size);
    var maskedSize, maskedStart := Masked(size, r.start, sizeMsb);
    c := PickBlock(r.start, sizeMsb, maskedSize, maskedStart);
    PickedSuits(r, sizeMsb);
  }

  method Masked(size: nat, start: nat, m: nat) returns (maskedSize: nat, maskedStart: nat)
    requires IsPow2(m) && m <= size < 2 * m
    ensures maskedSize == size - m && maskedStart == start % m
  {
    MaskIsRemainder(size, m);
    MaskIsRemainder(start, m);
    Quotient(size, m, 1, size - m);
    maskedSize := And(size, m - 1);
    maskedStart := And(start, m - 1);
  }

  /** Nothing is taken from an empty range. */
  method BiggestCIDRRange(r: Range) returns (c: Range)
    requires r.start <= r.end < Pow2(ADDRESS_BITS)
    ensures r.start == r.end ==> c.start == c.end == 0
    ensures r.start < r.end ==> Block(c) && Inside(c, r) && r.Size() < 4 * c.Size()
    ensures r.start < r.end ==> forall u :: Block(u) && Inside(u, r) ==>
              u.Size() < c.Size() || (u.Size() == c.Size() && c.start <= u.start)
  {
    if r.start == r.end {
      c := Range(0, 0);
    } else {
      c := BiggestInside(r);
    }
  }
}
