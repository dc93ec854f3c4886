/** Covering a range with CIDR blocks (Range.CIDRs and NewCIDRs, net/address/address.go). */
module Cidrs {
  import opened Bits
  import opened Address

  /** The block of the 2^(32 - prefixLen) addresses from addr on. */
  datatype CIDR = CIDR(addr: nat, prefixLen: nat) {
    /** Number of host bits. */
    function Bits(): int {
      ADDRESS_BITS - prefixLen
    }

    function End(): nat
      requires prefixLen <= ADDRESS_BITS
    {
      addr + Pow2(Bits())
    }
  }

  /** CIDR.IsSubnet: the host bits are all zero. */
  ghost predicate Aligned(c: CIDR) {
    c.prefixLen <= ADDRESS_BITS && Low(c.addr, c.Bits()) == 0
  }

  /** The blocks follow on one another from lo up to hi. */
  ghost predicate Tiles(cidrs: seq<CIDR>, lo: nat, hi: nat) {
    if cidrs == [] then lo == hi
    else cidrs[0].addr == lo && Aligned(cidrs[0]) && cidrs[0].End() <= hi && Tiles(cidrs[1..], cidrs[0].End(), hi)
  }

  /** No bigger block starts where c does and ends by hi. */
  ghost predicate Biggest(c: CIDR, hi: nat) {
    forall d: CIDR :: Aligned(d) && d.addr == c.addr && d.End() <= hi ==> d.prefixLen >= c.prefixLen
  }

  ghost predicate AllBiggest(cidrs: seq<CIDR>, hi: nat) {
    forall i :: 0 <= i < |cidrs| ==> Biggest(cidrs[i], hi)
  }

  // ---------------------------------------------------------------- masks

  const FULL_MASK: nat := Pow2(ADDRESS_BITS) - 1

  function Not(x: nat): nat
    requires x <= FULL_MASK
  {
    FULL_MASK - x
  }

  /** x << 1 in 32 bits. */
  function Shl1(x: nat): nat
    requires x <= FULL_MASK
  {
    if 2 * x <= FULL_MASK then 2 * x else 2 * x - Pow2(ADDRESS_BITS)
  }

  /** The mask that clears the j lowest bits. */
  function MaskOf(j: nat): nat
    requires j <= ADDRESS_BITS
  {
    Pow2Order(j, ADDRESS_BITS);
    Pow2(ADDRESS_BITS) - Pow2(j)
  }

  lemma MaskStep(j: nat)
    requires j < ADDRESS_BITS
    ensures MaskOf(j) > 0 && Shl1(MaskOf(j)) == MaskOf(j + 1)
  {
    Pow2Order(j, ADDRESS_BITS);
    Pow2Order(j + 1, ADDRESS_BITS);
  }

  lemma AndMask(start: nat, j: nat)
    requires start <= FULL_MASK && j <= ADDRESS_BITS
    ensures And(start, MaskOf(j)) == start - Low(start, j)
  {
    AndHigh(start, ADDRESS_BITS, j, MaskOf(j));
  }

  lemma AndHigh(x: nat, n: nat, j: nat, mask: nat)
    requires x < Pow2(n) && j <= n && mask == Pow2(n) - Pow2(j)
    ensures And(x, mask) == x - Low(x, j)
  {
    AndHighOnes(x, n, j);
  }

  lemma OrMask(start: nat, j: nat)
    requires j <= ADDRESS_BITS
    ensures Or(start, Not(MaskOf(j))) == start - Low(start, j) + Pow2(j) - 1
  {
    OrLow(start, j, Not(MaskOf(j)));
  }

  lemma OrLow(x: nat, j: nat, bits: nat)
    requires bits == Pow2(j) - 1
    ensures Or(x, bits) == x - Low(x, j) + Pow2(j) - 1
  {
    OrLowOnes(x, j);
  }

  lemma {:induction false} LowFiner(x: nat, a: nat, b: nat)
    requires a <= b && Low(x, b) == 0
    ensures Low(x, a) == 0
    decreases a
  {
    if a > 0 { LowFiner(x / 2, a - 1, b - 1); }
  }

  /** A block that cannot be doubled is the biggest. */
  lemma NotDoubled(start: nat, j: nat, hi: nat)
    requires j <= ADDRESS_BITS
    requires j < ADDRESS_BITS ==> Low(start, j + 1) != 0 || start + Pow2(j + 1) > hi
    ensures Biggest(CIDR(start, ADDRESS_BITS - j), hi)
  {
    forall d: CIDR | Aligned(d) && d.addr == start && d.End() <= hi ensures d.prefixLen >= ADDRESS_BITS - j {
      if d.Bits() > j {
        LowFiner(start, j + 1, d.Bits());
        Pow2Order(j + 1, d.Bits());
      }
    }
  }

  // ---------------------------------------------------------------- the cover

  lemma {:induction false} TilesAppend(cidrs: seq<CIDR>, lo: nat, mid: nat, c: CIDR)
    requires Tiles(cidrs, lo, mid) && Aligned(c) && c.addr == mid
    ensures Tiles(cidrs + [c], lo, c.End())
  {
    if cidrs == [] {
      assert (cidrs + [c])[1..] == [];
    } else {
      TilesAppend(cidrs[1..], cidrs[0].End(), mid, c);
      assert (cidrs + [c])[1..] == cidrs[1..] + [c];
      TilesUp(cidrs[1..], cidrs[0].End(), mid);
    }
  }

  lemma {:induction false} TilesUp(cidrs: seq<CIDR>, lo: nat, hi: nat)
    requires Tiles(cidrs, lo, hi)
    ensures lo <= hi && (cidrs != [] ==> lo < hi)
  {
    if cidrs != [] { TilesUp(cidrs[1..], cidrs[0].End(), hi); }
  }

  /** The last address of a range, in 32 bits: an end of 0 stands for 2^32. */
  function LastAddress(r: Range): nat
    requires r.end <= FULL_MASK
  {
    if r.end == 0 then FULL_MASK else r.end - 1
  }

  /** Does the block of start under the mask start before start or end after end? */
  method Exceeds(start: nat, mask: nat, end: nat, ghost j: nat) returns (exceeds: bool)
    requires start <= FULL_MASK && j <= ADDRESS_BITS && mask == MaskOf(j)
    ensures exceeds <==> Low(start, j) != 0 || start + Pow2(j) > end + 1
  {
    AndMask(start, j);
    OrMask(start, j);
    exceeds := And(start, mask) != start || Or(start, Not(mask)) > end;
  }

  /** The last address of the block of start under the mask. */
  method LastOfBlock(start: nat, mask: nat, ghost j: nat) returns (last: nat)
    requires j <= ADDRESS_BITS && mask == MaskOf(j) && Low(start, j) == 0
    ensures last == start + Pow2(j) - 1
  {
    OrMask(start, j);
    last := Or(start, Not(mask));
  }

  /** The block at start with this mask and prefix is aligned and ends by end. */
  ghost predicate Suits(start: nat, end: nat, mask: nat, prefixLen: nat) {
    && prefixLen <= ADDRESS_BITS && mask == MaskOf(ADDRESS_BITS - prefixLen)
    && Aligned(CIDR(start, prefixLen)) && CIDR(start, prefixLen).End() <= end + 1
  }

  lemma OneSuits(start: nat, end: nat)
    requires start <= end
    ensures Suits(start, end, FULL_MASK, ADDRESS_BITS)
  {
    assert Pow2(0) == 1;
  }

  /** With no bits left in the mask the block is all there is. */
  lemma AllSuits(start: nat, end: nat, prefixLen: nat)
    requires Suits(start, end, 0, prefixLen)
    ensures Biggest(CIDR(start, prefixLen), end + 1)
  {
    if prefixLen > 0 { MaskStep(ADDRESS_BITS - prefixLen); }
    NotDoubled(start, ADDRESS_BITS - prefixLen, end + 1);
  }

  /** Tries a mask that is one bit shorter. */
  method Widen(start: nat, end: nat, mask: nat, prefixLen: nat) returns (tmpMask: nat, exceeds: bool)
    requires start <= end <= FULL_MASK && Suits(start, end, mask, prefixLen) && mask > 0
    ensures prefixLen > 0
    ensures if exceeds then Biggest(CIDR(start, prefixLen), end + 1) else Suits(start, end, tmpMask, prefixLen - 1)
  {
    ghost var j := ADDRESS_BITS - prefixLen;
    MaskStep(j);
    tmpMask := Shl1(mask);
    exceeds := Exceeds(start, tmpMask, end, j + 1);
    if exceeds {
      NotDoubled(start, j, end + 1);
    }
  }

  /** The biggest block from start on that ends by end. */
  method BiggestFrom(start: nat, end: nat) returns (mask: nat, prefixLen: nat)
    requires start <= end <= FULL_MASK
    ensures Suits(start, end, mask, prefixLen) && Biggest(CIDR(start, prefixLen), end + 1)
  {
    mask, prefixLen := FULL_MASK, ADDRESS_BITS;
    OneSuits(start, end);
    while mask > 0
      invariant Suits(start, end, mask, prefixLen)
      decreases prefixLen
    {
      // Check whether mask neither too short nor too long
      var tmpMask, exceeds := Widen(start, end, mask, prefixLen);
      if exceeds {
        return;
      }
      mask := tmpMask;
      prefixLen := prefixLen - 1;
    }
    AllSuits(start, end, prefixLen);
  }

  /** The next block and its last address. */
  method NextBlock(start: nat, end: nat) returns (c: CIDR, last: nat)
    requires start <= end <= FULL_MASK
    ensures c.addr == start && Aligned(c) && c.End() <= end + 1 && Biggest(c, end + 1)
    ensures start <= last && last + 1 == c.End()
  {
    var mask, prefixLen := BiggestFrom(start, end);
    c := CIDR(start, prefixLen);
    last := LastOfBlock(start, mask, ADDRESS_BITS - prefixLen);
  }

  /** The blocks tile the range from lo up to start, each as big as can be before end. */
  ghost predicate Cut(cidrs: seq<CIDR>, lo: nat, start: nat, end: nat) {
    && lo <= start && (end < lo ==> cidrs == [])
    && (end >= lo ==> start <= end + 1 && Tiles(cidrs, lo, start) && AllBiggest(cidrs, end + 1))
  }

  lemma CutMore(cidrs: seq<CIDR>, lo: nat, start: nat, end: nat, c: CIDR)
    requires Cut(cidrs, lo, start, end) && start <= end && c.addr == start
    requires Aligned(c) && c.End() <= end + 1 && Biggest(c, end + 1)
    ensures Cut(cidrs + [c], lo, c.End(), end)
  {
    TilesAppend(cidrs, lo, start, c);
  }

  /** Range.CIDRs: blocks that tile the range in ascending order, each as big as it can be. */
  method CidrsOf(r: Range) returns (cidrs: seq<CIDR>)
    requires r.start <= FULL_MASK && r.end <= FULL_MASK
    ensures LastAddress(r) < r.start ==> cidrs == []
    ensures LastAddress(r) >= r.start ==>
            Tiles(cidrs, r.start, LastAddress(r) + 1) && AllBiggest(cidrs, LastAddress(r) + 1)
  {
    cidrs := [];
    var start, end := r.start, LastAddress(r);
    while end >= start
      invariant Cut(cidrs, r.start, start, end)
      decreases end as int - start as int
    {
      var c, last := NextBlock(start, end);
      CutMore(cidrs, r.start, start, end, c);
      cidrs := cidrs + [c];
      // Check for overflow
      if last == FULL_MASK {
        return;
      }
      start := last + 1;
    }
  }

  // ---------------------------------------------------------------- the smallest cover

  lemma MultiplesApart(x: nat, y: nat, i: nat)
    requires x < y && Low(x, i) == 0 && Low(y, i) == 0
    ensures x + Pow2(i) <= y
  {
    Split(x, i);
    Split(y, i);
    ProductsApart(Shr(x, i), Shr(y, i), Pow2(i));
  }

  lemma ProductsApart(a: nat, b: nat, p: nat)
    requires p > 0 && a * p < b * p
    ensures a * p + p <= b * p
  {
    Multiple(b - a, p);
    assert (b - a) * p == b * p - a * p;
  }

  lemma NextAligned(lo: nat, i: nat, j: nat)
    requires i <= j && Low(lo, j) == 0
    ensures Low(lo + Pow2(j), i) == 0
    decreases j
  {
    if i > 0 {
      assert (lo + Pow2(j)) % 2 == 0 && (lo + Pow2(j)) / 2 == lo / 2 + Pow2(j - 1);
      NextAligned(lo / 2, i - 1, j - 1);
    }
  }

  /** An aligned block that starts inside another ends inside it, unless it starts at the
      same address and is bigger. */
  lemma BlocksNest(g: CIDR, c: CIDR)
    requires Aligned(g) && Aligned(c) && g.addr <= c.addr < g.End()
    requires c.addr == g.addr ==> c.prefixLen >= g.prefixLen
    ensures c.End() <= g.End()
  {
    var i, j := c.Bits(), g.Bits();
    if i <= j {
      NextAligned(g.addr, i, j);
      MultiplesApart(c.addr, g.End(), i);
    } else {
      LowFiner(c.addr, j, i);
      MultiplesApart(g.addr, c.addr, j);
    }
  }

  /** A tiling can be cut at the end of the biggest first block. */
  lemma {:induction false} CutTiling(cidrs: seq<CIDR>, lo: nat, hi: nat, g: CIDR) returns (n: nat)
    requires Tiles(cidrs, lo, hi) && Aligned(g) && g.addr <= lo <= g.End() <= hi && Biggest(g, hi)
    ensures n <= |cidrs| && Tiles(cidrs[n..], g.End(), hi) && (lo < g.End() ==> n > 0)
  {
    if lo == g.End() {
      n := 0;
    } else {
      TilesUp(cidrs[1..], cidrs[0].End(), hi);
      BlocksNest(g, cidrs[0]);
      n := CutTiling(cidrs[1..], cidrs[0].End(), hi, g);
      n := n + 1;
    }
  }

  /** No tiling by aligned blocks has fewer blocks than one by biggest blocks. */
  lemma {:induction false} FewestBlocks(best: seq<CIDR>, cidrs: seq<CIDR>, lo: nat, hi: nat)
    requires Tiles(best, lo, hi) && AllBiggest(best, hi) && Tiles(cidrs, lo, hi)
    ensures |best| <= |cidrs|
  {
    if best != [] {
      TilesUp(best[1..], best[0].End(), hi);
      TilesUp(best, lo, hi);
      var n := CutTiling(cidrs, lo, hi, best[0]);
      FewestBlocks(best[1..], cidrs[n..], best[0].End(), hi);
    }
  }

  /** There is only one tiling by biggest blocks. */
  lemma {:induction false} BiggestUnique(a: seq<CIDR>, b: seq<CIDR>, lo: nat, hi: nat)
    requires Tiles(a, lo, hi) && AllBiggest(a, hi) && Tiles(b, lo, hi) && AllBiggest(b, hi)
    ensures a == b
  {
    if a == [] {
      if b != [] { TilesUp(b, lo, hi); }
    } else {
      TilesUp(a, lo, hi);
      assert Biggest(a[0], hi) && Biggest(b[0], hi);
      assert a[0] == b[0];
      BiggestUnique(a[1..], b[1..], a[0].End(), hi);
    }
  }
}
