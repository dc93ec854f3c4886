/** A peer's own addresses, in use or free (ipam/space/space.go). */
module Space {
  import opened Basics
  import opened Bits
  import opened Address
  import opened Boundaries

  // ---------------------------------------------------------------- walking the free list

  /** The parts of the free ranges that lie in r: what walkFree passes to its callback. */
  function Chunks(free: seq<nat>, r: Range): seq<Range> {
    if r.start >= r.end || |free| < 2 then []
    else if free[1] <= r.start then Chunks(free[2..], r)
    else if free[0] >= r.end then []
    else [Range(Max(free[0], r.start), Min(free[1], r.end))] + Chunks(free[2..], r)
  }

  method WalkFree(free: seq<nat>, r: Range) returns (chunks: seq<Range>)
    requires |free| % 2 == 0
    ensures chunks == Chunks(free, r)
  {
    chunks := [];
    if r.start >= r.end {
      return;
    }
    var i := 0;
    while i < |free|
      invariant 0 <= i <= |free| && i % 2 == 0
      invariant Chunks(free, r) == chunks + Chunks(free[i..], r)
    {
      assert free[i..][2..] == free[i + 2..];
      var chunk := Range(free[i], free[i + 1]);
      if chunk.end <= r.start {
        i := i + 2;
        continue;
      }
      if chunk.start >= r.end {
        break;
      }
      chunks := chunks + [Range(Max(chunk.start, r.start), Min(chunk.end, r.end))];
      i := i + 2;
    }
  }

  /** Non-empty parts of r, in ascending order, with gaps between them. */
  ghost predicate Separate(chunks: seq<Range>, r: Range) {
    && (forall i :: 0 <= i < |chunks| ==> chunks[i].start < chunks[i].end && Inside(chunks[i], r))
    && (forall i, j :: 0 <= i < j < |chunks| ==> chunks[i].end < chunks[j].start)
  }

  /** The chunks are exactly the free addresses in r. */
  lemma {:induction false} ChunksAreFree(free: seq<nat>, r: Range, x: nat)
    requires WellFormed(free)
    ensures Covers(Chunks(free, r), x) <==> Contains(free, x) && r.Contains(x)
  {
    if free == [] || r.start >= r.end {
    } else {
      TailMembers(free, x);
      ChunksAreFree(free[2..], r, x);
      if free[1] > r.start && free[0] < r.end {
        CoversAppend(Chunks(free[2..], r), Range(Max(free[0], r.start), Min(free[1], r.end)), x);
      }
      assert free[0] < free[1];
    }
  }

  lemma {:induction false} ChunksAreSeparate(free: seq<nat>, r: Range)
    requires WellFormed(free)
    ensures Separate(Chunks(free, r), r)
    ensures forall i :: 0 <= i < |Chunks(free, r)| ==> free != [] && Chunks(free, r)[i].start >= free[0]
  {
    if free == [] || r.start >= r.end {
    } else {
      TailMembers(free, 0);
      ChunksAreSeparate(free[2..], r);
      assert free[0] < free[1];
      assert |free| > 2 ==> free[1] < free[2..][0];
    }
  }

  /** A run of free addresses lies in one chunk. */
  lemma RunInOneChunk(free: seq<nat>, r: Range, u: Range) returns (i: nat)
    requires WellFormed(free) && u.start < u.end && Inside(u, r)
    requires forall x :: u.Contains(x) ==> Contains(free, x)
    ensures i < |Chunks(free, r)| && Inside(u, Chunks(free, r)[i])
  {
    var chunks := Chunks(free, r);
    ChunksAreSeparate(free, r);
    ChunksAreFree(free, r, u.start);
    assert u.Contains(u.start);
    i :| 0 <= i < |chunks| && chunks[i].Contains(u.start);
    var x := chunks[i].end;
    if x < u.end {
      assert u.Contains(x);
      ChunksAreFree(free, r, x);
      EndNotCovered(chunks, r, i);
    }
  }

  lemma EndNotCovered(chunks: seq<Range>, r: Range, i: nat)
    requires Separate(chunks, r) && i < |chunks|
    ensures !Covers(chunks, chunks[i].end)
  {
  }

  // ---------------------------------------------------------------- counting

  function SumSizes(chunks: seq<Range>): int {
    if chunks == [] then 0 else chunks[0].Size() + SumSizes(chunks[1..])
  }

  ghost function FreeIn(free: seq<nat>, r: Range): set<nat> {
    set x | r.start <= x < r.end && Contains(free, x)
  }

  ghost function Interval(lo: nat, hi: nat): set<nat> {
    if hi <= lo then {} else Interval(lo, hi - 1) + {hi - 1}
  }

  lemma {:induction false} IntervalSize(lo: nat, hi: nat)
    requires lo <= hi
    ensures |Interval(lo, hi)| == hi - lo
    ensures forall x :: x in Interval(lo, hi) <==> lo <= x < hi
  {
    if lo < hi { IntervalSize(lo, hi - 1); }
  }

  /** No free address of the first range lies in r. */
  lemma SkipFirst(free: seq<nat>, r: Range)
    requires WellFormed(free) && |free| >= 2 && free[1] <= r.start
    ensures FreeIn(free, r) == FreeIn(free[2..], r)
  {
    forall x | x in Interval(r.start, r.end) ensures x in FreeIn(free, r) <==> x in FreeIn(free[2..], r) {
      if r.start <= r.end { IntervalSize(r.start, r.end); }
      TailMembers(free, x);
    }
    if r.start <= r.end { IntervalSize(r.start, r.end); }
  }

  lemma NoneBefore(free: seq<nat>, r: Range)
    requires WellFormed(free) && |free| >= 2 && free[0] >= r.end
    ensures FreeIn(free, r) == {}
  {
    forall x: nat | x < free[0] ensures !Contains(free, x) {
      TailMembers(free, x);
    }
  }

  lemma FirstCounts(free: seq<nat>, r: Range, c: Range)
    requires WellFormed(free) && |free| >= 2 && r.start < free[1] && free[0] < r.end && r.start < r.end
    requires c.start == Max(free[0], r.start) && c.end == Min(free[1], r.end) && c.start <= c.end
    ensures |FreeIn(free, r)| == c.Size() + |FreeIn(free[2..], r)|
  {
    var own, rest := Interval(c.start, c.end), FreeIn(free[2..], r);
    IntervalSize(c.start, c.end);
    forall x: nat ensures x in FreeIn(free, r) <==> x in own + rest {
      TailMembers(free, x);
    }
    assert own !! rest by {
      forall x | x in own ensures x !in rest {
        TailMembers(free, x);
      }
    }
    assert FreeIn(free, r) == own + rest;
  }

  /** The sizes of the chunks add up to the number of free addresses. */
  lemma {:induction false} SizesCount(free: seq<nat>, r: Range)
    requires WellFormed(free)
    ensures SumSizes(Chunks(free, r)) == |FreeIn(free, r)|
  {
    if free == [] || r.start >= r.end {
      assert FreeIn(free, r) == {};
    } else {
      assert WellFormed(free[2..]) && free[0] < free[1] by { TailMembers(free, 0); }
      SizesCount(free[2..], r);
      if free[1] <= r.start {
        SkipFirst(free, r);
      } else if free[0] >= r.end {
        NoneBefore(free, r);
      } else {
        var c := Range(Max(free[0], r.start), Min(free[1], r.end));
        FirstCounts(free, r, c);
        assert ([c] + Chunks(free[2..], r))[1..] == Chunks(free[2..], r);
      }
    }
  }

  // ---------------------------------------------------------------- giving space away

  lemma UpperHalf(c: Range)
    requires Block(c) && c.Size() > 1
    ensures c.Size() % 2 == 0 && Block(Range(c.start + c.Size() / 2, c.end))
  {
    var n := c.Size();
    PowerIsPow2(0);
    HalfPow2(1, n);
    RoundUp(c.start, n);
  }

  /** No aligned block in the chunk is bigger than size. */
  ghost predicate NoneBigger(chunk: Range, size: int) {
    forall u :: Block(u) && Inside(u, chunk) ==> u.Size() <= size
  }

  lemma NoneBiggerThanItself(chunk: Range)
    ensures NoneBigger(chunk, chunk.Size())
  {
  }

  lemma NoneBiggerGrows(chunk: Range, size: int, larger: int)
    requires NoneBigger(chunk, size) && size <= larger
    ensures NoneBigger(chunk, larger)
  {
  }

  method BiggestBlock(chunk: Range) returns (c: Range)
    requires chunk.start < chunk.end < Pow2(ADDRESS_BITS)
    ensures Block(c) && Inside(c, chunk) && NoneBigger(chunk, c.Size())
  {
    c := BiggestCIDRRange(chunk);
  }

  /** One step of the search: the chunk's biggest block if it is at least as big. */
  method Bigger(biggest: Range, chunk: Range) returns (b: Range, ghost taken: bool)
    requires biggest.Size() >= 0 && chunk.start < chunk.end < Pow2(ADDRESS_BITS)
    ensures if taken then Block(b) && Inside(b, chunk) else b == biggest
    ensures biggest.Size() == 0 ==> taken
    ensures b.Size() >= biggest.Size() && NoneBigger(chunk, b.Size())
    ensures !taken ==> NoneBigger(chunk, biggest.Size() - 1)
  {
    var size := chunk.Size();
    NoneBiggerThanItself(chunk);
    b, taken := biggest, false;
    if size >= biggest.Size() {
      var c := BiggestBlock(chunk);
      size := c.Size();
      if size >= biggest.Size() {
        b, taken := c, true;
      }
    }
    NoneBiggerGrows(chunk, size, b.Size());
  }

  /** An empty range. */
  method NoRange() returns (r: Range)
    ensures r.start == r.end
  {
    r := Range(0, 0);
  }

  /** The biggest aligned block among the chunks; at is the chunk it lies in. */
  method BiggestOf(chunks: seq<Range>) returns (biggest: Range, ghost at: nat)
    requires forall i :: 0 <= i < |chunks| ==> chunks[i].start < chunks[i].end < Pow2(ADDRESS_BITS)
    ensures chunks == [] ==> biggest.Size() == 0
    ensures chunks != [] ==> Block(biggest) && at < |chunks| && Inside(biggest, chunks[at])
    ensures forall i :: 0 <= i < |chunks| ==> NoneBigger(chunks[i], biggest.Size())
    ensures forall i :: at < i < |chunks| ==> NoneBigger(chunks[i], biggest.Size() - 1)
  {
    biggest := NoRange();
    at := 0;
    for i := 0 to |chunks|
      invariant biggest.Size() >= 0
      invariant i == 0 ==> biggest.Size() == 0
      invariant i > 0 ==> Block(biggest) && at < i && Inside(biggest, chunks[at])
      invariant forall k :: 0 <= k < i ==> NoneBigger(chunks[k], biggest.Size())
      invariant forall k :: at < k < i ==> NoneBigger(chunks[k], biggest.Size() - 1)
    {
      ghost var before := biggest.Size();
      ghost var taken;
      biggest, taken := Bigger(biggest, chunks[i]);
      at := if taken then i else at;
      forall k | 0 <= k < i ensures NoneBigger(chunks[k], biggest.Size()) {
        NoneBiggerGrows(chunks[k], before, biggest.Size());
      }
    }
  }

  // ---------------------------------------------------------------- in use and free

  ghost predicate Apart(a: seq<nat>, b: seq<nat>) {
    forall x :: Contains(a, x) ==> !Contains(b, x)
  }

  lemma TailOf(a: seq<nat>, i: nat)
    requires WellFormed(a) && i < |a| && i % 2 == 0
    ensures i + 2 <= |a| && a[i] < a[i + 1] && WellFormed(a[i..])
    ensures forall x :: Contains(a[i..], x) <==> a[i] <= x < a[i + 1] || Contains(a[i + 2..], x)
  {
    var t := a[i..];
    assert t[2..] == a[i + 2..];
    assert WellFormed(t);
    forall x ensures Contains(t, x) <==> a[i] <= x < a[i + 1] || Contains(a[i + 2..], x) {
      TailMembers(t, x);
    }
  }

  /** Adds every range of pairs in turn. */
  method UnionAll(a: seq<nat>, pairs: seq<nat>) returns (b: seq<nat>)
    requires WellFormed(a) && WellFormed(pairs)
    ensures WellFormed(b)
    ensures forall x :: Contains(b, x) <==> Contains(a, x) || Contains(pairs, x)
  {
    b := a;
    var i := 0;
    assert pairs[0..] == pairs;
    while i < |pairs|
      invariant 0 <= i <= |pairs| && i % 2 == 0 && WellFormed(b)
      invariant forall x :: Contains(b, x) || Contains(pairs[i..], x) <==> Contains(a, x) || Contains(pairs, x)
    {
      TailOf(pairs, i);
      b := Union(b, pairs[i], pairs[i + 1]);
      i := i + 2;
    }
    assert pairs[i..] == [];
  }

  /** Subtracts every range of pairs in turn. */
  method DifferenceAll(a: seq<nat>, pairs: seq<nat>) returns (b: seq<nat>)
    requires WellFormed(a) && WellFormed(pairs)
    ensures WellFormed(b)
    ensures forall x :: Contains(b, x) <==> Contains(a, x) && !Contains(pairs, x)
  {
    b := a;
    var i := 0;
    assert pairs[0..] == pairs;
    while i < |pairs|
      invariant 0 <= i <= |pairs| && i % 2 == 0 && WellFormed(b)
      invariant forall x :: Contains(b, x) && !Contains(pairs[i..], x) <==> Contains(a, x) && !Contains(pairs, x)
    {
      TailOf(pairs, i);
      b := Difference(b, pairs[i], pairs[i + 1]);
      i := i + 2;
    }
    assert pairs[i..] == [];
  }

  method UnionRanges(a: seq<nat>, ranges: seq<Range>) returns (b: seq<nat>)
    requires WellFormed(a) && forall i :: 0 <= i < |ranges| ==> ranges[i].start < ranges[i].end
    ensures WellFormed(b)
    ensures forall x :: Contains(b, x) <==> Contains(a, x) || Covers(ranges, x)
  {
    b := a;
    for i := 0 to |ranges|
      invariant WellFormed(b)
      invariant forall x :: Contains(b, x) <==> Contains(a, x) || Covers(ranges[..i], x)
    {
      b := Union(b, ranges[i].start, ranges[i].end);
      forall x ensures Covers(ranges[..i + 1], x) <==> Covers(ranges[..i], x) || ranges[i].Contains(x) {
        assert ranges[..i + 1] == ranges[..i] + [ranges[i]];
        CoversAppend(ranges[..i], ranges[i], x);
      }
    }
    assert ranges[..|ranges|] == ranges;
  }

  lemma EmptyWhenUnused(a: seq<nat>, r: Range)
    requires WellFormed(a)
    ensures FreeIn(a, r) == {} <==> Chunks(a, r) == []
  {
    ChunksAreSeparate(a, r);
    if Chunks(a, r) != [] {
      var x := Chunks(a, r)[0].start;
      assert Covers(Chunks(a, r), x);
      ChunksAreFree(a, r, x);
      assert x in FreeIn(a, r);
    } else if x :| x in FreeIn(a, r) {
      ChunksAreFree(a, r, x);
    }
  }

  /** The first chunk starts at the smallest free address. */
  lemma FirstChunk(a: seq<nat>, r: Range)
    requires WellFormed(a) && Chunks(a, r) != []
    ensures var least := Chunks(a, r)[0].start; least in FreeIn(a, r) && forall x :: x in FreeIn(a, r) ==> least <= x
  {
    var chunks := Chunks(a, r);
    ChunksAreSeparate(a, r);
    assert Covers(chunks, chunks[0].start);
    ChunksAreFree(a, r, chunks[0].start);
    forall x | x in FreeIn(a, r) ensures chunks[0].start <= x {
      ChunksAreFree(a, r, x);
      var i :| 0 <= i < |chunks| && chunks[i].Contains(x);
    }
  }

  class AddressSpace {
    var ours: seq<nat>
    var free: seq<nat>

    constructor ()
      ensures Valid() && ours == [] && free == []
    {
      ours, free := [], [];
    }

    ghost predicate Valid()
      reads this
    {
      WellFormed(ours) && WellFormed(free) && Apart(ours, free)
    }

    /** Everything we own, whether it is free or not. */
    ghost predicate Owns(x: nat)
      reads this
    {
      Contains(ours, x) || Contains(free, x)
    }

    method Clear()
      modifies this
      ensures Valid() && ours == [] && free == []
    {
      ours, free := [], [];
    }

    method Allocate(r: Range) returns (ok: bool, addr: nat)
      requires Valid()
      modifies this
      ensures Valid()
      ensures ok <==> FreeIn(old(free), r) != {}
      ensures !ok ==> ours == old(ours) && free == old(free)
      ensures ok ==> addr in FreeIn(old(free), r) && forall x :: x in FreeIn(old(free), r) ==> addr <= x
      ensures ok ==> Taken(old(ours), old(free), ours, free, addr)
    {
      var chunks := WalkFree(free, r);
      EmptyWhenUnused(free, r);
      ok, addr := false, 0;
      if chunks != [] {
        FirstChunk(free, r);
        ok, addr := true, chunks[0].start;
        ours := Union(ours, addr, addr + 1);
        free := Difference(free, addr, addr + 1);
      }
    }

    method Claim(addr: nat) returns (ok: bool)
      requires Valid()
      modifies this
      ensures Valid()
      ensures ok <==> Contains(old(free), addr)
      ensures !ok ==> ours == old(ours) && free == old(free)
      ensures ok ==> Taken(old(ours), old(free), ours, free, addr)
    {
      ok := Contains(free, addr);
      if ok {
        ours := Union(ours, addr, addr + 1);
        free := Difference(free, addr, addr + 1);
      }
    }

    /** The address goes back to the free ones, unless it is not ours or already free. */
    method Free(addr: nat) returns (ok: bool)
      requires Valid()
      modifies this
      ensures Valid()
      ensures ok <==> Contains(old(ours), addr)
      ensures !ok ==> ours == old(ours) && free == old(free)
      ensures ok ==> Taken(ours, free, old(ours), old(free), addr)
    {
      ok := Contains(ours, addr) && !Contains(free, addr);
      if ok {
        ours := Difference(ours, addr, addr + 1);
        free := Union(free, addr, addr + 1);
      }
    }

    method NumFreeAddressesInRange(r: Range) returns (n: nat)
      requires Valid()
      ensures n == |FreeIn(free, r)|
    {
      n := SumOf(free, r);
    }

    /** Gives away an aligned block of free addresses in r: at most half of them, rounded up,
        and at least half of the biggest such block. */
    method Donate(r: Range) returns (c: Range, ok: bool)
      requires Valid() && r.end < Pow2(ADDRESS_BITS)
      modifies this
      ensures Valid() && ours == old(ours)
      ensures ok <==> FreeIn(old(free), r) != {}
      ensures !ok ==> free == old(free)
      ensures ok ==> Donation(old(free), r, c)
      ensures ok ==> forall x :: Contains(free, x) <==> Contains(old(free), x) && !c.Contains(x)
    {
      c, ok := ChooseDonation(free, r);
      if ok {
        ghost var before := ours;
        ours := Difference(ours, c.start, c.end);
        free := Difference(free, c.start, c.end);
        Canonical(ours, before);
      }
    }

    /** All we own as one list of ranges. */
    method Everything() returns (a: seq<nat>)
      requires Valid()
      ensures WellFormed(a) && forall x :: Contains(a, x) <==> Owns(x)
    {
      a := UnionAll(ours, free);
    }

    method AddRanges(ranges: seq<Range>)
      requires Valid() && forall i :: 0 <= i < |ranges| ==> ranges[i].start < ranges[i].end
      modifies this
      ensures ours == old(ours) && WellFormed(free)
      ensures (forall x :: Covers(ranges, x) ==> !Contains(ours, x)) ==> Valid()
      ensures forall x :: Contains(free, x) <==> Contains(old(free), x) || Covers(ranges, x)
    {
      free := UnionRanges(free, ranges);
    }

    /** What we should own according to ranges and do not own yet becomes free space. */
    method UpdateRanges(ranges: seq<Range>)
      requires Valid() && forall i :: 0 <= i < |ranges| ==> ranges[i].start < ranges[i].end
      modifies this
      ensures Valid() && ours == old(ours)
      ensures forall x :: Contains(free, x) <==> Contains(old(free), x) || (Covers(ranges, x) && !Contains(ours, x))
    {
      var missing := UnionRanges([], ranges);
      var current := Everything();
      missing := DifferenceAll(missing, current);
      free := UnionAll(free, missing);
    }
  }

  /** addr moves from the free addresses to those in use, and nothing else changes. */
  ghost predicate Taken(ours: seq<nat>, free: seq<nat>, ours': seq<nat>, free': seq<nat>, addr: nat) {
    && Contains(free, addr)
    && (forall x :: Contains(ours', x) <==> Contains(ours, x) || x == addr)
    && (forall x :: Contains(free', x) <==> Contains(free, x) && x != addr)
  }

  /** An aligned block of free addresses in r. */
  ghost predicate FreeBlock(free: seq<nat>, r: Range, u: Range) {
    Block(u) && Inside(u, r) && forall x :: u.Contains(x) ==> Contains(free, x)
  }

  /** No aligned block of free addresses in r is bigger. */
  ghost predicate BiggestFree(free: seq<nat>, r: Range, c: Range) {
    FreeBlock(free, r, c) && forall u {:trigger FreeBlock(free, r, u)} :: FreeBlock(free, r, u) ==> u.Size() <= c.Size()
  }

  /** A biggest block if that is at most half of what is free, and otherwise the upper half of one,
      rounded up. */
  ghost predicate Donation(free: seq<nat>, r: Range, c: Range) {
    && FreeBlock(free, r, c) && 1 <= c.Size() <= (|FreeIn(free, r)| + 1) / 2
    && exists d :: BiggestFree(free, r, d) && c.end == d.end &&
         if d.Size() <= |FreeIn(free, r)| / 2 then c.start == d.start else c.Size() == (d.Size() + 1) / 2
  }

  method SumOf(free: seq<nat>, r: Range) returns (n: nat)
    requires WellFormed(free)
    ensures n == |FreeIn(free, r)|
  {
    var chunks := WalkFree(free, r);
    SizesCount(free, r);
    ChunksAreSeparate(free, r);
    n := 0;
    for i := 0 to |chunks|
      invariant n + SumSizes(chunks[i..]) == SumSizes(chunks)
    {
      assert chunks[i..][1..] == chunks[i + 1..];
      n := n + chunks[i].Size();
    }
  }

  method ChooseDonation(free: seq<nat>, r: Range) returns (c: Range, ok: bool)
    requires WellFormed(free) && r.end < Pow2(ADDRESS_BITS)
    ensures ok <==> FreeIn(free, r) != {}
    ensures ok ==> Donation(free, r, c)
  {
    var chunks := WalkFree(free, r);
    EmptyWhenUnused(free, r);
    ChunksAreSeparate(free, r);
    ghost var at;
    c, at := BiggestOf(chunks);
    if c.Size() == 0 {
      return c, false;
    }
    ok := true;
    var n := SumOf(free, r);
    BiggestIsFree(free, r, c, at);
    ghost var d := c;
    assert BiggestFree(free, r, d);
    if c.Size() > n / 2 {
      if c.Size() > 1 { UpperHalf(c); }
      c := Range(c.start + c.Size() / 2, c.end);
    }
  }

  lemma BiggestIsFree(free: seq<nat>, r: Range, c: Range, at: nat)
    requires WellFormed(free) && at < |Chunks(free, r)|
    requires Block(c) && Inside(c, Chunks(free, r)[at])
    requires forall i :: 0 <= i < |Chunks(free, r)| ==> NoneBigger(Chunks(free, r)[i], c.Size())
    ensures FreeBlock(free, r, c) && c.Size() <= |FreeIn(free, r)|
    ensures forall u {:trigger FreeBlock(free, r, u)} :: FreeBlock(free, r, u) ==> u.Size() <= c.Size()
  {
    var chunks := Chunks(free, r);
    ChunksAreSeparate(free, r);
    forall x | c.Contains(x) ensures Contains(free, x) && x in FreeIn(free, r) {
      assert Covers(chunks, x);
      ChunksAreFree(free, r, x);
    }
    IntervalSize(c.start, c.end);
    SubsetSize(Interval(c.start, c.end), FreeIn(free, r));
    forall u | FreeBlock(free, r, u) ensures u.Size() <= c.Size() {
      var i := RunInOneChunk(free, r, u);
      assert NoneBigger(chunks[i], c.Size());
    }
  }
}
