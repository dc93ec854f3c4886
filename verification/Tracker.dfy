/** Following the local ranges with a set of CIDR blocks (ipam/tracker/helpers.go, NewCIDRs in
    net/address/address.go, NoMasqLocalTracker in net/bridge.go). */
module Tracker {
  import opened Bits
  import opened Address
  import opened Cidrs

  // ---------------------------------------------------------------- Merge

  /** Non-empty ranges in increasing order, not overlapping. */
  ghost predicate Ordered(rs: seq<Range>) {
    && (forall i :: 0 <= i < |rs| ==> rs[i].start < rs[i].end)
    && (forall i, j :: 0 <= i < j < |rs| ==> rs[i].end <= rs[j].start)
  }

  /** Not even touching. */
  ghost predicate Apart(rs: seq<Range>) {
    && (forall i :: 0 <= i < |rs| ==> rs[i].start < rs[i].end)
    && (forall i, j :: 0 <= i < j < |rs| ==> rs[i].end < rs[j].start)
  }

  /** Merges adjacent ranges; the same addresses are covered. */
  method Merge(rs: seq<Range>) returns (merged: seq<Range>)
    requires Ordered(rs)
    ensures Apart(merged)
    ensures forall x: nat :: Covers(merged, x) <==> Covers(rs, x)
  {
    merged := [];
    assert rs[..0] == [];
    for i := 0 to |rs|
      invariant Apart(merged)
      invariant merged == [] <==> i == 0
      invariant i > 0 ==> merged[|merged| - 1].end == rs[i - 1].end
      invariant forall x: nat :: Covers(merged, x) <==> Covers(rs[..i], x)
    {
      merged := MergeOne(merged, rs[i]);
      forall x: nat ensures Covers(merged, x) <==> Covers(rs[..i + 1], x) {
        assert rs[..i + 1] == rs[..i] + [rs[i]];
        CoversAppend(rs[..i], rs[i], x);
      }
    }
    assert rs[..|rs|] == rs;
  }

  method MergeOne(merged: seq<Range>, r: Range) returns (merged': seq<Range>)
    requires Apart(merged) && r.start < r.end && (merged != [] ==> merged[|merged| - 1].end <= r.start)
    ensures Apart(merged') && merged' != [] && merged'[|merged'| - 1].end == r.end
    ensures forall x: nat :: Covers(merged', x) <==> Covers(merged, x) || r.Contains(x)
  {
    var prev := |merged| - 1;
    if prev >= 0 && merged[prev].end == r.start {
      merged' := merged[prev := Range(merged[prev].start, r.end)];
      forall x: nat ensures Covers(merged', x) <==> Covers(merged, x) || r.Contains(x) {
        ExtendLast(merged, r, x);
      }
    } else {
      merged' := merged + [r];
      forall x: nat ensures Covers(merged', x) <==> Covers(merged, x) || r.Contains(x) {
        CoversAppend(merged, r, x);
      }
    }
  }

  lemma ExtendLast(merged: seq<Range>, r: Range, x: nat)
    requires merged != [] && merged[|merged| - 1].start < merged[|merged| - 1].end == r.start < r.end
    ensures Covers(merged[|merged| - 1 := Range(merged[|merged| - 1].start, r.end)], x) <==>
            Covers(merged, x) || r.Contains(x)
  {
    var n := |merged| - 1;
    var front, last, wide := merged[..n], merged[n], Range(merged[n].start, r.end);
    assert merged == front + [last];
    assert merged[n := wide] == front + [wide];
    CoversAppend(front, last, x);
    CoversAppend(front, wide, x);
  }

  /** Only one list of ranges that do not touch covers a given set. */
  lemma {:induction false} ApartUnique(a: seq<Range>, b: seq<Range>)
    requires Apart(a) && Apart(b) && forall x: nat :: Covers(a, x) <==> Covers(b, x)
    ensures a == b
  {
    if a != [] && b != [] {
      SameFirst(a, b);
      forall x: nat ensures Covers(a[1..], x) <==> Covers(b[1..], x) {
        RestCovers(a, x);
        RestCovers(b, x);
      }
      ApartUnique(a[1..], b[1..]);
      assert a == [a[0]] + a[1..] && b == [b[0]] + b[1..];
    } else if a != [] {
      FirstCovered(a);
    } else if b != [] {
      FirstCovered(b);
    }
  }

  lemma FirstCovered(a: seq<Range>)
    requires Apart(a) && a != []
    ensures Covers(a, a[0].start) && forall x: nat :: x < a[0].start ==> !Covers(a, x)
    ensures !Covers(a, a[0].end) && forall x: nat :: a[0].start <= x < a[0].end ==> Covers(a, x)
  {
    assert a[0].Contains(a[0].start);
    forall x: nat | a[0].start <= x < a[0].end ensures Covers(a, x) {
      assert a[0].Contains(x);
    }
  }

  lemma SameFirst(a: seq<Range>, b: seq<Range>)
    requires Apart(a) && Apart(b) && a != [] && b != [] && forall x: nat :: Covers(a, x) <==> Covers(b, x)
    ensures a[0] == b[0]
  {
    FirstCovered(a);
    FirstCovered(b);
    assert Covers(b, a[0].start) && Covers(a, b[0].start);
    assert !Covers(b, a[0].end) && !Covers(a, b[0].end);
  }

  lemma RestCovers(a: seq<Range>, x: nat)
    requires Apart(a) && a != []
    ensures Covers(a[1..], x) <==> Covers(a, x) && x > a[0].end
  {
    assert a == [a[0]] + a[1..];
    CoversAppend(a[1..], a[0], x);
    if Covers(a[1..], x) {
      var i :| 0 <= i < |a[1..]| && a[1..][i].Contains(x);
      assert a[1..][i] == a[i + 1];
    }
    if Covers(a, x) && x == a[0].end { FirstCovered(a); }
  }

  // ---------------------------------------------------------------- the cover by blocks

  /** The blocks are the smallest cover of the range. */
  ghost predicate IsPart(p: seq<CIDR>, r: Range) {
    Tiles(p, r.start, r.end) && AllBiggest(p, r.end)
  }

  ghost predicate AreParts(parts: seq<seq<CIDR>>, rs: seq<Range>) {
    |parts| == |rs| && forall i :: 0 <= i < |rs| ==> IsPart(parts[i], rs[i])
  }

  ghost function Flat(parts: seq<seq<CIDR>>): seq<CIDR> {
    if parts == [] then [] else Flat(parts[..|parts| - 1]) + parts[|parts| - 1]
  }

  /** The blocks are the smallest covers of the ranges, one after the other. */
  ghost predicate IsCover(cidrs: seq<CIDR>, rs: seq<Range>) {
    exists parts: seq<seq<CIDR>> :: AreParts(parts, rs) && cidrs == Flat(parts)
  }

  lemma CoverUnique(a: seq<CIDR>, b: seq<CIDR>, rs: seq<Range>)
    requires IsCover(a, rs) && IsCover(b, rs)
    ensures a == b
  {
    var p: seq<seq<CIDR>> :| AreParts(p, rs) && a == Flat(p);
    var q: seq<seq<CIDR>> :| AreParts(q, rs) && b == Flat(q);
    forall i | 0 <= i < |rs| ensures p[i] == q[i] {
      assert IsPart(p[i], rs[i]) && IsPart(q[i], rs[i]);
      BiggestUnique(p[i], q[i], rs[i].start, rs[i].end);
    }
    assert p == q;
  }

  lemma CoverSnoc(cidrs: seq<CIDR>, rs: seq<Range>, p: seq<CIDR>, r: Range)
    requires IsCover(cidrs, rs) && IsPart(p, r)
    ensures IsCover(cidrs + p, rs + [r])
  {
    var parts: seq<seq<CIDR>> :| AreParts(parts, rs) && cidrs == Flat(parts);
    assert (parts + [p])[..|parts|] == parts;
    assert AreParts(parts + [p], rs + [r]);
  }

  method NewCIDRs(rs: seq<Range>) returns (cidrs: seq<CIDR>)
    requires forall i :: 0 <= i < |rs| ==> rs[i].start < rs[i].end <= FULL_MASK
    ensures IsCover(cidrs, rs)
  {
    cidrs := [];
    assert AreParts([], rs[..0]);
    for i := 0 to |rs|
      invariant IsCover(cidrs, rs[..i])
    {
      var p := CidrsOf(rs[i]);
      assert IsPart(p, rs[i]);
      CoverSnoc(cidrs, rs[..i], p, rs[i]);
      assert rs[..i + 1] == rs[..i] + [rs[i]];
      cidrs := cidrs + p;
    }
    assert rs[..|rs|] == rs;
  }

  /** Blocks in increasing order that do not overlap. */
  ghost predicate Ascending(a: seq<CIDR>, lo: nat) {
    if a == [] then true else a[0].prefixLen <= ADDRESS_BITS && lo <= a[0].addr && Ascending(a[1..], a[0].End())
  }

  lemma {:induction false} TilesAscend(a: seq<CIDR>, lo: nat, hi: nat, from: nat)
    requires Tiles(a, lo, hi) && from <= lo
    ensures Ascending(a, from)
  {
    if a != [] { TilesAscend(a[1..], a[0].End(), hi, a[0].End()); }
  }

  ghost predicate EndBy(a: seq<CIDR>, hi: nat) {
    forall i :: 0 <= i < |a| ==> a[i].prefixLen <= ADDRESS_BITS && a[i].End() <= hi
  }

  lemma {:induction false} TilesEndBy(a: seq<CIDR>, lo: nat, hi: nat)
    requires Tiles(a, lo, hi)
    ensures EndBy(a, hi)
  {
    if a != [] {
      TilesEndBy(a[1..], a[0].End(), hi);
      TilesUp(a[1..], a[0].End(), hi);
    }
  }

  lemma {:induction false} AscendingConcat(a: seq<CIDR>, lo: nat, mid: nat, b: seq<CIDR>)
    requires Ascending(a, lo) && EndBy(a, mid) && Ascending(b, mid) && lo <= mid
    ensures Ascending(a + b, lo)
  {
    if a == [] {
      assert a + b == b;
      AscendingLower(b, mid, lo);
    } else {
      AscendingConcat(a[1..], a[0].End(), mid, b);
      assert (a + b)[1..] == a[1..] + b;
    }
  }

  lemma AscendingLower(a: seq<CIDR>, lo: nat, lo': nat)
    requires Ascending(a, lo) && lo' <= lo
    ensures Ascending(a, lo')
  {
  }

  lemma {:induction false} FlatAscends(parts: seq<seq<CIDR>>, rs: seq<Range>)
    requires AreParts(parts, rs) && Ordered(rs)
    ensures Ascending(Flat(parts), 0) && (rs != [] ==> EndBy(Flat(parts), rs[|rs| - 1].end))
  {
    if rs != [] {
      var n := |rs| - 1;
      var front, r := rs[..n], rs[n];
      FlatAscends(parts[..n], front);
      assert IsPart(parts[n], r);
      TilesAscend(parts[n], r.start, r.end, r.start);
      TilesEndBy(parts[n], r.start, r.end);
      assert front != [] ==> front[n - 1].end <= r.start;
      FlatEnds(Flat(parts[..n]), parts[n], r.start, r.end);
      AscendingConcat(Flat(parts[..n]), 0, r.start, parts[n]);
    }
  }

  lemma FlatEnds(a: seq<CIDR>, b: seq<CIDR>, mid: nat, hi: nat)
    requires (a == [] || exists m: nat :: m <= mid && EndBy(a, m)) && EndBy(b, hi) && mid <= hi
    ensures EndBy(a, mid) && EndBy(a + b, hi)
  {
  }

  lemma CoverAscends(cidrs: seq<CIDR>, rs: seq<Range>)
    requires IsCover(cidrs, rs) && Ordered(rs)
    ensures Ascending(cidrs, 0)
  {
    var parts: seq<seq<CIDR>> :| AreParts(parts, rs) && cidrs == Flat(parts);
    FlatAscends(parts, rs);
  }

  lemma {:induction false} AscendingAt(a: seq<CIDR>, lo: nat, i: nat)
    requires Ascending(a, lo) && i < |a|
    ensures a[i].prefixLen <= ADDRESS_BITS && lo <= a[i].addr
  {
    if i > 0 { AscendingAt(a[1..], a[0].End(), i - 1); }
  }

  lemma {:induction false} AscendingPair(a: seq<CIDR>, lo: nat, i: nat, j: nat)
    requires Ascending(a, lo) && i < j < |a|
    ensures a[i].prefixLen <= ADDRESS_BITS && a[j].prefixLen <= ADDRESS_BITS &&
            a[i].addr < a[i].End() <= a[j].addr < a[j].End()
  {
    if i > 0 {
      AscendingPair(a[1..], a[0].End(), i - 1, j - 1);
    } else {
      AscendingAt(a[1..], a[0].End(), j - 1);
    }
  }

  // ---------------------------------------------------------------- RemoveCommon

  /** The elements of a that are not in b, in order. */
  function Without(a: seq<CIDR>, b: seq<CIDR>): seq<CIDR> {
    if a == [] then []
    else Without(a[..|a| - 1], b) + if a[|a| - 1] in b then [] else [a[|a| - 1]]
  }

  lemma {:induction false} WithoutMembers(a: seq<CIDR>, b: seq<CIDR>, c: CIDR)
    ensures c in Without(a, b) <==> c in a && c !in b
  {
    if a != [] {
      var n := |a| - 1;
      WithoutMembers(a[..n], b, c);
      assert c in a <==> c in a[..n] || c == a[n];
    }
  }

  lemma WithoutStep(a: seq<CIDR>, b: seq<CIDR>, i: nat)
    requires i < |a|
    ensures Without(a[..i + 1], b) == Without(a[..i], b) + if a[i] in b then [] else [a[i]]
  {
    assert a[..i + 1][..i] == a[..i];
  }

  lemma {:induction false} WithoutTail(a: seq<CIDR>, b: seq<CIDR>, i: nat)
    requires i <= |a| && forall p :: i <= p < |a| ==> a[p] !in b
    ensures Without(a, b) == Without(a[..i], b) + a[i..]
    decreases |a|
  {
    if i == |a| {
      assert a[..i] == a && a[i..] == [];
    } else {
      var n := |a| - 1;
      WithoutTail(a[..n], b, i);
      assert a[..n][..i] == a[..i] && a[i..] == a[..n][i..] + [a[n]];
    }
  }

  /** A block is determined by where it starts and ends. */
  lemma SameBlock(c: CIDR, d: CIDR)
    requires c.prefixLen <= ADDRESS_BITS && d.prefixLen <= ADDRESS_BITS && c.addr == d.addr && c.End() == d.End()
    ensures c == d
  {
    Pow2Order(c.Bits(), d.Bits());
    Pow2Order(d.Bits(), c.Bits());
  }

  /** a[i] comes before b[j], so it is not in b from j on. */
  lemma Passed(a: seq<CIDR>, i: nat, b: seq<CIDR>, j: nat, q: nat)
    requires i < |a| && j <= q < |b| && Ascending(a, 0) && Ascending(b, 0)
    requires a[i].prefixLen <= ADDRESS_BITS && b[j].prefixLen <= ADDRESS_BITS
    requires a[i].addr < b[j].addr || a[i].End() < b[j].End()
    ensures a[i] != b[q]
  {
    if j < q { AscendingPair(b, 0, j, q); }
  }

  lemma PassedAll(a: seq<CIDR>, i: nat, b: seq<CIDR>, j: nat)
    requires i < |a| && j < |b| && Ascending(a, 0) && Ascending(b, 0)
    requires a[i].prefixLen <= ADDRESS_BITS && b[j].prefixLen <= ADDRESS_BITS
    requires a[i].addr < b[j].addr || a[i].End() < b[j].End()
    ensures forall q :: j <= q < |b| ==> a[i] != b[q]
  {
    forall q | j <= q < |b| ensures a[i] != b[q] { Passed(a, i, b, j, q); }
  }

  ghost predicate NoneShared(a: seq<CIDR>, i: nat, i': nat, b: seq<CIDR>, j: nat, j': nat)
    requires i' <= |a| && j' <= |b|
  {
    forall p, q :: i <= p < i' && j <= q < j' ==> a[p] != b[q]
  }

  lemma FirstPassed(a: seq<CIDR>, i: nat, b: seq<CIDR>, j: nat)
    requires i < |a| && j < |b| && NoneShared(a, i, |a|, b, 0, j) && NoneShared(a, 0, i, b, j, |b|)
    requires forall q :: j <= q < |b| ==> a[i] != b[q]
    ensures NoneShared(a, i + 1, |a|, b, 0, j) && NoneShared(a, 0, i + 1, b, j, |b|) && a[i] !in b
  {
    forall q | 0 <= q < |b| ensures a[i] != b[q] { }
  }

  lemma SecondPassed(a: seq<CIDR>, i: nat, b: seq<CIDR>, j: nat)
    requires i < |a| && j < |b| && NoneShared(a, i, |a|, b, 0, j) && NoneShared(a, 0, i, b, j, |b|)
    requires forall p :: i <= p < |a| ==> b[j] != a[p]
    ensures NoneShared(a, i, |a|, b, 0, j + 1) && NoneShared(a, 0, i, b, j + 1, |b|) && b[j] !in a
  {
    forall p | 0 <= p < |a| ensures b[j] != a[p] { }
  }

  /** Drops the blocks that are in both lists: two indices walk them in parallel. */
  method RemoveCommon(a: seq<CIDR>, b: seq<CIDR>) returns (newA: seq<CIDR>, newB: seq<CIDR>)
    requires Ascending(a, 0) && Ascending(b, 0)
    ensures newA == Without(a, b) && newB == Without(b, a)
  {
    newA, newB := [], [];
    var i, j := 0, 0;
    while i < |a| && j < |b|
      invariant i <= |a| && j <= |b|
      invariant newA == Without(a[..i], b) && newB == Without(b[..j], a)
      invariant NoneShared(a, i, |a|, b, 0, j) && NoneShared(a, 0, i, b, j, |b|)
    {
      AscendingAt(a, 0, i);
      AscendingAt(b, 0, j);
      if a[i].addr < b[j].addr || a[i].End() < b[j].End() {
        PassedAll(a, i, b, j);
        FirstPassed(a, i, b, j);
        WithoutStep(a, b, i);
        newA, i := newA + [a[i]], i + 1;
      } else if a[i].addr > b[j].addr || a[i].End() > b[j].End() {
        PassedAll(b, j, a, i);
        SecondPassed(a, i, b, j);
        WithoutStep(b, a, j);
        newB, j := newB + [b[j]], j + 1;
      } else {
        SameBlock(a[i], b[j]);
        WithoutStep(a, b, i);
        WithoutStep(b, a, j);
        Matched(a, i, b, j);
        i, j := i + 1, j + 1;
      }
    }
    WithoutTail(a, b, i);
    WithoutTail(b, a, j);
    newA, newB := newA + a[i..], newB + b[j..];
  }

  lemma Matched(a: seq<CIDR>, i: nat, b: seq<CIDR>, j: nat)
    requires i < |a| && j < |b| && a[i] == b[j] && Ascending(a, 0) && Ascending(b, 0)
    requires NoneShared(a, i, |a|, b, 0, j) && NoneShared(a, 0, i, b, j, |b|)
    ensures NoneShared(a, i + 1, |a|, b, 0, j + 1) && NoneShared(a, 0, i + 1, b, j + 1, |b|)
  {
    forall p | i + 1 <= p < |a| ensures a[p] != b[j] { AscendingPair(a, 0, i, p); }
    forall q | j + 1 <= q < |b| ensures a[i] != b[q] { AscendingPair(b, 0, j, q); }
  }

  // ---------------------------------------------------------------- HandleUpdate

  function Elements(a: seq<CIDR>): set<CIDR> {
    set c | c in a
  }

  /** The installed blocks are the smallest cover of the addresses of the ranges. */
  ghost predicate Follows(installed: set<CIDR>, rs: seq<Range>) {
    exists m: seq<Range>, c: seq<CIDR> :: IsMerged(m, rs) && IsCover(c, m) && installed == Elements(c)
  }

  ghost predicate IsMerged(m: seq<Range>, rs: seq<Range>) {
    Apart(m) && forall x: nat :: Covers(m, x) <==> Covers(rs, x)
  }

  /** The installed blocks depend on the addresses only, not on how they are cut into ranges. */
  lemma FollowsUnique(s: set<CIDR>, t: set<CIDR>, rs: seq<Range>, us: seq<Range>)
    requires Follows(s, rs) && Follows(t, us) && forall x: nat :: Covers(rs, x) <==> Covers(us, x)
    ensures s == t
  {
    var m: seq<Range>, c: seq<CIDR> :| IsMerged(m, rs) && IsCover(c, m) && s == Elements(c);
    var n: seq<Range>, d: seq<CIDR> :| IsMerged(n, us) && IsCover(d, n) && t == Elements(d);
    ApartUnique(m, n);
    CoverUnique(c, d, m);
  }

  ghost predicate InBlock(c: CIDR, x: nat) {
    c.prefixLen <= ADDRESS_BITS && c.addr <= x < c.End()
  }

  lemma {:induction false} TilesCover(a: seq<CIDR>, lo: nat, hi: nat, x: nat)
    requires Tiles(a, lo, hi)
    ensures lo <= x < hi <==> exists c :: c in a && InBlock(c, x)
  {
    if a != [] {
      TilesCover(a[1..], a[0].End(), hi, x);
      TilesUp(a[1..], a[0].End(), hi);
      assert forall c :: c in a <==> c == a[0] || c in a[1..];
      if a[0].addr <= x < a[0].End() { assert a[0] in a && InBlock(a[0], x); }
    }
  }

  lemma {:induction false} FlatCovers(parts: seq<seq<CIDR>>, rs: seq<Range>, x: nat)
    requires AreParts(parts, rs)
    ensures Covers(rs, x) <==> exists c :: c in Flat(parts) && InBlock(c, x)
  {
    if rs != [] {
      var n := |rs| - 1;
      FlatCovers(parts[..n], rs[..n], x);
      assert IsPart(parts[n], rs[n]);
      TilesCover(parts[n], rs[n].start, rs[n].end, x);
      assert rs == rs[..n] + [rs[n]];
      CoversAppend(rs[..n], rs[n], x);
      assert forall c :: c in Flat(parts) <==> c in Flat(parts[..n]) || c in parts[n];
    }
  }

  /** The installed blocks contain exactly the addresses of the ranges. */
  lemma FollowsCovers(installed: set<CIDR>, rs: seq<Range>, x: nat)
    requires Follows(installed, rs)
    ensures Covers(rs, x) <==> exists c :: c in installed && InBlock(c, x)
  {
    var m: seq<Range>, c: seq<CIDR> :| IsMerged(m, rs) && IsCover(c, m) && installed == Elements(c);
    var parts: seq<seq<CIDR>> :| AreParts(parts, m) && c == Flat(parts);
    FlatCovers(parts, m, x);
    if Covers(rs, x) {
      var d :| d in c && InBlock(d, x);
      assert d in installed;
    }
  }

  class NoMasqLocalTracker {
    var installed: set<CIDR>

    constructor ()
      ensures installed == {}
    {
      installed := {};
    }

    /** Adds the blocks that are new and deletes those that are gone: from the cover of the
        previous ranges to the cover of the current ones. */
    method HandleUpdate(prevRanges: seq<Range>, currRanges: seq<Range>, local: bool)
      requires Ordered(prevRanges) && Ordered(currRanges)
      requires forall i :: 0 <= i < |prevRanges| ==> prevRanges[i].end <= FULL_MASK
      requires forall i :: 0 <= i < |currRanges| ==> currRanges[i].end <= FULL_MASK
      modifies this
      ensures !local ==> installed == old(installed)
      ensures local && Follows(old(installed), prevRanges) ==> Follows(installed, currRanges)
      ensures local ==> forall s, t :: Follows(s, prevRanges) && Follows(t, currRanges) ==>
                installed == old(installed) + (t - s) - (s - t)
    {
      if !local {
        return;
      }
      var prevCover, currCover;
      ghost var prevMerged, currMerged;
      prevCover, prevMerged := CoverOf(prevRanges);
      currCover, currMerged := CoverOf(currRanges);
      var prev, curr := RemoveCommon(prevCover, currCover);
      installed := AddEach(installed, curr);
      installed := DeleteEach(installed, prev);
      forall s, t | Follows(s, prevRanges) && Follows(t, currRanges)
        ensures installed == old(installed) + (t - s) - (s - t) {
        FollowsIs(s, prevRanges, prevMerged, prevCover);
        FollowsIs(t, currRanges, currMerged, currCover);
        ElementsWithout(currCover, prevCover);
        ElementsWithout(prevCover, currCover);
      }
      if Follows(old(installed), prevRanges) {
        FollowsIs(old(installed), prevRanges, prevMerged, prevCover);
        Exchanged(old(installed), prevCover, currCover, installed);
        assert IsMerged(currMerged, currRanges) && IsCover(currCover, currMerged);
      }
    }
  }

  method AddEach(s: set<CIDR>, a: seq<CIDR>) returns (s': set<CIDR>)
    ensures s' == s + Elements(a)
  {
    s' := s;
    for i := 0 to |a|
      invariant s' == s + Elements(a[..i])
    {
      s' := s' + {a[i]};
      assert a[..i + 1] == a[..i] + [a[i]];
    }
    assert a[..|a|] == a;
  }

  method DeleteEach(s: set<CIDR>, a: seq<CIDR>) returns (s': set<CIDR>)
    ensures s' == s - Elements(a)
  {
    s' := s;
    for i := 0 to |a|
      invariant s' == s - Elements(a[..i])
    {
      s' := s' - {a[i]};
      assert a[..i + 1] == a[..i] + [a[i]];
    }
    assert a[..|a|] == a;
  }

  method CoverOf(rs: seq<Range>) returns (cover: seq<CIDR>, ghost merged: seq<Range>)
    requires Ordered(rs) && forall i :: 0 <= i < |rs| ==> rs[i].end <= FULL_MASK
    ensures IsMerged(merged, rs) && IsCover(cover, merged) && Ascending(cover, 0)
  {
    var m := Merge(rs);
    forall i | 0 <= i < |m| ensures m[i].end <= FULL_MASK {
      EndsWithin(rs, m, i);
    }
    cover := NewCIDRs(m);
    CoverAscends(cover, m);
    merged := m;
  }

  lemma EndsWithin(rs: seq<Range>, m: seq<Range>, i: nat)
    requires forall k :: 0 <= k < |rs| ==> rs[k].end <= FULL_MASK
    requires IsMerged(m, rs) && i < |m|
    ensures m[i].end <= FULL_MASK
  {
    assert m[i].Contains(m[i].end - 1);
    assert Covers(m, m[i].end - 1);
    var k :| 0 <= k < |rs| && rs[k].Contains(m[i].end - 1);
  }

  lemma FollowsIs(s: set<CIDR>, rs: seq<Range>, m: seq<Range>, c: seq<CIDR>)
    requires Follows(s, rs) && IsMerged(m, rs) && IsCover(c, m)
    ensures s == Elements(c)
  {
    assert Follows(Elements(c), rs);
    FollowsUnique(s, Elements(c), rs, rs);
  }

  lemma ElementsWithout(a: seq<CIDR>, b: seq<CIDR>)
    ensures Elements(Without(a, b)) == Elements(a) - Elements(b)
  {
    forall c ensures c in Elements(Without(a, b)) <==> c in a && c !in b {
      WithoutMembers(a, b, c);
    }
  }

  lemma Exchanged(s: set<CIDR>, prev: seq<CIDR>, curr: seq<CIDR>, s': set<CIDR>)
    requires s == Elements(prev) && s' == s + Elements(Without(curr, prev)) - Elements(Without(prev, curr))
    ensures s' == Elements(curr)
  {
    ElementsWithout(curr, prev);
    ElementsWithout(prev, curr);
  }
}
