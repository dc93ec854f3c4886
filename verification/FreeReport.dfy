/** Reporting free space: the counts that reportFreeSpace (ipam/allocator.go) collects by range
    are the counts that ReportFree (ipam/ring/ring.go) expects by entry. */
module FreeReport {
  import opened Address
  import opened Basics
  import opened Boundaries
  import opened Space
  import opened RingEntries
  import opened RingOps
  import opened RingRanges
  import RingState

  /** r is the stretch of the i-th entry, up to the end of the ring. */
  ghost predicate IsWhole(b: Bounds, es: seq<Entry>, us: Peer, r: Range, i: int) {
    && 0 <= i < |es| && es[i].peer == us && r.start == es[i].token
    && r.end == if i == |es| - 1 then b.hi else es[i + 1].token
  }

  /** r is what the last entry has at the start of the ring. */
  ghost predicate IsHead(b: Bounds, es: seq<Entry>, us: Peer, r: Range) {
    es != [] && es[|es| - 1].peer == us && r.start == b.lo < es[0].token && r.end == es[0].token
  }

  lemma {:induction false} PeerRangeAt(es: seq<Entry>, peer: Peer, n: nat, k: nat) returns (i: nat)
    requires n <= |es| && k < |PeerRanges(es, peer, n)|
    ensures i < n && es[i].peer == peer && PeerRanges(es, peer, n)[k] == EntryRange(es, i)
    ensures k < |PeerRanges(es, peer, n)| - 1 ==> i < n - 1
  {
    PeerRangesStep(es, peer, n);
    if k < |PeerRanges(es, peer, n - 1)| {
      i := PeerRangeAt(es, peer, n - 1, k);
    } else {
      i := n - 1;
    }
  }

  lemma {:induction false} PeerRangeOf(es: seq<Entry>, peer: Peer, n: nat, i: nat) returns (k: nat)
    requires i < n <= |es| && es[i].peer == peer
    ensures k < |PeerRanges(es, peer, n)| && PeerRanges(es, peer, n)[k] == EntryRange(es, i)
    ensures i == n - 1 ==> k == |PeerRanges(es, peer, n)| - 1
    ensures i < n - 1 && es[n - 1].peer == peer ==> k < |PeerRanges(es, peer, n)| - 1
  {
    PeerRangesStep(es, peer, n);
    if i == n - 1 {
      k := |PeerRanges(es, peer, n - 1)|;
    } else {
      k := PeerRangeOf(es, peer, n - 1, i);
    }
  }

  /** Only the last entry's stretch can wrap. */
  lemma OnlyLastWraps(b: Bounds, es: seq<Entry>, i: nat)
    requires Valid(b, es) && i < |es|
    ensures var r := EntryRange(es, i);
            if i == |es| - 1 then r.end == es[0].token <= r.start
                else b.lo <= r.start < r.end && r.end == es[i + 1].token
  {
    assert i < |es| - 1 ==> es[i].token < es[i + 1].token;
    assert 0 < i ==> es[0].token < es[i].token;
  }

  lemma SplitWraps(b: Bounds, whole: seq<Range>, last: nat, first: nat)
    requires whole != [] && whole[|whole| - 1] == Range(last, first) && b.lo <= first <= last
    ensures SplitOverZero(b, whole) == WithHead(b, first, whole[..|whole| - 1] + [Range(last, b.hi)])
  {
    assert whole[|whole| - 1 := Range(last, b.hi)] == whole[..|whole| - 1] + [Range(last, b.hi)];
  }

  /** The ranges, preceded by what lies before the first token. */
  function WithHead(b: Bounds, first: nat, ranges: seq<Range>): seq<Range> {
    if first == b.lo then ranges else [Range(b.lo, first)] + ranges
  }

  lemma SplitNothing(b: Bounds, whole: seq<Range>)
    requires whole != [] ==> b.lo <= whole[|whole| - 1].start < whole[|whole| - 1].end
    ensures SplitOverZero(b, whole) == whole
  {
  }

  /** What the ranges are, when the last entry is ours and when it is not. */
  lemma SplitForm(b: Bounds, es: seq<Entry>, us: Peer, whole: seq<Range>)
    requires Valid(b, es) && es != [] && whole == PeerRanges(es, us, |es|)
    ensures es[|es| - 1].peer != us ==> SplitOverZero(b, whole) == whole
    ensures es[|es| - 1].peer == us ==>
              && whole != []
              && SplitOverZero(b, whole) ==
                  WithHead(b, es[0].token, whole[..|whole| - 1] + [Range(es[|es| - 1].token, b.hi)])
  {
    var n := |es| - 1;
    if es[n].peer == us {
      var k := PeerRangeOf(es, us, |es|, n);
      OnlyLastWraps(b, es, n);
      SplitWraps(b, whole, es[n].token, es[0].token);
    } else if whole != [] {
      var i := PeerRangeAt(es, us, |es|, |whole| - 1);
      OnlyLastWraps(b, es, i);
      SplitNothing(b, whole);
    }
  }

  lemma WholeAt(b: Bounds, es: seq<Entry>, us: Peer, k: nat) returns (i: nat)
    requires Valid(b, es) && es != [] && k < |PeerRanges(es, us, |es|)|
    requires es[|es| - 1].peer != us || k < |PeerRanges(es, us, |es|)| - 1
    ensures IsWhole(b, es, us, PeerRanges(es, us, |es|)[k], i)
  {
    i := PeerRangeAt(es, us, |es|, k);
    OnlyLastWraps(b, es, i);
  }

  /** Every listed range is the stretch of an entry of ours, or the head of the last one. */
  lemma RangeKind(b: Bounds, es: seq<Entry>, us: Peer, whole: seq<Range>, ranges: seq<Range>, k: nat) returns (i: nat)
    requires Valid(b, es) && es != [] && whole == PeerRanges(es, us, |es|) && ranges == SplitOverZero(b, whole) &&
             k < |ranges|
    ensures IsWhole(b, es, us, ranges[k], i) || IsHead(b, es, us, ranges[k])
  {
    SplitForm(b, es, us, whole);
    i := |es| - 1;
    if es[|es| - 1].peer != us {
      i := WholeAt(b, es, us, k);
    } else {
      var h := if es[0].token == b.lo then 0 else 1;
      if h <= k < |ranges| - 1 {
        assert ranges[k] == whole[k - h];
        i := WholeAt(b, es, us, k - h);
      }
    }
  }

  /** The stretch of every entry of ours is listed. */
  lemma WholeListed(b: Bounds, es: seq<Entry>, us: Peer, whole: seq<Range>, ranges: seq<Range>, i: nat) returns (k: nat)
    requires Valid(b, es) && whole == PeerRanges(es, us, |es|) && ranges == SplitOverZero(b, whole)
    requires i < |es| && es[i].peer == us
    ensures k < |ranges| && IsWhole(b, es, us, ranges[k], i)
  {
    SplitForm(b, es, us, whole);
    k := PeerRangeOf(es, us, |es|, i);
    OnlyLastWraps(b, es, i);
    if es[|es| - 1].peer == us {
      var h := if es[0].token == b.lo then 0 else 1;
      if i == |es| - 1 {
        k := |ranges| - 1;
      } else {
        assert ranges[k + h] == whole[k];
        k := k + h;
      }
    }
  }

  lemma HeadListed(b: Bounds, es: seq<Entry>, us: Peer)
    requires Valid(b, es) && es != [] && es[|es| - 1].peer == us && es[0].token != b.lo
    ensures OwnedRanges(b, es, us) != [] && OwnedRanges(b, es, us)[0] == Range(b.lo, es[0].token)
  {
    SplitForm(b, es, us, PeerRanges(es, us, |es|));
  }

  // ---------------------------------------------------------------- counting

  /** The free addresses in the stretch of the i-th entry. */
  ghost function FreeCount(b: Bounds, es: seq<Entry>, free: seq<nat>, i: nat): nat
    requires i < |es|
  {
    if i < |es| - 1 then |FreeIn(free, Range(es[i].token, es[i + 1].token))|
    else |FreeIn(free, Range(es[i].token, b.hi))| + |FreeIn(free, Range(b.lo, es[0].token))|
  }

  /** f gives the number of free addresses of each range, by its start. */
  ghost predicate Counts(ranges: seq<Range>, free: seq<nat>, f: map<nat, nat>) {
    && (forall k :: 0 <= k < |ranges| ==> ranges[k].start in f && f[ranges[k].start] == |FreeIn(free, ranges[k])|)
    && (forall t :: t in f ==> IsStart(ranges, t))
  }

  ghost predicate IsStart(ranges: seq<Range>, t: nat) {
    exists k :: 0 <= k < |ranges| && ranges[k].start == t
  }

  method CollectFree(free: seq<nat>, ranges: seq<Range>, ghost lo: nat, ghost hi: nat) returns (f: map<nat, nat>)
    requires WellFormed(free) && Ascending(ranges, lo, hi)
    ensures Counts(ranges, free, f)
  {
    f := map[];
    for i := 0 to |ranges|
      invariant forall k :: 0 <= k < i ==> ranges[k].start in f && f[ranges[k].start] == |FreeIn(free, ranges[k])|
      invariant forall t :: t in f ==> exists k :: 0 <= k < i && ranges[k].start == t
    {
      var n := SumOf(free, ranges[i]);
      assert forall k :: 0 <= k < i ==> ranges[k].start < ranges[k].end <= ranges[i].start;
      f := f[ranges[i].start := n];
    }
  }

  /** There is a count for the start of the ring without a token there just when the last
      entry is ours and reaches over the end. */
  lemma HeadCounted(b: Bounds, es: seq<Entry>, us: Peer, free: seq<nat>, f: map<nat, nat>)
    requires Valid(b, es) && es != [] && Counts(OwnedRanges(b, es, us), free, f) && es[0].token != b.lo
    ensures b.lo in f <==> es[|es| - 1].peer == us
    ensures b.lo in f ==> f[b.lo] == |FreeIn(free, Range(b.lo, es[0].token))|
  {
    var ranges := OwnedRanges(b, es, us);
    if b.lo in f {
      assert IsStart(ranges, b.lo);
      var k :| 0 <= k < |ranges| && ranges[k].start == b.lo;
      var i := RangeKind(b, es, us, PeerRanges(es, us, |es|), ranges, k);
      assert 0 < i < |es| ==> es[0].token < es[i].token;
    }
    if es[|es| - 1].peer == us { HeadListed(b, es, us); }
  }

  lemma WholeCounted(b: Bounds, es: seq<Entry>, us: Peer, free: seq<nat>, f: map<nat, nat>, i: nat)
    requires Valid(b, es) && Counts(OwnedRanges(b, es, us), free, f) && i < |es| && es[i].peer == us
    ensures es[i].token in f
    ensures f[es[i].token] == |FreeIn(free, Range(es[i].token, if i == |es| - 1 then b.hi else es[i + 1].token))|
  {
    var ranges := OwnedRanges(b, es, us);
    var k := WholeListed(b, es, us, PeerRanges(es, us, |es|), ranges, i);
    assert ranges[k] == Range(es[i].token, if i == |es| - 1 then b.hi else es[i + 1].token);
  }

  /** Every other count belongs to a token of ours. */
  lemma CountedIsOurs(b: Bounds, es: seq<Entry>, us: Peer, free: seq<nat>, f: map<nat, nat>, t: nat) returns (i: nat)
    requires Valid(b, es) && es != [] && Counts(OwnedRanges(b, es, us), free, f) && t in f &&
             (t == b.lo ==> es[0].token == b.lo)
    ensures i < |es| && es[i].token == t && es[i].peer == us
  {
    var ranges := OwnedRanges(b, es, us);
    assert IsStart(ranges, t);
    var k :| 0 <= k < |ranges| && ranges[k].start == t;
    i := RangeKind(b, es, us, PeerRanges(es, us, |es|), ranges, k);
  }

  lemma JoinedDefined(b: Bounds, es: seq<Entry>, us: Peer, free: seq<nat>, f: map<nat, nat>)
    requires Valid(b, es) && es != [] && Counts(OwnedRanges(b, es, us), free, f)
    ensures b.lo in f && es[0].token != b.lo ==> es[|es| - 1].token in f
  {
    if b.lo in f && es[0].token != b.lo {
      HeadCounted(b, es, us, free, f);
      WholeCounted(b, es, us, free, f, |es| - 1);
    }
  }

  /** Joined over the end of the ring, the counts are those of our entries, and of no others. */
  lemma JoinedCount(b: Bounds, es: seq<Entry>, us: Peer, free: seq<nat>, f: map<nat, nat>, i: nat)
    requires Valid(b, es) && Counts(OwnedRanges(b, es, us), free, f) && i < |es| && es[i].peer == us
    requires b.lo in f && es[0].token != b.lo ==> es[|es| - 1].token in f
    ensures var j := RingState.JoinOverZero(b, es, f);
            es[i].token in j && j[es[i].token] == FreeCount(b, es, free, i)
  {
    WholeCounted(b, es, us, free, f, i);
    assert i < |es| - 1 ==> es[i].token < es[|es| - 1].token;
    assert 0 < i ==> es[0].token < es[i].token;
    if es[0].token != b.lo {
      HeadCounted(b, es, us, free, f);
    } else {
      assert FreeIn(free, Range(b.lo, es[0].token)) == {};
    }
  }

  lemma JoinedIsOurs(b: Bounds, es: seq<Entry>, us: Peer, free: seq<nat>, f: map<nat, nat>, t: nat) returns (i: nat)
    requires Valid(b, es) && es != [] && Counts(OwnedRanges(b, es, us), free, f)
    requires b.lo in f && es[0].token != b.lo ==> es[|es| - 1].token in f
    requires t in RingState.JoinOverZero(b, es, f)
    ensures i < |es| && es[i].token == t && es[i].peer == us
  {
    i := CountedIsOurs(b, es, us, free, f, t);
  }

  lemma FreeInBound(free: seq<nat>, r: Range)
    requires r.start <= r.end
    ensures |FreeIn(free, r)| <= r.Size()
  {
    IntervalSize(r.start, r.end);
    SubsetSize(FreeIn(free, r), Interval(r.start, r.end));
  }

  lemma CountFits(b: Bounds, es: seq<Entry>, free: seq<nat>, i: nat)
    requires Valid(b, es) && i < |es|
    ensures FreeCount(b, es, free, i) <= Distance(b, es[i].token, At(es, i + 1).token)
  {
    OnlyLastWraps(b, es, i);
    if i < |es| - 1 {
      FreeInBound(free, Range(es[i].token, es[i + 1].token));
    } else {
      FreeInBound(free, Range(es[i].token, b.hi));
      FreeInBound(free, Range(b.lo, es[0].token));
    }
  }

  /** What ReportFree demands of the counts holds. */
  lemma CountsReportable(b: Bounds, es: seq<Entry>, us: Peer, free: seq<nat>, f: map<nat, nat>)
    requires Valid(b, es) && es != [] && Counts(OwnedRanges(b, es, us), free, f)
    requires b.lo in f && es[0].token != b.lo ==> es[|es| - 1].token in f
    ensures Reportable(b, us, ToMap(es), RingState.JoinOverZero(b, es, f))
  {
    var m, j := ToMap(es), RingState.JoinOverZero(b, es, f);
    forall t | t in j
      ensures t in m && m[t].peer == us && forall n :: IsNext(m.Keys, t, n) ==> j[t] <= Distance(b, t, n) {
      var i := JoinedIsOurs(b, es, us, free, f, t);
      JoinedCount(b, es, us, free, f, i);
      MapAt(es, i);
      CountFits(b, es, free, i);
      NextOfIndex(es, i);
      forall n | IsNext(m.Keys, t, n) ensures j[t] <= Distance(b, t, n) {
        NextUnique(m.Keys, t, n, At(es, i + 1).token);
      }
    }
  }

  /** The counts arrive at our entries and at no others; nobody's addresses change hands. */
  ghost predicate Reported(b: Bounds, us: Peer, es: seq<Entry>, es': seq<Entry>, free: seq<nat>) {
    |es'| == |es| && forall i {:trigger ReportedAt(b, us, es, es', free, i)} :: 0 <= i < |es| ==>
        ReportedAt(b, us, es, es', free, i)
  }

  ghost predicate ReportedAt(b: Bounds, us: Peer, es: seq<Entry>, es': seq<Entry>, free: seq<nat>, i: nat)
    requires i < |es| == |es'|
  {
    && es'[i].token == es[i].token && es'[i].peer == es[i].peer
    && (if es[i].peer == us then es'[i].free == FreeCount(b, es, free, i) else es'[i] == es[i])
    && es'[i].version == es[i].version + if es'[i].free == es[i].free then 0 else 1
  }

  lemma OthersNotCounted(b: Bounds, us: Peer, es: seq<Entry>, free: seq<nat>, f: map<nat, nat>, i: nat)
    requires Valid(b, es) && Counts(OwnedRanges(b, es, us), free, f) && i < |es| && es[i].peer != us
    requires b.lo in f && es[0].token != b.lo ==> es[|es| - 1].token in f
    ensures es[i].token !in RingState.JoinOverZero(b, es, f)
  {
    if es[i].token in RingState.JoinOverZero(b, es, f) {
      var k := JoinedIsOurs(b, es, us, free, f, es[i].token);
      SameToken(es, i, k);
    }
  }

  lemma SameToken(es: seq<Entry>, i: nat, k: nat)
    requires Sorted(es) && i < |es| && k < |es| && es[i].token == es[k].token
    ensures i == k
  {
  }

  lemma ReportArrivesAt(b: Bounds, us: Peer, es: seq<Entry>, es': seq<Entry>, free: seq<nat>, f: map<nat, nat>, i: nat)
    requires Valid(b, es) && es != [] && Counts(OwnedRanges(b, es, us), free, f)
    requires b.lo in f && es[0].token != b.lo ==> es[|es| - 1].token in f
    requires i < |es| == |es'| && es'[i] == ReportEntry(es[i], RingState.JoinOverZero(b, es, f))
    ensures ReportedAt(b, us, es, es', free, i)
  {
    if es[i].peer == us {
      JoinedCount(b, es, us, free, f, i);
    } else {
      OthersNotCounted(b, us, es, free, f, i);
    }
  }

  lemma ReportArrives(b: Bounds, us: Peer, es: seq<Entry>, es': seq<Entry>, free: seq<nat>, f: map<nat, nat>)
    requires Valid(b, es) && es != [] && Counts(OwnedRanges(b, es, us), free, f)
    requires b.lo in f && es[0].token != b.lo ==> es[|es| - 1].token in f
    requires es' == Report(es, RingState.JoinOverZero(b, es, f))
    ensures Reported(b, us, es, es', free)
  {
    forall i | 0 <= i < |es| ensures ReportedAt(b, us, es, es', free, i) {
      ReportArrivesAt(b, us, es, es', free, f, i);
    }
  }

  lemma NothingOurs(b: Bounds, us: Peer, es: seq<Entry>, free: seq<nat>)
    requires Valid(b, es) && OwnedRanges(b, es, us) == []
    ensures Reported(b, us, es, es, free)
  {
    forall i | 0 <= i < |es| ensures ReportedAt(b, us, es, es, free, i) {
      NotOurs(b, us, es, i);
    }
  }

  lemma NotOurs(b: Bounds, us: Peer, es: seq<Entry>, i: nat)
    requires Valid(b, es) && OwnedRanges(b, es, us) == [] && i < |es|
    ensures es[i].peer != us
  {
    if es[i].peer == us {
      var k := WholeListed(b, es, us, PeerRanges(es, us, |es|), OwnedRanges(b, es, us), i);
    }
  }

  /** Reporting does not change who owns what. */
  lemma ReportedOwner(b: Bounds, us: Peer, es: seq<Entry>, es': seq<Entry>, free: seq<nat>, x: nat)
    requires Sorted(es) && Reported(b, us, es, es', free)
    ensures Owner(es', x) == Owner(es, x)
  {
    forall i | 0 <= i < |es| ensures es'[i].token == es[i].token && es'[i].peer == es[i].peer {
      assert ReportedAt(b, us, es, es', free, i);
    }
    var k := FirstAbove(es, x);
    FirstAboveFound(es, x);
    assert Sorted(es');
    FirstAboveIs(es', x, k);
  }

  /** Counts the free addresses in each of our ranges. */
  method CountFree(ring: RingState.LiveRing, free: seq<nat>) returns (ours: bool, f: map<nat, nat>)
    requires ring.Valid() && WellFormed(free)
    ensures !ours ==> Reported(ring.b, ring.us, ring.entries, ring.entries, free)
    ensures ours ==> ring.entries != [] && Counts(OwnedRanges(ring.b, ring.entries, ring.us), free, f)
  {
    var ranges := ring.OwnedRangesOfPeer(ring.us);
    if |ranges| == 0 {
      NothingOurs(ring.b, ring.us, ring.entries, free);
      return false, map[];
    }
    ours := true;
    f := CollectFree(free, ranges, ring.b.lo, ring.b.hi);
  }
}
