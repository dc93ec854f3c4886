/** The ranges a peer owns (OwnedRangesOfPeer and splitRangesOverZero, ipam/ring/ring.go). */
module RingRanges {
  import opened Address
  import opened RingEntries

  /** The range of the entry at index i; it may wrap past the end of the ring. */
  function EntryRange(es: seq<Entry>, i: nat): Range
    requires i < |es|
  {
    Range(es[i].token, At(es, i + 1).token)
  }

  /** The ranges of the peer's entries among the first n. */
  function PeerRanges(es: seq<Entry>, peer: Peer, n: nat): seq<Range>
    requires n <= |es|
  {
    if n == 0 then []
    else PeerRanges(es, peer, n - 1) + if es[n - 1].peer == peer then [EntryRange(es, n - 1)] else []
  }

  /** splitRangesOverZero: only the last range can wrap; it is cut at the end of the ring. */
  function SplitOverZero(b: Bounds, ranges: seq<Range>): seq<Range> {
    if ranges == [] then ranges
    else
      var n, last := |ranges| - 1, ranges[|ranges| - 1];
      if last.end == b.lo then ranges[n := Range(last.start, b.hi)]
      else if last.end <= last.start then [Range(b.lo, last.end)] + ranges[n := Range(last.start, b.hi)]
      else ranges
  }

  function OwnedRanges(b: Bounds, es: seq<Entry>, peer: Peer): seq<Range> {
    SplitOverZero(b, PeerRanges(es, peer, |es|))
  }

  /** Non-empty ranges within [lo, hi), in ascending order, not overlapping. */
  ghost predicate Ascending(ranges: seq<Range>, lo: nat, hi: nat) {
    && (forall i :: 0 <= i < |ranges| ==> lo <= ranges[i].start < ranges[i].end <= hi)
    && (forall i, j :: 0 <= i < j < |ranges| ==> ranges[i].end <= ranges[j].start)
  }

  lemma PeerRangesStep(es: seq<Entry>, peer: Peer, n: nat)
    requires 0 < n <= |es|
    ensures var rest, r := PeerRanges(es, peer, n - 1), EntryRange(es, n - 1);
            PeerRanges(es, peer, n) == if es[n - 1].peer == peer then rest + [r] else rest
  {
  }

  /** Before the last entry nothing wraps. */
  lemma {:induction false} PrefixAscending(b: Bounds, es: seq<Entry>, peer: Peer, n: nat)
    requires Sorted(es) && InBounds(b, es) && n < |es|
    ensures Ascending(PeerRanges(es, peer, n), es[0].token, es[n].token)
  {
    if n > 0 {
      PrefixAscending(b, es, peer, n - 1);
      PeerRangesStep(es, peer, n);
    }
  }

  lemma {:induction false} PrefixRanges(b: Bounds, es: seq<Entry>, peer: Peer, n: nat, x: nat)
    requires Sorted(es) && InBounds(b, es) && n < |es|
    ensures Covers(PeerRanges(es, peer, n), x) <==> es[0].token <= x < es[n].token && Owner(es, x) == peer
  {
    if n > 0 {
      PrefixRanges(b, es, peer, n - 1, x);
      PeerRangesStep(es, peer, n);
      CoversAppend(PeerRanges(es, peer, n - 1), EntryRange(es, n - 1), x);
      if es[n - 1].token <= x < es[n].token { FirstAboveIs(es, x, n); }
    }
  }

  /** Cutting the last range in two covers what wraps, and keeps the order. */
  lemma SplitLast(b: Bounds, rest: seq<Range>, last: Range, x: nat)
    requires Ascending(rest, last.end, last.start) && b.lo <= last.end <= last.start < b.hi && b.lo <= x < b.hi
    ensures var ranges := SplitOverZero(b, rest + [last]);
            && Ascending(ranges, b.lo, b.hi)
            && (Covers(ranges, x) <==> Covers(rest, x) || x < last.end || last.start <= x)
  {
    var r := Range(last.start, b.hi);
    assert (rest + [last])[|rest| := r] == rest + [r];
    CoversAppend(rest, r, x);
    CoversAppend(rest + [r], Range(b.lo, last.end), x);
  }

  /** OwnedRangesOfPeer lists exactly the addresses owned by the peer, in order. */
  lemma OwnedRangesExact(b: Bounds, es: seq<Entry>, peer: Peer, x: nat)
    requires Sorted(es) && InBounds(b, es) && b.lo <= x < b.hi
    ensures Ascending(OwnedRanges(b, es, peer), b.lo, b.hi)
    ensures Covers(OwnedRanges(b, es, peer), x) <==> es != [] && Owner(es, x) == peer
  {
    if es != [] {
      var n := |es| - 1;
      PrefixAscending(b, es, peer, n);
      PrefixRanges(b, es, peer, n, x);
      var rest, last := PeerRanges(es, peer, n), EntryRange(es, n);
      assert PeerRanges(es, peer, |es|) == if es[n].peer == peer then rest + [last] else rest;
      if x >= es[n].token { FirstAboveIs(es, x, |es|); }
      if x < es[0].token { FirstAboveIs(es, x, 0); }
      if es[n].peer == peer {
        SplitLast(b, rest, last, x);
      }
    }
  }
}
