/** Sets of addresses as sorted arrays of range boundaries (ipam/space/space.go): even
    elements start ranges, odd elements end them. */
module Boundaries {

  /** Strictly ascending: ranges do not overlap and neighbouring ranges are coalesced. */
  ghost predicate Strict(a: seq<nat>) {
    forall i, j :: 0 <= i < j < |a| ==> a[i] < a[j]
  }

  ghost predicate WellFormed(a: seq<nat>) {
    Strict(a) && |a| % 2 == 0
  }

  /** sort.Search for the first element greater than x. */
  function FirstGreater(a: seq<nat>, x: nat): (k: nat)
    ensures k <= |a|
  {
    if a == [] || a[0] > x then 0 else 1 + FirstGreater(a[1..], x)
  }

  lemma {:induction false} FirstGreaterFound(a: seq<nat>, x: nat)
    ensures var k := FirstGreater(a, x); (forall i :: 0 <= i < k ==> a[i] <= x) && (k < |a| ==> a[k] > x)
  {
    if a != [] && a[0] <= x {
      FirstGreaterFound(a[1..], x);
      forall i | 0 <= i < FirstGreater(a, x) ensures a[i] <= x {
        assert i > 0 ==> a[i] == a[1..][i - 1];
      }
    }
  }

  function FirstGreaterOrEq(a: seq<nat>, x: nat): (k: nat)
    ensures k <= |a|
  {
    if a == [] || a[0] >= x then 0 else 1 + FirstGreaterOrEq(a[1..], x)
  }

  lemma {:induction false} FirstGreaterOrEqFound(a: seq<nat>, x: nat)
    ensures var k := FirstGreaterOrEq(a, x); (forall i :: 0 <= i < k ==> a[i] < x) && (k < |a| ==> a[k] >= x)
  {
    if a != [] && a[0] < x {
      FirstGreaterOrEqFound(a[1..], x);
      forall i | 0 <= i < FirstGreaterOrEq(a, x) ensures a[i] < x {
        assert i > 0 ==> a[i] == a[1..][i - 1];
      }
    }
  }

  /** Do the ranges contain the address? */
  predicate Contains(a: seq<nat>, x: nat) {
    FirstGreater(a, x) % 2 != 0
  }

  /** Boundaries before startPos and from endPos on are unaffected. */
  function Splice(a: seq<nat>, startPos: nat, endPos: nat, start: nat, end: nat, sense: nat): seq<nat>
    requires startPos <= endPos <= |a|
  {
    a[..startPos] + (Inserted(startPos, endPos, start, end, sense) + a[endPos..])
  }

  /** start and end become boundaries if they lie outside or inside existing ranges,
      according to sense. */
  function Inserted(startPos: nat, endPos: nat, start: nat, end: nat, sense: nat): seq<nat> {
    (if startPos % 2 == sense then [start] else []) + (if endPos % 2 == sense then [end] else [])
  }

  // ---------------------------------------------------------------- meaning

  /** The address lies in one of the ranges. */
  ghost predicate InSomeRange(a: seq<nat>, x: nat) {
    exists k :: 0 <= k && 2 * k + 1 < |a| && a[2 * k] <= x < a[2 * k + 1]
  }

  lemma {:induction false} FirstGreaterIs(a: seq<nat>, x: nat, k: nat)
    requires Strict(a) && k <= |a|
    requires k > 0 ==> a[k - 1] <= x
    requires k < |a| ==> a[k] > x
    ensures FirstGreater(a, x) == k
  {
    if k > 0 { FirstGreaterIs(a[1..], x, k - 1); }
  }

  /** An odd number of boundaries up to x means that x lies in a range. */
  lemma ContainsIsMembership(a: seq<nat>, x: nat)
    requires WellFormed(a)
    ensures Contains(a, x) <==> InSomeRange(a, x)
  {
    var n := FirstGreater(a, x);
    FirstGreaterFound(a, x);
    if Contains(a, x) {
      assert a[2 * ((n - 1) / 2)] <= x < a[2 * ((n - 1) / 2) + 1];
    }
    if k :| 0 <= k && 2 * k + 1 < |a| && a[2 * k] <= x < a[2 * k + 1] {
      FirstGreaterIs(a, x, 2 * k + 1);
    }
  }

  // ---------------------------------------------------------------- union and difference

  lemma StrictConcat(p: seq<nat>, q: seq<nat>)
    requires Strict(p) && Strict(q) && (p != [] && q != [] ==> p[|p| - 1] < q[0])
    ensures Strict(p + q)
  {
  }

  lemma {:induction false} CountConcat(p: seq<nat>, q: seq<nat>, x: nat)
    ensures FirstGreater(p + q, x) == if FirstGreater(p, x) < |p| then FirstGreater(p, x) else |p| + FirstGreater(q, x)
  {
    if p == [] {
      assert p + q == q;
    } else {
      assert (p + q)[1..] == p[1..] + q;
      CountConcat(p[1..], q, x);
    }
  }

  lemma CountNone(a: seq<nat>, x: nat)
    requires a != [] ==> a[0] > x
    ensures FirstGreater(a, x) == 0
  {
  }

  lemma {:induction false} CountAll(a: seq<nat>, x: nat)
    requires forall i :: 0 <= i < |a| ==> a[i] <= x
    ensures FirstGreater(a, x) == |a|
  {
    if a != [] { CountAll(a[1..], x); }
  }

  /** All boundaries of p lie below start, of mid in [start, end], of q above end. */
  ghost predicate Parts(p: seq<nat>, mid: seq<nat>, q: seq<nat>, start: nat, end: nat) {
    && (forall i :: 0 <= i < |p| ==> p[i] < start)
    && (forall i :: 0 <= i < |mid| ==> start <= mid[i] <= end)
    && (forall i :: 0 <= i < |q| ==> end < q[i])
  }

  lemma CountBelow(p: seq<nat>, mid: seq<nat>, q: seq<nat>, start: nat, end: nat, x: nat)
    requires Parts(p, mid, q, start, end) && start < end && x < start
    ensures FirstGreater(p + (mid + q), x) == FirstGreater(p, x)
  {
    CountConcat(p, mid + q, x);
    CountNone(mid + q, x);
  }

  lemma CountBeyond(p: seq<nat>, mid: seq<nat>, q: seq<nat>, start: nat, end: nat, x: nat)
    requires Parts(p, mid, q, start, end) && start < end && end <= x
    ensures FirstGreater(p + (mid + q), x) == |p| + |mid| + FirstGreater(q, x)
  {
    CountAll(p, x);
    CountAll(mid, x);
    CountConcat(p, mid + q, x);
    CountConcat(mid, q, x);
  }

  lemma CountInside(p: seq<nat>, q: seq<nat>, startPos: nat, endPos: nat, start: nat, end: nat, sense: nat, x: nat)
    requires Parts(p, [], q, start, end) && start <= x < end
    ensures FirstGreater(p + (Inserted(startPos, endPos, start, end, sense) + q), x) == |p| + Bit(startPos, sense)
  {
    var first := if startPos % 2 == sense then [start] else [];
    var second := if endPos % 2 == sense then [end] else [];
    assert Inserted(startPos, endPos, start, end, sense) + q == first + (second + q);
    CountAll(p, x);
    CountAll(first, x);
    CountNone(second + q, x);
    CountConcat(first, second + q, x);
    CountConcat(p, first + (second + q), x);
  }

  lemma StrictSlices(a: seq<nat>, s: nat, e: nat)
    requires Strict(a) && s <= e <= |a|
    ensures Strict(a[..s]) && Strict(a[e..])
  {
  }

  lemma SlicesAreParts(a: seq<nat>, s: nat, e: nat, start: nat, end: nat)
    requires Positions(a, s, e, start, end)
    ensures Parts(a[..s], a[s..e], a[e..], start, end)
    ensures a == a[..s] + (a[s..e] + a[e..])
  {
  }

  lemma InsertedParts(p: seq<nat>, mid: seq<nat>, q: seq<nat>, startPos: nat, endPos: nat, start: nat, end: nat,
                      sense: nat)
    requires Parts(p, mid, q, start, end) && start < end
    ensures Parts(p, Inserted(startPos, endPos, start, end, sense), q, start, end)
    ensures Strict(Inserted(startPos, endPos, start, end, sense))
  {
  }

  /** s and e are the positions that addSub finds. */
  ghost predicate Positions(a: seq<nat>, s: nat, e: nat, start: nat, end: nat) {
    && s <= e <= |a|
    && (forall i :: 0 <= i < s ==> a[i] < start)
    && (forall i :: s <= i < e ==> start <= a[i] <= end)
    && (forall i :: e <= i < |a| ==> end < a[i])
  }

  lemma SpliceStrict(a: seq<nat>, s: nat, e: nat, start: nat, end: nat, sense: nat)
    requires Strict(a) && start < end && Positions(a, s, e, start, end)
    ensures Strict(Splice(a, s, e, start, end, sense))
  {
    var p, mid, q := a[..s], a[s..e], a[e..];
    SlicesAreParts(a, s, e, start, end);
    StrictSlices(a, s, e);
    InsertedParts(p, mid, q, s, e, start, end, sense);
    StrictParts(p, Inserted(s, e, start, end, sense), q, start, end);
  }

  lemma StrictParts(p: seq<nat>, mid: seq<nat>, q: seq<nat>, start: nat, end: nat)
    requires Parts(p, mid, q, start, end) && start < end && Strict(p) && Strict(mid) && Strict(q)
    ensures Strict(p + (mid + q))
  {
    StrictConcat(mid, q);
    StrictConcat(p, mid + q);
  }

  lemma SpliceWellFormed(a: seq<nat>, s: nat, e: nat, start: nat, end: nat, sense: nat)
    requires WellFormed(a) && start < end && sense < 2 && Positions(a, s, e, start, end)
    ensures WellFormed(Splice(a, s, e, start, end, sense))
  {
    SpliceStrict(a, s, e, start, end, sense);
    Parity(s, e, sense, |a| - e);
    assert |Splice(a, s, e, start, end, sense)| == s + (Bit(s, sense) + Bit(e, sense)) + (|a| - e);
  }

  /** The spliced array denotes exactly set union or set difference. */
  lemma SpliceMeaning(a: seq<nat>, s: nat, e: nat, start: nat, end: nat, sense: nat, x: nat)
    requires Strict(a) && start < end && sense < 2 && Positions(a, s, e, start, end)
    ensures Contains(Splice(a, s, e, start, end, sense), x)
       <==> if start <= x < end then sense == 0 else Contains(a, x)
  {
    var p, mid, q := a[..s], a[s..e], a[e..];
    assert Parts(p, mid, q, start, end) && a == p + (mid + q) by { SlicesAreParts(a, s, e, start, end); }
    PartsMeaning(p, mid, q, start, end, sense, x);
  }

  lemma PartsMeaning(p: seq<nat>, mid: seq<nat>, q: seq<nat>, start: nat, end: nat, sense: nat, x: nat)
    requires Parts(p, mid, q, start, end) && start < end && sense < 2
    ensures Contains(p + (Inserted(|p|, |p| + |mid|, start, end, sense) + q), x)
       <==> if start <= x < end then sense == 0 else Contains(p + (mid + q), x)
  {
    var s, e := |p|, |p| + |mid|;
    var m := Inserted(s, e, start, end, sense);
    Parity(s, e, sense, FirstGreater(q, x));
    if x < start {
      assert FirstGreater(p + (mid + q), x) == FirstGreater(p, x) by { CountBelow(p, mid, q, start, end, x); }
      assert FirstGreater(p + (m + q), x) == FirstGreater(p, x) by {
        InsertedParts(p, mid, q, s, e, start, end, sense);
        CountBelow(p, m, q, start, end, x);
      }
    } else if x < end {
      assert FirstGreater(p + (m + q), x) == s + Bit(s, sense) by { CountInside(p, q, s, e, start, end, sense, x); }
    } else {
      assert FirstGreater(p + (mid + q), x) == e + FirstGreater(q, x) by { CountBeyond(p, mid, q, start, end, x); }
      assert FirstGreater(p + (m + q), x) == s + (Bit(s, sense) + Bit(e, sense)) + FirstGreater(q, x) by {
        InsertedParts(p, mid, q, s, e, start, end, sense);
        CountBeyond(p, m, q, start, end, x);
      }
    }
  }

  function Bit(pos: nat, sense: nat): nat {
    if pos % 2 == sense then 1 else 0
  }

  lemma Parity(s: nat, e: nat, sense: nat, c: nat)
    requires sense < 2
    ensures (s + Bit(s, sense)) % 2 != 0 <==> sense == 0
    ensures (s + (Bit(s, sense) + Bit(e, sense)) + c) % 2 == (e + c) % 2
  {
  }

  /** sort.Search for the first boundary at or above x. */
  method SearchFrom(a: seq<nat>, x: nat) returns (k: nat)
    requires Strict(a)
    ensures k <= |a| && (forall i :: 0 <= i < k ==> a[i] < x) && (forall i :: k <= i < |a| ==> a[i] >= x)
  {
    k := FirstGreaterOrEq(a, x);
    FirstGreaterOrEqFound(a, x);
  }

  /** sort.Search, in what follows from, for the first boundary above x. */
  method SearchAbove(a: seq<nat>, from: nat, x: nat) returns (k: nat)
    requires Strict(a) && from <= |a|
    ensures from <= k <= |a| && (forall i :: from <= i < k ==> a[i] <= x) && (forall i :: k <= i < |a| ==> a[i] > x)
  {
    var rest := a[from..];
    k := FirstGreater(rest, x) + from;
    FirstGreaterFound(rest, x);
    forall i | from <= i < |a| ensures i < k <==> a[i] <= x {
      assert a[i] == rest[i - from];
    }
  }

  /** With sense 0 the union with [start, end), with sense 1 the difference. */
  method AddSub(a: seq<nat>, start: nat, end: nat, sense: nat) returns (res: seq<nat>)
    requires WellFormed(a) && start < end && sense < 2
    ensures WellFormed(res)
    ensures forall x: nat :: Contains(res, x) <==> if start <= x < end then sense == 0 else Contains(a, x)
  {
    var startPos := SearchFrom(a, start);
    var endPos := SearchAbove(a, startPos, end);
    res := SplicedBy(a, startPos, endPos, start, end, sense);
    SpliceWellFormed(a, startPos, endPos, start, end, sense);
    forall x: nat ensures Contains(res, x) <==> if start <= x < end then sense == 0 else Contains(a, x) {
      SpliceMeaning(a, startPos, endPos, start, end, sense, x);
    }
  }

  /** Copies what comes before, appends the new boundaries and then what comes after. */
  method SplicedBy(a: seq<nat>, startPos: nat, endPos: nat, start: nat, end: nat, sense: nat) returns (res: seq<nat>)
    requires startPos <= endPos <= |a|
    ensures res == Splice(a, startPos, endPos, start, end, sense)
  {
    res := a[..startPos];
    if startPos % 2 == sense {
      res := res + [start];
    }
    if endPos % 2 == sense {
      res := res + [end];
    }
    res := res + a[endPos..];
  }

  method Union(a: seq<nat>, start: nat, end: nat) returns (b: seq<nat>)
    requires WellFormed(a) && start < end
    ensures WellFormed(b)
    ensures forall x: nat :: Contains(b, x) <==> Contains(a, x) || start <= x < end
  {
    b := AddSub(a, start, end, 0);
  }

  method Difference(a: seq<nat>, start: nat, end: nat) returns (b: seq<nat>)
    requires WellFormed(a) && start < end
    ensures WellFormed(b)
    ensures forall x: nat :: Contains(b, x) <==> Contains(a, x) && !(start <= x < end)
  {
    b := AddSub(a, start, end, 1);
  }

  // ---------------------------------------------------------------- canonical form

  lemma TailMembers(a: seq<nat>, x: nat)
    requires WellFormed(a) && a != []
    ensures |a| >= 2 && WellFormed(a[2..])
    ensures Contains(a[2..], x) <==> Contains(a, x) && x >= a[1]
    ensures x < a[1] ==> (Contains(a, x) <==> a[0] <= x)
  {
    assert a == a[..2] + a[2..];
    CountConcat(a[..2], a[2..], x);
    assert a[..2] == [a[0], a[1]];
    FirstGreaterFound([a[0], a[1]], x);
    if x < a[1] { CountNone(a[2..], x); }
  }

  /** Equal sets have equal arrays. */
  lemma {:induction false} Canonical(a: seq<nat>, b: seq<nat>)
    requires WellFormed(a) && WellFormed(b)
    requires forall x :: Contains(a, x) <==> Contains(b, x)
    ensures a == b
  {
    if a == [] || b == [] {
      if a != [] { TailMembers(a, a[0]); }
      if b != [] { TailMembers(b, b[0]); }
      assert Contains([], if a != [] then a[0] else 0) == false;
      assert Contains([], if b != [] then b[0] else 0) == false;
    } else {
      TailMembers(a, a[0]);
      TailMembers(a, b[0]);
      TailMembers(b, a[0]);
      TailMembers(b, b[0]);
      assert a[0] == b[0];
      FirstRangeEnds(a);
      FirstRangeEnds(b);
      TailMembers(a, b[1]);
      TailMembers(b, a[1]);
      assert a[1] == b[1];
      forall x ensures Contains(a[2..], x) <==> Contains(b[2..], x) {
        TailMembers(a, x);
        TailMembers(b, x);
      }
      Canonical(a[2..], b[2..]);
      assert a == [a[0], a[1]] + a[2..] && b == [b[0], b[1]] + b[2..];
    }
  }

  lemma FirstRangeEnds(a: seq<nat>)
    requires WellFormed(a) && a != []
    ensures |a| >= 2 && !Contains(a, a[1])
  {
    TailMembers(a, a[1]);
    CountNone(a[2..], a[1]);
  }
}
