/** The first ring: dividing the universe among the peers that were agreed on
    (ClaimForPeers and subdivide, ipam/ring/ring.go; normalizeConsensus, ipam/allocator.go). */
module Seeding {
  import opened Bits
  import opened Address
  import opened RingEntries

  // ---------------------------------------------------------------- subdivide

  /** The entries made for `share` addresses at `from` and the peers i, ..., j - 1; with
      several peers and more than one address the range is cut in the middle.  A middle
      address left over belongs to neither half. */
  function Subdivided(from: nat, share: nat, peers: seq<Peer>, i: nat, j: nat): seq<Entry>
    requires i < j <= |peers|
    decreases j - i
  {
    if share == 0 then []
    else if share == 1 || j - i == 1 then [Entry(from, peers[i], 0, share)]
    else
      var n := i + (j - i) / 2;
      Subdivided(from, share / 2, peers, i, n) + Subdivided(from + share / 2 + share % 2, share / 2, peers, n, j)
  }

  /** The ring is cut for the peers, in this order. */
  ghost predicate CutFor(b: Bounds, es: seq<Entry>, peers: seq<Peer>) {
    b.lo <= b.hi && peers != [] && es == Subdivided(b.lo, b.hi - b.lo, peers, 0, |peers|)
  }

  /** The same for a range of Pow2(k) addresses, by cutting the exponent. */
  function Shares(from: nat, k: nat, peers: seq<Peer>, i: nat, j: nat): seq<Entry>
    requires i < j <= |peers|
    decreases k
  {
    if k == 0 || j - i == 1 then [Entry(from, peers[i], 0, Pow2(k))]
    else
      var n := i + (j - i) / 2;
      Shares(from, k - 1, peers, i, n) + Shares(from + Pow2(k - 1), k - 1, peers, n, j)
  }

  lemma {:induction false} SubdividedIsShares(from: nat, k: nat, peers: seq<Peer>, i: nat, j: nat)
    requires i < j <= |peers|
    ensures Subdivided(from, Pow2(k), peers, i, j) == Shares(from, k, peers, i, j)
    decreases k
  {
    if k > 0 && j - i > 1 {
      var n, h := i + (j - i) / 2, Pow2(k - 1);
      SubdividedIsShares(from, k - 1, peers, i, n);
      SubdividedIsShares(from + h, k - 1, peers, n, j);
    }
  }

  // ---------------------------------------------------------------- the shares tile the range

  /** The shares follow one another from `from` to `to`. */
  ghost predicate Tiled(es: seq<Entry>, from: nat, to: nat) {
    if es == [] then from == to
    else es[0].token == from && es[0].version == 0 && es[0].free > 0 && Tiled(es[1..], from + es[0].free, to)
  }

  lemma {:induction false} TiledConcat(p: seq<Entry>, q: seq<Entry>, from: nat, mid: nat, to: nat)
    requires Tiled(p, from, mid) && Tiled(q, mid, to)
    ensures Tiled(p + q, from, to)
  {
    if p == [] {
      assert p + q == q;
    } else {
      TiledConcat(p[1..], q, from + p[0].free, mid, to);
      assert (p + q)[1..] == p[1..] + q;
    }
  }

  lemma OneTile(e: Entry)
    requires e.version == 0 && e.free > 0
    ensures Tiled([e], e.token, e.token + e.free)
  {
    assert [e][1..] == [];
  }

  lemma {:induction false} SharesTile(from: nat, k: nat, peers: seq<Peer>, i: nat, j: nat)
    requires i < j <= |peers|
    ensures Tiled(Shares(from, k, peers, i, j), from, from + Pow2(k))
    decreases k
  {
    if k == 0 || j - i == 1 {
      OneTile(Entry(from, peers[i], 0, Pow2(k)));
    } else {
      var n, mid := i + (j - i) / 2, from + Pow2(k - 1);
      SharesTile(from, k - 1, peers, i, n);
      SharesTile(mid, k - 1, peers, n, j);
      TiledConcat(Shares(from, k - 1, peers, i, n), Shares(mid, k - 1, peers, n, j), from, mid, from + Pow2(k));
    }
  }

  ghost predicate AllBlocks(es: seq<Entry>) {
    forall i :: 0 <= i < |es| ==> IsBlock(es[i])
  }

  /** The entry's share is CIDR-aligned. */
  ghost predicate IsBlock(e: Entry) {
    Block(Range(e.token, e.token + e.free))
  }

  lemma BlockAt(q: nat, k: nat, e: Entry)
    requires e.token == q * Pow2(k) && e.free == Pow2(k)
    ensures IsBlock(e)
  {
    PowerIsPow2(k);
    MultipleIsAligned(q, Pow2(k));
  }

  lemma AllBlocksConcat(p: seq<Entry>, q: seq<Entry>)
    requires AllBlocks(p) && AllBlocks(q)
    ensures AllBlocks(p + q)
  {
  }

  lemma HalvesAligned(q: nat, k: nat)
    requires k > 0
    ensures q * Pow2(k) == (2 * q) * Pow2(k - 1) && q * Pow2(k) + Pow2(k - 1) == (2 * q + 1) * Pow2(k - 1)
  {
  }

  /** Cutting an aligned range yields aligned ranges. */
  lemma {:induction false} SharesAligned(q: nat, from: nat, k: nat, peers: seq<Peer>, i: nat, j: nat)
    requires i < j <= |peers| && from == q * Pow2(k)
    ensures AllBlocks(Shares(from, k, peers, i, j))
    decreases k
  {
    if k == 0 || j - i == 1 {
      BlockAt(q, k, Shares(from, k, peers, i, j)[0]);
    } else {
      var n, mid := i + (j - i) / 2, from + Pow2(k - 1);
      HalvesAligned(q, k);
      SharesAligned(2 * q, from, k - 1, peers, i, n);
      SharesAligned(2 * q + 1, mid, k - 1, peers, n, j);
      AllBlocksConcat(Shares(from, k - 1, peers, i, n), Shares(mid, k - 1, peers, n, j));
    }
  }

  // ---------------------------------------------------------------- who gets a share

  function PeersOf(es: seq<Entry>): seq<Peer> {
    if es == [] then [] else [es[0].peer] + PeersOf(es[1..])
  }

  lemma {:induction false} PeersOfConcat(p: seq<Entry>, q: seq<Entry>)
    ensures PeersOf(p + q) == PeersOf(p) + PeersOf(q)
  {
    if p == [] {
      assert p + q == q;
    } else {
      assert (p + q)[1..] == p[1..] + q;
      PeersOfConcat(p[1..], q);
    }
  }

  /** Every peer gets exactly one share, in the order of the peers, if there are enough
      addresses for all. */
  lemma {:induction false} OneShareEach(from: nat, k: nat, peers: seq<Peer>, i: nat, j: nat)
    requires i < j <= |peers| && j - i <= Pow2(k)
    ensures PeersOf(Shares(from, k, peers, i, j)) == peers[i..j]
    decreases k
  {
    if k > 0 && j - i > 1 {
      var n, mid := i + (j - i) / 2, from + Pow2(k - 1);
      OneShareEach(from, k - 1, peers, i, n);
      OneShareEach(mid, k - 1, peers, n, j);
      PeersOfConcat(Shares(from, k - 1, peers, i, n), Shares(mid, k - 1, peers, n, j));
      assert peers[i..j] == peers[i..n] + peers[n..j];
    }
  }

  // ---------------------------------------------------------------- fair shares

  ghost predicate AtLeastEach(es: seq<Entry>, s: nat) {
    forall i :: 0 <= i < |es| ==> es[i].free >= s
  }

  ghost predicate AtMostEach(es: seq<Entry>, s: nat) {
    forall i :: 0 <= i < |es| ==> es[i].free <= s
  }

  function Halved(k: nat, u: nat): nat {
    if u <= k then Pow2(k - u) else 1
  }

  lemma HalvedOnce(k: nat, u: nat)
    requires k > 0 && u > 0
    ensures Halved(k, u) == Halved(k - 1, u - 1)
  {
  }

  lemma HalvedLess(k: nat, u: nat)
    ensures Halved(k, u) <= Pow2(k)
  {
    if 0 < u <= k { Pow2Less(k - u, k); }
  }

  /** With at most Pow2(u) peers, cutting in half u times is enough. */
  lemma {:induction false} SharesAtLeast(from: nat, k: nat, peers: seq<Peer>, i: nat, j: nat, u: nat)
    requires i < j <= |peers| && j - i <= Pow2(u)
    ensures AtLeastEach(Shares(from, k, peers, i, j), Halved(k, u))
    decreases k
  {
    if k == 0 || j - i == 1 {
      HalvedLess(k, u);
    } else {
      var n := i + (j - i) / 2;
      SharesAtLeast(from, k - 1, peers, i, n, u - 1);
      SharesAtLeast(from + Pow2(k - 1), k - 1, peers, n, j, u - 1);
      HalvedOnce(k, u);
    }
  }

  lemma AtMostConcat(p: seq<Entry>, q: seq<Entry>, s: nat)
    requires AtMostEach(p, s) && AtMostEach(q, s)
    ensures AtMostEach(p + q, s)
  {
  }

  lemma {:induction false} SharesNoBigger(from: nat, k: nat, peers: seq<Peer>, i: nat, j: nat, s: nat)
    requires i < j <= |peers| && s >= Pow2(k)
    ensures AtMostEach(Shares(from, k, peers, i, j), s)
    decreases k
  {
    if k > 0 && j - i > 1 {
      var n := i + (j - i) / 2;
      SharesNoBigger(from, k - 1, peers, i, n, s);
      SharesNoBigger(from + Pow2(k - 1), k - 1, peers, n, j, s);
      AtMostConcat(Shares(from, k - 1, peers, i, n), Shares(from + Pow2(k - 1), k - 1, peers, n, j), s);
    }
  }

  /** With at least Pow2(d) peers, everything is cut in half d times. */
  lemma {:induction false} SharesAtMost(from: nat, k: nat, peers: seq<Peer>, i: nat, j: nat, d: nat)
    requires i < j <= |peers| && Pow2(d) <= j - i
    ensures AtMostEach(Shares(from, k, peers, i, j), Halved(k, d))
    decreases k
  {
    if d == 0 {
      SharesNoBigger(from, k, peers, i, j, Pow2(k));
    } else if k > 0 {
      var n := i + (j - i) / 2;
      SharesAtMost(from, k - 1, peers, i, n, d - 1);
      SharesAtMost(from + Pow2(k - 1), k - 1, peers, n, j, d - 1);
      HalvedOnce(k, d);
      AtMostConcat(Shares(from, k - 1, peers, i, n), Shares(from + Pow2(k - 1), k - 1, peers, n, j), Halved(k, d));
    }
  }

  /** No share is more than twice as big as another. */
  lemma FairShares(from: nat, k: nat, peers: seq<Peer>, x: nat, y: nat)
    requires peers != [] && x < |Shares(from, k, peers, 0, |peers|)| && y < |Shares(from, k, peers, 0, |peers|)|
    ensures Shares(from, k, peers, 0, |peers|)[x].free <= 2 * Shares(from, k, peers, 0, |peers|)[y].free
  {
    var d := TopBit(|peers|);
    SharesAtLeast(from, k, peers, 0, |peers|, d + 1);
    SharesAtMost(from, k, peers, 0, |peers|, d);
    assert Halved(k, d) <= 2 * Halved(k, d + 1);
  }

  // ---------------------------------------------------------------- the seeded ring

  lemma {:induction false} TileAt(es: seq<Entry>, from: nat, to: nat, i: nat)
    requires Tiled(es, from, to) && i < |es|
    ensures var e := es[i];
            && e.version == 0 && e.free > 0 && from <= e.token && e.token + e.free <= to
            && (i == 0 ==> e.token == from)
            && e.token + e.free == if i == |es| - 1 then to else es[i + 1].token
  {
    if i > 0 {
      TileAt(es[1..], from + es[0].free, to, i - 1);
    } else if |es| > 1 {
      TileAt(es[1..], from + es[0].free, to, 0);
    }
  }

  lemma {:induction false} TilesRise(es: seq<Entry>, from: nat, to: nat, i: nat, j: nat)
    requires Tiled(es, from, to) && i < j < |es|
    ensures es[i].token < es[j].token
    decreases j
  {
    TileAt(es, from, to, j - 1);
    if i < j - 1 { TilesRise(es, from, to, i, j - 1); }
  }

  /** A tiled ring is valid, and all of it is free: each entry's free space reaches exactly
      to the next token. */
  lemma TiledIsValid(b: Bounds, es: seq<Entry>)
    requires Tiled(es, b.lo, b.hi) && es != []
    ensures Valid(b, es) && AllFree(b, es)
    ensures es[|es| - 1].token + es[|es| - 1].free == b.hi
  {
    forall i, j | 0 <= i < j < |es| ensures es[i].token < es[j].token {
      TilesRise(es, b.lo, b.hi, i, j);
    }
    forall i | 0 <= i < |es| ensures b.lo <= es[i].token < b.hi && IsFree(b, es, i) {
      TileAt(es, b.lo, b.hi, i);
      TileAt(es, b.lo, b.hi, 0);
    }
    TileAt(es, b.lo, b.hi, |es| - 1);
  }

  ghost predicate IsFree(b: Bounds, es: seq<Entry>, i: nat)
    requires i < |es|
  {
    es[i].version == 0 && es[i].free == Distance(b, es[i].token, At(es, i + 1).token)
  }

  /** Nothing has been allocated or changed yet. */
  ghost predicate AllFree(b: Bounds, es: seq<Entry>) {
    forall i :: 0 <= i < |es| ==> IsFree(b, es, i)
  }

  /** No share is more than twice as big as another. */
  ghost predicate Fair(es: seq<Entry>) {
    forall x, y :: 0 <= x < |es| && 0 <= y < |es| ==> es[x].free <= 2 * es[y].free
  }

  /** The universe is a CIDR. */
  lemma AsMultiple(b: Bounds) returns (q: nat, k: nat)
    requires Block(Range(b.lo, b.hi))
    ensures b.lo == q * Pow2(k) && b.hi == b.lo + Pow2(k)
  {
    k :| b.hi - b.lo == Pow2(k);
    q := b.lo / Pow2(k);
  }

  /** The seeded ring of an aligned universe: valid, entirely free, made of aligned blocks
      that are pairwise within a factor of two, one for each peer if there are enough
      addresses. */
  lemma SeededRing(b: Bounds, peers: seq<Peer>, es: seq<Entry>)
    requires Block(Range(b.lo, b.hi)) && CutFor(b, es, peers)
    ensures es != [] && Valid(b, es) && AllFree(b, es) && AllBlocks(es) && Fair(es)
    ensures es[|es| - 1].token + es[|es| - 1].free == b.hi
    ensures |peers| <= b.hi - b.lo ==> PeersOf(es) == peers
  {
    var q, k := AsMultiple(b);
    assert es == Shares(b.lo, k, peers, 0, |peers|) by { SubdividedIsShares(b.lo, k, peers, 0, |peers|); }
    SeededShares(b, q, k, peers, es);
  }

  lemma SeededShares(b: Bounds, q: nat, k: nat, peers: seq<Peer>, es: seq<Entry>)
    requires b.lo == q * Pow2(k) && b.hi == b.lo + Pow2(k) && peers != [] && es == Shares(b.lo, k, peers, 0, |peers|)
    ensures es != [] && Valid(b, es) && AllFree(b, es) && AllBlocks(es) && Fair(es)
    ensures es[|es| - 1].token + es[|es| - 1].free == b.hi
    ensures |peers| <= Pow2(k) ==> PeersOf(es) == peers
  {
    SharesTile(b.lo, k, peers, 0, |peers|);
    assert es != [];
    TiledIsValid(b, es);
    assert AllBlocks(es) by { SharesAligned(q, b.lo, k, peers, 0, |peers|); }
    if |peers| <= Pow2(k) {
      OneShareEach(b.lo, k, peers, 0, |peers|);
      assert peers[0..|peers|] == peers;
    }
    assert Fair(es) by {
      forall x, y | 0 <= x < |es| && 0 <= y < |es| ensures es[x].free <= 2 * es[y].free {
        FairShares(b.lo, k, peers, x, y);
      }
    }
  }

  /** Of every range that is cut, the lower half goes to the first half of its peers, rounded down:
      of an odd number of peers more share the upper half. */
  lemma LowerHalf(from: nat, k: nat, peers: seq<Peer>, i: nat, j: nat, x: nat)
    requires i + 1 < j <= |peers| && j - i <= Pow2(k) && x < j - i
    ensures k > 0 && |Shares(from, k, peers, i, j)| == j - i
    ensures Shares(from, k, peers, i, j)[x].token < from + Pow2(k - 1) <==> x < (j - i) / 2
  {
    var n := i + (j - i) / 2;
    assert 2 * Pow2(k - 1) == Pow2(k);
    HalvesTile(from, k - 1, peers, i, n, j, x);
  }

  lemma HalvesTile(from: nat, k: nat, peers: seq<Peer>, i: nat, n: nat, j: nat, x: nat)
    requires i < n < j <= |peers| && n - i <= Pow2(k) && j - n <= Pow2(k) && x < j - i
    ensures var es := Shares(from, k, peers, i, n) + Shares(from + Pow2(k), k, peers, n, j);
            |es| == j - i && (es[x].token < from + Pow2(k) <==> x < n - i)
  {
    var h := Pow2(k);
    SharesCount(from, k, peers, i, n);
    SharesCount(from + h, k, peers, n, j);
    SharesTile(from, k, peers, i, n);
    SharesTile(from + h, k, peers, n, j);
    BelowMiddle(Shares(from, k, peers, i, n), Shares(from + h, k, peers, n, j), from, from + h, from + h + h, x);
  }

  lemma BelowMiddle(lower: seq<Entry>, upper: seq<Entry>, from: nat, mid: nat, to: nat, x: nat)
    requires Tiled(lower, from, mid) && Tiled(upper, mid, to) && x < |lower| + |upper|
    ensures (lower + upper)[x].token < mid <==> x < |lower|
  {
    if x < |lower| { TileAt(lower, from, mid, x); } else { TileAt(upper, mid, to, x - |lower|); }
  }

  lemma SharesCount(from: nat, k: nat, peers: seq<Peer>, i: nat, j: nat)
    requires i < j <= |peers| && j - i <= Pow2(k)
    ensures |Shares(from, k, peers, i, j)| == j - i
  {
    OneShareEach(from, k, peers, i, j);
    PeersOfSize(Shares(from, k, peers, i, j));
  }

  lemma {:induction false} PeersOfSize(es: seq<Entry>)
    ensures |PeersOf(es)| == |es|
  {
    if es != [] { PeersOfSize(es[1..]); }
  }

  /** Inserts the entries for [from, to) behind those there are. */
  method Subdivide(es: seq<Entry>, from: nat, to: nat, peers: seq<Peer>, i: nat, j: nat) returns (es': seq<Entry>)
    requires AllBelow(es, from) && from <= to && i < j <= |peers|
    ensures es' == es + Subdivided(from, to - from, peers, i, j) && AllBelow(es', to)
    decreases j - i
  {
    var share := to - from;
    if share == 0 {
      BelowMore(es, from, to);
      return es;
    }
    if share == 1 || j - i == 1 {
      var e := Entry(from, peers[i], 0, share);
      AppendByInsert(es, e);
      BelowMore(es + [e], from + 1, to);
      return Insert(es, e);
    }
    var mid, n := from + share / 2, i + (j - i) / 2;
    var es1 := Subdivide(es, from, mid, peers, i, n);
    BelowMore(es1, mid, mid + share % 2);
    es' := Subdivide(es1, mid + share % 2, to, peers, n, j);
    Regroup(es, Subdivided(from, share / 2, peers, i, n), Subdivided(mid + share % 2, share / 2, peers, n, j));
  }

  /** Subdivides the whole ring. */
  method SubdivideAll(b: Bounds, peers: seq<Peer>) returns (es: seq<Entry>)
    requires b.lo <= b.hi && peers != []
    ensures CutFor(b, es, peers)
  {
    es := Subdivide([], b.lo, b.hi, peers, 0, |peers|);
  }

  ghost predicate AllBelow(es: seq<Entry>, x: nat) {
    forall i :: 0 <= i < |es| ==> es[i].token < x
  }

  lemma BelowMore(es: seq<Entry>, x: nat, y: nat)
    requires AllBelow(es, x) && x <= y
    ensures AllBelow(es, y)
  {
  }

  lemma Regroup(a: seq<Entry>, b: seq<Entry>, c: seq<Entry>)
    ensures a + b + c == a + (b + c)
  {
  }

  lemma AppendByInsert(es: seq<Entry>, e: Entry)
    requires AllBelow(es, e.token)
    ensures e.token !in Tokens(es) && Insert(es, e) == es + [e] && AllBelow(es + [e], e.token + 1)
  {
    PastAll(es, e.token);
    assert es[..|es|] + [e] + es[|es|..] == es + [e];
  }

  lemma {:induction false} PastAll(es: seq<Entry>, x: nat)
    requires AllBelow(es, x)
    ensures FirstAtLeast(es, x) == |es|
  {
    if es != [] { PastAll(es[1..], x); }
  }

  // ---------------------------------------------------------------- normalizeConsensus

  ghost predicate Rising(s: seq<Peer>) {
    forall i, j :: 0 <= i < j < |s| ==> s[i] < s[j]
  }

  ghost predicate NotFalling(s: seq<Peer>) {
    forall i, j :: 0 <= i < j < |s| ==> s[i] <= s[j]
  }

  function InOrder(s: seq<Peer>, p: Peer): seq<Peer> {
    if s == [] || p <= s[0] then [p] + s else [s[0]] + InOrder(s[1..], p)
  }

  /** sort.Sort */
  function SortedPeers(s: seq<Peer>): seq<Peer> {
    if s == [] then [] else InOrder(SortedPeers(s[1..]), s[0])
  }

  lemma {:induction false} InOrderFacts(s: seq<Peer>, p: Peer)
    requires NotFalling(s)
    ensures NotFalling(InOrder(s, p)) && |InOrder(s, p)| == |s| + 1
    ensures forall x :: x in InOrder(s, p) <==> x == p || x in s
  {
    if s != [] && p > s[0] {
      var t := InOrder(s[1..], p);
      InOrderFacts(s[1..], p);
      forall i | 0 <= i < |t| ensures s[0] <= t[i] {
        assert t[i] in t;
      }
      assert forall x :: x in s <==> x == s[0] || x in s[1..];
    }
  }

  lemma {:induction false} SortedPeersFacts(s: seq<Peer>)
    ensures NotFalling(SortedPeers(s)) && |SortedPeers(s)| == |s|
    ensures forall x :: x in SortedPeers(s) <==> x in s
  {
    if s != [] {
      SortedPeersFacts(s[1..]);
      InOrderFacts(SortedPeers(s[1..]), s[0]);
      assert forall x :: x in s <==> x == s[0] || x in s[1..];
    }
  }

  /** Sorts the agreed peers and removes duplicates in place. */
  method NormalizeConsensus(consensus: seq<Peer>) returns (r: seq<Peer>)
    ensures Rising(r)
    ensures forall x :: x in r <==> x in consensus
  {
    if |consensus| == 0 {
      return [];
    }
    var sorted := SortedPeers(consensus);
    SortedPeersFacts(consensus);
    var peers := new Peer[|sorted|](i requires 0 <= i < |sorted| => sorted[i]);
    assert peers[..] == sorted;
    DistinctFacts(sorted);
    var dst := DropRepeats(peers);
    return peers[..dst + 1];
  }

  /** The part of a sorted list with each element once. */
  function Distinct(s: seq<Peer>): seq<Peer> {
    if |s| <= 1 then s
    else if s[|s| - 1] == s[|s| - 2] then Distinct(s[..|s| - 1])
    else Distinct(s[..|s| - 1]) + [s[|s| - 1]]
  }

  lemma RisingSnoc(d: seq<Peer>, p: Peer)
    requires Rising(d) && d != [] && d[|d| - 1] < p
    ensures Rising(d + [p])
  {
  }

  lemma {:induction false} DistinctFacts(s: seq<Peer>)
    requires NotFalling(s) && s != []
    ensures var d := Distinct(s); d != [] && |d| <= |s| && d[|d| - 1] == s[|s| - 1] && Rising(d)
    ensures forall x :: x in Distinct(s) <==> x in s
  {
    if |s| > 1 {
      var t := s[..|s| - 1];
      DistinctFacts(t);
      assert forall x :: x in s <==> x in t || x == s[|s| - 1];
      if s[|s| - 1] != s[|s| - 2] { RisingSnoc(Distinct(t), s[|s| - 1]); }
    }
  }

  /** Moves the first occurrence of each element of a sorted array to the front. */
  method DropRepeats(peers: array<Peer>) returns (dst: nat)
    requires peers.Length > 0 && NotFalling(peers[..])
    modifies peers
    ensures dst < peers.Length && peers[..dst + 1] == Distinct(old(peers[..]))
  {
    ghost var sorted := peers[..];
    dst := 0;
    assert sorted[..1] == [sorted[0]] == peers[..1];
    for src := 1 to peers.Length
      invariant dst < src && peers[..dst + 1] == Distinct(sorted[..src]) && peers[dst] == sorted[src - 1]
      invariant forall i :: src <= i < |sorted| ==> peers[i] == sorted[i]
    {
      assert sorted[..src + 1][..src] == sorted[..src];
      if peers[dst] != peers[src] {
        ghost var before := peers[..dst + 1];
        dst := dst + 1;
        peers[dst] := peers[src];
        assert peers[..dst + 1] == before + [sorted[src]];
      }
    }
    assert sorted[..|sorted|] == sorted;
  }

  lemma HeadIn(s: seq<Peer>)
    requires s != []
    ensures s[0] in s
  {
  }

  /** A set has one rising listing. */
  lemma {:induction false} RisingUnique(r: seq<Peer>, s: seq<Peer>)
    requires Rising(r) && Rising(s) && forall x :: x in r <==> x in s
    ensures r == s
  {
    if r != [] && s != [] {
      assert r[0] in s && s[0] in r;
      forall x ensures x in r[1..] <==> x in s[1..] {
        assert x in r <==> x == r[0] || x in r[1..];
        assert x in s <==> x == s[0] || x in s[1..];
      }
      RisingUnique(r[1..], s[1..]);
      assert r == [r[0]] + r[1..] && s == [s[0]] + s[1..];
    } else if r != [] {
      HeadIn(r);
    } else if s != [] {
      HeadIn(s);
    }
  }
}
