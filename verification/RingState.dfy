/** A peer's ring, updated in place (ipam/ring/ring.go). */
module RingState {
  import opened Address
  import opened RingEntries
  import opened RingGrant
  import opened RingGrantSteps
  import opened RingMerge
  import opened RingOps
  import opened RingRanges
  import Seeding

  class LiveRing {
    const b: Bounds
    const us: Peer
    var entries: seq<Entry>
    var seeds: seq<Peer>

    ghost predicate Valid()
      reads this
    {
      b.lo < b.hi && RingEntries.Valid(b, entries)
    }

    constructor (b: Bounds, us: Peer)
      requires b.lo < b.hi
      ensures this.b == b && this.us == us && entries == [] && seeds == [] && Valid()
    {
      this.b, this.us, entries, seeds := b, us, [], [];
    }

    /** Claims the whole of an empty ring for the peers; the ring is a CIDR. */
    method ClaimForPeers(peers: seq<Peer>)
      requires Valid() && entries == [] && peers != []
      requires Block(Range(b.lo, b.hi))
      modifies this
      ensures Valid() && entries != [] && seeds == peers
      ensures Seeding.CutFor(b, entries, peers)
      ensures Seeding.AllFree(b, entries) && Seeding.AllBlocks(entries) && Seeding.Fair(entries)
      ensures |peers| <= b.hi - b.lo ==> Seeding.PeersOf(entries) == peers
    {
      var es := Seeding.SubdivideAll(b, peers);
      Seeding.SeededRing(b, peers, es);
      assert es[|es| - 1].token + es[|es| - 1].free == b.hi;
      entries, seeds := es, peers;
    }

    /** Grants [start, end), which we must own, to another peer: exactly these addresses
        change owner. */
    method GrantRangeToHost(start: nat, end: nat, to: Peer)
      requires Valid() && entries != []
      requires b.lo <= start < end <= b.hi
      requires forall x :: start <= x < end ==> Owner(entries, x) == us
      modifies this`entries
      ensures Valid() && entries != []
      ensures Granted(b, us, ToMap(old(entries)), ToMap(entries), start, end, to)
      ensures forall x :: b.lo <= x < b.hi ==>
                Owner(entries, x) == if start <= x < end then to else Owner(old(entries), x)
    {
      GrantableByOwner(b, us, entries, start, end);
      var preceding := FirstAbove(entries, start) as int - 1;
      CheckOwned(start, end, preceding);

      // Free space at start is the length of the range or the distance to the next token
      var next := At(entries, preceding + 1).token;
      NextAbove(entries, start);
      var startFree := Distance(b, start, next);
      if startFree > end - start {
        startFree := end - start;
      }
      var pos := PlaceStartToken(start, to, startFree);
      ghost var es1 := entries;
      pos := GiveTokens(start, end, to, pos);
      ghost var es2 := entries;
      ghost var k := PlaceEnd(end, pos);
      GrantDone(b, us, old(entries), es1, es2, entries, start, end, to, next, startFree, k);
    }

    /** The ownership checks at the head of GrantRangeToHost; none of them fails. */
    method CheckOwned(start: nat, end: nat, preceding: int)
      requires Valid() && entries != [] && Grantable(b, us, ToMap(entries), start, end)
      requires preceding == FirstAbove(entries, start) as int - 1
    {
      var pos := preceding;
      while pos < |entries| && At(entries, pos).token < end
        invariant preceding <= pos <= |entries|
      {
        CheckedEntryIsOurs(b, us, entries, start, end, pos);
        assert At(entries, pos).peer == us;
        pos := pos + 1;
      }
    }

    /** First stage: a token at the start of the grant, for the new owner. */
    method PlaceStartToken(start: nat, to: Peer, startFree: nat) returns (pos: nat)
      requires Valid() && MapValid(b, ToMap(entries)) && entries != [] && b.lo <= start < b.hi
      modifies this`entries
      ensures StartPlaced(b, us, old(entries), entries, start, to, startFree)
      ensures pos < |entries| && entries[pos].token == start
    {
      var k, found := FindStart(start);
      if found {
        pos := k - 1;
        UpdateStart(start, to, startFree, pos);
      } else {
        InsertStart(start, to, startFree, k);
        pos := k;
      }
    }

    /** The place of the first token above start, and whether there is one at start. */
    method FindStart(start: nat) returns (k: nat, found: bool)
      requires Sorted(entries) && entries != []
      ensures k == FirstAbove(entries, start)
      ensures found ==> 0 < k <= |entries| && entries[k - 1].token == start
      ensures !found ==> At(entries, k - 1).token != start
    {
      k := FirstAbove(entries, start);
      found := At(entries, k - 1).token == start;
      if found {
        FoundBelow(entries, start);
      }
    }

    method UpdateStart(start: nat, to: Peer, startFree: nat, i: nat)
      requires Valid() && MapValid(b, ToMap(entries)) && i < |entries| && entries[i].token == start
      modifies this`entries
      ensures |entries| == |old(entries)| && entries[i].token == start
      ensures StartPlaced(b, us, old(entries), entries, start, to, startFree)
    {
      StartUpdated(b, us, entries, start, to, startFree, i);
      entries := entries[i := entries[i].Update(to, startFree)];
    }

    /** Inserts a token at start and resets the free space of the entry before it. */
    method InsertStart(start: nat, to: Peer, startFree: nat, k: nat)
      requires Valid() && MapValid(b, ToMap(entries)) && entries != [] && b.lo <= start < b.hi
      requires k == FirstAbove(entries, start) && At(entries, k - 1).token != start
      modifies this`entries
      ensures StartPlaced(b, us, old(entries), entries, start, to, startFree)
      ensures k < |entries| && entries[k].token == start
    {
      var e, previous := Entry(start, to, 0, startFree), At(entries, k - 1);
      NoTokenAt(entries, start, k);
      InsertAt(entries, e, k);
      entries := Insert(entries, e);
      var i := if k == 0 then |entries| - 1 else k - 1;
      assert entries[i] == previous && entries[k] == e;
      StartInserted(b, us, old(entries), entries, start, to, startFree, k, i);
      entries := entries[i := previous.Update(us, Distance(b, previous.token, start))];
    }

    /** Second stage: all tokens inside the grant go to the new owner. */
    method GiveTokens(start: nat, end: nat, to: Peer, first: nat) returns (pos: nat)
      requires Sorted(entries) && InBounds(b, entries) && first < |entries| && entries[first].token == start < end
      modifies this`entries
      ensures InBounds(b, entries)
      ensures Sorted(entries) && ToMap(entries) == Given(ToMap(old(entries)), start, end, to)
      ensures first < pos <= |entries| && entries[pos - 1].token < end &&
              (pos < |entries| ==> entries[pos].token >= end)
    {
      ghost var es := entries;
      pos := first + 1;
      while pos < |entries| && At(entries, pos).token < end
        invariant first < pos <= |entries| == |es| && entries[pos - 1].token < end
        invariant forall i :: 0 <= i < |es| ==> entries[i] == if first < i < pos then Give(es[i], end, to) else es[i]
      {
        var e := At(entries, pos);
        entries := entries[pos := Give(e, end, to)];
        pos := pos + 1;
      }
      GivenAll(es, entries, start, end, to, first, pos);
    }

    /** Third stage: a token for what is left to us after the grant. */
    method PlaceEnd(end: nat, pos: nat) returns (ghost k: nat)
      requires Sorted(entries) && InBounds(b, entries) && 0 < pos <= |entries| && b.lo < end <= b.hi
      requires entries[pos - 1].token < end && (pos < |entries| ==> entries[pos].token >= end)
      modifies this`entries
      ensures Sorted(entries) && Ended(b, us, ToMap(old(entries)), ToMap(entries), end, k)
    {
      // There is never an entry with a token at the end of the ring
      var e := EndToken(b, end);
      k := At(entries, pos).token;
      SearchMisses(entries, e);
      MapKeys(entries);
      var i := FirstAtLeast(entries, e);
      if !(i < |entries| && entries[i].token == e) {
        EndInserted(b, us, entries, end, pos);
        var endFree := Distance(b, e, At(entries, pos).token);
        entries := Insert(entries, Entry(e, us, 0, endFree));
      }
    }

    /** Merges a gossiped ring into this one; a refused ring changes nothing. */
    method Merge(gossip: Ring) returns (outcome: MergeOutcome)
      requires Valid()
      modifies this
      ensures outcome == MergeRing(Ring(b, old(entries), old(seeds)), gossip, us)
      ensures outcome.Accepted? ==> Ring(b, entries, seeds) == outcome.ring
      ensures outcome.Accepted? ==> if old(seeds) == [] then seeds == gossip.seeds else seeds == old(seeds)
      ensures outcome.Refused? ==> entries == old(entries) && seeds == old(seeds)
      ensures Valid() && Weighed(Ring(b, old(entries), old(seeds)), gossip, us, outcome)
    {
      MergeWeighed(Ring(b, entries, seeds), gossip, us);
      var bad := CheckEntries(gossip.b, gossip.entries);
      if bad.Some? {
        return Refused(BadGossip);
      }
      if gossip.seeds != [] && seeds != [] && gossip.seeds != seeds {
        return Refused(DifferentSeeds);
      }
      if b != gossip.b {
        return Refused(DifferentRange);
      }
      var merged := MergeLists(entries, gossip.entries, us);
      if merged.Stomped? {
        return Refused(Stomping(merged.error));
      }
      bad := CheckEntries(b, merged.entries);
      if bad.Some? {
        return Refused(BadResult);
      }
      if seeds == [] {
        seeds := gossip.seeds;
      }
      entries := merged.entries;
      return Accepted(Ring(b, entries, seeds), merged.updated);
    }

    /** The ranges of a peer, in ascending order, split at the end of the ring. */
    method OwnedRangesOfPeer(peer: Peer) returns (ranges: seq<Range>)
      requires Valid()
      ensures ranges == OwnedRanges(b, entries, peer)
      ensures Ascending(ranges, b.lo, b.hi)
      ensures forall x :: b.lo <= x < b.hi ==> (Covers(ranges, x) <==> entries != [] && Owner(entries, x) == peer)
    {
      ranges := RangesOf(entries, peer);
      ranges := SplitOverZero(b, ranges);
      OwnedRangesAll(b, entries, peer);
    }

    /** Gives all ranges of one peer to another and returns these ranges. */
    method Transfer(from: Peer, to: Peer) returns (ranges: seq<Range>)
      requires Valid()
      modifies this`entries
      ensures entries == Transferred(old(entries), from, to)
      ensures ranges == OwnedRanges(b, old(entries), from)
      ensures |entries| == |old(entries)| && forall i :: 0 <= i < |entries| ==>
                && entries[i].token == old(entries)[i].token && entries[i].free == old(entries)[i].free
                && entries[i].version == old(entries)[i].version + if old(entries)[i].peer == from then 1 else 0
      ensures forall x :: Owner(entries, x) == if old(entries) != [] && Owner(old(entries), x) == from then to
              else Owner(old(entries), x)
      ensures Valid()
    {
      ghost var es := entries;
      entries, ranges := TransferAll(entries, from, to);
      ranges := SplitOverZero(b, ranges);
      TransferValid(b, es, from, to);
      forall x ensures Owner(entries, x) == if es != [] && Owner(es, x) == from then to else Owner(es, x) {
        TransferOwner(es, from, to, x);
      }
    }

    /** Records how many addresses are free in our ranges; unchanged counts make no new version. */
    method ReportFree(freespace: map<nat, nat>) returns (updated: bool)
      requires Valid() && entries != []
      requires b.lo in freespace && entries[0].token != b.lo ==> entries[|entries| - 1].token in freespace
      requires Reportable(b, us, ToMap(entries), JoinOverZero(b, entries, freespace))
      modifies this`entries
      ensures entries == Report(old(entries), JoinOverZero(b, old(entries), freespace))
      ensures updated <==> entries != old(entries)
      ensures Valid()
    {
      var free := JoinOverZero(b, entries, freespace);
      assert RingEntries.Valid(b, Report(entries, free)) by { ReportValid(b, us, entries, free); }
      entries, updated := ReportAll(b, us, entries, free);
    }
  }

  /** The loop of OwnedRangesOfPeer. */
  method RangesOf(es: seq<Entry>, peer: Peer) returns (ranges: seq<Range>)
    ensures ranges == PeerRanges(es, peer, |es|)
  {
    ranges := [];
    for i := 0 to |es|
      invariant ranges == PeerRanges(es, peer, i)
    {
      if es[i].peer == peer {
        ranges := ranges + [Range(es[i].token, At(es, i + 1).token)];
      }
    }
  }

  /** The loop of Transfer. */
  method TransferAll(es: seq<Entry>, from: Peer, to: Peer) returns (es': seq<Entry>, ranges: seq<Range>)
    ensures es' == Transferred(es, from, to) && ranges == PeerRanges(es, from, |es|)
  {
    es', ranges := es, [];
    for i := 0 to |es|
      invariant |es'| == |es|
      invariant forall k :: 0 <= k < |es| ==> es'[k] == if k < i then TransferEntry(es[k], from, to) else es[k]
      invariant ranges == PeerRanges(es, from, i)
    {
      assert At(es', i + 1).token == At(es, i + 1).token;
      if es'[i].peer == from {
        ranges := ranges + [Range(es'[i].token, At(es', i + 1).token)];
        es' := es'[i := es'[i].Update(to, es'[i].free)];
      }
    }
  }

  /** The loop of ReportFree, in whatever order the map is walked; its assertions hold. */
  method ReportAll(b: Bounds, us: Peer, es: seq<Entry>, free: map<nat, nat>) returns (es': seq<Entry>, updated: bool)
    requires Sorted(es) && Reportable(b, us, ToMap(es), free)
    ensures es' == Report(es, free) && (updated <==> es' != es)
  {
    es', updated := es, false;
    var todo := free.Keys;
    ghost var changed := 0;
    while todo != {}
      invariant todo <= free.Keys && |es'| == |es|
      invariant forall k :: 0 <= k < |es| ==> es'[k] == if es[k].token in todo then es[k] else ReportEntry(es[k], free)
      invariant if updated then changed < |es| && es'[changed] != es[changed] && es[changed].token !in todo
                else es' == es
    {
      var start :| start in todo;
      var i := FirstAtLeast(es', start);
      assert i < |es'| && es'[i].token == start && es'[i].peer == us &&
             free[start] <= Distance(b, start, At(es', i + 1).token) by {
        ReportedEntryIsOurs(b, us, es, es', free, start);
      }
      assert forall k :: 0 <= k < |es| && es[k].token == start ==> k == i;
      todo := todo - {start};
      if es'[i].free != free[start] {
        es' := es'[i := es'[i].Update(us, free[start])];
        updated, changed := true, i;
      }
    }
  }

  /** OwnedRanges splits at the end of the ring; the two parts are reported as one. */
  function JoinOverZero(b: Bounds, es: seq<Entry>, freespace: map<nat, nat>): map<nat, nat>
    requires es != []
    requires b.lo in freespace && es[0].token != b.lo ==> es[|es| - 1].token in freespace
  {
    var last := es[|es| - 1].token;
    if b.lo in freespace && es[0].token != b.lo
    then freespace[last := freespace[last] + freespace[b.lo]] - {b.lo}
    else freespace
  }

  datatype CheckError = NotSorted | TokenRepeated | TokenOutOfRange | TooMuchFree

  /** checkEntries: finds nothing to complain about exactly in valid lists. */
  method CheckEntries(b: Bounds, es: seq<Entry>) returns (err: Option<CheckError>)
    ensures err == None <==> Valid(b, es)
    ensures err == Some(NotSorted) <==> !Ordered(es)
    ensures err == Some(TokenRepeated) <==> Ordered(es) && !Sorted(es)
    ensures err == Some(TokenOutOfRange) <==> Sorted(es) && !InBounds(b, es)
  {
    var ordered := IsOrdered(es);
    if !ordered {
      return Some(NotSorted);
    }
    var repeated := HasRepeatedToken(es);
    if repeated {
      return Some(TokenRepeated);
    }
    if es == [] {
      return None;
    }
    if At(es, 0).token < b.lo || At(es, -1).token >= b.hi {
      return Some(TokenOutOfRange);
    }
    for i := 0 to |es|
      invariant forall k :: 0 <= k < i ==> es[k].free <= Distance(b, es[k].token, At(es, k + 1).token)
    {
      if es[i].free > Distance(b, es[i].token, At(es, i + 1).token) {
        return Some(TooMuchFree);
      }
    }
    return None;
  }

  /** sort.IsSorted: repeated tokens are allowed. */
  ghost predicate Ordered(es: seq<Entry>) {
    forall i, j :: 0 <= i <= j < |es| ==> es[i].token <= es[j].token
  }

  method IsOrdered(es: seq<Entry>) returns (ordered: bool)
    ensures ordered <==> Ordered(es)
  {
    if es == [] {
      return true;
    }
    for i := 1 to |es|
      invariant Ordered(es[..i])
    {
      if es[i].token < es[i - 1].token {
        return false;
      }
      assert es[..i + 1] == es[..i] + [es[i]];
    }
    assert es[..|es|] == es;
    return true;
  }

  method HasRepeatedToken(es: seq<Entry>) returns (repeated: bool)
    requires Ordered(es)
    ensures repeated <==> !Sorted(es)
  {
    if es == [] {
      return false;
    }
    for i := 1 to |es|
      invariant Sorted(es[..i])
    {
      if es[i - 1].token == es[i].token {
        return true;
      }
      assert es[..i + 1] == es[..i] + [es[i]];
    }
    assert es[..|es|] == es;
    return false;
  }

  lemma OwnedRangesAll(b: Bounds, es: seq<Entry>, peer: Peer)
    requires Valid(b, es) && b.lo < b.hi
    ensures Ascending(OwnedRanges(b, es, peer), b.lo, b.hi)
    ensures forall x :: b.lo <= x < b.hi ==> (Covers(OwnedRanges(b, es, peer), x) <==> es != [] && Owner(es, x) == peer)
  {
    forall x | b.lo <= x < b.hi ensures Covers(OwnedRanges(b, es, peer), x) <==> es != [] && Owner(es, x) == peer {
      OwnedRangesExact(b, es, peer, x);
    }
    OwnedRangesExact(b, es, peer, b.lo);
  }

  lemma ReportValid(b: Bounds, us: Peer, es: seq<Entry>, free: map<nat, nat>)
    requires Valid(b, es) && Reportable(b, us, ToMap(es), free)
    ensures Valid(b, Report(es, free))
  {
    ReportIsLocal(b, us, es, free);
    ValidIffMapValid(b, Report(es, free));
  }

  /** The addresses of one peer, and no others, go to another. */
  lemma TransferOwner(es: seq<Entry>, from: Peer, to: Peer, x: nat)
    requires Sorted(es)
    ensures Owner(Transferred(es, from, to), x) == if es != [] && Owner(es, x) == from then to else Owner(es, x)
  {
    var es' := Transferred(es, from, to);
    if es != [] {
      var k := FirstAbove(es, x);
      FirstAboveFound(es, x);
      SameTokens(es, es');
      FirstAboveIs(es', x, k);
    }
  }

  lemma TransferValid(b: Bounds, es: seq<Entry>, from: Peer, to: Peer)
    requires Valid(b, es)
    ensures Valid(b, Transferred(es, from, to))
  {
    HandOverIsLocal(b, from, es, to);
    ValidIffMapValid(b, Transferred(es, from, to));
  }

  lemma ReportedEntryIsOurs(b: Bounds, us: Peer, es: seq<Entry>, es': seq<Entry>, free: map<nat, nat>, start: nat)
    requires Sorted(es) && Reportable(b, us, ToMap(es), free) && start in free && |es'| == |es|
    requires forall k :: 0 <= k < |es| ==> es'[k].token == es[k].token && es'[k].peer == es[k].peer
    ensures var i := FirstAtLeast(es', start);
            && i < |es'| && es'[i].token == start && es'[i].peer == us
            && free[start] <= Distance(b, start, At(es', i + 1).token)
  {
    var i := MapIndex(es, start);
    assert free[start] <= Distance(b, start, At(es, i + 1).token) by { NextOfIndex(es, i); }
    assert At(es', i + 1).token == At(es, i + 1).token;
    assert FirstAtLeast(es', start) == i by { FirstAtLeastIs(es', start, i); }
  }

  lemma PrependTwice(es: seq<Entry>, c: bool, e: Entry, c': bool, r: MergeResult)
    ensures Prepend(es, c, Prepend([e], c', r)) == Prepend(es + [e], c || c', r)
  {
    if r.Merged? { assert es + ([e] + r.entries) == es + [e] + r.entries; }
  }

  /** What is still to be merged from i and j on. */
  function Rest(es: seq<Entry>, i: nat, other: seq<Entry>, j: nat, us: Peer, prev: Option<Peer>): MergeResult
    requires i <= |es| && j <= |other|
  {
    MergeFrom(es[i..], other[j..], us, prev)
  }

  /** One step of the merge, by index. */
  lemma RestStep(es: seq<Entry>, i: nat, other: seq<Entry>, j: nat, us: Peer, prev: Option<Peer>)
    requires i < |es| && j < |other|
    ensures Rest(es, i, other, j, us, prev) ==
            var mine, theirs := es[i], other[j];
            if mine.token > theirs.token then
              if prev == Some(us) && theirs.peer != us then Stomped(EntryInMyRange)
              else Prepend([theirs], true, Rest(es, i, other, j + 1, us, None))
            else if mine.token < theirs.token then
                Prepend([mine], false, Rest(es, i + 1, other, j, us, Some(mine.peer)))
            else if mine.version >= theirs.version then
              if mine.version == theirs.version && !mine.Same(theirs) then Stomped(InconsistentEntry)
              else Prepend([mine], false, Rest(es, i + 1, other, j + 1, us, Some(mine.peer)))
            else if mine.peer == us then Stomped(NewerVersion)
            else Prepend([theirs], true, Rest(es, i + 1, other, j + 1, us, None))
  {
    assert es[i..][1..] == es[i + 1..] && other[j..][1..] == other[j + 1..];
  }

  lemma RestEnds(es: seq<Entry>, i: nat, other: seq<Entry>, j: nat, us: Peer, prev: Option<Peer>)
    requires i <= |es| && j <= |other|
    ensures j == |other| ==> Rest(es, i, other, j, us, prev) == Merged(es[i..], false)
    ensures i == |es| && j < |other| ==>
              Rest(es, i, other, j, us, prev) ==
                  (if prev == Some(us) && other[j].peer != us then Stomped(EntryInMyRange)
                                                  else Prepend([other[j]], true, Rest(es, i, other, j + 1, us, None)))
  {
    if i == |es| && j < |other| { assert other[j..][1..] == other[j + 1..]; }
  }

  /** The entries of the result so far come before what is still to be merged. */
  ghost predicate Merging(all: MergeResult, result: seq<Entry>, updated: bool, es: seq<Entry>, i: nat,
                          other: seq<Entry>, j: nat,
                          us: Peer, prev: Option<Peer>) {
    i <= |es| && j <= |other| && all == Prepend(result, updated, Rest(es, i, other, j, us, prev))
  }

  lemma MergingStep(all: MergeResult, result: seq<Entry>, updated: bool, es: seq<Entry>, i: nat, other: seq<Entry>,
                    j: nat,
                    us: Peer, prev: Option<Peer>)
    requires Merging(all, result, updated, es, i, other, j, us, prev) && i < |es| && j < |other|
    ensures var mine, theirs := es[i], other[j];
            if mine.token < theirs.token then
              Merging(all, result + [mine], updated, es, i + 1, other, j, us, Some(mine.peer))
            else if mine.token > theirs.token then
              if prev == Some(us) && theirs.peer != us then all == Stomped(EntryInMyRange)
              else Merging(all, result + [theirs], true, es, i, other, j + 1, us, None)
            else if mine.version >= theirs.version then
              if mine.version == theirs.version && !mine.Same(theirs) then all == Stomped(InconsistentEntry)
              else Merging(all, result + [mine], updated, es, i + 1, other, j + 1, us, Some(mine.peer))
            else if mine.peer == us then all == Stomped(NewerVersion)
            else Merging(all, result + [theirs], true, es, i + 1, other, j + 1, us, None)
  {
    var mine, theirs := es[i], other[j];
    RestStep(es, i, other, j, us, prev);
    if mine.token < theirs.token {
      PrependTwice(result, updated, mine, false, Rest(es, i + 1, other, j, us, Some(mine.peer)));
    } else if mine.token > theirs.token {
      PrependTwice(result, updated, theirs, true, Rest(es, i, other, j + 1, us, None));
    } else if mine.version >= theirs.version {
      PrependTwice(result, updated, mine, false, Rest(es, i + 1, other, j + 1, us, Some(mine.peer)));
    } else {
      PrependTwice(result, updated, theirs, true, Rest(es, i + 1, other, j + 1, us, None));
    }
  }

  lemma MergingEnds(all: MergeResult, result: seq<Entry>, updated: bool, es: seq<Entry>, i: nat, other: seq<Entry>,
                    j: nat,
                    us: Peer, prev: Option<Peer>)
    requires Merging(all, result, updated, es, i, other, j, us, prev) && (i == |es| || j == |other|)
    ensures j == |other| ==> all == Merged(result + es[i..], updated)
    ensures i == |es| ==> es[i..] == [] && all == Prepend(result, updated, Rest(es, |es|, other, j, us, prev))
  {
    RestEnds(es, i, other, j, us, prev);
  }

  lemma MergingStarts(es: seq<Entry>, other: seq<Entry>, us: Peer)
    ensures Merging(MergeEntries(es, other, us), [], false, es, 0, other, 0, us, None)
  {
    assert es[0..] == es && other[0..] == other;
  }

  /** entries.merge: the two-index walk over both lists. */
  method MergeLists(es: seq<Entry>, other: seq<Entry>, us: Peer) returns (r: MergeResult)
    ensures r == MergeEntries(es, other, us)
  {
    var result: seq<Entry>, updated: bool, previousOwner: Option<Peer> := [], false, None;
    ghost var all := MergeEntries(es, other, us);
    MergingStarts(es, other, us);
    var i: nat, j: nat := 0, 0;
    while i < |es| && j < |other|
      invariant Merging(all, result, updated, es, i, other, j, us, previousOwner)
    {
      var mine, theirs := es[i], other[j];
      MergingStep(all, result, updated, es, i, other, j, us, previousOwner);
      if mine.token < theirs.token {
        result, previousOwner, i := result + [mine], Some(mine.peer), i + 1;
      } else if mine.token > theirs.token {
        // insert, checking that a range owned by us hasn't been split
        if previousOwner == Some(us) && theirs.peer != us {
          return Stomped(EntryInMyRange);
        }
        result, updated, previousOwner, j := result + [theirs], true, None, j + 1;
      } else {
        if mine.version >= theirs.version {
          if mine.version == theirs.version && !mine.Same(theirs) {
            return Stomped(InconsistentEntry);
          }
          result, previousOwner := result + [mine], Some(mine.peer);
        } else {
          if mine.peer == us {
            return Stomped(NewerVersion);
          }
          result, updated, previousOwner := result + [theirs], true, None;
        }
        i, j := i + 1, j + 1;
      }
    }
    // One list is exhausted; copy over the rest of the other
    MergingEnds(all, result, updated, es, i, other, j, us, previousOwner);
    if j < |other| {
      r := CopyTheirs(es, other, j, us, result + es[i..], updated, previousOwner);
    } else {
      r := Merged(result + es[i..], updated);
    }
  }

  /** Their remaining entries once ours are exhausted. */
  method CopyTheirs(es: seq<Entry>, other: seq<Entry>, from: nat, us: Peer, result0: seq<Entry>, updated0: bool,
                    prev: Option<Peer>)
    returns (r: MergeResult)
    requires from <= |other|
    ensures r == Prepend(result0, updated0, Rest(es, |es|, other, from, us, prev))
  {
    var result, updated, previousOwner, j := result0, updated0, prev, from;
    ghost var all := Prepend(result0, updated0, Rest(es, |es|, other, from, us, prev));
    while j < |other|
      invariant from <= j <= |other|
      invariant all == Prepend(result, updated, Rest(es, |es|, other, j, us, previousOwner))
    {
      var theirs := other[j];
      RestEnds(es, |es|, other, j, us, previousOwner);
      if previousOwner == Some(us) && theirs.peer != us {
        return Stomped(EntryInMyRange);
      }
      PrependTwice(result, updated, theirs, true, Rest(es, |es|, other, j + 1, us, None));
      result, updated, previousOwner, j := result + [theirs], true, None, j + 1;
    }
    RestEnds(es, |es|, other, j, us, previousOwner);
    r := Merged(result, updated);
  }
}
