/** The remaining changes a ring can undergo (ipam/ring/ring.go), on values: merging a
    gossiped ring, reporting free space, and handing over all ranges of a peer. */
module RingOps {
  import opened RingEntries
  import opened RingMerge

  /** A ring as it is held by a peer and sent in gossip. */
  datatype Ring = Ring(b: Bounds, entries: seq<Entry>, seeds: seq<Peer>)

  datatype MergeFailure = BadGossip | DifferentSeeds | DifferentRange | Stomping(error: MergeError) | BadResult

  datatype MergeOutcome = Accepted(ring: Ring, updated: bool) | Refused(failure: MergeFailure)

  /** Ring.Merge as called by peer us. */
  ghost function MergeRing(r: Ring, gossip: Ring, us: Peer): MergeOutcome {
    if !Valid(gossip.b, gossip.entries) then Refused(BadGossip)
    else if gossip.seeds != [] && r.seeds != [] && gossip.seeds != r.seeds then Refused(DifferentSeeds)
    else if r.b != gossip.b then Refused(DifferentRange)
    else match MergeEntries(r.entries, gossip.entries, us)
      case Stomped(error) => Refused(Stomping(error))
      case Merged(entries, updated) =>
        if !Valid(r.b, entries) then Refused(BadResult)
        else Accepted(Ring(r.b, entries, if r.seeds == [] then gossip.seeds else r.seeds), updated)
  }

  /** When a ring is refused, for what, and what ours is otherwise. */
  ghost predicate Weighed(r: Ring, gossip: Ring, us: Peer, outcome: MergeOutcome) {
    var differ := gossip.seeds != [] && r.seeds != [] && gossip.seeds != r.seeds;
    && (outcome == Refused(BadGossip) <==> !Valid(gossip.b, gossip.entries))
    && (outcome == Refused(DifferentSeeds) <==> Valid(gossip.b, gossip.entries) && differ)
    && (outcome == Refused(DifferentRange) <==> Valid(gossip.b, gossip.entries) && !differ && gossip.b != r.b)
    && (Valid(gossip.b, gossip.entries) && !differ && gossip.b == r.b ==>
         && (Stomps(r.entries, gossip.entries, us, None) <==> outcome.Refused? && outcome.failure.Stomping?)
         && (outcome.Refused? && outcome.failure.Stomping? ==>
               StompedFor(r.entries, gossip.entries, us, None, outcome.failure.error)))
    && (outcome.Accepted? ==>
         && ToMap(outcome.ring.entries) == Join(ToMap(r.entries), ToMap(gossip.entries))
         && (outcome.updated <==> outcome.ring.entries != r.entries)
         && outcome.ring.b == r.b && outcome.ring.seeds == if r.seeds == [] then gossip.seeds else r.seeds)
  }

  lemma MergeWeighed(r: Ring, gossip: Ring, us: Peer)
    requires Valid(r.b, r.entries)
    ensures Weighed(r, gossip, us, MergeRing(r, gossip, us))
  {
    if Valid(gossip.b, gossip.entries) {
      StompedIffStomps(r.entries, gossip.entries, us, None);
      if MergeEntries(r.entries, gossip.entries, us).Merged? {
        MergeIsJoin(r.entries, gossip.entries, us);
      } else {
        StompedRightly(r.entries, gossip.entries, us, None);
      }
    }
  }

  /** A refused ring leaves ours as it was. */
  ghost function Received(r: Ring, gossip: Ring, p: Peer): Ring {
    match MergeRing(r, gossip, p)
    case Accepted(merged, _) => merged
    case Refused(_) => r
  }

  // ---------------------------------------------------------------- entrywise changes

  function ReportEntry(e: Entry, free: map<nat, nat>): Entry {
    if e.token in free && free[e.token] != e.free then e.Update(e.peer, free[e.token]) else e
  }

  /** The entries after reporting free space; unchanged counts make no new version. */
  function Report(es: seq<Entry>, free: map<nat, nat>): seq<Entry> {
    seq(|es|, i requires 0 <= i < |es| => ReportEntry(es[i], free))
  }

  /** The reported counts are for tokens of ours and fit their ranges. */
  ghost predicate Reportable(b: Bounds, us: Peer, m: RingMap, free: map<nat, nat>) {
    forall t :: t in free ==>
      t in m && m[t].peer == us && forall n :: IsNext(m.Keys, t, n) ==> free[t] <= Distance(b, t, n)
  }

  function TransferEntry(e: Entry, from: Peer, to: Peer): Entry {
    if e.peer == from then e.Update(to, e.free) else e
  }

  /** The entries after all ranges of `from` have been given to `to`. */
  function Transferred(es: seq<Entry>, from: Peer, to: Peer): seq<Entry> {
    seq(|es|, i requires 0 <= i < |es| => TransferEntry(es[i], from, to))
  }

  /** Entrywise changes keep the tokens and their order. */
  lemma SameTokens(es: seq<Entry>, es': seq<Entry>)
    requires Sorted(es) && |es'| == |es|
    requires forall i :: 0 <= i < |es| ==> es'[i].token == es[i].token
    ensures Sorted(es') && ToMap(es').Keys == ToMap(es).Keys
  {
    forall t | t in ToMap(es) ensures t in ToMap(es') {
      var i := MapIndex(es, t);
      MapAt(es', i);
    }
    forall t | t in ToMap(es') ensures t in ToMap(es) {
      var i := MapIndex(es', t);
      MapAt(es, i);
    }
  }

  /** Where a token's entry is found in two lists with the same tokens. */
  lemma SamePlace(es: seq<Entry>, es': seq<Entry>, t: nat) returns (i: nat)
    requires Sorted(es) && Sorted(es') && |es'| == |es| && t in ToMap(es)
    requires forall i :: 0 <= i < |es| ==> es'[i].token == es[i].token
    ensures i < |es| && es[i].token == t && ToMap(es)[t] == es[i] && t in ToMap(es') && ToMap(es')[t] == es'[i]
  {
    i := MapIndex(es, t);
    MapAt(es', i);
  }

  lemma ReportMap(es: seq<Entry>, free: map<nat, nat>)
    requires Sorted(es)
    ensures Sorted(Report(es, free))
    ensures var m, m' := ToMap(es), ToMap(Report(es, free));
            m'.Keys == m.Keys && forall t :: t in m ==> m'[t] == ReportEntry(m[t], free)
  {
    SameTokens(es, Report(es, free));
    var m, m' := ToMap(es), ToMap(Report(es, free));
    forall t | t in m ensures m'[t] == ReportEntry(m[t], free) {
      var i := SamePlace(es, Report(es, free), t);
    }
  }

  lemma TransferMap(es: seq<Entry>, from: Peer, to: Peer)
    requires Sorted(es)
    ensures Sorted(Transferred(es, from, to))
    ensures var m, m' := ToMap(es), ToMap(Transferred(es, from, to));
            m'.Keys == m.Keys && forall t :: t in m ==> m'[t] == TransferEntry(m[t], from, to)
  {
    SameTokens(es, Transferred(es, from, to));
    var m, m' := ToMap(es), ToMap(Transferred(es, from, to));
    forall t | t in m ensures m'[t] == TransferEntry(m[t], from, to) {
      var i := SamePlace(es, Transferred(es, from, to), t);
    }
  }

  lemma ReportedMapValid(b: Bounds, us: Peer, m: RingMap, m': RingMap, free: map<nat, nat>)
    requires MapValid(b, m) && Reportable(b, us, m, free)
    requires m'.Keys == m.Keys && forall t :: t in m ==> m'[t] == ReportEntry(m[t], free)
    ensures LocalChange(us, m, m') && MapValid(b, m')
  {
    forall t, n | t in m' && IsNext(m'.Keys, t, n) ensures m'[t].free <= Distance(b, t, n) {
      assert IsNext(m.Keys, t, n);
    }
  }

  /** Reporting free space is a change to our own entries and keeps the ring valid. */
  lemma ReportIsLocal(b: Bounds, us: Peer, es: seq<Entry>, free: map<nat, nat>)
    requires Valid(b, es) && Reportable(b, us, ToMap(es), free)
    ensures Sorted(Report(es, free)) && LocalChange(us, ToMap(es), ToMap(Report(es, free)))
    ensures MapValid(b, ToMap(Report(es, free)))
  {
    ReportMap(es, free);
    ValidIffMapValid(b, es);
    ReportedMapValid(b, us, ToMap(es), ToMap(Report(es, free)), free);
  }

  /** Handing over our own ranges is a change to our own entries and keeps the ring valid. */
  lemma HandOverIsLocal(b: Bounds, us: Peer, es: seq<Entry>, to: Peer)
    requires Valid(b, es)
    ensures Sorted(Transferred(es, us, to)) && LocalChange(us, ToMap(es), ToMap(Transferred(es, us, to)))
    ensures MapValid(b, ToMap(Transferred(es, us, to)))
  {
    TransferMap(es, us, to);
    ValidIffMapValid(b, es);
  }
}
