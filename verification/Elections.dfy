/** The whole way from the election to the rings (ipam/allocator.go, ipam/paxos/paxos.go): each
    peer makes its first ring of the names that it sees a consensus on.  No address gets two
    owners, and no two containers hold one, in any election and any run after it, if and only if
    a quorum is the whole group. */
module Elections {
  import opened Address
  import Basics
  import opened Boundaries
  import Cidrs
  import opened Holdings
  import opened RingEntries
  import opened RingOps
  import RingRanges
  import RingRuns
  import Seeding
  import opened Paxos
  import PaxosRuns
  import PaxosOrigins
  import opened Actions
  import opened Cluster

  /** Node n sees a consensus on v at this time of the election. */
  ghost predicate SeesAt(g: PaxosRuns.Group, votes: seq<PaxosRuns.Net>, n: NodeID, i: nat, v: AcceptedValue) {
    n in g.nodes && i < |votes| && Sees(PaxosRuns.KnowsOf(votes[i], n), g.quorum, v)
  }

  /** At some time of the election the peer sees a consensus on these names. */
  ghost predicate Elected(g: PaxosRuns.Group, votes: seq<PaxosRuns.Net>, p: Peer, peers: seq<Peer>) {
    exists n, i, v :: SeesAt(g, votes, n, i, v) && n.name == p && v.value == peers
  }

  /** Only the range matters before there is a ring. */
  function Unseeded(b: Bounds): RingRuns.Setup {
    RingRuns.Setup(b, [], [])
  }

  /** As in any run of the system, but the first ring is made of the names elected. */
  ghost predicate CanElected(b: Bounds, g: PaxosRuns.Group, votes: seq<PaxosRuns.Net>, s: System, p: Peer, a: Action,
                             st: State) {
    && p !in s.gone && Acts(p, StateOf(Unseeded(b), s, p), a, st)
    && (a.Creates? ==> Elected(g, votes, p, a.peers))
    && (a.Updates? ==> a.gossip in s.sent)
  }

  ghost predicate StepsElected(b: Bounds, g: PaxosRuns.Group, votes: seq<PaxosRuns.Net>, s: System, s': System) {
    exists p, a, st :: CanElected(b, g, votes, s, p, a, st) && s' == After(Unseeded(b), s, p, a, st)
  }

  ghost predicate RunningElected(b: Bounds, g: PaxosRuns.Group, votes: seq<PaxosRuns.Net>, run: seq<System>) {
    && |run| > 0 && run[0] == System(map[], {}, {})
    && forall i :: 0 <= i < |run| - 1 ==> StepsElected(b, g, votes, run[i], run[i + 1])
  }

  /** By its own ring, p is the owner of x. */
  ghost predicate Owns(b: Bounds, s: System, p: Peer, x: nat) {
    Mine(b, p, StateOf(Unseeded(b), s, p).ring.entries, x)
  }

  /** A container on p, which has not shut down, holds the address x of the universe. */
  ghost predicate Holds(b: Bounds, s: System, p: Peer, x: nat) {
    p !in s.gone && b.lo <= x < b.hi && Held(StateOf(Unseeded(b), s, p).owned, x)
  }

  /** No election and no run after it leads to an address with two owners. */
  ghost predicate NeverTwoOwners(b: Bounds, g: PaxosRuns.Group) {
    forall votes, run, i, p, q, x ::
      (&& PaxosRuns.IsElection(g, votes) && RunningElected(b, g, votes, run) && 0 <= i < |run|
       && Owns(b, run[i], p, x) && Owns(b, run[i], q, x)) ==> p == q
  }

  /** No election and no run after it leads to containers on two peers with the same address. */
  ghost predicate NeverHeldTwice(b: Bounds, g: PaxosRuns.Group) {
    forall votes, run, i, p, q, x ::
      (&& PaxosRuns.IsElection(g, votes) && RunningElected(b, g, votes, run) && 0 <= i < |run|
       && Holds(b, run[i], p, x) && Holds(b, run[i], q, x)) ==> p == q
  }

  /** No two nodes of the group have the same name. */
  ghost predicate OneEach(g: PaxosRuns.Group) {
    forall n, m :: n in g.nodes && m in g.nodes && n.name == m.name ==> n == m
  }

  // ---------------------------------------------------------------- a quorum is everybody

  /** The ring that is made of the names. */
  ghost function RingFor(b: Bounds, peers: seq<Peer>): RingRuns.Setup
    requires b.lo <= b.hi && peers != []
  {
    Seeding.SortedPeersFacts(peers);
    Seeding.DistinctFacts(Seeding.SortedPeers(peers));
    var seeds := Seeding.Distinct(Seeding.SortedPeers(peers));
    RingRuns.Setup(b, seeds, Seeding.Subdivided(b.lo, b.hi - b.lo, seeds, 0, |seeds|))
  }

  lemma RingForSeeded(b: Bounds, peers: seq<Peer>)
    requires b.lo <= b.hi && peers != []
    ensures var c := RingFor(b, peers);
            c.b == b && SeededBy(b, c.seed, c.peers, peers) && |c.peers| <= |peers|
  {
    Seeding.SortedPeersFacts(peers);
    Seeding.DistinctFacts(Seeding.SortedPeers(peers));
  }

  lemma RingForAgreed(b: Bounds, peers: seq<Peer>)
    requires Block(Range(b.lo, b.hi)) && peers != []
    ensures Agreed(RingFor(b, peers)) && RingFor(b, peers).b == b
  {
    RingForSeeded(b, peers);
  }

  /** All elected lists are the same. */
  lemma ElectedAgree(g: PaxosRuns.Group, votes: seq<PaxosRuns.Net>, p: Peer, peers: seq<Peer>, q: Peer,
                     peers': seq<Peer>)
    requires PaxosRuns.WellFormed(g) && g.quorum >= |g.nodes| && PaxosRuns.IsRun(g, votes)
    requires Elected(g, votes, p, peers) && Elected(g, votes, q, peers')
    ensures peers == peers'
  {
    var n, i, v :| SeesAt(g, votes, n, i, v) && n.name == p && v.value == peers;
    var m, j, w :| SeesAt(g, votes, m, j, w) && m.name == q && w.value == peers';
    PaxosOrigins.SeenValuesAgree(g, votes, i, j, n, m, v, w);
  }

  /** The agreement behind an election: the ring of the names elected, or any if there are none. */
  lemma AgreementOf(b: Bounds, g: PaxosRuns.Group, votes: seq<PaxosRuns.Net>) returns (c: RingRuns.Setup)
    requires Block(Range(b.lo, b.hi))
    requires PaxosRuns.WellFormed(g) && g.quorum >= |g.nodes| && PaxosRuns.IsRun(g, votes)
    ensures Agreed(c) && c.b == b
    ensures forall p, peers :: Elected(g, votes, p, peers) && peers != [] ==> forall q :: q in peers <==> q in c.peers
  {
    if p, peers :| Elected(g, votes, p, peers) && peers != [] {
      c := RingFor(b, peers);
      RingForAgreed(b, peers);
      RingForSeeded(b, peers);
      forall p', peers' | Elected(g, votes, p', peers') && peers' != []
        ensures forall q :: q in peers' <==> q in c.peers {
        ElectedAgree(g, votes, p, peers, p', peers');
      }
    } else {
      c := RingFor(b, [UNKNOWN_PEER]);
      RingForAgreed(b, [UNKNOWN_PEER]);
    }
  }

  lemma SameStates(c: RingRuns.Setup, b: Bounds, s: System, p: Peer, a: Action, st: State)
    requires c.b == b
    ensures StateOf(c, s, p) == StateOf(Unseeded(b), s, p)
    ensures After(c, s, p, a, st) == After(Unseeded(b), s, p, a, st)
  {
  }

  lemma NamesNotEmpty(us: Peer, s: State, a: Action, st: State)
    requires Acts(us, s, a, st) && a.Creates?
    ensures a.peers != []
  {
    assert st.ring.seeds[0] in st.ring.seeds;
  }

  /** A step after an election is a step under the agreement. */
  lemma ElectedStep(b: Bounds, g: PaxosRuns.Group, votes: seq<PaxosRuns.Net>, c: RingRuns.Setup, s: System, s': System)
    requires c.b == b && StepsElected(b, g, votes, s, s')
    requires forall p, peers :: Elected(g, votes, p, peers) && peers != [] ==> forall q :: q in peers <==> q in c.peers
    ensures Steps(c, s, s')
  {
    var p, a, st :| CanElected(b, g, votes, s, p, a, st) && s' == After(Unseeded(b), s, p, a, st);
    SameStates(c, b, s, p, a, st);
    if a.Creates? { NamesNotEmpty(p, StateOf(c, s, p), a, st); }
    assert Can(c, s, p, a, st);
  }

  lemma ElectedIsRunning(b: Bounds, g: PaxosRuns.Group, votes: seq<PaxosRuns.Net>, c: RingRuns.Setup, run: seq<System>)
    requires c.b == b && RunningElected(b, g, votes, run)
    requires forall p, peers :: Elected(g, votes, p, peers) && peers != [] ==> forall q :: q in peers <==> q in c.peers
    ensures Running(c, run)
  {
    forall i | 0 <= i < |run| - 1 ensures Steps(c, run[i], run[i + 1]) {
      ElectedStep(b, g, votes, c, run[i], run[i + 1]);
    }
  }

  lemma EverybodyElects(b: Bounds, g: PaxosRuns.Group)
    requires Block(Range(b.lo, b.hi)) && PaxosRuns.WellFormed(g) && g.quorum >= |g.nodes|
    ensures NeverTwoOwners(b, g) && NeverHeldTwice(b, g)
  {
    forall votes, run, i, p, q, x |
      PaxosRuns.IsElection(g, votes) && RunningElected(b, g, votes, run) && 0 <= i < |run| && p != q
      ensures !(Owns(b, run[i], p, x) && Owns(b, run[i], q, x))
      ensures !(Holds(b, run[i], p, x) && Holds(b, run[i], q, x))
    {
      PaxosRuns.ElectionIsRun(g, votes);
      ElectedIsSafe(b, g, votes, run, i, p, q, x);
    }
  }

  lemma ElectedIsSafe(b: Bounds, g: PaxosRuns.Group, votes: seq<PaxosRuns.Net>, run: seq<System>, i: nat, p: Peer,
                      q: Peer, x: nat)
    requires Block(Range(b.lo, b.hi)) && PaxosRuns.WellFormed(g) && g.quorum >= |g.nodes|
    requires PaxosRuns.IsRun(g, votes) && RunningElected(b, g, votes, run) && i < |run| && p != q
    ensures !(Owns(b, run[i], p, x) && Owns(b, run[i], q, x))
    ensures !(Holds(b, run[i], p, x) && Holds(b, run[i], q, x))
  {
    var c := AgreementOf(b, g, votes);
    ElectedIsRunning(b, g, votes, c, run);
    assert StateOf(c, run[i], p) == StateOf(Unseeded(b), run[i], p);
    assert StateOf(c, run[i], q) == StateOf(Unseeded(b), run[i], q);
    if Owns(b, run[i], p, x) && Owns(b, run[i], q, x) { OneOwnerInSystem(c, run, i, p, q, x); }
    if Holds(b, run[i], p, x) && Holds(b, run[i], q, x) { NoAddressTwice(c, run, i, p, q, x); }
  }

  // ---------------------------------------------------------------- a quorum can miss a node

  /** Every union of ranges is the set of some array. */
  lemma {:induction false} ArrayOf(rs: seq<Range>) returns (a: seq<nat>)
    requires forall r :: r in rs ==> r.start < r.end
    ensures WellFormed(a) && forall x: nat :: Contains(a, x) <==> Covers(rs, x)
  {
    if rs == [] {
      a := [];
    } else {
      var r, front := rs[|rs| - 1], rs[..|rs| - 1];
      var f := ArrayOf(front);
      a := SplicedOf(f, r, 0);
      assert rs == front + [r];
      forall x: nat ensures Contains(a, x) <==> Covers(rs, x) {
        CoversAppend(front, r, x);
      }
    }
  }

  lemma SplicedOf(a: seq<nat>, r: Range, sense: nat) returns (u: seq<nat>)
    requires WellFormed(a) && r.start < r.end && sense < 2
    ensures WellFormed(u) && forall x: nat :: Contains(u, x) <==> if r.Contains(x) then sense == 0 else Contains(a, x)
  {
    var i, j := FirstGreaterOrEq(a, r.start), FirstGreater(a, r.end);
    FirstGreaterOrEqFound(a, r.start);
    FirstGreaterFound(a, r.end);
    assert Positions(a, i, j, r.start, r.end);
    u := Splice(a, i, j, r.start, r.end, sense);
    SpliceWellFormed(a, i, j, r.start, r.end, sense);
    forall x: nat ensures Contains(u, x) <==> if r.Contains(x) then sense == 0 else Contains(a, x) {
      SpliceMeaning(a, i, j, r.start, r.end, sense, x);
    }
  }

  lemma OwnedAreMine(b: Bounds, us: Peer, es: seq<Entry>, x: nat)
    requires Valid(b, es) && b.lo < b.hi
    ensures RingRanges.Ascending(RingRanges.OwnedRanges(b, es, us), b.lo, b.hi)
    ensures Covers(RingRanges.OwnedRanges(b, es, us), x) <==> Mine(b, us, es, x)
  {
    RingRanges.OwnedRangesExact(b, es, us, b.lo);
    if b.lo <= x < b.hi { RingRanges.OwnedRangesExact(b, es, us, x); }
    CoveredIsMine(b, us, es, RingRanges.OwnedRanges(b, es, us), x);
  }

  lemma OwnedNotEmpty(b: Bounds, us: Peer, es: seq<Entry>)
    requires Valid(b, es) && b.lo < b.hi
    ensures forall r :: r in RingRanges.OwnedRanges(b, es, us) ==> r.start < r.end
  {
    OwnedAreMine(b, us, es, b.lo);
  }

  /** The space that a first ring gives us. */
  lemma SpaceFor(b: Bounds, us: Peer, es: seq<Entry>) returns (free: seq<nat>)
    requires Valid(b, es) && b.lo < b.hi
    ensures WellFormed(free) && forall x: nat :: Contains(free, x) <==> Mine(b, us, es, x)
  {
    var ranges := RingRanges.OwnedRanges(b, es, us);
    OwnedNotEmpty(b, us, es);
    free := ArrayOf(ranges);
    forall x: nat ensures Contains(free, x) <==> Mine(b, us, es, x) {
      OwnedAreMine(b, us, es, x);
    }
  }

  lemma RingForValid(b: Bounds, peers: seq<Peer>)
    requires Block(Range(b.lo, b.hi)) && peers != []
    ensures var c := RingFor(b, peers); Valid(b, c.seed) && c.seed != [] && SeededBy(b, c.seed, c.peers, peers)
  {
    var c := RingFor(b, peers);
    RingForSeeded(b, peers);
    Seeding.SeededRing(b, c.peers, c.seed);
  }

  lemma CreationOf(b: Bounds, us: Peer, peers: seq<Peer>, es: seq<Entry>, seeds: seq<Peer>) returns (st: State)
    requires b.lo < b.hi && Valid(b, es) && es != [] && SeededBy(b, es, seeds, peers)
    ensures Acts(us, State(Ring(b, [], []), map[], [], []), Creates(peers), st) && st.ring == Ring(b, es, seeds)
    ensures st.ours == [] && WellFormed(st.free) && forall x: nat :: Contains(st.free, x) <==> Mine(b, us, es, x)
  {
    var free := SpaceFor(b, us, es);
    st := State(Ring(b, es, seeds), map[], [], free);
  }

  /** The state of a peer that has made its first ring of these names. */
  lemma Creation(b: Bounds, us: Peer, peers: seq<Peer>) returns (st: State)
    requires Block(Range(b.lo, b.hi)) && peers != []
    ensures Acts(us, State(Ring(b, [], []), map[], [], []), Creates(peers), st)
    ensures st.ring == Ring(b, RingFor(b, peers).seed, RingFor(b, peers).peers)
    ensures st.ours == [] && WellFormed(st.free) && forall x: nat :: Contains(st.free, x) <==>
            Mine(b, us, st.ring.entries, x)
  {
    var c := RingFor(b, peers);
    RingForValid(b, peers);
    st := CreationOf(b, us, peers, c.seed, c.peers);
  }

  lemma {:induction false} PeersOfAt(es: seq<Entry>, i: nat)
    requires i < |es|
    ensures |Seeding.PeersOf(es)| == |es| && Seeding.PeersOf(es)[i] == es[i].peer
  {
    if |es| > 1 { PeersOfAt(es[1..], if i > 0 then i - 1 else 0); }
  }

  lemma LastIsHighest(seeds: seq<Peer>, peers: seq<Peer>, p: Peer)
    requires Seeding.Rising(seeds) && (forall q :: q in seeds <==> q in peers)
    requires p in peers && forall q :: q in peers ==> q <= p
    ensures seeds != [] && seeds[|seeds| - 1] == p
  {
    assert p in seeds;
    var i :| 0 <= i < |seeds| && seeds[i] == p;
    assert seeds[|seeds| - 1] in seeds;
  }

  lemma LastEntryOwns(b: Bounds, es: seq<Entry>, x: nat)
    requires Sorted(es) && InBounds(b, es) && es != [] && x + 1 == b.hi
    ensures b.lo <= x && Owner(es, x) == es[|es| - 1].peer
  {
    var n := |es|;
    assert b.lo <= es[n - 1].token <= x;
    FirstAboveIs(es, x, n);
    assert Owner(es, x) == At(es, n - 1).peer;
  }

  lemma LastPeerOwns(b: Bounds, es: seq<Entry>, seeds: seq<Peer>, peers: seq<Peer>, p: Peer)
    requires Sorted(es) && InBounds(b, es) && es != [] && Seeding.PeersOf(es) == seeds
    requires Seeding.Rising(seeds) && (forall q :: q in seeds <==> q in peers)
    requires p in peers && forall q :: q in peers ==> q <= p
    ensures b.hi > 0 && Mine(b, p, es, b.hi - 1)
  {
    PeersOfAt(es, |es| - 1);
    LastIsHighest(seeds, peers, p);
    assert es[0].token < b.hi;
    LastEntryOwns(b, es, b.hi - 1);
  }

  lemma SeedsInOrder(b: Bounds, peers: seq<Peer>)
    requires Block(Range(b.lo, b.hi)) && 0 < |peers| <= b.hi - b.lo
    ensures var c := RingFor(b, peers);
            && Sorted(c.seed) && InBounds(b, c.seed) && c.seed != [] && Seeding.PeersOf(c.seed) == c.peers
            && Seeding.Rising(c.peers) && forall q :: q in c.peers <==> q in peers
  {
    var c := RingFor(b, peers);
    RingForSeeded(b, peers);
    Seeding.SeededRing(b, c.peers, c.seed);
  }

  /** The last of the names owns the last address. */
  lemma LastOwnsLast(b: Bounds, peers: seq<Peer>, p: Peer, es: seq<Entry>)
    requires Block(Range(b.lo, b.hi)) && |peers| <= b.hi - b.lo && p in peers && forall q :: q in peers ==> q <= p
    requires es == RingFor(b, peers).seed
    ensures Mine(b, p, es, b.hi - 1)
  {
    SeedsInOrder(b, peers);
    LastPeerOwns(b, es, RingFor(b, peers).peers, peers, p);
  }

  /** A name of a higher node is not lower, and another one if names are not shared. */
  lemma NamesInOrder(g: PaxosRuns.Group, e: set<NodeID>, n: NodeID, value: Value)
    requires n in e && NamesOf(value, e) && forall i :: i in e ==> i == n || PaxosOrigins.Lower(i, n)
    ensures n.name in value && forall q :: q in value ==> q <= n.name
  {
    assert NameIn(e, n.name);
    forall q | q in value ensures q <= n.name {
      assert NameIn(e, q);
    }
  }

  /** The state of a peer that then gives an address to a container. */
  lemma Allocation(us: Peer, st: State, a: Action) returns (st': State)
    requires a.Allocates? && st.ring.b.lo <= a.cidr.addr < st.ring.b.hi
    requires WellFormed(st.ours) && WellFormed(st.free) && Contains(st.free, a.cidr.addr)
    ensures Acts(us, st, a, st') && Held(st'.owned, a.cidr.addr)
  {
    var x, name := a.cidr.addr, FiledUnder(a.ident, a.cidr.addr);
    var ours := SplicedOf(st.ours, Range(x, x + 1), 0);
    var free := SplicedOf(st.free, Range(x, x + 1), 1);
    st' := State(st.ring, Added(st.owned, name, a.cidr, a.isContainer), ours, free);
    AddedHeld(st.owned, name, a.cidr, a.isContainer, x);
  }

  lemma GoesOn(b: Bounds, g: PaxosRuns.Group, votes: seq<PaxosRuns.Net>, run: seq<System>, p: Peer, a: Action,
               st: State)
    returns (run': seq<System>)
    requires RunningElected(b, g, votes, run) && CanElected(b, g, votes, run[|run| - 1], p, a, st) && !a.ShutsDown?
    ensures RunningElected(b, g, votes, run') && run'[|run'| - 1] == After(Unseeded(b), run[|run| - 1], p, a, st)
  {
    var s := run[|run| - 1];
    run' := run + [After(Unseeded(b), s, p, a, st)];
    assert StepsElected(b, g, votes, s, run'[|run|]);
    forall i | 0 <= i < |run'| - 1 ensures StepsElected(b, g, votes, run'[i], run'[i + 1]) {
      if i < |run| - 1 { assert StepsElected(b, g, votes, run[i], run[i + 1]); }
    }
  }

  /** All but p have the same states. */
  ghost predicate OnlyActs(p: Peer, s: System, s': System) {
    s'.gone == s.gone && s'.states - {p} == s.states - {p}
  }

  lemma GetsRing(b: Bounds, g: PaxosRuns.Group, votes: seq<PaxosRuns.Net>, run: seq<System>, p: Peer, peers: seq<Peer>)
    returns (run': seq<System>)
    requires Block(Range(b.lo, b.hi)) && RunningElected(b, g, votes, run) && Elected(g, votes, p, peers) && peers != []
    requires p !in run[|run| - 1].states && p !in run[|run| - 1].gone
    ensures RunningElected(b, g, votes, run') && OnlyActs(p, run[|run| - 1], run'[|run'| - 1])
    ensures var st := StateOf(Unseeded(b), run'[|run'| - 1], p);
            && st.ring == Ring(b, RingFor(b, peers).seed, RingFor(b, peers).peers)
            && WellFormed(st.ours) && WellFormed(st.free)
            && forall x: nat :: Contains(st.free, x) <==> Mine(b, p, st.ring.entries, x)
  {
    var st := Creation(b, p, peers);
    run' := GoesOn(b, g, votes, run, p, Creates(peers), st);
    assert run'[|run'| - 1].states == run[|run| - 1].states[p := st];
  }

  lemma GetsAddress(b: Bounds, g: PaxosRuns.Group, votes: seq<PaxosRuns.Net>, run: seq<System>, p: Peer, x: nat)
    returns (run': seq<System>)
    requires RunningElected(b, g, votes, run) && p !in run[|run| - 1].gone && b.lo <= x < b.hi
    requires var st := StateOf(Unseeded(b), run[|run| - 1], p);
             st.ring.b == b && WellFormed(st.ours) && WellFormed(st.free) && Contains(st.free, x)
    ensures RunningElected(b, g, votes, run') && OnlyActs(p, run[|run| - 1], run'[|run'| - 1])
    ensures Holds(b, run'[|run'| - 1], p, x)
    ensures StateOf(Unseeded(b), run'[|run'| - 1], p).ring == StateOf(Unseeded(b), run[|run| - 1], p).ring
  {
    var s, a := run[|run| - 1], Allocates("container", Cidrs.CIDR(x, 32), true);
    var st := Allocation(p, StateOf(Unseeded(b), s, p), a);
    assert CanElected(b, g, votes, s, p, a, st);
    run' := GoesOn(b, g, votes, run, p, a, st);
    assert run'[|run'| - 1].states == s.states[p := st];
  }

  /** A peer with nothing makes its first ring, which gives it x, and a container on it gets x. */
  lemma CreateAndHold(b: Bounds, g: PaxosRuns.Group, votes: seq<PaxosRuns.Net>, run: seq<System>, p: Peer,
                      peers: seq<Peer>, x: nat)
    returns (run': seq<System>)
    requires Block(Range(b.lo, b.hi)) && RunningElected(b, g, votes, run) && Elected(g, votes, p, peers) && peers != []
    requires p !in run[|run| - 1].states && p !in run[|run| - 1].gone && Mine(b, p, RingFor(b, peers).seed, x)
    ensures RunningElected(b, g, votes, run') && OnlyActs(p, run[|run| - 1], run'[|run'| - 1])
    ensures Holds(b, run'[|run'| - 1], p, x)
    ensures StateOf(Unseeded(b), run'[|run'| - 1], p).ring == Ring(b, RingFor(b, peers).seed, RingFor(b, peers).peers)
  {
    var run1 := GetsRing(b, g, votes, run, p, peers);
    run' := GetsAddress(b, g, votes, run1, p, x);
  }

  lemma TwoHold(b: Bounds, g: PaxosRuns.Group, votes: seq<PaxosRuns.Net>, p: Peer, v: seq<Peer>, q: Peer, w: seq<Peer>,
                x: nat)
    returns (run: seq<System>, i: nat)
    requires Block(Range(b.lo, b.hi)) && p != q && v != [] && w != []
    requires Elected(g, votes, p, v) && Elected(g, votes, q, w)
    requires Mine(b, p, RingFor(b, v).seed, x) && Mine(b, q, RingFor(b, w).seed, x)
    ensures RunningElected(b, g, votes, run) && i < |run| && Holds(b, run[i], p, x) && Holds(b, run[i], q, x)
    ensures var s, c, d := run[i], RingFor(b, v), RingFor(b, w);
            && StateOf(Unseeded(b), s, p).ring == Ring(b, c.seed, c.peers)
            && StateOf(Unseeded(b), s, q).ring == Ring(b, d.seed, d.peers)
  {
    var run0 := [System(map[], {}, {})];
    var run1 := CreateAndHold(b, g, votes, run0, p, v, x);
    var s1 := run1[|run1| - 1];
    assert q !in s1.states - {p};
    run := CreateAndHold(b, g, votes, run1, q, w, x);
    i := |run| - 1;
    var s2 := run[i];
    assert p in s1.states - {q} && (s2.states - {q})[p] == (s1.states - {q})[p];
  }

  /** Two peers have different rings: both own x, containers on both have it, and each refuses the
      other's ring. */
  ghost predicate Split(b: Bounds, s: System, p: Peer, q: Peer, x: nat) {
    && p != q && Owns(b, s, p, x) && Owns(b, s, q, x) && Holds(b, s, p, x) && Holds(b, s, q, x)
    && var r, r' := StateOf(Unseeded(b), s, p).ring, StateOf(Unseeded(b), s, q).ring;
       MergeRing(r, r', p) == Refused(DifferentSeeds) && MergeRing(r', r, q) == Refused(DifferentSeeds)
  }

  /** At some time after the election two peers are split over x. */
  ghost predicate SplitAfter(b: Bounds, g: PaxosRuns.Group, votes: seq<PaxosRuns.Net>, run: seq<System>, i: nat,
                             p: Peer,
                             q: Peer, x: nat) {
    PaxosRuns.IsElection(g, votes) && RunningElected(b, g, votes, run) && i < |run| && Split(b, run[i], p, q, x)
  }

  lemma SplitRun(b: Bounds, g: PaxosRuns.Group, votes: seq<PaxosRuns.Net>, p: Peer, v: seq<Peer>, q: Peer,
                 w: seq<Peer>)
    returns (run: seq<System>, i: nat, x: nat)
    requires Block(Range(b.lo, b.hi)) && |v| <= b.hi - b.lo && |w| <= b.hi - b.lo
    requires PaxosRuns.IsElection(g, votes) && Elected(g, votes, p, v) && Elected(g, votes, q, w)
    requires p in v && (forall r :: r in v ==> r <= p) && q in w && (forall r :: r in w ==> r <= q) && q !in v
    ensures SplitAfter(b, g, votes, run, i, p, q, x)
  {
    LastOwnsLast(b, v, p, RingFor(b, v).seed);
    LastOwnsLast(b, w, q, RingFor(b, w).seed);
    x := b.hi - 1;
    run, i := TwoHold(b, g, votes, p, v, q, w, x);
    DifferentRings(b, v, w, p, q);
  }

  /** An election after which two peers go separate ways. */
  lemma SplitElection(b: Bounds, g: PaxosRuns.Group)
    returns (votes: seq<PaxosRuns.Net>, run: seq<System>, i: nat, p: Peer, q: Peer, x: nat)
    requires Block(Range(b.lo, b.hi)) && |g.nodes| <= b.hi - b.lo && OneEach(g)
    requires PaxosRuns.WellFormed(g) && g.quorum < |g.nodes|
    ensures SplitAfter(b, g, votes, run, i, p, q, x)
  {
    var e, n, m, v, w;
    votes, e, n, m, v, w := PaxosOrigins.CountingMisleads(g);
    p, q := n.name, m.name;
    assert SeesAt(g, votes, n, |votes| - 1, v) && SeesAt(g, votes, m, |votes| - 1, w);
    RivalNames(g, e, n, m, v, w);
    run, i, x := SplitRun(b, g, votes, p, v.value, q, w.value);
  }

  lemma SplitBreaks(b: Bounds, g: PaxosRuns.Group, votes: seq<PaxosRuns.Net>, run: seq<System>, i: nat, p: Peer,
                    q: Peer,
                    x: nat)
    requires SplitAfter(b, g, votes, run, i, p, q, x)
    ensures !NeverTwoOwners(b, g) && !NeverHeldTwice(b, g)
  {
  }

  lemma SomeAreMissed(b: Bounds, g: PaxosRuns.Group)
    requires Block(Range(b.lo, b.hi)) && |g.nodes| <= b.hi - b.lo && OneEach(g)
    requires PaxosRuns.WellFormed(g) && g.quorum < |g.nodes|
    ensures !NeverTwoOwners(b, g) && !NeverHeldTwice(b, g)
  {
    var votes, run, i, p, q, x := SplitElection(b, g);
    SplitBreaks(b, g, votes, run, i, p, q, x);
  }

  lemma RivalNames(g: PaxosRuns.Group, e: set<NodeID>, n: NodeID, m: NodeID, v: AcceptedValue, w: AcceptedValue)
    requires PaxosOrigins.Rivals(g, e, n, m, v, w) && OneEach(g)
    ensures n.name != m.name && n.name in v.value && m.name in w.value && m.name !in v.value
    ensures |v.value| <= |g.nodes| && |w.value| <= |g.nodes|
    ensures (forall q :: q in v.value ==> q <= n.name) && (forall q :: q in w.value ==> q <= m.name)
  {
    NamesInOrder(g, e, n, v.value);
    NamesInOrder(g, e + {m}, m, w.value);
    Basics.SubsetSize(e, g.nodes);
    Basics.SubsetSize(e + {m}, g.nodes);
  }

  /** Rings made of different names are refused for their seeds. */
  lemma DifferentRings(b: Bounds, v: seq<Peer>, w: seq<Peer>, p: Peer, q: Peer)
    requires Block(Range(b.lo, b.hi)) && v != [] && q in w && q !in v
    ensures var r, r' := Ring(b, RingFor(b, v).seed, RingFor(b, v).peers),
            Ring(b, RingFor(b, w).seed, RingFor(b, w).peers);
            MergeRing(r, r', p) == Refused(DifferentSeeds) && MergeRing(r', r, q) == Refused(DifferentSeeds)
  {
    var c, d := RingFor(b, v), RingFor(b, w);
    RingForSeeded(b, v);
    RingForSeeded(b, w);
    Seeding.SeededRing(b, c.peers, c.seed);
    Seeding.SeededRing(b, d.peers, d.seed);
    assert q in d.peers && q !in c.peers;
  }

  /** The allocator is safe from the election on just when a quorum is the whole group. */
  lemma NeverTwoOwnersIff(b: Bounds, g: PaxosRuns.Group)
    requires Block(Range(b.lo, b.hi)) && |g.nodes| <= b.hi - b.lo && OneEach(g) && PaxosRuns.WellFormed(g)
    ensures NeverTwoOwners(b, g) <==> g.quorum >= |g.nodes|
    ensures NeverHeldTwice(b, g) <==> g.quorum >= |g.nodes|
  {
    if g.quorum >= |g.nodes| {
      EverybodyElects(b, g);
    } else {
      SomeAreMissed(b, g);
    }
  }
}
