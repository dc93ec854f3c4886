/** All peers together: each has a ring, a space and a table of its own, and sends its ring to
    the others.  A run is a sequence of actions of their allocators; every ring ever held may
    arrive anywhere, at any later time and any number of times. */
module Cluster {
  import Address
  import opened Boundaries
  import opened Holdings
  import opened RingEntries
  import opened RingOps
  import opened RingHistory
  import opened RingRuns
  import opened Actions

  /** The state of each peer, all rings ever held, and the peers that have shut down. */
  datatype System = System(states: map<Peer, State>, sent: set<Ring>, gone: set<Peer>)

  function StateOf(c: Setup, s: System, p: Peer): State {
    if p in s.states then s.states[p] else State(Ring(c.b, [], []), map[], [], [])
  }

  /** The names agreed on, in order, and the ring cut for them. */
  ghost predicate Agreed(c: Setup) {
    Address.Block(Address.Range(c.b.lo, c.b.hi)) && SeededBy(c.b, c.seed, c.peers, c.peers)
  }

  /** Peer p can do this and is then in state st: it makes the first ring for the names agreed
      on, in whatever order it has them, and merges rings that were sent. */
  ghost predicate Can(c: Setup, s: System, p: Peer, a: Action, st: State) {
    && p !in s.gone && Acts(p, StateOf(c, s, p), a, st)
    && (a.Creates? ==> forall q :: q in a.peers <==> q in c.peers)
    && (a.Updates? ==> a.gossip in s.sent)
  }

  function After(c: Setup, s: System, p: Peer, a: Action, st: State): System {
    System(s.states[p := st],
           if st.ring == StateOf(c, s, p).ring then s.sent else s.sent + {st.ring},
           if a.ShutsDown? then s.gone + {p} else s.gone)
  }

  ghost predicate Steps(c: Setup, s: System, s': System) {
    exists p, a, st :: Can(c, s, p, a, st) && s' == After(c, s, p, a, st)
  }

  ghost predicate Running(c: Setup, run: seq<System>) {
    && |run| > 0 && run[0] == System(map[], {}, {})
    && forall i :: 0 <= i < |run| - 1 ==> Steps(c, run[i], run[i + 1])
  }

  // ---------------------------------------------------------------- the rings of a run

  /** The network of rings that the system contains. */
  ghost predicate Shows(c: Setup, s: System, n: Net) {
    (forall p {:trigger StateOf(c, s, p)} :: StateOf(c, s, p).ring == RingOf(c, n, p)) && s.sent == n.sent
  }

  /** All that is known of a system: its rings are those of a run of rings, and those who have
      not shut down have ring, space and table in step. */
  ghost predicate Good(c: Setup, s: System, rings: seq<Net>) {
    && IsRun(c, rings) && Shows(c, s, rings[|rings| - 1])
    && forall p {:trigger StateOf(c, s, p)} :: p !in s.gone ==> Fits(p, StateOf(c, s, p))
  }

  lemma AgreedSeedsWell(c: Setup)
    requires Agreed(c)
    ensures WellSeeded(c)
  {
    ClaimSeedsWell(c.b, c.seed, c.peers);
  }

  /** In every run the rings are valid and of the agreed range. */
  lemma RingIsValid(c: Setup, rings: seq<Net>, p: Peer)
    requires WellSeeded(c) && IsRun(c, rings)
    ensures var r := RingOf(c, rings[|rings| - 1], p); r.b == c.b && Valid(c.b, r.entries)
  {
    var n := rings[|rings| - 1];
    var g, h := RunInv(c, rings, |rings| - 1);
    RingOfIsCopy(c, n, h, p);
    RecordedValid(c.b, g, h, MapOf(c, n, p));
    ValidIffMapValid(c.b, RingOf(c, n, p).entries);
  }

  lemma Longer(c: Setup, rings: seq<Net>, p: Peer, step: Step, r: Ring) returns (rings': seq<Net>)
    requires IsRun(c, rings) && RingRuns.Takes(c, rings[|rings| - 1], p, step, r)
    ensures IsRun(c, rings') && rings'[|rings'| - 1] == Put(rings[|rings| - 1], p, r)
  {
    var n := rings[|rings| - 1];
    rings' := rings + [Put(n, p, r)];
    forall i | 0 <= i < |rings'| - 1 ensures Next(c, rings'[i], rings'[i + 1]) {
      if i < |rings| - 1 { assert Next(c, rings[i], rings[i + 1]); }
    }
  }

  /** A received ring takes nothing, so merging it keeps space and ring in step. */
  lemma SentTakesNothing(c: Setup, rings: seq<Net>, p: Peer, gossip: Ring)
    requires WellSeeded(c) && IsRun(c, rings) && gossip in rings[|rings| - 1].sent
    ensures var r := RingOf(c, rings[|rings| - 1], p);
            Received(r, gossip, p).b == r.b && TakesNothing(c.b, p, r.entries, Received(r, gossip, p).entries)
  {
    var n := rings[|rings| - 1];
    var r := RingOf(c, n, p);
    forall x: nat | Mine(c.b, p, r.entries, x) ensures Mine(c.b, p, Received(r, gossip, p).entries, x) {
      GossipTakesNothing(c, rings, |rings| - 1, p, gossip, x);
    }
  }

  /** An action that changes the ring is a step of a run of rings. */
  lemma ActIsStep(c: Setup, s: System, rings: seq<Net>, p: Peer, a: Action, st: State) returns (step: Step)
    requires Agreed(c) && Good(c, s, rings) && Can(c, s, p, a, st) && st.ring != StateOf(c, s, p).ring
    ensures RingRuns.Takes(c, rings[|rings| - 1], p, step, st.ring)
  {
    var n, st0 := rings[|rings| - 1], StateOf(c, s, p);
    AgreedSeedsWell(c);
    RingIsValid(c, rings, p);
    match a
    case Creates(peers) =>
      SameNamesSameRing(c.b, st.ring.entries, st.ring.seeds, peers, c.seed, c.peers, c.peers);
      step := Seed;
    case Updates(gossip) =>
      step := Receive(gossip);
    case Donates(chunk, to) =>
      DonatedFits(p, st0, chunk, to, st);
      step := Grant(chunk.start, chunk.end, to);
    case Reports =>
      var f := ReportedFits(c.b, p, st0.ring.entries, st.ring.entries, st0.ours, st0.free);
      step := Step.ReportFree(f);
    case ShutsDown(heir) =>
      step := HandOver(heir);
  }

  lemma FitKept(c: Setup, s: System, rings: seq<Net>, p: Peer, a: Action, st: State)
    requires Agreed(c) && Good(c, s, rings) && Can(c, s, p, a, st) && !a.ShutsDown?
    ensures Fits(p, st)
  {
    var n, st0 := rings[|rings| - 1], StateOf(c, s, p);
    AgreedSeedsWell(c);
    RingIsValid(c, rings, p);
    if a.Updates? {
      SentTakesNothing(c, rings, p, a.gossip);
    }
    ActKeepsFit(p, st0, a, st);
  }

  lemma ShowsKept(c: Setup, s: System, n: Net, p: Peer, a: Action, st: State)
    requires Shows(c, s, n)
    ensures if st.ring == StateOf(c, s, p).ring then Shows(c, After(c, s, p, a, st), n)
            else Shows(c, After(c, s, p, a, st), Put(n, p, st.ring))
  {
    var s' := After(c, s, p, a, st);
    forall q ensures StateOf(c, s', q) == if q == p then st else StateOf(c, s, q) { }
    forall q {
      OtherRings(c, n, p, st.ring, q);
    }
  }

  lemma StepKeepsGood(c: Setup, s: System, s': System, rings: seq<Net>) returns (rings': seq<Net>)
    requires Agreed(c) && Good(c, s, rings) && Steps(c, s, s')
    ensures Good(c, s', rings')
  {
    var p, a, st :| Can(c, s, p, a, st) && s' == After(c, s, p, a, st);
    rings' := rings;
    if st.ring != StateOf(c, s, p).ring {
      var step := ActIsStep(c, s, rings, p, a, st);
      rings' := Longer(c, rings, p, step, st.ring);
    }
    ShowsKept(c, s, rings[|rings| - 1], p, a, st);
    forall q | q !in s'.gone ensures Fits(q, StateOf(c, s', q)) {
      if q == p { FitKept(c, s, rings, p, a, st); } else { assert Fits(q, StateOf(c, s, q)); }
    }
  }

  lemma {:induction false} RunIsGood(c: Setup, run: seq<System>, i: nat) returns (rings: seq<Net>)
    requires Agreed(c) && Running(c, run) && i < |run|
    ensures Good(c, run[i], rings)
  {
    if i == 0 {
      rings := [Net(map[], {})];
      NothingFits(c);
    } else {
      rings := RunIsGood(c, run, i - 1);
      assert Steps(c, run[i - 1], run[i - 1 + 1]);
      rings := StepKeepsGood(c, run[i - 1], run[i], rings);
    }
  }

  lemma NothingFits(c: Setup)
    ensures forall p :: Fits(p, State(Ring(c.b, [], []), map[], [], []))
  {
  }

  // ---------------------------------------------------------------- theorems

  /** At every point of every run each peer that has not shut down has its space in step with its
      ring and its table, with no address of the universe held twice. */
  lemma AlwaysInStep(c: Setup, run: seq<System>, i: nat, p: Peer)
    requires Agreed(c) && Running(c, run) && i < |run| && p !in run[i].gone
    ensures Fits(p, StateOf(c, run[i], p))
  {
    var _ := RunIsGood(c, run, i);
  }

  /** At no point of any run is an address owned by two peers by their own rings, be they still
      there or gone. */
  lemma OneOwnerInSystem(c: Setup, run: seq<System>, i: nat, p: Peer, q: Peer, x: nat)
    requires Agreed(c) && Running(c, run) && i < |run|
    requires Mine(c.b, p, StateOf(c, run[i], p).ring.entries, x) && Mine(c.b, q, StateOf(c, run[i], q).ring.entries, x)
    ensures p == q
  {
    var rings := RunIsGood(c, run, i);
    AgreedSeedsWell(c);
    OneOwner(c, rings, |rings| - 1, p, q, x);
  }

  /** At no point of any run do containers on two peers hold the same address of the universe,
      nor is an address that is held on one peer free on another. */
  lemma NoAddressTwice(c: Setup, run: seq<System>, i: nat, p: Peer, q: Peer, x: nat)
    requires Agreed(c) && Running(c, run) && i < |run| && p != q && p !in run[i].gone && q !in run[i].gone
    requires c.b.lo <= x < c.b.hi && Held(StateOf(c, run[i], p).owned, x)
    ensures var st := StateOf(c, run[i], q); !Held(st.owned, x) && !Contains(st.ours, x) && !Contains(st.free, x)
  {
    var rings := RunIsGood(c, run, i);
    var n, a, b := rings[|rings| - 1], StateOf(c, run[i], p), StateOf(c, run[i], q);
    AgreedSeedsWell(c);
    RingIsValid(c, rings, p);
    RingIsValid(c, rings, q);
    assert Contains(a.ours, x);
    assert Mine(c.b, p, a.ring.entries, x);
    if Mine(c.b, q, b.ring.entries, x) {
      OneOwner(c, rings, |rings| - 1, p, q, x);
    }
  }
}
