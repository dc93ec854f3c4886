/** One ballot of a Paxos group (ipam/paxos/paxos.go) as a part of a run: its proposer asks some
    nodes for their promises and then accepts its own proposal, with the newest value they
    have accepted.  A node thinks as soon as it has heard something; thinking that would
    change nothing is left out, and no node goes on hearing once it sees a consensus. */
module PaxosBallots {
  import opened Basics
  import opened Paxos
  import opened PaxosRuns

  // ---------------------------------------------------------------- what nodes can do

  ghost predicate Reachable(g: Group, s: Net) {
    exists run :: IsElection(g, run) && run[|run| - 1] == s
  }

  lemma Start(g: Group)
    ensures Reachable(g, Net(map[], {}))
  {
    var run := [Net(map[], {})];
    assert IsElection(g, run) && run[|run| - 1] == Net(map[], {});
  }

  lemma Moves(g: Group, s: Net, n: NodeID, step: Step, k: GossipState)
    requires Reachable(g, s) && Takes(g, s, n, step, k) && (step.Think? || !Decided(g, KnowsOf(s, n)))
    ensures Reachable(g, Put(s, n, k))
  {
    var run :| IsElection(g, run) && run[|run| - 1] == s;
    var run' := run + [Put(s, n, k)];
    forall i | 0 <= i < |run'| - 1 ensures NextVote(g, run'[i], run'[i + 1]) {
      if i < |run| - 1 { assert NextVote(g, run[i], run[i + 1]); }
    }
    assert IsElection(g, run') && run'[|run'| - 1] == Put(s, n, k);
  }

  lemma ReachableInv(g: Group, s: Net) returns (h: History)
    requires WellFormed(g) && Reachable(g, s)
    ensures Inv(g, s, h)
  {
    var run :| IsElection(g, run) && run[|run| - 1] == s;
    ElectionIsRun(g, run);
    h := RunInv(g, run, |run| - 1);
  }

  /** In k stands what i claims now. */
  ghost predicate Newest(s: Net, k: GossipState, i: NodeID) {
    i in k && Claiming(s, i, k[i])
  }

  ghost predicate FromEither(a: GossipState, b: GossipState, k: GossipState, i: NodeID) {
    i in k && ((i in a && k[i] == a[i]) || (i in b && k[i] == b[i]))
  }

  /** What n knows after it has heard m. */
  ghost predicate Informed(s: Net, n: NodeID, m: NodeID, k: GossipState) {
    && k.Keys == KnowsOf(s, n).Keys + KnowsOf(s, m).Keys
    && (n in k <==> n in KnowsOf(s, n)) && Own(k, n) == Own(KnowsOf(s, n), n)
    && Newest(s, k, m)
    && (forall i :: i in k ==> FromEither(KnowsOf(s, n), KnowsOf(s, m), k, i))
    && (forall i {:trigger Newest(s, k, i)} :: Newest(s, KnowsOf(s, n), i) ==> Newest(s, k, i))
  }

  function Heard(s: Net, n: NodeID, m: NodeID): Net {
    Put(s, n, Learn(KnowsOf(s, n), KnowsOf(s, m)))
  }

  /** Hearing what a node claims now does not make one forget. */
  lemma LearnNewest(g: Group, s: Net, h: History, a: GossipState, b: GossipState, i: NodeID)
    requires Chains(g, h) && NetInv(g, s, h) && Known(a, h) && Known(b, h) && (Newest(s, a, i) || Newest(s, b, i))
    ensures Newest(s, Learn(a, b), i)
  {
    KnowsIsKnown(g, s, h, i);
    var own := KnowsOf(s, i)[i];
    assert (i, own) in h;
    assert Current(KnowsOf(s, i), i, h);
    if i in a && i in b {
      MergeIsLater(a[i], own);
      MergeIsLater(b[i], own);
    }
  }

  lemma LearnFromEither(g: Group, h: History, a: GossipState, b: GossipState, i: NodeID)
    requires Chains(g, h) && Known(a, h) && Known(b, h) && (i in a || i in b)
    ensures FromEither(a, b, Learn(a, b), i)
  {
    if i in a && i in b {
      if Leads(a[i], b[i]) { MergeIsLater(a[i], b[i]); } else { MergeIsLater(b[i], a[i]); }
    }
  }

  lemma LearnInforms(g: Group, s: Net, h: History, n: NodeID, m: NodeID)
    requires Chains(g, h) && NetInv(g, s, h) && n in g.nodes && m in KnowsOf(s, m)
    ensures Informed(s, n, m, Learn(KnowsOf(s, n), KnowsOf(s, m)))
  {
    var a, b := KnowsOf(s, n), KnowsOf(s, m);
    KnowsIsKnown(g, s, h, n);
    KnowsIsKnown(g, s, h, m);
    assert Current(a, n, h);
    LearnKeepsOwn(h, a, b, n);
    assert Newest(s, b, m);
    LearnNewest(g, s, h, a, b, m);
    forall i | i in Learn(a, b) ensures FromEither(a, b, Learn(a, b), i) {
      LearnFromEither(g, h, a, b, i);
    }
    forall i | Newest(s, a, i) ensures Newest(s, Learn(a, b), i) {
      LearnNewest(g, s, h, a, b, i);
    }
  }

  lemma Hears(g: Group, s: Net, n: NodeID, m: NodeID)
    requires WellFormed(g) && Reachable(g, s) && n in g.nodes && m in KnowsOf(s, m) && !Decided(g, KnowsOf(s, n))
    ensures Reachable(g, Heard(s, n, m))
    ensures Informed(s, n, m, KnowsOf(Heard(s, n, m), n))
  {
    var h := ReachableInv(g, s);
    LearnInforms(g, s, h, n, m);
    assert KnowsOf(s, m) in s.sent;
    Moves(g, s, n, Hear(KnowsOf(s, m)), Learn(KnowsOf(s, n), KnowsOf(s, m)));
  }

  // ---------------------------------------------------------------- counting acceptances

  /** For each origin, the nodes that may have accepted a value of it. */
  type Acceptors = map<ProposalID, set<NodeID>>

  ghost predicate WithinAt(k: GossipState, a: Acceptors, i: NodeID) {
    i in k && k[i].accepted.Valid() ==> k[i].acceptedVal.origin in a && i in a[k[i].acceptedVal.origin]
  }

  ghost predicate Within(k: GossipState, a: Acceptors) {
    forall i {:trigger WithinAt(k, a, i)} :: WithinAt(k, a, i)
  }

  ghost predicate AllWithin(s: Net, q: set<NodeID>, a: Acceptors) {
    forall n {:trigger Within(KnowsOf(s, n), a)} :: n in q ==> Within(KnowsOf(s, n), a)
  }

  /** No origin has a quorum. */
  ghost predicate TooFew(g: Group, a: Acceptors) {
    forall o :: o in a ==> |a[o]| < g.quorum
  }

  function With(a: Acceptors, o: ProposalID, n: NodeID): Acceptors {
    a[o := (if o in a then a[o] else {}) + {n}]
  }

  lemma NoDecision(g: Group, k: GossipState, a: Acceptors)
    requires Within(k, a) && TooFew(g, a)
    ensures !Decided(g, k)
  {
    if v :| Sees(k, g.quorum, v) {
      var f := AcceptedFrom(k, v.origin);
      var i :| i in f && k[i].acceptedVal == v;
      assert forall j :: j in f ==> WithinAt(k, a, j);
      assert WithinAt(k, a, i);
      SubsetSize(f, a[v.origin]);
    }
  }

  lemma WithinMore(k: GossipState, a: Acceptors, a': Acceptors)
    requires Within(k, a) && forall o :: o in a ==> o in a' && a[o] <= a'[o]
    ensures Within(k, a')
  {
    forall i ensures WithinAt(k, a', i) { assert WithinAt(k, a, i); }
  }

  lemma InformedWithin(s: Net, n: NodeID, m: NodeID, k: GossipState, a: Acceptors)
    requires Informed(s, n, m, k) && Within(KnowsOf(s, n), a) && Within(KnowsOf(s, m), a)
    ensures Within(k, a)
  {
    forall i ensures WithinAt(k, a, i) {
      assert i in k ==> FromEither(KnowsOf(s, n), KnowsOf(s, m), k, i);
      assert WithinAt(KnowsOf(s, n), a, i) && WithinAt(KnowsOf(s, m), a, i);
    }
  }

  /** A node that only promises does not count as an acceptor. */
  lemma PromiseWithin(k: GossipState, n: NodeID, b: ProposalID, a: Acceptors)
    requires Within(k, a)
    ensures Within(k[n := Own(k, n).(promise := b)], a)
  {
    var k' := k[n := Own(k, n).(promise := b)];
    forall i ensures WithinAt(k', a, i) { assert WithinAt(k, a, i); }
  }

  lemma AcceptWithin(k: GossipState, n: NodeID, c: Claims, a: Acceptors)
    requires Within(k, a)
    ensures Within(k[n := c], With(a, c.acceptedVal.origin, n))
  {
    var k', a' := k[n := c], With(a, c.acceptedVal.origin, n);
    forall i ensures WithinAt(k', a', i) { assert WithinAt(k, a, i); }
  }

  lemma PutWithin(s: Net, s': Net, q: set<NodeID>, p: NodeID, a: Acceptors)
    requires AllWithin(s, q, a) && Within(KnowsOf(s', p), a)
    requires forall m {:trigger KnowsOf(s', m)} :: m != p ==> KnowsOf(s', m) == KnowsOf(s, m)
    ensures AllWithin(s', q, a)
  {
    forall n | n in q ensures Within(KnowsOf(s', n), a) {
      assert n != p ==> KnowsOf(s', n) == KnowsOf(s, n);
    }
  }

  // ---------------------------------------------------------------- thinking

  lemma Thinks(g: Group, s: Net, n: NodeID, p: ProposalID, c: Claims, c': Claims)
    requires Reachable(g, s) && n in g.nodes
    requires var k := KnowsOf(s, n);
             HighestPromise(k, Own(k, n), p) && Requested(n, g.quorum, k, Own(k, n), p, c) && Followed(k, c, c') &&
                 !c'.Same(Own(k, n))
    ensures Reachable(g, Put(s, n, KnowsOf(s, n)[n := c']))
  {
    var k := KnowsOf(s, n);
    assert ThinksTo(n, g.quorum, k, c');
    assert Takes(g, s, n, Think, k[n := c']);
    Moves(g, s, n, Think, k[n := c']);
  }

  /** No claim is newer than ballot b. */
  ghost predicate Upto(k: GossipState, b: ProposalID) {
    forall i :: i in k ==> AtMost(k[i].promise, b) && AtMost(k[i].accepted, b)
  }

  /** Nobody has accepted anything in ballot b or promised more. */
  ghost predicate Open(k: GossipState, b: ProposalID) {
    forall i :: i in k ==> AtMost(k[i].promise, b) && Precedes(k[i].accepted, b)
  }

  /** All claims are older than ballot b. */
  ghost predicate Under(k: GossipState, b: ProposalID) {
    forall i :: i in k ==> Precedes(k[i].promise, b) && Precedes(k[i].accepted, b)
  }

  lemma UptoUnder(k: GossipState, a: ProposalID, b: ProposalID)
    requires Upto(k, a) && Precedes(a, b)
    ensures Under(k, b)
  {
    forall i | i in k ensures Precedes(k[i].promise, b) && Precedes(k[i].accepted, b) {
      ProposalOrder(k[i].promise, a, b);
      ProposalOrder(k[i].accepted, a, b);
    }
  }

  lemma UptoLater(k: GossipState, a: ProposalID, b: ProposalID)
    requires Upto(k, a) && AtMost(a, b)
    ensures Upto(k, b)
  {
    if a != b { UptoUnder(k, a, b); }
  }

  /** A node that hears of a newer ballot promises it. */
  lemma Promises(g: Group, s: Net, n: NodeID, b: ProposalID, m: NodeID)
    requires Reachable(g, s) && n in g.nodes && b.proposer != n
    requires var k := KnowsOf(s, n);
             Open(k, b) && m in k && k[m].promise == b && Precedes(Own(k, n).promise, b)
    ensures Reachable(g, Put(s, n, KnowsOf(s, n)[n := Own(KnowsOf(s, n), n).(promise := b)]))
  {
    var k := KnowsOf(s, n);
    var c := Own(k, n).(promise := b);
    forall i | i in k ensures k[i].accepted != b { ProposalOrder(b, b, b); }
    ProposalOrder(b, b, b);
    Thinks(g, s, n, b, c, c);
  }

  ghost predicate NewestFor(k: GossipState, b: ProposalID, v: AcceptedValue) {
    exists a, u :: NewestAccepted(k, Promisers(k, b), a, u) && if a.Valid() then v == u
        else v.origin == b && PickedValue(k, v.value)
  }

  /** A proposer with a quorum of promises accepts its own proposal. */
  lemma Accepts(g: Group, s: Net, b: ProposalID, v: AcceptedValue)
    requires Reachable(g, s) && b.proposer in g.nodes
    requires var k := KnowsOf(s, b.proposer);
             && Open(k, b) && b.proposer in k && k[b.proposer].promise == b
             && |Promisers(k, b)| >= g.quorum && NewestFor(k, b, v)
    ensures Reachable(g, Put(s, b.proposer, KnowsOf(s, b.proposer)[b.proposer := Claims(b, b, v)]))
  {
    var k := KnowsOf(s, b.proposer);
    forall i | i in k ensures k[i].accepted != b { ProposalOrder(b, b, b); }
    assert Requested(b.proposer, g.quorum, k, Own(k, b.proposer), b, Claims(b, b, v));
    Thinks(g, s, b.proposer, b, Claims(b, b, v), Claims(b, b, v));
  }

  /** A node that has promised a ballot accepts it when it hears that another did. */
  lemma Follows(g: Group, s: Net, n: NodeID, b: ProposalID, m: NodeID)
    requires Reachable(g, s) && n in g.nodes && b.proposer != n
    requires var k := KnowsOf(s, n);
             Upto(k, b) && n in k && k[n].promise == b && k[n].accepted != b && m in k && k[m].accepted == b
    ensures Reachable(g, Put(s, n, KnowsOf(s, n)[n := Claims(b, b, KnowsOf(s, n)[m].acceptedVal)]))
  {
    var k := KnowsOf(s, n);
    Thinks(g, s, n, b, k[n], Claims(b, b, k[m].acceptedVal));
  }

  // ---------------------------------------------------------------- asking for promises

  /** Node n has promised b, and its proposer knows. */
  ghost predicate HasPromised(s0: Net, s: Net, b: ProposalID, n: NodeID) {
    && Claiming(s, n, Own(KnowsOf(s0, n), n).(promise := b))
    && Open(KnowsOf(s, n), b)
    && Newest(s, KnowsOf(s, b.proposer), n)
    && b.proposer in KnowsOf(s, n)
  }

  /** Whom a node can have heard of by asking the nodes in q. */
  ghost predicate Sourced(s0: Net, q: set<NodeID>, x: NodeID) {
    x in q || exists m :: m in q && x in KnowsOf(s0, m)
  }

  ghost predicate KnownFrom(s0: Net, s: Net, q: set<NodeID>, n: NodeID) {
    forall x :: x in KnowsOf(s, n) ==> Sourced(s0, q, x)
  }

  /** Node p knows of all that n knew of. */
  ghost predicate ToldBy(s0: Net, s: Net, p: NodeID, n: NodeID) {
    KnowsOf(s0, n).Keys <= KnowsOf(s, p).Keys
  }

  /** The nodes in done have been asked to promise b, the others have done nothing. */
  ghost predicate Asked(s0: Net, s: Net, b: ProposalID, q: set<NodeID>, done: set<NodeID>) {
    && b.proposer in done
    && (forall n {:trigger KnowsOf(s, n)} :: n !in done ==> KnowsOf(s, n) == KnowsOf(s0, n))
    && (forall n :: n in done ==> HasPromised(s0, s, b, n) && KnownFrom(s0, s, q, n) && ToldBy(s0, s, b.proposer, n))
    && Promisers(KnowsOf(s, b.proposer), b) == done
  }

  /** The proposer can get a quorum of promises for b. */
  ghost predicate Ready(g: Group, s: Net, b: ProposalID, q: set<NodeID>) {
    && WellFormed(g) && Reachable(g, s)
    && q <= g.nodes && |q| >= g.quorum && b.proposer in q && b.Valid()
    && HighestRound(KnowsOf(s, b.proposer), b.round - 1)
    && forall n :: n in q ==> Under(KnowsOf(s, n), b)
  }

  lemma ProposesFirst(g: Group, s0: Net, b: ProposalID, q: set<NodeID>, a: Acceptors) returns (s: Net)
    requires Ready(g, s0, b, q) && AllWithin(s0, q, a) && TooFew(g, a)
    ensures Reachable(g, s) && Asked(s0, s, b, q, {b.proposer}) && AllWithin(s, q, a)
  {
    var p := b.proposer;
    NoDecision(g, KnowsOf(s0, p), a);
    var k := KnowsOf(s0, p);
    var k' := k[p := Own(k, p).(promise := b)];
    assert Proposed(p, k, k');
    assert Takes(g, s0, p, Propose, k');
    Moves(g, s0, p, Propose, k');
    s := Put(s0, p, k');
    PromiseWithin(k, p, b, a);
    PutWithin(s0, s, q, p, a);
    assert Under(k, b);
    forall i | i in k' && k'[i].promise == b ensures i == p { ProposalOrder(b, b, b); }
  }

  /** Node n hears of b and promises it. */
  lemma AskOne(g: Group, s0: Net, s: Net, b: ProposalID, q: set<NodeID>, done: set<NodeID>, n: NodeID, a: Acceptors)
    returns (s1: Net, k1: GossipState)
    requires WellFormed(g) && Reachable(g, s) && q <= g.nodes && Asked(s0, s, b, q, done)
    requires n in q && n !in done && Under(KnowsOf(s0, n), b) && TooFew(g, a)
    requires Within(KnowsOf(s, n), a) && Within(KnowsOf(s, b.proposer), a)
    ensures Informed(s, n, b.proposer, k1) && Within(KnowsOf(s1, n), a)
    ensures s1 == Put(Put(s, n, k1), n, k1[n := Own(k1, n).(promise := b)]) && Reachable(g, s1)
  {
    var p := b.proposer;
    assert HasPromised(s0, s, b, p);
    NoDecision(g, KnowsOf(s, n), a);
    Hears(g, s, n, p);
    k1 := KnowsOf(Heard(s, n, p), n);
    InformedWithin(s, n, p, k1, a);
    forall i | i in k1 ensures AtMost(k1[i].promise, b) && Precedes(k1[i].accepted, b) {
      assert FromEither(KnowsOf(s, n), KnowsOf(s, p), k1, i);
    }
    assert Precedes(Own(k1, n).promise, b);
    Promises(g, Heard(s, n, p), n, b, p);
    s1 := Put(Heard(s, n, p), n, k1[n := Own(k1, n).(promise := b)]);
    PromiseWithin(k1, n, b, a);
  }

  /** What n knows when it has promised b. */
  ghost predicate Replying(s0: Net, s: Net, s1: Net, b: ProposalID, n: NodeID) {
    && (forall m {:trigger KnowsOf(s1, m)} :: m != n ==> KnowsOf(s1, m) == KnowsOf(s, m))
    && Claiming(s1, n, Own(KnowsOf(s0, n), n).(promise := b))
    && Open(KnowsOf(s1, n), b)
    && KnowsOf(s1, n).Keys == KnowsOf(s0, n).Keys + KnowsOf(s, b.proposer).Keys + {n}
    && Promisers(KnowsOf(s1, n), b) <= Promisers(KnowsOf(s, b.proposer), b) + {n}
  }

  lemma ReplyIsOpen(a: GossipState, d: GossipState, k1: GossipState, b: ProposalID, n: NodeID)
    requires Under(a, b) && Open(d, b) && (forall i :: i in k1 ==> FromEither(a, d, k1, i)) &&
             Own(k1, n) == Own(a, n) && Precedes(NO_PROPOSAL, b)
    ensures Open(k1[n := Own(k1, n).(promise := b)], b)
    ensures Promisers(k1[n := Own(k1, n).(promise := b)], b) <= Promisers(d, b) + {n}
  {
    var k := k1[n := Own(k1, n).(promise := b)];
    forall i | i in k
      ensures AtMost(k[i].promise, b) && Precedes(k[i].accepted, b) &&
              (k[i].promise == b ==> i == n || i in Promisers(d, b)) {
      if i != n {
        assert FromEither(a, d, k1, i);
        ProposalOrder(b, b, b);
      }
    }
  }

  lemma AskedReplies(s0: Net, s: Net, s1: Net, b: ProposalID, q: set<NodeID>, done: set<NodeID>, n: NodeID,
                     k1: GossipState)
    requires Asked(s0, s, b, q, done) && n !in done && Under(KnowsOf(s0, n), b) && b.Valid()
    requires Informed(s, n, b.proposer, k1) && s1 == Put(Put(s, n, k1), n, k1[n := Own(k1, n).(promise := b)])
    ensures Replying(s0, s, s1, b, n)
  {
    assert HasPromised(s0, s, b, b.proposer);
    assert KnowsOf(s, n) == KnowsOf(s0, n);
    ReplyIsOpen(KnowsOf(s0, n), KnowsOf(s, b.proposer), k1, b, n);
    forall m | m != n ensures KnowsOf(s1, m) == KnowsOf(s, m) { }
  }

  /** The proposer hears that n has promised, and comes to know k. */
  ghost predicate Reply(g: Group, s0: Net, s: Net, s1: Net, b: ProposalID, q: set<NodeID>, done: set<NodeID>, n: NodeID,
                        k: GossipState) {
    && q <= g.nodes && done <= q && Asked(s0, s, b, q, done)
    && n in q && n !in done && Replying(s0, s, s1, b, n)
    && Informed(s1, b.proposer, n, k)
  }

  lemma ReplyOpen(g: Group, s0: Net, s: Net, s1: Net, b: ProposalID, q: set<NodeID>, done: set<NodeID>, n: NodeID,
                  k: GossipState)
    requires Reply(g, s0, s, s1, b, q, done, n, k)
    ensures Open(k, b)
  {
    assert HasPromised(s0, s, b, b.proposer);
    forall i | i in k ensures AtMost(k[i].promise, b) && Precedes(k[i].accepted, b) {
      assert FromEither(KnowsOf(s1, b.proposer), KnowsOf(s1, n), k, i);
    }
  }

  lemma ReplyOwn(g: Group, s0: Net, s: Net, s1: Net, b: ProposalID, q: set<NodeID>, done: set<NodeID>, n: NodeID,
                 k: GossipState, m: NodeID)
    requires Reply(g, s0, s, s1, b, q, done, n, k) && m in done + {n}
    ensures Claiming(s1, m, Own(KnowsOf(s0, m), m).(promise := b)) && Newest(s1, k, m)
    ensures Open(KnowsOf(s1, m), b) && b.proposer in KnowsOf(s1, m)
  {
    assert HasPromised(s0, s, b, b.proposer);
    assert KnowsOf(s1, b.proposer) == KnowsOf(s, b.proposer);
    if m != n {
      assert HasPromised(s0, s, b, m);
      assert KnowsOf(s1, m) == KnowsOf(s, m);
      assert Newest(s1, KnowsOf(s1, b.proposer), m);
    }
  }

  /** The proposer does not change its own claims by hearing. */
  lemma PutKeeps(s: Net, p: NodeID, k: GossipState, m: NodeID, c: Claims)
    requires Claiming(s, m, c) && (p in k <==> p in KnowsOf(s, p)) && Own(k, p) == Own(KnowsOf(s, p), p)
    ensures Claiming(Put(s, p, k), m, c)
  {
    assert m != p ==> KnowsOf(Put(s, p, k), m) == KnowsOf(s, m);
  }

  lemma ReplyPromised(g: Group, s0: Net, s: Net, s1: Net, b: ProposalID, q: set<NodeID>, done: set<NodeID>, n: NodeID,
                      k: GossipState, m: NodeID)
    requires Reply(g, s0, s, s1, b, q, done, n, k) && m in done + {n}
    ensures HasPromised(s0, Put(s1, b.proposer, k), b, m)
  {
    ReplyOwn(g, s0, s, s1, b, q, done, n, k, m);
    ReplyOpen(g, s0, s, s1, b, q, done, n, k);
    PutKeeps(s1, b.proposer, k, m, k[m]);
    assert m != b.proposer ==> KnowsOf(Put(s1, b.proposer, k), m) == KnowsOf(s1, m);
  }

  lemma ReplyKnown(g: Group, s0: Net, s: Net, s1: Net, b: ProposalID, q: set<NodeID>, done: set<NodeID>, n: NodeID,
                   k: GossipState, m: NodeID)
    requires Reply(g, s0, s, s1, b, q, done, n, k) && m in done + {n}
    ensures KnownFrom(s0, Put(s1, b.proposer, k), q, m) && ToldBy(s0, Put(s1, b.proposer, k), b.proposer, m)
  {
    var p, s' := b.proposer, Put(s1, b.proposer, k);
    assert KnownFrom(s0, s, q, p);
    if m != n { assert KnownFrom(s0, s, q, m) && ToldBy(s0, s, p, m); }
    assert KnowsOf(s1, p) == KnowsOf(s, p);
    assert m != n ==> KnowsOf(s1, m) == KnowsOf(s, m);
    assert m != p ==> KnowsOf(s', m) == KnowsOf(s1, m);
    forall x | x in KnowsOf(s', m) ensures Sourced(s0, q, x) {
      assert x in KnowsOf(s, m) || x in KnowsOf(s0, n) || x in KnowsOf(s, p) || x == n;
    }
  }

  lemma ReplyCounts(g: Group, s0: Net, s: Net, s1: Net, b: ProposalID, q: set<NodeID>, done: set<NodeID>, n: NodeID,
                    k: GossipState)
    requires Reply(g, s0, s, s1, b, q, done, n, k)
    ensures Promisers(k, b) == done + {n}
  {
    forall i ensures i in Promisers(k, b) <==> i in done + {n} {
      if i in done + {n} { ReplyPromised(g, s0, s, s1, b, q, done, n, k, i); }
      if i in Promisers(k, b) {
        assert FromEither(KnowsOf(s1, b.proposer), KnowsOf(s1, n), k, i);
        assert KnowsOf(s1, b.proposer) == KnowsOf(s, b.proposer);
        assert i in Promisers(KnowsOf(s, b.proposer), b) || i in Promisers(KnowsOf(s1, n), b);
      }
    }
  }

  /** Its promise reaches the proposer. */
  lemma ReplyArrives(g: Group, s0: Net, s: Net, s1: Net, b: ProposalID, q: set<NodeID>, done: set<NodeID>, n: NodeID,
                     k: GossipState)
    requires Reply(g, s0, s, s1, b, q, done, n, k)
    ensures Asked(s0, Put(s1, b.proposer, k), b, q, done + {n})
  {
    var s' := Put(s1, b.proposer, k);
    forall m | m in done + {n}
      ensures HasPromised(s0, s', b, m) && KnownFrom(s0, s', q, m) && ToldBy(s0, s', b.proposer, m) {
      ReplyPromised(g, s0, s, s1, b, q, done, n, k, m);
      ReplyKnown(g, s0, s, s1, b, q, done, n, k, m);
    }
    ReplyCounts(g, s0, s, s1, b, q, done, n, k);
    forall m | m !in done + {n} ensures KnowsOf(s', m) == KnowsOf(s0, m) {
      assert KnowsOf(s1, m) == KnowsOf(s, m);
    }
  }

  lemma HearsWithin(g: Group, s: Net, n: NodeID, m: NodeID, q: set<NodeID>, a: Acceptors) returns (s': Net)
    requires WellFormed(g) && Reachable(g, s) && q <= g.nodes && n in q && m in q && m in KnowsOf(s, m)
    requires AllWithin(s, q, a) && TooFew(g, a)
    ensures s' == Put(s, n, KnowsOf(s', n)) && Reachable(g, s') && AllWithin(s', q, a)
    ensures Informed(s, n, m, KnowsOf(s', n))
  {
    NoDecision(g, KnowsOf(s, n), a);
    Hears(g, s, n, m);
    s' := Heard(s, n, m);
    InformedWithin(s, n, m, KnowsOf(s', n), a);
    PutWithin(s, s', q, n, a);
  }

  lemma AskStep(g: Group, s0: Net, s: Net, b: ProposalID, q: set<NodeID>, done: set<NodeID>, n: NodeID, a: Acceptors)
    returns (s': Net)
    requires WellFormed(g) && q <= g.nodes && b.Valid() && Reachable(g, s) && Asked(s0, s, b, q, done) && done <= q
    requires n in q && n !in done && Under(KnowsOf(s0, n), b) && AllWithin(s, q, a) && TooFew(g, a)
    ensures Reachable(g, s') && Asked(s0, s', b, q, done + {n}) && AllWithin(s', q, a)
  {
    var p := b.proposer;
    var s1, k1 := AskOne(g, s0, s, b, q, done, n, a);
    AskedReplies(s0, s, s1, b, q, done, n, k1);
    PutWithin(s, s1, q, n, a);
    s' := HearsWithin(g, s1, p, n, q, a);
    ReplyArrives(g, s0, s, s1, b, q, done, n, KnowsOf(s', p));
  }

  lemma {:induction false} AskAll(g: Group, s0: Net, s: Net, b: ProposalID, q: set<NodeID>, done: set<NodeID>,
                                  a: Acceptors) returns (s': Net)
    requires Ready(g, s0, b, q) && Reachable(g, s) && Asked(s0, s, b, q, done) && done <= q
    requires AllWithin(s, q, a) && TooFew(g, a)
    ensures Reachable(g, s') && Asked(s0, s', b, q, q) && AllWithin(s', q, a)
    decreases q - done
  {
    if done == q {
      s' := s;
    } else {
      var n :| n in q && n !in done;
      s' := AskStep(g, s0, s, b, q, done, n, a);
      s' := AskAll(g, s0, s', b, q, done + {n}, a);
    }
  }

  // ---------------------------------------------------------------- a ballot

  ghost predicate HasVoted(s0: Net, s: Net, b: ProposalID, n: NodeID) {
    && (n != b.proposer ==> Claiming(s, n, Own(KnowsOf(s0, n), n).(promise := b)))
    && Newest(s, KnowsOf(s, b.proposer), n)
    && Upto(KnowsOf(s, n), b)
    && b.proposer in KnowsOf(s, n)
  }

  /** Ballot b has been held among the nodes in q, and only its proposer has accepted yet. */
  ghost predicate Held(s0: Net, s: Net, b: ProposalID, q: set<NodeID>, v: AcceptedValue) {
    && (forall n {:trigger KnowsOf(s, n)} :: n !in q ==> KnowsOf(s, n) == KnowsOf(s0, n))
    && (forall n :: n in q ==> HasVoted(s0, s, b, n))
    && Claiming(s, b.proposer, Claims(b, b, v))
  }

  lemma AcceptKeeps(s0: Net, s: Net, b: ProposalID, n: NodeID, v: AcceptedValue)
    requires HasPromised(s0, s, b, n) && HasPromised(s0, s, b, b.proposer)
    ensures HasVoted(s0, Put(s, b.proposer, KnowsOf(s, b.proposer)[b.proposer := Claims(b, b, v)]), b, n)
  {
  }

  lemma AcceptHolds(s0: Net, s: Net, b: ProposalID, q: set<NodeID>, v: AcceptedValue)
    requires Asked(s0, s, b, q, q)
    ensures Held(s0, Put(s, b.proposer, KnowsOf(s, b.proposer)[b.proposer := Claims(b, b, v)]), b, q, v)
  {
    var s' := Put(s, b.proposer, KnowsOf(s, b.proposer)[b.proposer := Claims(b, b, v)]);
    assert HasPromised(s0, s, b, b.proposer);
    forall n | n in q ensures HasVoted(s0, s', b, n) {
      AcceptKeeps(s0, s, b, n, v);
    }
    forall n | n !in q ensures KnowsOf(s', n) == KnowsOf(s0, n) {
      assert KnowsOf(s, n) == KnowsOf(s0, n);
    }
  }

  /** Only the proposer has come to be one more acceptor. */
  ghost predicate VotedWithin(s: Net, q: set<NodeID>, p: NodeID, v: AcceptedValue, a: Acceptors) {
    AllWithin(s, q - {p}, a) && Within(KnowsOf(s, p), With(a, v.origin, p))
  }

  lemma OthersWithin(s: Net, s': Net, q: set<NodeID>, p: NodeID, a: Acceptors)
    requires AllWithin(s, q, a) && s' == Put(s, p, KnowsOf(s', p))
    ensures AllWithin(s', q - {p}, a)
  {
    forall n | n in q - {p} ensures Within(KnowsOf(s', n), a) {
      assert KnowsOf(s', n) == KnowsOf(s, n);
    }
  }

  lemma AcceptsLast(g: Group, s0: Net, s: Net, b: ProposalID, q: set<NodeID>, v: AcceptedValue, a: Acceptors)
    returns (s': Net)
    requires Reachable(g, s) && q <= g.nodes && |q| >= g.quorum && b.proposer in q && Asked(s0, s, b, q, q)
    requires NewestFor(KnowsOf(s, b.proposer), b, v) && AllWithin(s, q, a)
    ensures Reachable(g, s') && Held(s0, s', b, q, v) && VotedWithin(s', q, b.proposer, v, a)
    ensures forall n :: KnowsOf(s', n).Keys == KnowsOf(s, n).Keys
  {
    var p := b.proposer;
    assert HasPromised(s0, s, b, p);
    Accepts(g, s, b, v);
    AcceptHolds(s0, s, b, q, v);
    s' := Put(s, p, KnowsOf(s, p)[p := Claims(b, b, v)]);
    AcceptWithin(KnowsOf(s, p), p, Claims(b, b, v), a);
    OthersWithin(s, s', q, p, a);
  }

  function OwnOf(s: Net, n: NodeID): Claims {
    Own(KnowsOf(s, n), n)
  }

  /** The value stays the newest one accepted among the nodes asked. */
  lemma HoldAgain(g: Group, s0: Net, b: ProposalID, q: set<NodeID>, x: NodeID, a: Acceptors) returns (s: Net)
    requires Ready(g, s0, b, q) && x in q && OwnOf(s0, x).accepted.Valid() && AllWithin(s0, q, a) && TooFew(g, a)
    requires forall n :: n in q ==> !Precedes(OwnOf(s0, x).accepted, OwnOf(s0, n).accepted)
    ensures Reachable(g, s) && Held(s0, s, b, q, OwnOf(s0, x).acceptedVal)
    ensures VotedWithin(s, q, b.proposer, OwnOf(s0, x).acceptedVal, a)
  {
    var s1 := ProposesFirst(g, s0, b, q, a);
    s1 := AskAll(g, s0, s1, b, q, {b.proposer}, a);
    var k := KnowsOf(s1, b.proposer);
    forall n | n in q
      ensures n in k && k[n].accepted == OwnOf(s0, n).accepted && k[n].acceptedVal == OwnOf(s0, n).acceptedVal {
      assert HasPromised(s0, s1, b, n);
    }
    assert NewestAccepted(k, Promisers(k, b), OwnOf(s0, x).accepted, OwnOf(s0, x).acceptedVal);
    s := AcceptsLast(g, s0, s1, b, q, OwnOf(s0, x).acceptedVal, a);
  }

  lemma {:induction false} SomeNames(nodes: set<NodeID>) returns (value: Value)
    ensures NamesOf(value, nodes)
  {
    if nodes == {} {
      value := [];
    } else {
      var n :| n in nodes;
      value := SomeNames(nodes - {n});
      value := value + [n.name];
      forall name ensures name in value <==> NameIn(nodes, name) {
        assert name in value <==> name == n.name || NameIn(nodes - {n}, name);
      }
    }
  }

  /** If nobody asked has accepted anything, the proposer makes a value of the names it knows. */
  lemma HoldFirst(g: Group, s0: Net, b: ProposalID, q: set<NodeID>, a: Acceptors) returns (s: Net, v: AcceptedValue)
    requires Ready(g, s0, b, q) && AllWithin(s0, q, a) && TooFew(g, a)
    requires forall n :: n in q ==> OwnOf(s0, n).accepted == NO_PROPOSAL
    ensures Reachable(g, s) && Held(s0, s, b, q, v) && VotedWithin(s, q, b.proposer, v, a)
    ensures v.origin == b && NamesOf(v.value, KnowsOf(s, b.proposer).Keys)
    ensures forall n :: n in q ==> KnownFrom(s0, s, q, n) && ToldBy(s0, s, b.proposer, n)
  {
    var s1 := ProposesFirst(g, s0, b, q, a);
    s1 := AskAll(g, s0, s1, b, q, {b.proposer}, a);
    var k := KnowsOf(s1, b.proposer);
    forall n | n in q ensures n in k && k[n].accepted == NO_PROPOSAL {
      assert HasPromised(s0, s1, b, n);
    }
    var value := SomeNames(k.Keys);
    v := AcceptedValue(value, b);
    assert PickedValue(k, value);
    assert NewestAccepted(k, Promisers(k, b), NO_PROPOSAL, NO_VALUE);
    s := AcceptsLast(g, s0, s1, b, q, v, a);
    forall n | n in q ensures KnownFrom(s0, s, q, n) && ToldBy(s0, s, b.proposer, n) {
      assert KnownFrom(s0, s1, q, n) && ToldBy(s0, s1, b.proposer, n);
      assert KnowsOf(s, n).Keys == KnowsOf(s1, n).Keys;
    }
  }
}
