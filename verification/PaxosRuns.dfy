/** Runs of a fixed group of Paxos nodes that gossip everything they know; messages may
    be lost, repeated and arbitrarily delayed. */
module PaxosRuns {
  import opened Basics
  import opened Paxos

  datatype Group = Group(nodes: set<NodeID>, quorum: nat)

  /** Two quorums share a node; no node has the name of the unknown peer. */
  ghost predicate WellFormed(g: Group) {
    2 * g.quorum > |g.nodes| && NodeID(0, 0) !in g.nodes
  }

  /** What each node knows now, and everything any node ever knew: any of it may still
      be in transit. */
  datatype Net = Net(knows: map<NodeID, GossipState>, sent: set<GossipState>)

  datatype Step = Propose | Think | Hear(from: GossipState)

  function KnowsOf(s: Net, n: NodeID): GossipState {
    if n in s.knows then s.knows[n] else map[]
  }

  ghost predicate Takes(g: Group, s: Net, n: NodeID, step: Step, k': GossipState) {
    var k := KnowsOf(s, n);
    && n in g.nodes
    && match step
       case Propose => Proposed(n, k, k')
       case Think => Thought(n, g.quorum, k, k')
       case Hear(from) => from in s.sent && k' == Learn(k, from)
  }

  function Put(s: Net, n: NodeID, k: GossipState): Net {
    Net(s.knows[n := k], s.sent + {k})
  }

  ghost predicate Next(g: Group, s: Net, s': Net) {
    exists n, step, k' :: Takes(g, s, n, step, k') && s' == Put(s, n, k')
  }

  ghost predicate IsRun(g: Group, run: seq<Net>) {
    && |run| > 0 && run[0] == Net(map[], {})
    && forall i :: 0 <= i < |run| - 1 ==> Next(g, run[i], run[i + 1])
  }

  /** There is a consensus among what is known. */
  ghost predicate Decided(g: Group, k: GossipState) {
    exists v :: Sees(k, g.quorum, v)
  }

  /** A node that sees a consensus makes its ring of it, and proposes and hears nothing any more. */
  ghost predicate NextVote(g: Group, s: Net, s': Net) {
    exists n, step, k' ::
      Takes(g, s, n, step, k') && s' == Put(s, n, k') && (step.Think? || !Decided(g, KnowsOf(s, n)))
  }

  ghost predicate IsElection(g: Group, run: seq<Net>) {
    && |run| > 0 && run[0] == Net(map[], {})
    && forall i :: 0 <= i < |run| - 1 ==> NextVote(g, run[i], run[i + 1])
  }

  lemma ElectionIsRun(g: Group, run: seq<Net>)
    requires IsElection(g, run)
    ensures IsRun(g, run)
  {
    forall i | 0 <= i < |run| - 1 ensures Next(g, run[i], run[i + 1]) {
      assert NextVote(g, run[i], run[i + 1]);
    }
  }

  // ---------------------------------------------------------------- invariant

  /** Everything any node ever claimed. */
  type History = set<(NodeID, Claims)>

  ghost predicate Sound(c: Claims) {
    && AtMost(c.accepted, c.promise)
    && (!c.promise.Valid() ==> c.promise == NO_PROPOSAL)
    && (!c.accepted.Valid() ==> c.accepted == NO_PROPOSAL && c.acceptedVal == NO_VALUE)
  }

  /** A node can pass from claiming c to claiming d: promises and acceptances only grow,
      and nothing older than a promise is accepted after it. */
  ghost predicate Leads(c: Claims, d: Claims) {
    && AtMost(c.promise, d.promise) && AtMost(c.accepted, d.accepted)
    && (c.accepted == d.accepted ==> c.acceptedVal == d.acceptedVal)
    && (c.accepted == d.accepted || AtMost(c.promise, d.accepted))
  }

  ghost predicate Chains(g: Group, h: History) {
    && (forall n, c :: (n, c) in h ==> n in g.nodes && Sound(c))
    && (forall n, c, d :: (n, c) in h && (n, d) in h ==> Leads(c, d) || Leads(d, c))
  }

  ghost predicate Voted(h: History, i: NodeID, b: ProposalID) {
    exists d :: (i, d) in h && d.accepted == b
  }

  ghost predicate VotedFor(h: History, i: NodeID, b: ProposalID, v: AcceptedValue) {
    exists d :: (i, d) in h && d.accepted == b && d.acceptedVal == v
  }

  ghost predicate PromisedBeyond(h: History, i: NodeID, b: ProposalID) {
    exists d :: (i, d) in h && Precedes(b, d.promise)
  }

  /** Node i voted for v in ballot b, or has not voted in b and never will. */
  ghost predicate Bound(h: History, i: NodeID, b: ProposalID, v: AcceptedValue) {
    VotedFor(h, i, b, v) || (!Voted(h, i, b) && PromisedBeyond(h, i, b))
  }

  ghost predicate QuorumBound(g: Group, h: History, q: set<NodeID>, b: ProposalID, v: AcceptedValue) {
    q <= g.nodes && |q| >= g.quorum && forall i :: i in q ==> Bound(h, i, b, v)
  }

  /** In ballot b no value but v can be chosen. */
  ghost predicate SafeAt(g: Group, h: History, b: ProposalID, v: AcceptedValue) {
    exists q :: QuorumBound(g, h, q, b, v)
  }

  /** Each ballot has one value, and it was put forward by the ballot's proposer. */
  ghost predicate OneValue(h: History) {
    && (forall n, c, m, d :: (n, c) in h && (m, d) in h && c.accepted == d.accepted ==> c.acceptedVal == d.acceptedVal)
    && (forall n, c :: (n, c) in h && c.accepted.Valid() ==> Voted(h, c.accepted.proposer, c.accepted))
  }

  /** Every value accepted was accepted in the ballot it originates from. */
  ghost predicate HasOrigin(h: History, v: AcceptedValue) {
    v.origin.Valid() && exists m :: VotedFor(h, m, v.origin, v)
  }

  ghost predicate Origins(h: History) {
    forall n, c {:trigger (n, c) in h, HasOrigin(h, c.acceptedVal)} :: (n, c) in h && c.accepted.Valid() ==>
        HasOrigin(h, c.acceptedVal)
  }

  ghost predicate Safe(g: Group, h: History) {
    forall n, c, b: ProposalID {:trigger (n, c) in h, SafeAt(g, h, b, c.acceptedVal)} ::
      (n, c) in h && b.Valid() && Precedes(b, c.accepted) ==> SafeAt(g, h, b, c.acceptedVal)
  }

  ghost predicate Known(k: GossipState, h: History) {
    forall i :: i in k ==> (i, k[i]) in h
  }

  /** What a node knows of itself is its newest claim. */
  ghost predicate Current(k: GossipState, n: NodeID, h: History) {
    if n in k then forall c :: (n, c) in h ==> Leads(c, k[n]) else forall c :: (n, c) !in h
  }

  ghost predicate HistInv(g: Group, h: History) {
    Chains(g, h) && OneValue(h) && Origins(h) && Safe(g, h)
  }

  ghost predicate NetInv(g: Group, s: Net, h: History) {
    && (forall k :: k in s.sent ==> Known(k, h))
    && (forall n :: n in s.knows ==> s.knows[n] in s.sent)
    && (forall n :: n in g.nodes ==> Current(KnowsOf(s, n), n, h))
  }

  ghost predicate Inv(g: Group, s: Net, h: History) {
    HistInv(g, h) && NetInv(g, s, h)
  }

  lemma LeadsTransitive(c: Claims, d: Claims, e: Claims)
    requires Leads(c, d) && Leads(d, e) && Sound(d)
    ensures Leads(c, e)
  {
    ProposalOrder(c.promise, d.promise, e.promise);
    ProposalOrder(c.accepted, d.accepted, e.accepted);
    ProposalOrder(c.promise, d.promise, e.accepted);
  }

  // ---------------------------------------------------------------- hearing

  /** Two claims of one node merge to the later of them. */
  lemma MergeIsLater(c: Claims, d: Claims)
    requires Leads(c, d)
    ensures MergeClaims(c, d) == d && MergeClaims(d, c) == d
  {
    ProposalOrder(c.promise, d.promise, c.promise);
    ProposalOrder(c.accepted, d.accepted, c.accepted);
  }

  lemma LearnIsKnown(g: Group, h: History, k: GossipState, from: GossipState)
    requires Chains(g, h) && Known(k, h) && Known(from, h)
    ensures Known(Learn(k, from), h)
  {
    forall i | i in Learn(k, from) ensures (i, Learn(k, from)[i]) in h {
      if i in k && i in from {
        if Leads(k[i], from[i]) { MergeIsLater(k[i], from[i]); } else { MergeIsLater(from[i], k[i]); }
      }
    }
  }

  /** Hearing others does not change what a node knows of itself. */
  lemma LearnKeepsOwn(h: History, k: GossipState, from: GossipState, n: NodeID)
    requires Current(k, n, h) && Known(from, h)
    ensures n in Learn(k, from) <==> n in k
    ensures n in k ==> Learn(k, from)[n] == k[n]
  {
    if n in from {
      assert (n, from[n]) in h;
      if n in k { MergeIsLater(from[n], k[n]); }
    }
  }

  lemma KnowsIsKnown(g: Group, s: Net, h: History, n: NodeID)
    requires NetInv(g, s, h)
    ensures Known(KnowsOf(s, n), h)
  {
    if n in s.knows { assert s.knows[n] in s.sent; }
  }

  lemma HearKeepsInv(g: Group, s: Net, h: History, n: NodeID, from: GossipState)
    requires Chains(g, h) && NetInv(g, s, h) && n in g.nodes && from in s.sent
    ensures NetInv(g, Put(s, n, Learn(KnowsOf(s, n), from)), h)
  {
    var k := KnowsOf(s, n);
    KnowsIsKnown(g, s, h, n);
    LearnIsKnown(g, h, k, from);
    assert Current(k, n, h);
    LearnKeepsOwn(h, k, from, n);
    var s' := Put(s, n, Learn(k, from));
    forall m | m in g.nodes ensures Current(KnowsOf(s', m), m, h) {
      assert Current(KnowsOf(s, m), m, h);
    }
  }

  // ---------------------------------------------------------------- claiming

  /** Why n may go on to claim c: it accepts nothing new, or what somebody accepted
      before, or its own proposal for the first time. */
  ghost predicate MayClaim(g: Group, h: History, n: NodeID, own: Claims, c: Claims) {
    && Sound(c) && Leads(own, c)
    && (|| c.accepted == own.accepted
        || (exists m :: VotedFor(h, m, c.accepted, c.acceptedVal))
        || FirstVote(g, h, n, c))
  }

  ghost predicate FirstVote(g: Group, h: History, n: NodeID, c: Claims) {
    && c.accepted.Valid() && c.accepted.proposer == n
    && (forall m :: !Voted(h, m, c.accepted))
    && (c.acceptedVal.origin == c.accepted || HasOrigin(h, c.acceptedVal))
    && (forall b: ProposalID :: b.Valid() && Precedes(b, c.accepted) ==> SafeAt(g, h, b, c.acceptedVal))
  }

  /** Being bound is for ever. */
  lemma BoundKept(h: History, n: NodeID, own: Claims, c: Claims, i: NodeID, b: ProposalID, v: AcceptedValue)
    requires forall d :: (n, d) in h ==> Leads(d, own)
    requires Leads(own, c) && Bound(h, i, b, v)
    ensures Bound(h + {(n, c)}, i, b, v)
  {
    var h' := h + {(n, c)};
    if VotedFor(h, i, b, v) {
      var d :| (i, d) in h && d.accepted == b && d.acceptedVal == v;
      assert (i, d) in h';
    } else {
      var d :| (i, d) in h && Precedes(b, d.promise);
      assert (i, d) in h';
      if e: Claims :| (i, e) in h' && e.accepted == b {
        assert i == n && e == c;
        ProposalOrder(b, d.promise, own.promise);
        ProposalOrder(b, own.promise, c.accepted);
      }
    }
  }

  lemma SafeAtKept(g: Group, h: History, n: NodeID, own: Claims, c: Claims, b: ProposalID, v: AcceptedValue)
    requires forall d :: (n, d) in h ==> Leads(d, own)
    requires Leads(own, c) && SafeAt(g, h, b, v)
    ensures SafeAt(g, h + {(n, c)}, b, v)
  {
    var q :| QuorumBound(g, h, q, b, v);
    forall i | i in q ensures Bound(h + {(n, c)}, i, b, v) {
      BoundKept(h, n, own, c, i, b, v);
    }
    assert QuorumBound(g, h + {(n, c)}, q, b, v);
  }

  lemma VoteKept(h: History, x: (NodeID, Claims), i: NodeID, b: ProposalID, v: AcceptedValue)
    requires VotedFor(h, i, b, v)
    ensures VotedFor(h + {x}, i, b, v)
  {
    var d :| (i, d) in h && d.accepted == b && d.acceptedVal == v;
    assert (i, d) in h + {x};
  }

  lemma NewVote(h: History, n: NodeID, c: Claims)
    ensures VotedFor(h + {(n, c)}, n, c.accepted, c.acceptedVal)
  {
    assert (n, c) in h + {(n, c)};
  }

  /** Where the vote in c comes from if it is not the first one. */
  lemma OldVote(g: Group, h: History, n: NodeID, k: GossipState, c: Claims)
    requires Known(k, h) && MayClaim(g, h, n, Own(k, n), c) && c.accepted.Valid() && !FirstVote(g, h, n, c)
    ensures exists m :: VotedFor(h, m, c.accepted, c.acceptedVal)
  {
    if c.accepted == Own(k, n).accepted {
      assert (n, k[n]) in h;
      assert VotedFor(h, n, c.accepted, c.acceptedVal);
    }
  }

  lemma ChainsKept(g: Group, h: History, n: NodeID, k: GossipState, c: Claims)
    requires Chains(g, h) && n in g.nodes && Current(k, n, h) && Known(k, h) && MayClaim(g, h, n, Own(k, n), c)
    ensures Chains(g, h + {(n, c)})
    ensures forall d :: (n, d) in h ==> Leads(d, Own(k, n)) && Leads(d, c)
  {
    forall d | (n, d) in h ensures Leads(d, Own(k, n)) && Leads(d, c) {
      LeadsTransitive(d, Own(k, n), c);
    }
    assert Leads(c, c);
  }

  /** The value of the new claim is the value of its ballot. */
  lemma SameBallotSameValue(g: Group, h: History, n: NodeID, k: GossipState, c: Claims, m: NodeID, d: Claims)
    requires Chains(g, h) && OneValue(h) && Known(k, h) && MayClaim(g, h, n, Own(k, n), c)
    requires (m, d) in h && d.accepted == c.accepted
    ensures d.acceptedVal == c.acceptedVal
  {
    assert Voted(h, m, d.accepted);
    if c.accepted.Valid() && !FirstVote(g, h, n, c) {
      OldVote(g, h, n, k, c);
    }
  }

  lemma ProposerVotedKept(g: Group, h: History, n: NodeID, k: GossipState, c: Claims, m: NodeID, d: Claims)
    requires OneValue(h) && Known(k, h) && MayClaim(g, h, n, Own(k, n), c)
    requires (m, d) in h + {(n, c)} && d.accepted.Valid()
    ensures Voted(h + {(n, c)}, d.accepted.proposer, d.accepted)
  {
    var h', b := h + {(n, c)}, d.accepted;
    assert (n, c) in h';
    if (m, d) in h || !FirstVote(g, h, n, c) {
      if (m, d) !in h { OldVote(g, h, n, k, c); }
      assert Voted(h, b.proposer, b);
      var e :| (b.proposer, e) in h && e.accepted == b;
      assert (b.proposer, e) in h';
    }
  }

  lemma OneValueKept(g: Group, h: History, n: NodeID, k: GossipState, c: Claims)
    requires Chains(g, h) && OneValue(h) && Known(k, h) && MayClaim(g, h, n, Own(k, n), c)
    ensures OneValue(h + {(n, c)})
  {
    var h' := h + {(n, c)};
    forall m, d: Claims | (m, d) in h && d.accepted == c.accepted ensures d.acceptedVal == c.acceptedVal {
      SameBallotSameValue(g, h, n, k, c, m, d);
    }
    forall m, d: Claims | (m, d) in h' && d.accepted.Valid() ensures Voted(h', d.accepted.proposer, d.accepted) {
      ProposerVotedKept(g, h, n, k, c, m, d);
    }
  }

  lemma OriginKept(h: History, x: (NodeID, Claims), v: AcceptedValue)
    requires HasOrigin(h, v)
    ensures HasOrigin(h + {x}, v)
  {
    var m :| VotedFor(h, m, v.origin, v);
    VoteKept(h, x, m, v.origin, v);
  }

  lemma NewOrigin(g: Group, h: History, n: NodeID, k: GossipState, c: Claims)
    requires Origins(h) && Known(k, h) && MayClaim(g, h, n, Own(k, n), c) && c.accepted.Valid()
    ensures HasOrigin(h + {(n, c)}, c.acceptedVal)
  {
    if FirstVote(g, h, n, c) && c.acceptedVal.origin == c.accepted {
      NewVote(h, n, c);
    } else {
      if !FirstVote(g, h, n, c) {
        OldVote(g, h, n, k, c);
        var j, e :| (j, e) in h && e.accepted == c.accepted && e.acceptedVal == c.acceptedVal;
        assert HasOrigin(h, e.acceptedVal);
      }
      OriginKept(h, (n, c), c.acceptedVal);
    }
  }

  lemma OriginsKept(g: Group, h: History, n: NodeID, k: GossipState, c: Claims)
    requires Origins(h) && Known(k, h) && MayClaim(g, h, n, Own(k, n), c)
    ensures Origins(h + {(n, c)})
  {
    var h' := h + {(n, c)};
    forall m, d: Claims | (m, d) in h' && d.accepted.Valid() ensures HasOrigin(h', d.acceptedVal) {
      if (m, d) in h {
        assert HasOrigin(h, d.acceptedVal);
        OriginKept(h, (n, c), d.acceptedVal);
      } else {
        NewOrigin(g, h, n, k, c);
      }
    }
  }

  lemma SafeKept(g: Group, h: History, n: NodeID, k: GossipState, c: Claims)
    requires Safe(g, h) && Known(k, h) && MayClaim(g, h, n, Own(k, n), c)
    requires forall d :: (n, d) in h ==> Leads(d, Own(k, n))
    ensures Safe(g, h + {(n, c)})
  {
    var h' := h + {(n, c)};
    forall m, d: Claims, b: ProposalID | (m, d) in h' && b.Valid() && Precedes(b, d.accepted)
      ensures SafeAt(g, h', b, d.acceptedVal) {
      if (m, d) !in h && !FirstVote(g, h, n, c) {
        OldVote(g, h, n, k, c);
        var j, e :| (j, e) in h && e.accepted == c.accepted && e.acceptedVal == c.acceptedVal;
        assert SafeAt(g, h, b, e.acceptedVal);
      }
      assert SafeAt(g, h, b, d.acceptedVal);
      SafeAtKept(g, h, n, Own(k, n), c, b, d.acceptedVal);
    }
  }

  lemma NetKept(g: Group, s: Net, h: History, n: NodeID, c: Claims)
    requires NetInv(g, s, h) && n in g.nodes && Leads(c, c)
    requires forall d :: (n, d) in h ==> Leads(d, c)
    ensures NetInv(g, Put(s, n, KnowsOf(s, n)[n := c]), h + {(n, c)})
  {
    var k, h' := KnowsOf(s, n), h + {(n, c)};
    var s' := Put(s, n, k[n := c]);
    KnowsIsKnown(g, s, h, n);
    forall k' | k' in s'.sent ensures Known(k', h') {
      assert k' == k[n := c] || Known(k', h);
    }
    forall m | m in g.nodes ensures Current(KnowsOf(s', m), m, h') {
      assert Current(KnowsOf(s, m), m, h);
    }
  }

  /** A claim that a node may make keeps the invariant. */
  lemma ClaimKeepsInv(g: Group, s: Net, h: History, n: NodeID, c: Claims)
    requires Inv(g, s, h) && n in g.nodes && MayClaim(g, h, n, Own(KnowsOf(s, n), n), c)
    ensures Inv(g, Put(s, n, KnowsOf(s, n)[n := c]), h + {(n, c)})
  {
    var k := KnowsOf(s, n);
    KnowsIsKnown(g, s, h, n);
    assert Current(k, n, h);
    ChainsKept(g, h, n, k, c);
    OneValueKept(g, h, n, k, c);
    OriginsKept(g, h, n, k, c);
    SafeKept(g, h, n, k, c);
    NetKept(g, s, h, n, c);
  }

  // ---------------------------------------------------------------- proposing and thinking

  lemma OwnIsSound(g: Group, h: History, k: GossipState, n: NodeID)
    requires Chains(g, h) && Known(k, h)
    ensures Sound(Own(k, n))
  {
    if n in k { assert (n, k[n]) in h; }
  }

  lemma ProposeMayClaim(g: Group, h: History, n: NodeID, k: GossipState, r: nat)
    requires Chains(g, h) && Known(k, h) && HighestRound(k, r)
    ensures MayClaim(g, h, n, Own(k, n), Own(k, n).(promise := ProposalID(r + 1, n)))
  {
    OwnIsSound(g, h, k, n);
  }

  /** A promiser of p voted in an older ballot b no later than it accepted what it told us. */
  lemma PromiserBound(g: Group, h: History, i: NodeID, ci: Claims, p: ProposalID, a: ProposalID, v: AcceptedValue,
                      b: ProposalID)
    requires Chains(g, h) && (i, ci) in h && ci.promise == p && Precedes(b, p) && AtMost(a, b)
    requires !Precedes(a, ci.accepted)
    requires b == a ==> forall n, d :: (n, d) in h && d.accepted == a ==> d.acceptedVal == v
    ensures Bound(h, i, b, v)
  {
    assert PromisedBeyond(h, i, b);
    forall d: Claims | (i, d) in h && d.accepted == b ensures b == a {
      ProposalOrder(a, b, ci.accepted);
      ProposalOrder(b, p, b);
      if Leads(d, ci) { ProposalOrder(b, ci.accepted, a); } else { ProposalOrder(p, b, p); }
    }
    if Voted(h, i, b) {
      var d :| (i, d) in h && d.accepted == b;
      assert d.acceptedVal == v;
    }
  }

  /** The value picked for a new ballot p is safe at every older ballot. */
  lemma PickIsSafe(g: Group, h: History, k: GossipState, p: ProposalID, a: ProposalID, v: AcceptedValue, b: ProposalID,
                   v': AcceptedValue)
    requires HistInv(g, h) && Known(k, h) && |Promisers(k, p)| >= g.quorum
    requires NewestAccepted(k, Promisers(k, p), a, v) && (a.Valid() ==> v' == v)
    requires b.Valid() && Precedes(b, p)
    ensures SafeAt(g, h, b, v')
  {
    var q := Promisers(k, p);
    ProposalOrder(a, b, a);
    if Precedes(b, a) {
      var i :| i in q && i in k && k[i].accepted == a && k[i].acceptedVal == v;
      assert (i, k[i]) in h;
      assert SafeAt(g, h, b, k[i].acceptedVal);
    } else {
      forall i | i in q ensures i in g.nodes && Bound(h, i, b, v') {
        assert (i, k[i]) in h;
        if b == a { ValueOfNewest(h, k, q, a, v); }
        PromiserBound(g, h, i, k[i], p, a, v', b);
      }
      assert QuorumBound(g, h, q, b, v');
    }
  }

  lemma ValueOfNewest(h: History, k: GossipState, q: set<NodeID>, a: ProposalID, v: AcceptedValue)
    requires OneValue(h) && Known(k, h) && NewestAccepted(k, q, a, v) && a.Valid()
    ensures forall n, d :: (n, d) in h && d.accepted == a ==> d.acceptedVal == v
  {
    var i :| i in q && i in k && k[i].accepted == a && k[i].acceptedVal == v;
    assert (i, k[i]) in h;
  }

  /** Following somebody's acceptance of what we promised. */
  lemma FollowMayClaim(g: Group, h: History, n: NodeID, k: GossipState, p: ProposalID, i: NodeID)
    requires Chains(g, h) && OneValue(h) && Known(k, h)
    requires HighestPromise(k, Own(k, n), p) && i in k && k[i].accepted == p
    ensures MayClaim(g, h, n, Own(k, n), Claims(p, p, k[i].acceptedVal))
  {
    OwnIsSound(g, h, k, n);
    var own, c := Own(k, n), Claims(p, p, k[i].acceptedVal);
    assert (i, k[i]) in h;
    ProposalOrder(own.accepted, own.promise, p);
    assert VotedFor(h, i, c.accepted, c.acceptedVal);
    if n in k { assert (n, k[n]) in h; }
  }

  lemma PromiseMayClaim(g: Group, h: History, n: NodeID, k: GossipState, p: ProposalID)
    requires Chains(g, h) && Known(k, h) && HighestPromise(k, Own(k, n), p)
    ensures MayClaim(g, h, n, Own(k, n), Own(k, n).(promise := p))
  {
    OwnIsSound(g, h, k, n);
    var own := Own(k, n);
    ProposalOrder(own.accepted, own.promise, p);
    HighestIsSound(g, h, n, k, p);
  }

  lemma HighestIsSound(g: Group, h: History, n: NodeID, k: GossipState, p: ProposalID)
    requires Chains(g, h) && Known(k, h) && HighestPromise(k, Own(k, n), p)
    ensures !p.Valid() ==> p == NO_PROPOSAL
  {
    OwnIsSound(g, h, k, n);
    if p != Own(k, n).promise {
      var i :| i in k && k[i].promise == p;
      assert (i, k[i]) in h;
    }
  }

  /** Nobody voted in our ballot if nobody we know did: we would have been the first. */
  lemma BallotIsNew(g: Group, h: History, n: NodeID, k: GossipState, p: ProposalID)
    requires Chains(g, h) && OneValue(h) && Known(k, h) && Current(k, n, h)
    requires HighestPromise(k, Own(k, n), p) && p.Valid() && p.proposer == n
    requires forall i :: i in k ==> k[i].accepted != p
    ensures forall m :: !Voted(h, m, p)
  {
    forall m ensures !Voted(h, m, p) {
      if Voted(h, m, p) {
        assert Voted(h, n, p);
        var d :| (n, d) in h && d.accepted == p;
        OwnIsSound(g, h, k, n);
        ProposalOrder(p, k[n].accepted, k[n].promise);
        ProposalOrder(p, k[n].promise, p);
      }
    }
  }

  lemma RequestMayClaim(g: Group, h: History, n: NodeID, k: GossipState, p: ProposalID, c: Claims)
    requires WellFormed(g) && HistInv(g, h) && Known(k, h) && Current(k, n, h) && n in g.nodes
    requires HighestPromise(k, Own(k, n), p) && Requested(n, g.quorum, k, Own(k, n), p, c)
    requires p.proposer == n && |Promisers(k, p)| >= g.quorum
    requires forall i :: i in k ==> k[i].accepted != p
    ensures MayClaim(g, h, n, Own(k, n), c)
  {
    OwnIsSound(g, h, k, n);
    HighestIsSound(g, h, n, k, p);
    var own := Own(k, n);
    ProposalOrder(own.accepted, own.promise, p);
    BallotIsNew(g, h, n, k, p);
    var a, v :| NewestAccepted(k, Promisers(k, p), a, v) &&
           if a.Valid() then c.acceptedVal == v else c.acceptedVal.origin == p && PickedValue(k, c.acceptedVal.value);
    if a.Valid() {
      var i :| i in Promisers(k, p) && i in k && k[i].accepted == a && k[i].acceptedVal == v;
      assert (i, k[i]) in h;
      assert HasOrigin(h, k[i].acceptedVal);
    }
    forall b: ProposalID | b.Valid() && Precedes(b, p) ensures SafeAt(g, h, b, c.acceptedVal) {
      PickIsSafe(g, h, k, p, a, v, b, c.acceptedVal);
    }
    assert FirstVote(g, h, n, c);
    assert own.accepted != c.accepted;
  }

  lemma ThinkMayClaim(g: Group, h: History, n: NodeID, k: GossipState, c': Claims)
    requires WellFormed(g) && HistInv(g, h) && Known(k, h) && Current(k, n, h) && n in g.nodes
    requires ThinksTo(n, g.quorum, k, c')
    ensures MayClaim(g, h, n, Own(k, n), c')
  {
    var p, c :| HighestPromise(k, Own(k, n), p) && Requested(n, g.quorum, k, Own(k, n), p, c) && Followed(k, c, c');
    if exists i :: i in k && k[i].accepted == p {
      var i :| i in k && k[i].accepted == p && c' == Claims(p, k[i].accepted, k[i].acceptedVal);
      FollowMayClaim(g, h, n, k, p, i);
    } else if p.proposer == n && |Promisers(k, p)| >= g.quorum {
      RequestMayClaim(g, h, n, k, p, c);
    } else {
      PromiseMayClaim(g, h, n, k, p);
    }
  }

  // ---------------------------------------------------------------- runs

  /** In state s node n claims c. */
  predicate Claiming(s: Net, n: NodeID, c: Claims) {
    n in KnowsOf(s, n) && KnowsOf(s, n)[n] == c
  }

  lemma NextKeepsInv(g: Group, s: Net, s': Net, h: History) returns (h': History)
    requires WellFormed(g) && Inv(g, s, h) && Next(g, s, s')
    ensures Inv(g, s', h') && h <= h'
    ensures forall n, c :: (n, c) in h' ==> (n, c) in h || Claiming(s', n, c)
  {
    var n, step, k' :| Takes(g, s, n, step, k') && s' == Put(s, n, k');
    KnowsIsKnown(g, s, h, n);
    assert Current(KnowsOf(s, n), n, h);
    match step
    case Hear(from) =>
      HearKeepsInv(g, s, h, n, from);
      h' := h;
    case Propose =>
      h' := ProposeKeepsInv(g, s, h, n, k');
    case Think =>
      h' := ThinkKeepsInv(g, s, h, n, k');
  }

  lemma ProposeKeepsInv(g: Group, s: Net, h: History, n: NodeID, k': GossipState) returns (h': History)
    requires Inv(g, s, h) && Known(KnowsOf(s, n), h) && Takes(g, s, n, Propose, k')
    ensures Inv(g, Put(s, n, k'), h') && n in k' && h' == h + {(n, k'[n])}
  {
    var k := KnowsOf(s, n);
    var r: nat :| HighestRound(k, r) && k' == k[n := Own(k, n).(promise := ProposalID(r + 1, n))];
    ProposeMayClaim(g, h, n, k, r);
    ClaimKeepsInv(g, s, h, n, k'[n]);
    h' := h + {(n, k'[n])};
  }

  lemma ThinkKeepsInv(g: Group, s: Net, h: History, n: NodeID, k': GossipState) returns (h': History)
    requires WellFormed(g) && Inv(g, s, h) && Known(KnowsOf(s, n), h) && Current(KnowsOf(s, n), n, h)
    requires Takes(g, s, n, Think, k')
    ensures Inv(g, Put(s, n, k'), h') && (h' == h || (n in k' && h' == h + {(n, k'[n])}))
  {
    var k := KnowsOf(s, n);
    var c' :| ThinksTo(n, g.quorum, k, c') && k' == if c'.Same(Own(k, n)) then k else k[n := c'];
    if c'.Same(Own(k, n)) {
      StutterKeepsInv(g, s, h, n);
      h' := h;
    } else {
      ThinkMayClaim(g, h, n, k, c');
      ClaimKeepsInv(g, s, h, n, c');
      h' := h + {(n, c')};
    }
  }

  lemma StutterKeepsInv(g: Group, s: Net, h: History, n: NodeID)
    requires Inv(g, s, h)
    ensures Inv(g, Put(s, n, KnowsOf(s, n)), h)
  {
    KnowsIsKnown(g, s, h, n);
    var s' := Put(s, n, KnowsOf(s, n));
    forall m | m in g.nodes ensures Current(KnowsOf(s', m), m, h) {
      assert Current(KnowsOf(s, m), m, h);
    }
  }

  /** At some time of the run node n claimed c. */
  ghost predicate Claimed(run: seq<Net>, n: NodeID, c: Claims) {
    exists i :: 0 <= i < |run| && Claiming(run[i], n, c)
  }

  lemma {:induction false} RunInv(g: Group, run: seq<Net>, i: nat) returns (h: History)
    requires WellFormed(g) && IsRun(g, run) && i < |run|
    ensures Inv(g, run[i], h)
    ensures forall j, n, c :: 0 <= j <= i && Claiming(run[j], n, c) ==> (n, c) in h
    ensures forall n, c :: (n, c) in h ==> Claimed(run, n, c)
  {
    if i == 0 {
      h := {};
    } else {
      var h0 := RunInv(g, run, i - 1);
      assert Next(g, run[i - 1], run[i - 1 + 1]);
      h := NextKeepsInv(g, run[i - 1], run[i], h0);
      forall j, n, c | 0 <= j <= i && Claiming(run[j], n, c) ensures (n, c) in h {
        if j == i { KnowsIsKnown(g, run[i], h, n); }
      }
    }
  }

  // ---------------------------------------------------------------- theorems

  lemma {:induction false} QuorumsMeet(nodes: set<NodeID>, a: set<NodeID>, b: set<NodeID>) returns (i: NodeID)
    requires a <= nodes && b <= nodes && |a| + |b| > |nodes|
    ensures i in a && i in b
  {
    if a * b == {} {
      assert |a + b| == |a| + |b|;
      SubsetSize(a + b, nodes);
    }
    i :| i in a * b;
  }

  /** A quorum has accepted the ballot b with value v in the run. */
  ghost predicate Chosen(g: Group, run: seq<Net>, q: set<NodeID>, b: ProposalID, v: AcceptedValue) {
    && q <= g.nodes && |q| >= g.quorum && b.Valid()
    && forall i :: i in q ==> exists c :: Claimed(run, i, c) && c.accepted == b && c.acceptedVal == v
  }

  /** Once a quorum has accepted one ballot, every claim accepted in that ballot or any
      later one, by any node at any time of the run, has the same origin and value. */
  lemma Agreement(g: Group, run: seq<Net>, q: set<NodeID>, b: ProposalID, v: AcceptedValue, n: NodeID, c: Claims)
    requires WellFormed(g) && IsRun(g, run) && Chosen(g, run, q, b, v)
    requires Claimed(run, n, c) && AtMost(b, c.accepted)
    ensures c.acceptedVal == v
  {
    var h := RunInv(g, run, |run| - 1);
    assert (n, c) in h;
    forall i | i in q ensures VotedFor(h, i, b, v) {
      var d :| Claimed(run, i, d) && d.accepted == b && d.acceptedVal == v;
      assert (i, d) in h;
    }
    if b == c.accepted {
      assert g.quorum > 0 && q != {};
      var i :| i in q;
      assert VotedFor(h, i, b, v);
    } else {
      assert SafeAt(g, h, b, c.acceptedVal);
      var q' :| QuorumBound(g, h, q', b, c.acceptedVal);
      var i := QuorumsMeet(g.nodes, q, q');
      assert VotedFor(h, i, b, v) && Bound(h, i, b, c.acceptedVal);
      var d :| (i, d) in h && d.accepted == b && d.acceptedVal == v;
      assert Voted(h, i, b);
    }
  }

  /** In no run do two claims with one origin differ in their value. */
  lemma OriginDeterminesValue(g: Group, run: seq<Net>, n: NodeID, c: Claims, m: NodeID, d: Claims)
    requires WellFormed(g) && IsRun(g, run) && Claimed(run, n, c) && Claimed(run, m, d)
    requires c.accepted.Valid() && d.accepted.Valid() && c.acceptedVal.origin == d.acceptedVal.origin
    ensures c.acceptedVal == d.acceptedVal
  {
    var h := RunInv(g, run, |run| - 1);
    assert (n, c) in h && (m, d) in h;
    assert HasOrigin(h, c.acceptedVal) && HasOrigin(h, d.acceptedVal);
  }

  /** What any node knows of another node is something that node once claimed. */
  lemma KnowledgeIsPast(g: Group, run: seq<Net>, i: nat, n: NodeID, m: NodeID)
    requires WellFormed(g) && IsRun(g, run) && i < |run| && m in KnowsOf(run[i], n)
    ensures Claimed(run, m, KnowsOf(run[i], n)[m])
  {
    var h := RunInv(g, run, i);
    KnowsIsKnown(g, run[i], h, n);
  }

  /** A node that knows of a quorum that accepted one ballot knows the value for good. */
  lemma KnownQuorumDecides(g: Group, run: seq<Net>, i: nat, n: NodeID, q: set<NodeID>, j: NodeID, m: NodeID, c: Claims)
    requires WellFormed(g) && IsRun(g, run) && i < |run|
    requires q <= g.nodes && |q| >= g.quorum && j in q
    requires q <= KnowsOf(run[i], n).Keys
    requires forall l :: l in q ==> KnowsOf(run[i], n)[l].accepted == KnowsOf(run[i], n)[j].accepted
    requires KnowsOf(run[i], n)[j].accepted.Valid()
    requires Claimed(run, m, c) && AtMost(KnowsOf(run[i], n)[j].accepted, c.accepted)
    ensures c.acceptedVal == KnowsOf(run[i], n)[j].acceptedVal
  {
    var k := KnowsOf(run[i], n);
    var b, v := k[j].accepted, k[j].acceptedVal;
    var h := RunInv(g, run, i);
    KnowsIsKnown(g, run[i], h, n);
    forall l | l in q ensures exists d :: Claimed(run, l, d) && d.accepted == b && d.acceptedVal == v {
      assert (l, k[l]) in h && (j, k[j]) in h;
      assert Claimed(run, l, k[l]);
    }
    Agreement(g, run, q, b, v, m, c);
  }
}
