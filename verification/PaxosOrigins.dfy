/** Consensus counts acceptances by the origin of their value, whatever the ballot they were
    accepted in (ipam/paxos/paxos.go).  Two nodes that count like this always agree if and only
    if a quorum is the whole group: otherwise every ballot can miss a node, and two values can
    be kept alive in turn until each has been accepted by a quorum. */
module PaxosOrigins {
  import opened Basics
  import opened Paxos
  import opened PaxosRuns
  import opened PaxosBallots

  /** In no run do two nodes see a consensus on different values, at whatever times. */
  ghost predicate CountingAgrees(g: Group) {
    forall run, i, j, n, m, v: AcceptedValue, w: AcceptedValue ::
      (&& IsRun(g, run) && 0 <= i < |run| && 0 <= j < |run|
       && Sees(KnowsOf(run[i], n), g.quorum, v) && Sees(KnowsOf(run[j], m), g.quorum, w)) ==> v == w
  }

  // ---------------------------------------------------------------- a quorum is everybody

  /** If every quorum is the whole group, the first acceptance decides. */
  lemma OnlyOneValue(g: Group, h: History, n: NodeID, c: Claims, m: NodeID, d: Claims)
    requires g.quorum >= |g.nodes| && HistInv(g, h) && (n, c) in h && (m, d) in h
    requires c.accepted.Valid() && AtMost(c.accepted, d.accepted)
    ensures c.acceptedVal == d.acceptedVal
  {
    if c.accepted != d.accepted {
      var b := c.accepted;
      assert SafeAt(g, h, b, d.acceptedVal);
      var q :| QuorumBound(g, h, q, b, d.acceptedVal);
      WholeSet(q, g.nodes);
      assert Bound(h, n, b, d.acceptedVal) && Voted(h, n, b);
    }
  }

  /** What a node sees a consensus on was accepted by some node. */
  lemma SeenIsAccepted(g: Group, s: Net, h: History, n: NodeID, quorum: nat, v: AcceptedValue)
    returns (i: NodeID, c: Claims)
    requires NetInv(g, s, h) && Sees(KnowsOf(s, n), quorum, v)
    ensures (i, c) in h && c.accepted.Valid() && c.acceptedVal == v
  {
    KnowsIsKnown(g, s, h, n);
    i :| i in AcceptedFrom(KnowsOf(s, n), v.origin) && KnowsOf(s, n)[i].acceptedVal == v;
    c := KnowsOf(s, n)[i];
  }

  lemma EverybodyAgrees(g: Group)
    requires WellFormed(g) && g.quorum >= |g.nodes|
    ensures CountingAgrees(g)
  {
    forall run, i, j, n, m, v: AcceptedValue, w: AcceptedValue |
      IsRun(g, run) && 0 <= i < |run| && 0 <= j < |run|
      && Sees(KnowsOf(run[i], n), g.quorum, v) && Sees(KnowsOf(run[j], m), g.quorum, w)
      ensures v == w
    {
      SeenValuesAgree(g, run, i, j, n, m, v, w);
    }
  }

  lemma SeenValuesAgree(g: Group, run: seq<Net>, i: nat, j: nat, n: NodeID, m: NodeID, v: AcceptedValue,
                        w: AcceptedValue)
    requires WellFormed(g) && g.quorum >= |g.nodes| && IsRun(g, run) && i < |run| && j < |run|
    requires Sees(KnowsOf(run[i], n), g.quorum, v) && Sees(KnowsOf(run[j], m), g.quorum, w)
    ensures v == w
  {
    var hi := RunInv(g, run, i);
    var hj := RunInv(g, run, j);
    var h := RunInv(g, run, |run| - 1);
    var x, c := SeenIsAccepted(g, run[i], hi, n, g.quorum, v);
    var y, d := SeenIsAccepted(g, run[j], hj, m, g.quorum, w);
    assert Claimed(run, x, c) && Claimed(run, y, d);
    assert (x, c) in h && (y, d) in h;
    ProposalOrder(c.accepted, d.accepted, c.accepted);
    if AtMost(c.accepted, d.accepted) {
      OnlyOneValue(g, h, x, c, y, d);
    } else {
      OnlyOneValue(g, h, y, d, x, c);
    }
  }

  // ---------------------------------------------------------------- a quorum can miss a node

  predicate Lower(a: NodeID, b: NodeID) {
    a.name < b.name || (a.name == b.name && a.uid < b.uid)
  }

  /** The nodes e keep one value alive, in a ballot each; d keeps another one alive, in a ballot
      after each of theirs. */
  datatype Cast = Cast(g: Group, e: seq<NodeID>, d: NodeID) {
    ghost predicate Valid() {
      && WellFormed(g) && |e| == g.quorum && |e| >= 2 && d in g.nodes
      && (forall i :: 0 <= i < |e| ==> e[i] in g.nodes && Lower(e[i], d))
      && (forall i, j :: 0 <= i < j < |e| ==> e[i] != e[j])
    }

    function V(k: nat): ProposalID
      requires k < |e|
    {
      ProposalID(k + 1, e[k])
    }

    function W(k: nat): ProposalID {
      ProposalID(k + 1, d)
    }

    /** Those asked in the ballots of e, and in the ballot of d after that of e[k]. */
    function E(): set<NodeID> {
      set n | n in e
    }

    function D(k: nat): set<NodeID>
      requires k < |e|
    {
      E() - {e[k]} + {d}
    }
  }

  lemma {:induction false} SizeOf(e: seq<NodeID>)
    requires forall i, j :: 0 <= i < j < |e| ==> e[i] != e[j]
    ensures |set n | n in e| == |e|
  {
    if e != [] {
      var front := e[..|e| - 1];
      SizeOf(front);
      assert (set n | n in e) == (set n | n in front) + {e[|e| - 1]};
    }
  }

  lemma QuorumSizes(c: Cast, k: nat)
    requires c.Valid() && k < |c.e|
    ensures |c.E()| == c.g.quorum && |c.D(k)| == c.g.quorum && |c.E() + {c.d}| == c.g.quorum + 1
    ensures c.E() <= c.g.nodes && c.D(k) <= c.g.nodes && c.d !in c.E()
    ensures forall j :: 0 <= j < |c.e| ==> c.e[j] in c.E() && (c.e[j] in c.D(k) <==> j != k)
  {
    SizeOf(c.e);
    assert c.d !in c.E();
    assert c.e[k] in c.E();
  }

  lemma IndexIn(c: Cast, n: NodeID) returns (j: nat)
    requires n in c.E()
    ensures j < |c.e| && c.e[j] == n
  {
    j :| 0 <= j < |c.e| && c.e[j] == n;
  }

  /** What e[j] claims after the ballot of e[k]: a value is accepted by those who had a ballot. */
  function Member(c: Cast, p: ProposalID, v: AcceptedValue, j: nat, k: nat): Claims
    requires j < |c.e|
  {
    if j <= k then Claims(p, c.V(j), v) else Claims(p, NO_PROPOSAL, NO_VALUE)
  }

  ghost predicate MemberAfterV(c: Cast, s: Net, k: nat, v: AcceptedValue, j: nat)
    requires j < |c.e| && k < |c.e|
  {
    && Claiming(s, c.e[j], Member(c, c.V(k), v, j, k))
    && Upto(KnowsOf(s, c.e[j]), c.V(k))
    && Newest(s, KnowsOf(s, c.e[k]), c.e[j]) && c.e[k] in KnowsOf(s, c.e[j])
    && (k == 0 ==> KnowsOf(s, c.e[j]).Keys <= c.E())
  }

  /** After the ballot of e[k]. */
  ghost predicate AfterV(c: Cast, s: Net, k: nat, v: AcceptedValue, w: AcceptedValue) {
    && c.Valid() && Reachable(c.g, s) && k < |c.e|
    && (forall j :: 0 <= j < |c.e| ==> MemberAfterV(c, s, k, v, j))
    && (if k == 0 then KnowsOf(s, c.d) == map[]
        else Claiming(s, c.d, Claims(c.W(k - 1), c.W(k - 1), w)) && Upto(KnowsOf(s, c.d), c.W(k - 1)))
  }

  ghost predicate MemberAfterW(c: Cast, s: Net, k: nat, v: AcceptedValue, j: nat)
    requires j < |c.e| && k < |c.e|
  {
    && Claiming(s, c.e[j], Member(c, if j == k then c.V(k) else c.W(k), v, j, k))
    && Upto(KnowsOf(s, c.e[j]), c.W(k))
    && (j != k ==> Newest(s, KnowsOf(s, c.d), c.e[j]))
  }

  /** After the ballot of d that follows it. */
  ghost predicate AfterW(c: Cast, s: Net, k: nat, v: AcceptedValue, w: AcceptedValue) {
    && c.Valid() && Reachable(c.g, s) && k < |c.e|
    && (forall j :: 0 <= j < |c.e| ==> MemberAfterW(c, s, k, v, j))
    && Claiming(s, c.d, Claims(c.W(k), c.W(k), w)) && Upto(KnowsOf(s, c.d), c.W(k))
  }

  // How many have accepted what: too few for a consensus, until the last ballot of e.

  function First(e: seq<NodeID>, k: nat): set<NodeID>
    requires k <= |e|
  {
    if k == 0 then {} else First(e, k - 1) + {e[k - 1]}
  }

  lemma {:induction false} FirstSize(e: seq<NodeID>, k: nat)
    requires k <= |e|
    ensures |First(e, k)| <= k
  {
    if k > 0 { FirstSize(e, k - 1); }
  }

  /** The first k of e have accepted v, and those in ds have accepted w. */
  function Votes(c: Cast, k: nat, v: AcceptedValue, w: AcceptedValue, ds: set<NodeID>): Acceptors
    requires k <= |c.e|
  {
    map[v.origin := First(c.e, k), w.origin := ds]
  }

  /** Before the first ballot of d only v has been accepted. */
  function VotesBefore(c: Cast, k: nat, v: AcceptedValue, w: AcceptedValue): Acceptors
    requires k <= |c.e|
  {
    if k == 0 then map[] else Votes(c, k, v, w, {c.d})
  }

  /** After the ballot of e[k], and after that of d. */
  ghost predicate CountV(c: Cast, s: Net, k: nat, v: AcceptedValue, w: AcceptedValue) {
    && c.Valid() && k < |c.e| && v.origin == c.V(0) && (k > 0 ==> w.origin == c.W(0))
    && AllWithin(s, c.D(k), VotesBefore(c, k, v, w))
    && Within(KnowsOf(s, c.e[k]), With(VotesBefore(c, k, v, w), v.origin, c.e[k]))
  }

  ghost predicate CountW(c: Cast, s: Net, k: nat, v: AcceptedValue, w: AcceptedValue) {
    && c.Valid() && k < |c.e| && v.origin == c.V(0) && w.origin == c.W(0)
    && AllWithin(s, c.D(k), Votes(c, k, v, w, {c.d}))
    && Within(KnowsOf(s, c.e[k]), Votes(c, k + 1, v, w, {c.d}))
  }

  lemma VotesTooFew(c: Cast, k: nat, v: AcceptedValue, w: AcceptedValue, ds: set<NodeID>)
    requires c.Valid() && k < |c.e| && |ds| < c.g.quorum
    ensures TooFew(c.g, Votes(c, k, v, w, ds)) && TooFew(c.g, VotesBefore(c, k, v, w))
  {
    FirstSize(c.e, k);
  }

  lemma VotesMore(c: Cast, k: nat, v: AcceptedValue, w: AcceptedValue, g: GossipState)
    requires c.Valid() && k < |c.e| && v.origin != w.origin
    requires Within(g, Votes(c, k, v, w, {c.d})) || Within(g, With(VotesBefore(c, k, v, w), v.origin, c.e[k]))
    ensures Within(g, Votes(c, k + 1, v, w, {c.d}))
  {
    var a := Votes(c, k + 1, v, w, {c.d});
    if Within(g, Votes(c, k, v, w, {c.d})) {
      WithinMore(g, Votes(c, k, v, w, {c.d}), a);
    } else {
      WithinMore(g, With(VotesBefore(c, k, v, w), v.origin, c.e[k]), a);
    }
  }

  lemma CountAfterW(c: Cast, s0: Net, s: Net, k: nat, v: AcceptedValue, w0: AcceptedValue, w: AcceptedValue)
    requires CountV(c, s0, k, v, w0) && w.origin == c.W(0) && (k > 0 ==> w == w0)
    requires VotedWithin(s, c.D(k), c.d, w, VotesBefore(c, k, v, w0)) && KnowsOf(s, c.e[k]) == KnowsOf(s0, c.e[k])
    ensures CountW(c, s, k, v, w)
  {
    QuorumSizes(c, k);
    var a, a' := VotesBefore(c, k, v, w0), Votes(c, k, v, w, {c.d});
    forall n | n in c.D(k) ensures Within(KnowsOf(s, n), a') {
      if n == c.d {
        WithinMore(KnowsOf(s, n), With(a, w.origin, c.d), a');
      } else {
        assert n in c.D(k) - {c.d};
        WithinMore(KnowsOf(s, n), a, a');
      }
    }
    assert k == 0 ==> VotesBefore(c, k, v, w) == a;
    VotesMore(c, k, v, w, KnowsOf(s, c.e[k]));
  }

  lemma CountBeforeV(c: Cast, s: Net, k: nat, v: AcceptedValue, w: AcceptedValue, n: NodeID)
    requires CountW(c, s, k, v, w) && n in c.E() + {c.d}
    ensures Within(KnowsOf(s, n), Votes(c, k + 1, v, w, {c.d}))
  {
    if n != c.e[k] {
      assert n in c.D(k);
      VotesMore(c, k, v, w, KnowsOf(s, n));
    }
  }

  lemma CountAfterV(c: Cast, s0: Net, s: Net, k: nat, v: AcceptedValue, w: AcceptedValue, next: nat)
    requires CountW(c, s0, k, v, w) && next == k + 1 < |c.e| && KnowsOf(s, c.d) == KnowsOf(s0, c.d)
    requires VotedWithin(s, c.E(), c.e[next], v, Votes(c, next, v, w, {c.d}))
    ensures CountV(c, s, next, v, w)
  {
    forall n | n in c.D(next) ensures Within(KnowsOf(s, n), Votes(c, next, v, w, {c.d})) {
      if n == c.d { CountBeforeV(c, s0, k, v, w, n); } else { assert n in c.E() - {c.e[next]}; }
    }
  }

  // The first ballot of e.

  lemma ReadyForFirst(c: Cast, s0: Net)
    requires c.Valid() && s0 == Net(map[], {})
    ensures Ready(c.g, s0, c.V(0), c.E())
  {
    Start(c.g);
    QuorumSizes(c, 0);
  }

  /** Only those asked are known then. */
  lemma KnowsOnlyE(c: Cast, s0: Net, s: Net, n: NodeID)
    requires s0 == Net(map[], {}) && KnownFrom(s0, s, c.E(), n)
    ensures KnowsOf(s, n).Keys <= c.E()
  {
    forall x | x in KnowsOf(s, n).Keys ensures x in c.E() {
      assert Sourced(s0, c.E(), x);
    }
  }

  lemma FirstMember(c: Cast, s0: Net, s: Net, v: AcceptedValue, j: nat)
    requires c.Valid() && s0 == Net(map[], {}) && j < |c.e| && KnowsOf(s, c.e[j]).Keys <= c.E()
    requires HasVoted(s0, s, c.V(0), c.e[j]) && Claiming(s, c.e[0], Claims(c.V(0), c.V(0), v))
    ensures MemberAfterV(c, s, 0, v, j)
  {
  }

  /** The first proposer knows all those asked. */
  lemma KnowsE(c: Cast, s0: Net, s: Net, v: AcceptedValue)
    requires c.Valid() && s0 == Net(map[], {}) && Held(s0, s, c.V(0), c.E(), v) && KnownFrom(s0, s, c.E(), c.e[0])
    ensures KnowsOf(s, c.e[0]).Keys == c.E()
  {
    KnowsOnlyE(c, s0, s, c.e[0]);
    forall n | n in c.E() ensures n in KnowsOf(s, c.e[0]) {
      assert HasVoted(s0, s, c.V(0), n);
    }
  }

  lemma FirstV(c: Cast) returns (s: Net, v: AcceptedValue)
    requires c.Valid()
    ensures AfterV(c, s, 0, v, NO_VALUE) && NamesOf(v.value, c.E()) && CountV(c, s, 0, v, NO_VALUE)
  {
    var s0 := Net(map[], {});
    ReadyForFirst(c, s0);
    s, v := HoldFirst(c.g, s0, c.V(0), c.E(), map[]);
    QuorumSizes(c, 0);
    KnowsE(c, s0, s, v);
    forall j | 0 <= j < |c.e| ensures MemberAfterV(c, s, 0, v, j) {
      KnowsOnlyE(c, s0, s, c.e[j]);
      FirstMember(c, s0, s, v, j);
    }
    assert KnowsOf(s, c.d) == KnowsOf(s0, c.d);
    forall n | n in c.D(0) ensures Within(KnowsOf(s, n), map[]) {
      if n != c.d { assert n in c.E() - {c.e[0]}; }
    }
  }

  // From a ballot of e to the ballot of d after it.

  lemma ReadyForW(c: Cast, s: Net, k: nat, v: AcceptedValue, w: AcceptedValue)
    requires AfterV(c, s, k, v, w)
    ensures Ready(c.g, s, c.W(k), c.D(k))
  {
    QuorumSizes(c, k);
    var b := c.W(k);
    forall n | n in c.D(k) ensures Under(KnowsOf(s, n), b) {
      if n != c.d {
        var j := IndexIn(c, n);
        assert MemberAfterV(c, s, k, v, j);
        UptoUnder(KnowsOf(s, n), c.V(k), b);
      } else if k > 0 {
        UptoUnder(KnowsOf(s, n), c.W(k - 1), b);
      }
    }
  }

  lemma MemberVotesW(c: Cast, s0: Net, s: Net, k: nat, v: AcceptedValue, j: nat)
    requires k < |c.e| && j < |c.e| && c.e[j] != c.d && c.e[k] != c.d && Lower(c.e[k], c.d)
    requires MemberAfterV(c, s0, k, v, j)
    requires if j == k then KnowsOf(s, c.e[j]) == KnowsOf(s0, c.e[j]) else HasVoted(s0, s, c.W(k), c.e[j])
    ensures MemberAfterW(c, s, k, v, j)
  {
    if j == k { UptoLater(KnowsOf(s, c.e[j]), c.V(k), c.W(k)); }
  }

  lemma HeldW(c: Cast, s0: Net, s: Net, k: nat, v: AcceptedValue, w0: AcceptedValue, w: AcceptedValue)
    requires AfterV(c, s0, k, v, w0) && Reachable(c.g, s) && Held(s0, s, c.W(k), c.D(k), w)
    ensures AfterW(c, s, k, v, w)
  {
    QuorumSizes(c, k);
    forall j | 0 <= j < |c.e| ensures MemberAfterW(c, s, k, v, j) {
      assert c.e[j] in c.D(k) <==> j != k;
      MemberVotesW(c, s0, s, k, v, j);
    }
    assert HasVoted(s0, s, c.W(k), c.d);
  }

  lemma NothingToRepeat(c: Cast, s0: Net, v: AcceptedValue, w0: AcceptedValue)
    requires AfterV(c, s0, 0, v, w0)
    ensures forall n :: n in c.D(0) ==> OwnOf(s0, n).accepted == NO_PROPOSAL
  {
    QuorumSizes(c, 0);
    forall n | n in c.D(0) ensures OwnOf(s0, n).accepted == NO_PROPOSAL {
      if n != c.d {
        var j := IndexIn(c, n);
        assert MemberAfterV(c, s0, 0, v, j);
      }
    }
  }

  lemma KnowsEverybody(c: Cast, s0: Net, s: Net, v: AcceptedValue, w0: AcceptedValue, w: AcceptedValue)
    requires AfterV(c, s0, 0, v, w0) && Held(s0, s, c.W(0), c.D(0), w)
    requires KnownFrom(s0, s, c.D(0), c.d) && ToldBy(s0, s, c.d, c.e[1])
    ensures KnowsOf(s, c.d).Keys == c.E() + {c.d}
  {
    QuorumSizes(c, 0);
    forall n | n in c.E() + {c.d} ensures n in KnowsOf(s, c.d) {
      if n == c.e[0] {
        assert MemberAfterV(c, s0, 0, v, 1);
      } else {
        assert HasVoted(s0, s, c.W(0), n);
      }
    }
    forall x | x in KnowsOf(s, c.d) ensures x in c.E() + {c.d} {
      OnlyE(c, s0, v, w0, x);
    }
  }

  /** Nobody outside e and d has been heard of. */
  lemma OnlyE(c: Cast, s0: Net, v: AcceptedValue, w0: AcceptedValue, x: NodeID)
    requires AfterV(c, s0, 0, v, w0) && Sourced(s0, c.D(0), x)
    ensures x in c.E() + {c.d}
  {
    if x !in c.D(0) {
      var m :| m in c.D(0) && x in KnowsOf(s0, m);
      if m != c.d {
        var j := IndexIn(c, m);
        assert MemberAfterV(c, s0, 0, v, j);
      }
    }
  }

  /** In its first ballot d hears of nobody's acceptance, and makes a value of its own. */
  lemma FirstW(c: Cast, s0: Net, v: AcceptedValue, w0: AcceptedValue) returns (s: Net, w: AcceptedValue)
    requires AfterV(c, s0, 0, v, w0) && CountV(c, s0, 0, v, w0)
    ensures AfterW(c, s, 0, v, w) && NamesOf(w.value, c.E() + {c.d}) && CountW(c, s, 0, v, w)
  {
    ReadyForW(c, s0, 0, v, w0);
    NothingToRepeat(c, s0, v, w0);
    QuorumSizes(c, 0);
    s, w := HoldFirst(c.g, s0, c.W(0), c.D(0), map[]);
    KnowsEverybody(c, s0, s, v, w0, w);
    HeldW(c, s0, s, 0, v, w0, w);
    CountAfterW(c, s0, s, 0, v, w0, w);
  }

  lemma LatestOfD(c: Cast, s0: Net, k: nat, v: AcceptedValue, w: AcceptedValue)
    requires AfterV(c, s0, k, v, w) && k > 0
    ensures OwnOf(s0, c.d).accepted.Valid() && OwnOf(s0, c.d).acceptedVal == w
    ensures forall n :: n in c.D(k) ==> !Precedes(OwnOf(s0, c.d).accepted, OwnOf(s0, n).accepted)
  {
    forall n | n in c.D(k) ensures !Precedes(OwnOf(s0, c.d).accepted, OwnOf(s0, n).accepted) {
      if n != c.d {
        var j := IndexIn(c, n);
        assert MemberAfterV(c, s0, k, v, j);
      }
    }
  }

  lemma NextW(c: Cast, s0: Net, k: nat, v: AcceptedValue, w: AcceptedValue) returns (s: Net)
    requires AfterV(c, s0, k, v, w) && k > 0 && CountV(c, s0, k, v, w)
    ensures AfterW(c, s, k, v, w) && KnowsOf(s, c.e[k]) == KnowsOf(s0, c.e[k]) && CountW(c, s, k, v, w)
  {
    ReadyForW(c, s0, k, v, w);
    QuorumSizes(c, k);
    VotesTooFew(c, k, v, w, {c.d});
    LatestOfD(c, s0, k, v, w);
    s := HoldAgain(c.g, s0, c.W(k), c.D(k), c.d, VotesBefore(c, k, v, w));
    HeldW(c, s0, s, k, v, w, w);
    CountAfterW(c, s0, s, k, v, w, w);
  }

  // From a ballot of d to the next one of e.

  lemma RoundOfNext(c: Cast, s0: Net, k: nat, v: AcceptedValue, next: nat)
    requires k < next < |c.e| && MemberAfterW(c, s0, k, v, next)
    ensures HighestRound(KnowsOf(s0, c.e[next]), k + 1)
  {
  }

  lemma UnderNext(c: Cast, s0: Net, k: nat, v: AcceptedValue, w: AcceptedValue, next: nat, n: NodeID)
    requires AfterW(c, s0, k, v, w) && next == k + 1 < |c.e| && n in c.E()
    ensures Under(KnowsOf(s0, n), c.V(next))
  {
    var j := IndexIn(c, n);
    assert MemberAfterW(c, s0, k, v, j);
    UptoUnder(KnowsOf(s0, n), c.W(k), c.V(next));
  }

  lemma ReadyForV(c: Cast, s0: Net, k: nat, v: AcceptedValue, w: AcceptedValue, next: nat)
    requires AfterW(c, s0, k, v, w) && next == k + 1 < |c.e|
    ensures Ready(c.g, s0, c.V(next), c.E())
  {
    QuorumSizes(c, k);
    forall n | n in c.E() ensures Under(KnowsOf(s0, n), c.V(next)) {
      UnderNext(c, s0, k, v, w, next, n);
    }
    assert MemberAfterW(c, s0, k, v, next);
    RoundOfNext(c, s0, k, v, next);
  }

  lemma LatestOfE(c: Cast, s0: Net, k: nat, v: AcceptedValue, w: AcceptedValue)
    requires AfterW(c, s0, k, v, w)
    ensures OwnOf(s0, c.e[k]).accepted.Valid() && OwnOf(s0, c.e[k]).acceptedVal == v
    ensures forall n :: n in c.E() ==> !Precedes(OwnOf(s0, c.e[k]).accepted, OwnOf(s0, n).accepted)
  {
    assert MemberAfterW(c, s0, k, v, k);
    forall n | n in c.E() ensures !Precedes(OwnOf(s0, c.e[k]).accepted, OwnOf(s0, n).accepted) {
      var j := IndexIn(c, n);
      assert MemberAfterW(c, s0, k, v, j);
    }
  }

  lemma MemberVotesV(c: Cast, s0: Net, s: Net, k: nat, v: AcceptedValue, next: nat, j: nat)
    requires next == k + 1 < |c.e| && j < |c.e| && (j == next || c.e[j] != c.e[next])
    requires MemberAfterW(c, s0, k, v, j) && HasVoted(s0, s, c.V(next), c.e[j]) &&
             Claiming(s, c.e[next], Claims(c.V(next), c.V(next), v))
    ensures MemberAfterV(c, s, next, v, j)
  {
  }

  lemma HeldV(c: Cast, s0: Net, s: Net, k: nat, v: AcceptedValue, w: AcceptedValue, next: nat)
    requires AfterW(c, s0, k, v, w) && next == k + 1 < |c.e| && Reachable(c.g, s) && Held(s0, s, c.V(next), c.E(), v)
    ensures AfterV(c, s, next, v, w)
  {
    QuorumSizes(c, k);
    forall j | 0 <= j < |c.e| ensures MemberAfterV(c, s, next, v, j) {
      MemberVotesV(c, s0, s, k, v, next, j);
    }
    assert KnowsOf(s, c.d) == KnowsOf(s0, c.d);
  }

  lemma NextV(c: Cast, s0: Net, k: nat, v: AcceptedValue, w: AcceptedValue, next: nat) returns (s: Net)
    requires AfterW(c, s0, k, v, w) && next == k + 1 < |c.e| && CountW(c, s0, k, v, w)
    ensures AfterV(c, s, next, v, w) && CountV(c, s, next, v, w)
  {
    ReadyForV(c, s0, k, v, w, next);
    LatestOfE(c, s0, k, v, w);
    VotesTooFew(c, next, v, w, {c.d});
    forall n | n in c.E() ensures Within(KnowsOf(s0, n), Votes(c, next, v, w, {c.d})) {
      CountBeforeV(c, s0, k, v, w, n);
    }
    assert c.e[k] in c.E();
    s := HoldAgain(c.g, s0, c.V(next), c.E(), c.e[k], Votes(c, next, v, w, {c.d}));
    HeldV(c, s0, s, k, v, w, next);
    QuorumSizes(c, next);
    CountAfterV(c, s0, s, k, v, w, next);
  }

  lemma BothAgain(c: Cast, s0: Net, k: nat, v: AcceptedValue, w: AcceptedValue, next: nat) returns (s: Net)
    requires AfterV(c, s0, k, v, w) && CountV(c, s0, k, v, w) && k > 0 && next == k + 1 < |c.e|
    ensures AfterV(c, s, next, v, w) && CountV(c, s, next, v, w)
  {
    s := NextW(c, s0, k, v, w);
    s := NextV(c, s, k, v, w, next);
  }

  /** In turn both values are accepted again and again. */
  lemma {:induction false} Alternate(c: Cast, s0: Net, v: AcceptedValue, w: AcceptedValue, k: nat) returns (s: Net)
    requires AfterW(c, s0, 0, v, w) && CountW(c, s0, 0, v, w) && 0 < k < |c.e|
    ensures AfterV(c, s, k, v, w) && CountV(c, s, k, v, w)
  {
    if k == 1 {
      s := NextV(c, s0, 0, v, w, k);
    } else {
      s := Alternate(c, s0, v, w, k - 1);
      s := BothAgain(c, s, k - 1, v, w, k);
    }
  }

  // In the end those asked by d accept its value, and one of e has not heard of that.

  /** Those in done have followed d and told it; the others have done nothing. */
  ghost predicate Following(c: Cast, s0: Net, s: Net, k: nat, v: AcceptedValue, w: AcceptedValue, done: set<NodeID>)
    requires k < |c.e|
  {
    && Within(KnowsOf(s, c.d), Votes(c, k, v, w, done))
    && c.d in done && done <= c.D(k)
    && (forall n {:trigger KnowsOf(s, n)} :: n !in done ==> KnowsOf(s, n) == KnowsOf(s0, n))
    && Upto(KnowsOf(s, c.d), c.W(k))
    && (forall n :: n in done ==> HasFollowed(c, s, k, w, n))
  }

  ghost predicate HasFollowed(c: Cast, s: Net, k: nat, w: AcceptedValue, n: NodeID) {
    Claiming(s, n, Claims(c.W(k), c.W(k), w)) && Newest(s, KnowsOf(s, c.d), n)
  }

  lemma InformedUpto(s: Net, n: NodeID, m: NodeID, k: GossipState, b: ProposalID)
    requires Informed(s, n, m, k) && Upto(KnowsOf(s, n), b) && Upto(KnowsOf(s, m), b)
    ensures Upto(k, b)
  {
    forall i | i in k ensures AtMost(k[i].promise, b) && AtMost(k[i].accepted, b) {
      assert FromEither(KnowsOf(s, n), KnowsOf(s, m), k, i);
    }
  }

  lemma FollowOne(c: Cast, s0: Net, s: Net, k: nat, v: AcceptedValue, w: AcceptedValue, done: set<NodeID>, n: NodeID)
    returns (s1: Net)
    requires AfterW(c, s0, k, v, w) && CountW(c, s0, k, v, w)
    requires Reachable(c.g, s) && Following(c, s0, s, k, v, w, done) && n in c.D(k) && n !in done
    ensures Reachable(c.g, s1) && Claiming(s1, n, Claims(c.W(k), c.W(k), w)) && Upto(KnowsOf(s1, n), c.W(k))
    ensures Within(KnowsOf(s1, n), Votes(c, k, v, w, done + {n}))
    ensures forall m {:trigger KnowsOf(s1, m)} :: m != n ==> KnowsOf(s1, m) == KnowsOf(s, m)
  {
    QuorumSizes(c, k);
    assert HasFollowed(c, s, k, w, c.d);
    var j := IndexIn(c, n);
    assert MemberAfterW(c, s0, k, v, j);
    assert KnowsOf(s, n) == KnowsOf(s0, n);
    VotesTooFew(c, k, v, w, {c.d});
    NoDecision(c.g, KnowsOf(s, n), Votes(c, k, v, w, {c.d}));
    WithinMore(KnowsOf(s, n), Votes(c, k, v, w, {c.d}), Votes(c, k, v, w, done));
    s1 := HearsAndFollows(c.g, s, n, c.d, c.W(k), w, Votes(c, k, v, w, done));
    WithinMore(KnowsOf(s1, n), With(Votes(c, k, v, w, done), w.origin, n), Votes(c, k, v, w, done + {n}));
  }

  /** A node that has promised b hears from its proposer that it was accepted. */
  lemma HearsAndFollows(g: Group, s: Net, n: NodeID, m: NodeID, b: ProposalID, w: AcceptedValue, a: Acceptors)
    returns (s1: Net)
    requires Within(KnowsOf(s, n), a) && Within(KnowsOf(s, m), a) && !Decided(g, KnowsOf(s, n))
    requires WellFormed(g) && Reachable(g, s) && n in g.nodes && n != m && b.proposer != n
    requires Claiming(s, m, Claims(b, b, w)) && Upto(KnowsOf(s, m), b)
    requires n in KnowsOf(s, n) && KnowsOf(s, n)[n].promise == b && KnowsOf(s, n)[n].accepted != b &&
             Upto(KnowsOf(s, n), b)
    ensures Reachable(g, s1) && Claiming(s1, n, Claims(b, b, w)) && Upto(KnowsOf(s1, n), b)
    ensures Within(KnowsOf(s1, n), With(a, w.origin, n))
    ensures forall i {:trigger KnowsOf(s1, i)} :: i != n ==> KnowsOf(s1, i) == KnowsOf(s, i)
  {
    Hears(g, s, n, m);
    var s' := Heard(s, n, m);
    var k := KnowsOf(s', n);
    InformedUpto(s, n, m, k, b);
    InformedWithin(s, n, m, k, a);
    Follows(g, s', n, b, m);
    s1 := Put(s', n, k[n := Claims(b, b, w)]);
    AcceptWithin(k, n, Claims(b, b, w), a);
  }

  /** As long as one is left to follow, d sees no consensus. */
  lemma UndecidedD(c: Cast, s: Net, k: nat, v: AcceptedValue, w: AcceptedValue, done: set<NodeID>, n: NodeID)
    requires c.Valid() && k < |c.e| && done <= c.D(k) && n in c.D(k) && n !in done && v.origin != w.origin
    requires Within(KnowsOf(s, c.d), Votes(c, k, v, w, done))
    ensures !Decided(c.g, KnowsOf(s, c.d)) && Within(KnowsOf(s, c.d), Votes(c, k, v, w, done + {n}))
  {
    QuorumSizes(c, k);
    SubsetSize(done + {n}, c.D(k));
    VotesTooFew(c, k, v, w, done);
    NoDecision(c.g, KnowsOf(s, c.d), Votes(c, k, v, w, done));
    WithinMore(KnowsOf(s, c.d), Votes(c, k, v, w, done), Votes(c, k, v, w, done + {n}));
  }

  lemma FollowTells(c: Cast, s0: Net, s: Net, s1: Net, k: nat, v: AcceptedValue, w: AcceptedValue, done: set<NodeID>,
                    n: NodeID)
    returns (s2: Net)
    requires c.Valid() && k < |c.e| && Reachable(c.g, s1) && Following(c, s0, s, k, v, w, done) && n in c.D(k) &&
             n !in done && v.origin != w.origin && Within(KnowsOf(s1, n), Votes(c, k, v, w, done + {n}))
    requires Claiming(s1, n, Claims(c.W(k), c.W(k), w)) && Upto(KnowsOf(s1, n), c.W(k))
    requires forall m {:trigger KnowsOf(s1, m)} :: m != n ==> KnowsOf(s1, m) == KnowsOf(s, m)
    ensures Reachable(c.g, s2) && Following(c, s0, s2, k, v, w, done + {n})
  {
    var b := c.W(k);
    UndecidedD(c, s1, k, v, w, done, n);
    Hears(c.g, s1, c.d, n);
    s2 := Heard(s1, c.d, n);
    var k2 := KnowsOf(s2, c.d);
    assert KnowsOf(s1, c.d) == KnowsOf(s, c.d);
    InformedWithin(s1, c.d, n, k2, Votes(c, k, v, w, done + {n}));
    forall i | i in k2 ensures AtMost(k2[i].promise, b) && AtMost(k2[i].accepted, b) {
      assert FromEither(KnowsOf(s1, c.d), KnowsOf(s1, n), k2, i);
    }
    forall m | m in done + {n} ensures HasFollowed(c, s2, k, w, m) {
      if m != n {
        assert HasFollowed(c, s, k, w, m) && KnowsOf(s1, m) == KnowsOf(s, m);
        assert Newest(s1, KnowsOf(s1, c.d), m);
      }
      assert Newest(s1, k2, m);
      PutKeeps(s1, c.d, k2, m, k2[m]);
    }
    forall m | m !in done + {n} ensures KnowsOf(s2, m) == KnowsOf(s0, m) {
      assert KnowsOf(s1, m) == KnowsOf(s, m) == KnowsOf(s0, m);
    }
  }

  lemma {:induction false} AllFollow(c: Cast, s0: Net, s: Net, k: nat, v: AcceptedValue, w: AcceptedValue,
                                     done: set<NodeID>) returns (s': Net)
    requires AfterW(c, s0, k, v, w) && CountW(c, s0, k, v, w) && Reachable(c.g, s) &&
             Following(c, s0, s, k, v, w, done)
    ensures Reachable(c.g, s') && Following(c, s0, s', k, v, w, c.D(k))
    decreases c.D(k) - done
  {
    if done == c.D(k) {
      s' := s;
    } else {
      var n :| n in c.D(k) && n !in done;
      var s1 := FollowOne(c, s0, s, k, v, w, done, n);
      s' := FollowTells(c, s0, s, s1, k, v, w, done, n);
      s' := AllFollow(c, s0, s', k, v, w, done + {n});
    }
  }

  /** If all in q are known to have accepted v, there is a consensus on it. */
  lemma SeesQuorum(k: GossipState, quorum: nat, q: set<NodeID>, v: AcceptedValue)
    requires |q| >= quorum > 0 && forall n :: n in q ==> n in k && k[n].accepted.Valid() && k[n].acceptedVal == v
    ensures Sees(k, quorum, v)
  {
    assert q <= AcceptedFrom(k, v.origin);
    SubsetSize(q, AcceptedFrom(k, v.origin));
    var n :| n in q;
    assert n in AcceptedFrom(k, v.origin);
  }

  lemma LastOfESees(c: Cast, s: Net, k: nat, v: AcceptedValue, w: AcceptedValue)
    requires AfterV(c, s, k, v, w) && k == |c.e| - 1
    ensures Sees(KnowsOf(s, c.e[k]), c.g.quorum, v)
  {
    QuorumSizes(c, k);
    forall n | n in c.E()
      ensures n in KnowsOf(s, c.e[k]) && KnowsOf(s, c.e[k])[n].accepted.Valid() &&
              KnowsOf(s, c.e[k])[n].acceptedVal == v {
      var j := IndexIn(c, n);
      assert MemberAfterV(c, s, k, v, j);
    }
    SeesQuorum(KnowsOf(s, c.e[k]), c.g.quorum, c.E(), v);
  }

  lemma DSees(c: Cast, s0: Net, s: Net, k: nat, v: AcceptedValue, w: AcceptedValue)
    requires c.Valid() && k < |c.e| && Following(c, s0, s, k, v, w, c.D(k))
    ensures Sees(KnowsOf(s, c.d), c.g.quorum, w)
  {
    QuorumSizes(c, k);
    forall n | n in c.D(k)
      ensures n in KnowsOf(s, c.d) && KnowsOf(s, c.d)[n].accepted.Valid() && KnowsOf(s, c.d)[n].acceptedVal == w {
      assert HasFollowed(c, s, k, w, n);
    }
    SeesQuorum(KnowsOf(s, c.d), c.g.quorum, c.D(k), w);
  }

  lemma {:induction false} HighestNode(nodes: set<NodeID>) returns (d: NodeID)
    requires nodes != {}
    ensures d in nodes && forall n :: n in nodes && n != d ==> Lower(n, d)
  {
    var x :| x in nodes;
    var rest := nodes - {x};
    d := x;
    if rest != {} {
      var y := HighestNode(rest);
      if Lower(x, y) { d := y; }
    }
    forall n | n in nodes && n != d ensures Lower(n, d) {
      assert n == x || n in rest;
    }
  }

  lemma {:induction false} SomeOf(nodes: set<NodeID>, n: nat) returns (e: seq<NodeID>)
    requires n <= |nodes|
    ensures |e| == n && (forall i :: 0 <= i < |e| ==> e[i] in nodes)
    ensures forall i, j :: 0 <= i < j < |e| ==> e[i] != e[j]
  {
    if n == 0 {
      e := [];
    } else {
      var x :| x in nodes;
      e := SomeOf(nodes - {x}, n - 1);
      e := e + [x];
    }
  }

  lemma {:induction false} SomeSet(nodes: set<NodeID>, n: nat) returns (e: set<NodeID>)
    requires n <= |nodes|
    ensures e <= nodes && |e| == n
  {
    if n == 0 {
      e := {};
    } else {
      var x :| x in nodes;
      e := SomeSet(nodes - {x}, n - 1);
      e := e + {x};
    }
  }

  /** The nodes of a set in some order, with n at the end. */
  lemma ListWithLast(nodes: set<NodeID>, n: NodeID) returns (e: seq<NodeID>)
    requires n in nodes
    ensures |e| == |nodes| && e[|e| - 1] == n && (forall i :: 0 <= i < |e| ==> e[i] in nodes)
    ensures (forall i, j :: 0 <= i < j < |e| ==> e[i] != e[j]) && (set x | x in e) == nodes
  {
    e := SomeOf(nodes - {n}, |nodes| - 1);
    e := e + [n];
    SizeOf(e);
    WholeSet((set x | x in e), nodes);
  }

  /** Two values that two nodes can see a consensus on: the names of a quorum, and those of the
      same nodes and one more.  The nodes that see them are the highest of each. */
  ghost predicate Rivals(g: Group, e: set<NodeID>, n: NodeID, m: NodeID, v: AcceptedValue, w: AcceptedValue) {
    && e <= g.nodes && n in e && m in g.nodes && (forall i :: i in e ==> Lower(i, m) && (i == n || Lower(i, n)))
    && NamesOf(v.value, e) && NamesOf(w.value, e + {m})
  }

  /** A run after which one node sees a consensus on one value and another one on another; no node
      takes part any more once it sees one. */
  lemma CountingMisleads(g: Group)
    returns (run: seq<Net>, e: set<NodeID>, n: NodeID, m: NodeID, v: AcceptedValue, w: AcceptedValue)
    requires WellFormed(g) && g.quorum < |g.nodes|
    ensures IsElection(g, run) && Rivals(g, e, n, m, v, w) && v.value != w.value
    ensures Sees(KnowsOf(run[|run| - 1], n), g.quorum, v) && Sees(KnowsOf(run[|run| - 1], m), g.quorum, w)
  {
    m := HighestNode(g.nodes);
    e := SomeSet(g.nodes - {m}, g.quorum);
    n := HighestNode(e);
    var list := ListWithLast(e, n);
    var c, k := Cast(g, list, m), g.quorum - 1;
    assert c.E() == e;
    var s0: Net, s: Net;
    s0, v := FirstV(c);
    s0, w := FirstW(c, s0, v, NO_VALUE);
    s0 := Alternate(c, s0, v, w, k);
    LastOfESees(c, s0, k, v, w);
    s0 := NextW(c, s0, k, v, w);
    QuorumSizes(c, k);
    s := AllFollow(c, s0, s0, k, v, w, {m});
    DSees(c, s0, s, k, v, w);
    assert KnowsOf(s, n) == KnowsOf(s0, n);
    run :| IsElection(g, run) && run[|run| - 1] == s;
  }

  /** Counting by origin is right in all runs just when a quorum is the whole group. */
  lemma CountingAgreesIff(g: Group)
    requires WellFormed(g)
    ensures CountingAgrees(g) <==> g.quorum >= |g.nodes|
  {
    if g.quorum >= |g.nodes| {
      EverybodyAgrees(g);
    } else {
      var run, e, n, m, v, w := CountingMisleads(g);
      ElectionIsRun(g, run);
      var i := |run| - 1;
      assert Sees(KnowsOf(run[i], n), g.quorum, v) && Sees(KnowsOf(run[i], m), g.quorum, w) && v != w;
    }
  }
}
