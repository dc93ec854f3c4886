/** Gossip Paxos (ipam/paxos/paxos.go): one node and its three operations. */
module Paxos {
  import opened Basics

  datatype NodeID = NodeID(name: nat, uid: nat)

  /** Round 0 marks an uninitialised proposal. */
  datatype ProposalID = ProposalID(round: nat, proposer: NodeID) {
    predicate Valid() { round > 0 }
  }

  const NO_PROPOSAL := ProposalID(0, NodeID(0, 0))

  /** ProposalID.precedes */
  predicate Precedes(a: ProposalID, b: ProposalID) {
    if a.round != b.round then a.round < b.round
    else if a.proposer.name != b.proposer.name then a.proposer.name < b.proposer.name
    else if a.proposer.uid != b.proposer.uid then a.proposer.uid < b.proposer.uid
    else false
  }

  predicate AtMost(a: ProposalID, b: ProposalID) {
    a == b || Precedes(a, b)
  }

  /** Proposals are totally ordered. */
  lemma ProposalOrder(a: ProposalID, b: ProposalID, c: ProposalID)
    ensures !Precedes(a, a)
    ensures a == b || Precedes(a, b) || Precedes(b, a)
    ensures Precedes(a, b) && Precedes(b, c) ==> Precedes(a, c)
    ensures !(Precedes(a, b) && Precedes(b, a))
  {
  }

  /** The value agreed on is a list of peer names. */
  type Value = seq<nat>

  datatype AcceptedValue = AcceptedValue(value: Value, origin: ProposalID)

  const NO_VALUE := AcceptedValue([], NO_PROPOSAL)

  datatype Claims = Claims(promise: ProposalID, accepted: ProposalID, acceptedVal: AcceptedValue) {
    /** NodeClaims.equals: the value itself is not compared. */
    predicate Same(other: Claims) {
      promise == other.promise && accepted == other.accepted && acceptedVal.origin == other.acceptedVal.origin
    }
  }

  const NO_CLAIMS := Claims(NO_PROPOSAL, NO_PROPOSAL, NO_VALUE)

  type GossipState = map<NodeID, Claims>

  /** A missing key of a Go map reads as the zero value. */
  function Own(knows: GossipState, id: NodeID): Claims {
    if id in knows then knows[id] else NO_CLAIMS
  }

  // ---------------------------------------------------------------- Update

  /** Promise and acceptance are taken over separately, each if it is newer. */
  function MergeClaims(c: Claims, from: Claims): Claims {
    var promise := if Precedes(c.promise, from.promise) then from.promise else c.promise;
    if Precedes(c.accepted, from.accepted)
    then Claims(promise, from.accepted, from.acceptedVal)
    else Claims(promise, c.accepted, c.acceptedVal)
  }

  function LearnAt(knows: GossipState, from: GossipState, i: NodeID): Claims
    requires i in knows || i in from
  {
    if i !in from then knows[i] else if i in knows then MergeClaims(knows[i], from[i]) else from[i]
  }

  /** What a node knows after hearing `from`. */
  function Learn(knows: GossipState, from: GossipState): GossipState {
    map i | i in knows.Keys + from.Keys :: LearnAt(knows, from, i)
  }

  // ---------------------------------------------------------------- Propose

  /** r is the highest round number known. */
  ghost predicate HighestRound(knows: GossipState, r: nat) {
    && (forall i :: i in knows ==> knows[i].promise.round <= r && knows[i].accepted.round <= r)
    && (r == 0 || exists i :: i in knows && (knows[i].promise.round == r || knows[i].accepted.round == r))
  }

  ghost predicate Proposed(id: NodeID, knows: GossipState, knows': GossipState) {
    exists r: nat :: HighestRound(knows, r) && knows' == knows[id := Own(knows, id).(promise := ProposalID(r + 1, id))]
  }

  // ---------------------------------------------------------------- Think

  /** p is the highest promise known, our own included. */
  ghost predicate HighestPromise(knows: GossipState, own: Claims, p: ProposalID) {
    && (p == own.promise || exists i :: i in knows && knows[i].promise == p)
    && AtMost(own.promise, p)
    && forall i :: i in knows ==> AtMost(knows[i].promise, p)
  }

  function Promisers(knows: GossipState, p: ProposalID): set<NodeID> {
    set i | i in knows && knows[i].promise == p
  }

  /** a is the newest proposal accepted by any of the nodes, with its value v. */
  ghost predicate NewestAccepted(knows: GossipState, nodes: set<NodeID>, a: ProposalID, v: AcceptedValue) {
    && (forall i :: i in nodes && i in knows ==> !Precedes(a, knows[i].accepted))
    && ((a == NO_PROPOSAL && v == NO_VALUE) || exists i ::
        i in nodes && i in knows && knows[i].accepted == a && knows[i].acceptedVal == v)
  }

  ghost predicate NameIn(nodes: set<NodeID>, name: nat) {
    exists i :: i in nodes && i.name == name
  }

  /** The value is the names of the nodes, in some order. */
  ghost predicate NamesOf(value: Value, nodes: set<NodeID>) {
    |value| == |nodes| && forall name {:trigger NameIn(nodes, name)} :: name in value <==> NameIn(nodes, name)
  }

  /** The value is the names of the nodes known. */
  ghost predicate PickedValue(knows: GossipState, value: Value) {
    NamesOf(value, knows.Keys)
  }

  /** The accept-request step: with a quorum behind our own proposal we accept it. */
  ghost predicate Requested(id: NodeID, quorum: nat, knows: GossipState, own: Claims, p: ProposalID, c: Claims) {
    if p.proposer == id && |Promisers(knows, p)| >= quorum then
      && c.promise == p && c.accepted == p
      && exists a, v :: NewestAccepted(knows, Promisers(knows, p), a, v) &&
           if a.Valid() then c.acceptedVal == v
               else c.acceptedVal.origin == p && PickedValue(knows, c.acceptedVal.value)
    else
      c == own.(promise := p)
  }

  /** The accepted step: whoever accepted what we promised, we accept it too. */
  ghost predicate Followed(knows: GossipState, c: Claims, c': Claims) {
    if exists i :: i in knows && knows[i].accepted == c.promise then
      exists i :: i in knows && knows[i].accepted == c.promise &&
          c' == Claims(c.promise, knows[i].accepted, knows[i].acceptedVal)
    else
      c' == c
  }

  ghost predicate ThinksTo(id: NodeID, quorum: nat, knows: GossipState, c': Claims) {
    exists p, c :: HighestPromise(knows, Own(knows, id), p) && Requested(id, quorum, knows, Own(knows, id), p, c) &&
        Followed(knows, c, c')
  }

  /** Claims that compare equal to ours are not stored. */
  ghost predicate Thought(id: NodeID, quorum: nat, knows: GossipState, knows': GossipState) {
    exists c' :: ThinksTo(id, quorum, knows, c') && knows' == if c'.Same(Own(knows, id)) then knows else knows[id := c']
  }

  // ---------------------------------------------------------------- Consensus

  /** Known nodes that accepted a value of this origin. */
  function AcceptedFrom(knows: GossipState, origin: ProposalID): set<NodeID> {
    set i | i in knows && knows[i].accepted.Valid() && knows[i].acceptedVal.origin == origin
  }

  /** A quorum is known to have accepted values of one origin, and v is among them. */
  ghost predicate Sees(knows: GossipState, quorum: nat, v: AcceptedValue) {
    && |AcceptedFrom(knows, v.origin)| >= quorum
    && exists i :: i in AcceptedFrom(knows, v.origin) && knows[i].acceptedVal == v
  }

  // ---------------------------------------------------------------- the node

  /** The highest round among all promises and acceptances. */
  method MaxRound(knows: GossipState) returns (round: nat)
    ensures HighestRound(knows, round)
  {
    round := 0;
    var todo := knows.Keys;
    while todo != {}
      invariant todo <= knows.Keys
      invariant forall i :: i in knows && i !in todo ==>
                knows[i].promise.round <= round && knows[i].accepted.round <= round
      invariant round == 0 || exists i ::
                i in knows && (knows[i].promise.round == round || knows[i].accepted.round == round)
    {
      var i :| i in todo;
      todo := todo - {i};
      round := Max(round, knows[i].promise.round);
      round := Max(round, knows[i].accepted.round);
    }
  }

  class Node {
    const id: NodeID
    var quorum: nat
    var knows: GossipState

    constructor (id: NodeID, quorum: nat)
      ensures this.id == id && this.quorum == quorum && knows == map[]
    {
      this.id, this.quorum, knows := id, quorum, map[];
    }

    /** Takes over what others know. */
    method Update(from: GossipState) returns (changed: bool)
      modifies this`knows
      ensures knows == Learn(old(knows), from)
      ensures changed <==> knows != old(knows)
    {
      ghost var before := knows;
      changed := false;
      var todo := from.Keys;
      while todo != {}
        invariant todo <= from.Keys
        invariant knows.Keys == before.Keys + (from.Keys - todo)
        invariant forall i :: i in knows ==> knows[i] == if i in todo then before[i] else LearnAt(before, from, i)
        invariant changed <==> knows != before
      {
        var i :| i in todo;
        todo := todo - {i};
        var fromClaims := from[i];
        if i in knows {
          var claims := knows[i];
          if Precedes(claims.promise, fromClaims.promise) {
            claims := claims.(promise := fromClaims.promise);
            changed := true;
          }
          if Precedes(claims.accepted, fromClaims.accepted) {
            claims := claims.(accepted := fromClaims.accepted, acceptedVal := fromClaims.acceptedVal);
            changed := true;
          }
          knows := knows[i := claims];
        } else {
          knows := knows[i := fromClaims];
          changed := true;
        }
      }
    }

    /** Makes a proposal that supersedes all known ones; with a quorum of one it is
        accepted at once. */
    method Propose()
      requires quorum > 0
      modifies this`knows
      ensures quorum > 1 ==> Proposed(id, old(knows), knows)
      ensures quorum == 1 ==> exists k :: Proposed(id, old(knows), k) && Thought(id, quorum, k, knows)
    {
      var round := MaxRound(knows);
      knows := knows[id := Own(knows, id).(promise := ProposalID(round + 1, id))];
      assert Proposed(id, old(knows), knows);
      if quorum == 1 {
        var _ := Think();
      }
    }

    /** Promises, accepts our own proposal, accepts another's, as far as what we know allows. */
    method Think() returns (changed: bool)
      modifies this`knows
      ensures Thought(id, quorum, old(knows), knows)
      ensures changed <==> knows != old(knows)
    {
      var own := Own(knows, id);
      var p := PromiseHighest(knows, own);
      var c := own.(promise := p);
      if p.proposer == id {
        var count, accepted, acceptedVal := CountPromisers(knows, p);
        if count >= quorum {
          if !accepted.Valid() {
            var value := PickValue(knows);
            acceptedVal := AcceptedValue(value, p);
          }
          c := Claims(p, p, acceptedVal);
        }
      }
      assert Requested(id, quorum, knows, own, p, c);
      var c' := Follow(knows, c);
      assert ThinksTo(id, quorum, knows, c');
      changed := !c'.Same(own);
      if changed {
        knows := knows[id := c'];
      }
    }

    /** Has a consensus been reached, judging by the origins of the values accepted? */
    method Consensus() returns (ok: bool, value: AcceptedValue)
      ensures ok <==> quorum > 0 && exists o :: |AcceptedFrom(knows, o)| >= quorum
      ensures ok ==> Sees(knows, quorum, value)
    {
      if quorum == 0 {
        return false, NO_VALUE;
      }
      var counts: map<ProposalID, nat> := map[];
      var todo := knows.Keys;
      TallyNone(knows);
      while todo != {}
        invariant todo <= knows.Keys
        invariant Tally(knows, todo, counts) && forall o :: o in counts ==> counts[o] < quorum
      {
        var i :| i in todo;
        var reached;
        counts, reached := CountOne(knows, todo, i, counts, quorum);
        todo := todo - {i};
        if reached {
          return true, knows[i].acceptedVal;
        }
      }
      TallyDone(knows, counts, quorum);
      return false, NO_VALUE;
    }
  }

  function CountOf(counts: map<ProposalID, nat>, o: ProposalID): nat {
    if o in counts then counts[o] else 0
  }

  /** The counts are right for the nodes not in todo. */
  ghost predicate Tally(knows: GossipState, todo: set<NodeID>, counts: map<ProposalID, nat>) {
    forall o {:trigger AcceptedFrom(knows, o)} :: |AcceptedFrom(knows, o) - todo| == CountOf(counts, o)
  }

  /** Counts the acceptance of one node, if there is one; the count may reach a quorum. */
  method CountOne(knows: GossipState, ghost todo: set<NodeID>, i: NodeID, counts: map<ProposalID, nat>, quorum: nat)
    returns (counts': map<ProposalID, nat>, reached: bool)
    requires i in todo && todo <= knows.Keys && Tally(knows, todo, counts) && forall o :: o in counts ==>
             counts[o] < quorum
    ensures Tally(knows, todo - {i}, counts')
    ensures if reached then Sees(knows, quorum, knows[i].acceptedVal)
            else forall o :: o in counts' ==> counts'[o] < quorum
  {
    var claims := knows[i];
    counts', reached := counts, false;
    if claims.accepted.Valid() {
      var origin := claims.acceptedVal.origin;
      var count := CountOf(counts, origin) + 1;
      counts' := counts[origin := count];
      reached := count >= quorum;
    }
    TallyOne(knows, todo, i, counts, counts');
    if reached {
      TallySees(knows, todo - {i}, counts', quorum, i);
    }
  }

  lemma TallyNone(knows: GossipState)
    ensures Tally(knows, knows.Keys, map[])
  {
    forall o ensures |AcceptedFrom(knows, o) - knows.Keys| == 0 {
      assert AcceptedFrom(knows, o) - knows.Keys == {};
    }
  }

  lemma TallyOne(knows: GossipState, todo: set<NodeID>, i: NodeID, counts: map<ProposalID, nat>,
                 counts': map<ProposalID, nat>)
    requires i in todo && todo <= knows.Keys && Tally(knows, todo, counts)
    requires var o := knows[i].acceptedVal.origin;
             counts' == if knows[i].accepted.Valid() then counts[o := CountOf(counts, o) + 1] else counts
    ensures Tally(knows, todo - {i}, counts')
  {
    forall o ensures |AcceptedFrom(knows, o) - (todo - {i})| == CountOf(counts', o) {
      assert |AcceptedFrom(knows, o) - todo| == CountOf(counts, o);
      OneLess(AcceptedFrom(knows, o), todo, i);
    }
  }

  lemma OneLess<T>(a: set<T>, todo: set<T>, i: T)
    requires i in todo
    ensures |a - (todo - {i})| == |a - todo| + if i in a then 1 else 0
  {
    assert a - (todo - {i}) == if i in a then (a - todo) + {i} else a - todo;
  }

  lemma TallyReaches(knows: GossipState, todo: set<NodeID>, counts: map<ProposalID, nat>, o: ProposalID)
    requires Tally(knows, todo, counts)
    ensures |AcceptedFrom(knows, o)| >= CountOf(counts, o)
  {
    SubsetSize(AcceptedFrom(knows, o) - todo, AcceptedFrom(knows, o));
  }

  lemma TallySees(knows: GossipState, todo: set<NodeID>, counts: map<ProposalID, nat>, quorum: nat, i: NodeID)
    requires i in knows && knows[i].accepted.Valid() && Tally(knows, todo, counts)
    requires CountOf(counts, knows[i].acceptedVal.origin) >= quorum
    ensures Sees(knows, quorum, knows[i].acceptedVal)
  {
    TallyReaches(knows, todo, counts, knows[i].acceptedVal.origin);
    assert i in AcceptedFrom(knows, knows[i].acceptedVal.origin);
  }

  lemma TallyDone(knows: GossipState, counts: map<ProposalID, nat>, quorum: nat)
    requires Tally(knows, {}, counts) && quorum > 0 && forall o :: o in counts ==> counts[o] < quorum
    ensures forall o :: |AcceptedFrom(knows, o)| < quorum
  {
    forall o ensures |AcceptedFrom(knows, o)| < quorum {
      assert AcceptedFrom(knows, o) - {} == AcceptedFrom(knows, o);
      assert |AcceptedFrom(knows, o) - {}| == CountOf(counts, o);
    }
  }

  /** The promise loop of Think. */
  method PromiseHighest(knows: GossipState, own: Claims) returns (p: ProposalID)
    ensures HighestPromise(knows, own, p)
  {
    p := own.promise;
    var todo := knows.Keys;
    while todo != {}
      invariant todo <= knows.Keys
      invariant p == own.promise || exists i :: i in knows && knows[i].promise == p
      invariant AtMost(own.promise, p)
      invariant forall i :: i in knows && i !in todo ==> AtMost(knows[i].promise, p)
    {
      var i :| i in todo;
      todo := todo - {i};
      if Precedes(p, knows[i].promise) {
        p := knows[i].promise;
      }
    }
  }

  /** The counting loop of Think: how many promised p, and the newest proposal they accepted. */
  method CountPromisers(knows: GossipState, p: ProposalID)
    returns (count: nat, accepted: ProposalID, acceptedVal: AcceptedValue)
    ensures count == |Promisers(knows, p)|
    ensures NewestAccepted(knows, Promisers(knows, p), accepted, acceptedVal)
  {
    count, accepted, acceptedVal := 0, NO_PROPOSAL, NO_VALUE;
    var todo := knows.Keys;
    ghost var done: set<NodeID> := {};
    while todo != {}
      invariant todo <= knows.Keys && count == |done|
      invariant forall i :: i in done <==> i in knows && i !in todo && knows[i].promise == p
      invariant NewestAccepted(knows, done, accepted, acceptedVal)
    {
      var i :| i in todo;
      todo := todo - {i};
      if knows[i].promise == p {
        NewestOfMore(knows, done, accepted, acceptedVal, i);
        count, done := count + 1, done + {i};
        if Precedes(accepted, knows[i].accepted) {
          accepted := knows[i].accepted;
          acceptedVal := knows[i].acceptedVal;
        }
      }
    }
    assert done == Promisers(knows, p);
  }

  lemma NewestOfMore(knows: GossipState, nodes: set<NodeID>, a: ProposalID, v: AcceptedValue, i: NodeID)
    requires NewestAccepted(knows, nodes, a, v) && i in knows
    ensures if Precedes(a, knows[i].accepted) then
            NewestAccepted(knows, nodes + {i}, knows[i].accepted, knows[i].acceptedVal)
            else NewestAccepted(knows, nodes + {i}, a, v)
  {
    if Precedes(a, knows[i].accepted) {
      forall j | j in nodes + {i} && j in knows ensures !Precedes(knows[i].accepted, knows[j].accepted) {
        ProposalOrder(a, knows[i].accepted, knows[j].accepted);
      }
    }
  }

  /** The accepting loop of Think; it stops at the first node found. */
  method Follow(knows: GossipState, c: Claims) returns (c': Claims)
    ensures Followed(knows, c, c')
  {
    c' := c;
    var todo := knows.Keys;
    while todo != {}
      invariant todo <= knows.Keys && c' == c
      invariant forall i :: i in knows && knows[i].accepted == c.promise ==> i in todo
    {
      var i :| i in todo;
      todo := todo - {i};
      if knows[i].accepted == c.promise {
        c' := Claims(c.promise, knows[i].accepted, knows[i].acceptedVal);
        break;
      }
    }
  }

  /** pickValue */
  method PickValue(knows: GossipState) returns (value: Value)
    ensures PickedValue(knows, value)
  {
    value := [];
    var todo := knows.Keys;
    while todo != {}
      invariant todo <= knows.Keys && |value| + |todo| == |knows.Keys|
      invariant forall name :: name in value <==> exists i :: i in knows && i !in todo && i.name == name
    {
      var i :| i in todo;
      todo := todo - {i};
      value := value + [i.name];
    }
    assert forall name :: NameIn(knows.Keys, name) <==> exists i :: i in knows && i.name == name;
  }
}
