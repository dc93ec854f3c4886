/** Merging gossiped entries into ours (entries.merge, ipam/ring/ring.go). */
module RingMerge {
  import opened RingEntries

  datatype Option<T> = None | Some(value: T)

  datatype MergeError = InconsistentEntry | EntryInMyRange | NewerVersion

  datatype MergeResult = Merged(entries: seq<Entry>, updated: bool) | Stomped(error: MergeError)

  function Prepend(es: seq<Entry>, changed: bool, r: MergeResult): MergeResult {
    match r
    case Merged(rest, updated) => Merged(es + rest, changed || updated)
    case Stomped(_) => r
  }

  /** The merge walks both lists; prev is the owner of the entry of ours that was
      passed last, or None at the start and after an entry of theirs was taken. */
  function MergeFrom(es: seq<Entry>, other: seq<Entry>, us: Peer, prev: Option<Peer>): MergeResult
    decreases |es| + |other|
  {
    if other == [] then
      Merged(es, false)
    else if es == [] || es[0].token > other[0].token then
      if prev == Some(us) && other[0].peer != us then Stomped(EntryInMyRange)
      else Prepend([other[0]], true, MergeFrom(es, other[1..], us, None))
    else if es[0].token < other[0].token then
      Prepend([es[0]], false, MergeFrom(es[1..], other, us, Some(es[0].peer)))
    else if es[0].version >= other[0].version then
      if es[0].version == other[0].version && !es[0].Same(other[0]) then Stomped(InconsistentEntry)
      else Prepend([es[0]], false, MergeFrom(es[1..], other[1..], us, Some(es[0].peer)))
    else if es[0].peer == us then
      Stomped(NewerVersion)
    else
      Prepend([other[0]], true, MergeFrom(es[1..], other[1..], us, None))
  }

  function MergeEntries(es: seq<Entry>, other: seq<Entry>, us: Peer): MergeResult {
    MergeFrom(es, other, us, None)
  }

  // ---------------------------------------------------------------- reference

  /** The entry survives the merge: ours unless theirs is newer, theirs only if newer. */
  ghost predicate Survives(es: seq<Entry>, other: seq<Entry>, e: Entry) {
    || (e in es && forall f :: f in other && f.token == e.token ==> f.version <= e.version)
    || (e in other && forall f :: f in es && f.token == e.token ==> f.version < e.version)
  }

  /** Two entries at one token that disagree, or of which theirs overrides ours. */
  predicate Clash(us: Peer, mine: Entry, theirs: Entry) {
    && mine.token == theirs.token
    && if mine.version == theirs.version then mine.peer != theirs.peer
       else mine.version < theirs.version && mine.peer == us
  }

  /** Their entry x, at a token unknown to us, directly follows our own surviving entry p. */
  ghost predicate Intrusion(us: Peer, es: seq<Entry>, other: seq<Entry>, p: Entry, x: Entry) {
    && x in other && x.token !in Tokens(es) && x.peer != us
    && p in es && p.peer == us && p.token < x.token && Survives(es, other, p)
    && Adjacent(Tokens(es) + Tokens(other), p.token, x.token)
  }

  ghost predicate Adjacent(keys: set<nat>, p: nat, x: nat) {
    forall y :: y in keys ==> !(p < y < x)
  }

  /** The first thing the walk would do is insert their entry into a range of ours. */
  predicate HeadIntrudes(es: seq<Entry>, other: seq<Entry>, us: Peer, prev: Option<Peer>) {
    prev == Some(us) && other != [] && (es == [] || es[0].token > other[0].token) && other[0].peer != us
  }

  ghost predicate Stomps(es: seq<Entry>, other: seq<Entry>, us: Peer, prev: Option<Peer>) {
    || (exists a, x :: a in es && x in other && Clash(us, a, x))
    || (exists p, x :: Intrusion(us, es, other, p, x))
    || HeadIntrudes(es, other, us, prev)
  }

  // ---------------------------------------------------------------- proofs

  lemma {:induction false} MergeKeepsSurvivors(es: seq<Entry>, other: seq<Entry>, us: Peer, prev: Option<Peer>)
    requires Sorted(es) && Sorted(other)
    requires MergeFrom(es, other, us, prev).Merged?
    ensures var r := MergeFrom(es, other, us, prev);
            && Sorted(r.entries)
            && (forall e :: e in r.entries <==> Survives(es, other, e))
            && (r.updated <==> r.entries != es)
    decreases |es| + |other|
  {
    var r := MergeFrom(es, other, us, prev);
    if other == [] {
    } else if es == [] || es[0].token > other[0].token {
      var q := MergeFrom(es, other[1..], us, None);
      MergeKeepsSurvivors(es, other[1..], us, None);
      TakeTheirs(es, other, q.entries);
    } else if es[0].token < other[0].token {
      MergeKeepsSurvivors(es[1..], other, us, Some(es[0].peer));
      KeepMine(es, other, other, MergeFrom(es[1..], other, us, Some(es[0].peer)).entries);
    } else if es[0].version >= other[0].version {
      MergeKeepsSurvivors(es[1..], other[1..], us, Some(es[0].peer));
      KeepMine(es, other, other[1..], MergeFrom(es[1..], other[1..], us, Some(es[0].peer)).entries);
    } else {
      MergeKeepsSurvivors(es[1..], other[1..], us, None);
      TakeNewer(es, other, MergeFrom(es[1..], other[1..], us, None).entries);
    }
  }

  lemma TakeTheirs(es: seq<Entry>, other: seq<Entry>, rest: seq<Entry>)
    requires Sorted(es) && Sorted(other) && other != []
    requires es == [] || es[0].token > other[0].token
    requires Sorted(rest) && forall e :: e in rest <==> Survives(es, other[1..], e)
    ensures var r := [other[0]] + rest; Sorted(r) && (forall e :: e in r <==> Survives(es, other, e)) && r != es
  {
    var r := [other[0]] + rest;
    assert forall f :: f in other <==> f == other[0] || f in other[1..];
    forall e ensures e in r <==> Survives(es, other, e) {
      assert e in r <==> e == other[0] || e in rest;
    }
    forall i | 0 <= i < |rest| ensures other[0].token < rest[i].token {
      assert Survives(es, other[1..], rest[i]);
    }
  }

  lemma KeepMine(es: seq<Entry>, other: seq<Entry>, other': seq<Entry>, rest: seq<Entry>)
    requires Sorted(es) && Sorted(other) && es != [] && other != []
    requires if es[0].token == other[0].token then other' == other[1..] && es[0].version >= other[0].version
             else es[0].token < other[0].token && other' == other
    requires Sorted(rest) && forall e :: e in rest <==> Survives(es[1..], other', e)
    ensures var r := [es[0]] + rest;
            (Sorted(r) && (forall e :: e in r <==> Survives(es, other, e)) && (r == es <==> rest == es[1..]))
  {
    var r := [es[0]] + rest;
    assert forall f :: f in es <==> f == es[0] || f in es[1..];
    assert forall f :: f in other <==> f == other[0] || f in other[1..];
    forall e ensures e in r <==> Survives(es, other, e) {
      assert e in r <==> e == es[0] || e in rest;
    }
    forall i | 0 <= i < |rest| ensures es[0].token < rest[i].token {
      assert Survives(es[1..], other', rest[i]);
    }
    assert r[1..] == rest;
    assert es == [es[0]] + es[1..];
  }

  lemma TakeNewer(es: seq<Entry>, other: seq<Entry>, rest: seq<Entry>)
    requires Sorted(es) && Sorted(other) && es != [] && other != []
    requires es[0].token == other[0].token && es[0].version < other[0].version
    requires Sorted(rest) && forall e :: e in rest <==> Survives(es[1..], other[1..], e)
    ensures var r := [other[0]] + rest; Sorted(r) && (forall e :: e in r <==> Survives(es, other, e)) && r != es
  {
    var r := [other[0]] + rest;
    assert forall f :: f in es <==> f == es[0] || f in es[1..];
    assert forall f :: f in other <==> f == other[0] || f in other[1..];
    forall e ensures e in r <==> Survives(es, other, e) {
      assert e in r <==> e == other[0] || e in rest;
    }
    forall i | 0 <= i < |rest| ensures other[0].token < rest[i].token {
      assert Survives(es[1..], other[1..], rest[i]);
    }
    assert r[0] != es[0];
  }

  /** The merge fails exactly when some entry of theirs stomps on ours. */
  lemma {:induction false} StompedIffStomps(es: seq<Entry>, other: seq<Entry>, us: Peer, prev: Option<Peer>)
    requires Sorted(es) && Sorted(other)
    ensures MergeFrom(es, other, us, prev).Stomped? <==> Stomps(es, other, us, prev)
    decreases |es| + |other|
  {
    if other == [] {
    } else if es == [] || es[0].token > other[0].token {
      if !HeadIntrudes(es, other, us, prev) {
        StompedIffStomps(es, other[1..], us, None);
        StompsPastTheirs(es, other, us, prev);
      }
    } else if es[0].token < other[0].token {
      StompedIffStomps(es[1..], other, us, Some(es[0].peer));
      StompsPastMine(es, other, other, us, prev);
    } else if Clash(us, es[0], other[0]) {
      assert es[0] in es && other[0] in other;
    } else if es[0].version >= other[0].version {
      StompedIffStomps(es[1..], other[1..], us, Some(es[0].peer));
      StompsPastMine(es, other, other[1..], us, prev);
    } else {
      StompedIffStomps(es[1..], other[1..], us, None);
      StompsPastNewer(es, other, us, prev);
    }
  }

  lemma AdjacentPast(keys: set<nat>, t: nat, p: nat, x: nat)
    requires t <= p
    ensures Adjacent(keys + {t}, p, x) <==> Adjacent(keys, p, x)
  {
  }

  lemma StompsPastTheirs(es: seq<Entry>, other: seq<Entry>, us: Peer, prev: Option<Peer>)
    requires Sorted(es) && Sorted(other) && other != []
    requires es == [] || es[0].token > other[0].token
    requires !HeadIntrudes(es, other, us, prev)
    ensures Stomps(es, other, us, prev) <==> Stomps(es, other[1..], us, None)
  {
    HeadAndTail(other);
    assert forall e :: e in es ==> e.token > other[0].token;
    forall p, x ensures Intrusion(us, es, other, p, x) <==> Intrusion(us, es, other[1..], p, x) {
      if p in es {
        assert Survives(es, other, p) <==> Survives(es, other[1..], p);
        assert Tokens(es) + Tokens(other) == Tokens(es) + Tokens(other[1..]) + {other[0].token};
        AdjacentPast(Tokens(es) + Tokens(other[1..]), other[0].token, p.token, x.token);
      }
    }
  }

  /** p survives the whole walk iff it survives what is left of it. */
  lemma SurvivesPast(es: seq<Entry>, other: seq<Entry>, other': seq<Entry>, p: Entry)
    requires Sorted(es) && Sorted(other) && es != [] && other != []
    requires if es[0].token == other[0].token then other' == other[1..]
             else es[0].token < other[0].token && other' == other
    requires p in es[1..]
    ensures Survives(es, other, p) <==> Survives(es[1..], other', p)
    ensures forall x: Entry :: x.token > p.token ==> (x in other <==> x in other')
    ensures Tokens(es) + Tokens(other) == Tokens(es[1..]) + Tokens(other') + {es[0].token}
    ensures es[0].token < p.token
  {
    HeadAndTail(es);
    HeadAndTail(other);
  }

  lemma IntrusionPastMine(us: Peer, es: seq<Entry>, other: seq<Entry>, other': seq<Entry>, p: Entry, x: Entry)
    requires Sorted(es) && Sorted(other) && es != [] && other != []
    requires if es[0].token == other[0].token then other' == other[1..]
             else es[0].token < other[0].token && other' == other
    requires p != es[0]
    ensures Intrusion(us, es, other, p, x) <==> Intrusion(us, es[1..], other', p, x)
  {
    if p in es[1..] {
      SurvivesPast(es, other, other', p);
      assert Tokens(es) == {es[0].token} + Tokens(es[1..]) by { HeadAndTail(es); }
      AdjacentPast(Tokens(es[1..]) + Tokens(other'), es[0].token, p.token, x.token);
    }
    assert p in es <==> p in es[1..] by { HeadAndTail(es); }
  }

  lemma StompsPastMine(es: seq<Entry>, other: seq<Entry>, other': seq<Entry>, us: Peer, prev: Option<Peer>)
    requires PastMine(es, other, other')
    requires !Clash(us, es[0], other[0])
    ensures Stomps(es, other, us, prev) <==> Stomps(es[1..], other', us, Some(es[0].peer))
  {
    ClashPastHead(es, other, other', us);
    if HeadIntrudes(es[1..], other', us, Some(es[0].peer)) {
      HeadIntrusion(es, other, other', us);
    }
    forall p, x | Intrusion(us, es, other, p, x)
      ensures Stomps(es[1..], other', us, Some(es[0].peer))
    {
      if p == es[0] {
        IntrusionAtHead(es, other, other', us, x);
      } else {
        IntrusionPastMine(us, es, other, other', p, x);
      }
    }
    forall p, x | Intrusion(us, es[1..], other', p, x)
      ensures Intrusion(us, es, other, p, x)
    {
      HeadAndTail(es);
      IntrusionPastMine(us, es, other, other', p, x);
    }
  }

  lemma ClashPastHead(es: seq<Entry>, other: seq<Entry>, other': seq<Entry>, us: Peer)
    requires Sorted(es) && Sorted(other) && es != [] && other != []
    requires if es[0].token == other[0].token then other' == other[1..]
             else es[0].token < other[0].token && other' == other
    requires !Clash(us, es[0], other[0])
    ensures (exists a, x :: a in es && x in other && Clash(us, a, x)) <==> exists a, x ::
            a in es[1..] && x in other' && Clash(us, a, x)
  {
    HeadAndTail(es);
    HeadAndTail(other);
  }

  /** What is left of their list once our head entry has been passed. */
  ghost predicate PastMine(es: seq<Entry>, other: seq<Entry>, other': seq<Entry>) {
    && Sorted(es) && Sorted(other) && es != [] && other != []
    && if es[0].token == other[0].token then other' == other[1..] && es[0].version >= other[0].version
       else es[0].token < other[0].token && other' == other
  }

  lemma PastMineFacts(es: seq<Entry>, other: seq<Entry>, other': seq<Entry>)
    requires PastMine(es, other, other')
    ensures Survives(es, other, es[0]) && Sorted(other')
    ensures forall x :: x in other && x.token > es[0].token <==> x in other'
    ensures Tokens(es) + Tokens(other) == {es[0].token} + Tokens(es[1..]) + Tokens(other')
  {
    HeadAndTail(es);
    HeadAndTail(other);
  }

  /** Our head entry is intruded upon iff the rest of the walk starts with an intrusion. */
  lemma HeadIntrusion(es: seq<Entry>, other: seq<Entry>, other': seq<Entry>, us: Peer)
    requires PastMine(es, other, other')
    requires HeadIntrudes(es[1..], other', us, Some(es[0].peer))
    ensures Intrusion(us, es, other, es[0], other'[0])
  {
    PastMineFacts(es, other, other');
    var x, p, keys := other'[0], es[0], Tokens(es) + Tokens(other);
    assert x in other' && p in es;
    assert x.token !in Tokens(es) && Adjacent(keys, p.token, x.token) by {
      FirstOfBoth(es[1..], other', x);
      assert Tokens(es) == {p.token} + Tokens(es[1..]) by { HeadAndTail(es); }
    }
  }

  lemma FirstOfBoth(rest: seq<Entry>, other: seq<Entry>, x: Entry)
    requires Sorted(rest) && Sorted(other) && other != [] && x == other[0]
    requires rest == [] || rest[0].token > x.token
    ensures forall y :: y in Tokens(rest) ==> x.token < y
    ensures forall y :: y in Tokens(other) ==> x.token <= y
  {
  }

  /** The entry adjacent to p comes first in its list and before all of the other list. */
  lemma AdjacentIsFirst(rest: seq<Entry>, other: seq<Entry>, keys: set<nat>, p: nat, i: nat)
    requires Sorted(rest) && Sorted(other) && i < |other|
    requires forall k :: 0 <= k < |rest| ==> rest[k].token in keys && p < rest[k].token != other[i].token
    requires forall k :: 0 <= k < |other| ==> other[k].token in keys && p < other[k].token
    requires Adjacent(keys, p, other[i].token)
    ensures i == 0 && (rest == [] || rest[0].token > other[0].token)
  {
    assert other[0].token in keys;
  }

  lemma IntrusionAtHead(es: seq<Entry>, other: seq<Entry>, other': seq<Entry>, us: Peer, x: Entry)
    requires PastMine(es, other, other')
    requires Intrusion(us, es, other, es[0], x)
    ensures HeadIntrudes(es[1..], other', us, Some(es[0].peer))
  {
    PastMineFacts(es, other, other');
    assert x in other';
    var i :| 0 <= i < |other'| && other'[i] == x;
    var rest, keys := es[1..], Tokens(es) + Tokens(other);
    forall k | 0 <= k < |rest| ensures rest[k].token in keys && es[0].token < rest[k].token != x.token {
      assert rest[k] == es[k + 1];
      assert rest[k].token in Tokens(es);
    }
    forall k | 0 <= k < |other'| ensures other'[k].token in keys && es[0].token < other'[k].token {
      assert other'[k] in other';
    }
    AdjacentIsFirst(rest, other', keys, es[0].token, i);
  }

  lemma StompsPastNewer(es: seq<Entry>, other: seq<Entry>, us: Peer, prev: Option<Peer>)
    requires Sorted(es) && Sorted(other) && es != [] && other != []
    requires es[0].token == other[0].token && es[0].version < other[0].version && es[0].peer != us
    ensures Stomps(es, other, us, prev) <==> Stomps(es[1..], other[1..], us, None)
  {
    ClashPastHead(es, other, other[1..], us);
    HeadAndTail(es);
    forall p, x ensures Intrusion(us, es, other, p, x) <==> Intrusion(us, es[1..], other[1..], p, x) {
      if p != es[0] {
        IntrusionPastMine(us, es, other, other[1..], p, x);
      }
    }
  }

  /** What the complaint is about. */
  ghost predicate StompedFor(es: seq<Entry>, other: seq<Entry>, us: Peer, prev: Option<Peer>, error: MergeError) {
    match error
    case InconsistentEntry => exists a, x ::
        a in es && x in other && a.token == x.token && a.version == x.version && a.peer != x.peer
    case NewerVersion => exists a, x ::
        a in es && x in other && a.token == x.token && a.version < x.version && a.peer == us
    case EntryInMyRange => exists x :: IntrudesOn(es, other, us, prev, x)
  }

  /** Their entry has a token unknown to us and comes after one of ours. */
  ghost predicate IntrudesOn(es: seq<Entry>, other: seq<Entry>, us: Peer, prev: Option<Peer>, x: Entry) {
    && x in other && x.token !in Tokens(es) && x.peer != us
    && (prev == Some(us) || exists p :: p in es && p.peer == us && p.token < x.token)
  }

  lemma {:induction false} StompedRightly(es: seq<Entry>, other: seq<Entry>, us: Peer, prev: Option<Peer>)
    requires Sorted(es) && Sorted(other) && MergeFrom(es, other, us, prev).Stomped?
    ensures StompedFor(es, other, us, prev, MergeFrom(es, other, us, prev).error)
    decreases |es| + |other|
  {
    var error := MergeFrom(es, other, us, prev).error;
    if es == [] || es[0].token > other[0].token {
      if prev == Some(us) && other[0].peer != us {
        assert IntrudesOn(es, other, us, prev, other[0]);
      } else {
        StompedRightly(es, other[1..], us, None);
        StompedPast(es, other, es, other[1..], us, None, prev, error);
      }
    } else if es[0].token < other[0].token {
      StompedRightly(es[1..], other, us, Some(es[0].peer));
      StompedPast(es, other, es[1..], other, us, Some(es[0].peer), prev, error);
    } else if es[0].version >= other[0].version {
      if !(es[0].version == other[0].version && !es[0].Same(other[0])) {
        StompedRightly(es[1..], other[1..], us, Some(es[0].peer));
        StompedPast(es, other, es[1..], other[1..], us, Some(es[0].peer), prev, error);
      }
    } else if es[0].peer != us {
      StompedRightly(es[1..], other[1..], us, None);
      StompedPast(es, other, es[1..], other[1..], us, None, prev, error);
    }
  }

  /** A complaint about the rest is one about the whole. */
  lemma StompedPast(es: seq<Entry>, other: seq<Entry>, es': seq<Entry>, other': seq<Entry>, us: Peer,
                    prev': Option<Peer>, prev: Option<Peer>, error: MergeError)
    requires Sorted(es) && Sorted(other) && StompedFor(es', other', us, prev', error)
    requires es' == es || (es != [] && es' == es[1..] && forall x :: x in other' ==> es[0].token < x.token)
    requires other' == other || (other != [] && other' == other[1..])
    requires prev' == None || (es' != es && prev' == Some(es[0].peer))
    ensures StompedFor(es, other, us, prev, error)
  {
    if error == EntryInMyRange {
      var x :| IntrudesOn(es', other', us, prev', x);
      if prev' == Some(us) { assert es[0] in es && es[0].token < x.token; }
      assert IntrudesOn(es, other, us, prev, x);
    }
  }

  /** The join: at every token the entry with the higher version, ours on a tie. */
  ghost function Join(m: RingMap, o: RingMap): RingMap {
    map t | t in m.Keys + o.Keys :: if t !in o || (t in m && m[t].version >= o[t].version) then m[t] else o[t]
  }

  lemma SurvivorsFormJoin(es: seq<Entry>, other: seq<Entry>, r: seq<Entry>)
    requires Sorted(es) && Sorted(other) && Sorted(r)
    requires forall e :: e in r <==> Survives(es, other, e)
    ensures ToMap(r) == Join(ToMap(es), ToMap(other))
  {
    var j, m := Join(ToMap(es), ToMap(other)), ToMap(r);
    forall t | t in j ensures t in m && m[t] == j[t] {
      JoinSurvives(es, other, t);
      MapFacts(r);
    }
    forall t | t in m ensures t in j {
      var i := MapIndex(r, t);
      assert Survives(es, other, r[i]);
      SurvivorIsKnown(es, other, r[i]);
    }
  }

  lemma SurvivorIsKnown(es: seq<Entry>, other: seq<Entry>, e: Entry)
    requires Sorted(es) && Sorted(other) && Survives(es, other, e)
    ensures e.token in Join(ToMap(es), ToMap(other))
  {
    MapFacts(es);
    MapFacts(other);
  }

  lemma JoinSurvives(es: seq<Entry>, other: seq<Entry>, t: nat)
    requires Sorted(es) && Sorted(other)
    requires t in Join(ToMap(es), ToMap(other))
    ensures Survives(es, other, Join(ToMap(es), ToMap(other))[t])
    ensures Join(ToMap(es), ToMap(other))[t].token == t
  {
    MapFacts(es);
    MapFacts(other);
  }

  /** A merge that does not fail yields the join of the two rings. */
  lemma MergeIsJoin(es: seq<Entry>, other: seq<Entry>, us: Peer)
    requires Sorted(es) && Sorted(other)
    requires MergeEntries(es, other, us).Merged?
    ensures var r := MergeEntries(es, other, us);
            Sorted(r.entries) && ToMap(r.entries) == Join(ToMap(es), ToMap(other)) && (r.updated <==> r.entries != es)
  {
    MergeKeepsSurvivors(es, other, us, None);
    SurvivorsFormJoin(es, other, MergeEntries(es, other, us).entries);
  }
}
