/** Runs of a network of peers that each hold a copy of the ring: first seeding with
    the agreed entries, grants, free-space reports, hand-overs of a peer's own ranges,
    and gossip of any ring that any peer ever held, in any order and any number of times. */
module RingRuns {
  import Address
  import opened RingEntries
  import opened RingGrant
  import opened RingMerge
  import opened RingOps
  import opened RingHistory
  import Seeding

  /** The agreement that all peers start from: the address range, the seed peers and
      the entries made from them. */
  datatype Setup = Setup(b: Bounds, peers: seq<Peer>, seed: seq<Entry>)

  ghost predicate WellSeeded(c: Setup) {
    Valid(c.b, c.seed) && c.seed != [] && forall e :: e in c.seed ==> e.version == 0
  }

  /** The ring that ClaimForPeers makes of a CIDR is such a start. */
  lemma ClaimSeedsWell(b: Bounds, es: seq<Entry>, peers: seq<Peer>)
    requires Address.Block(Address.Range(b.lo, b.hi)) && Seeding.CutFor(b, es, peers)
    ensures WellSeeded(Setup(b, peers, es))
  {
    Seeding.SeededRing(b, peers, es);
    forall e | e in es ensures e.version == 0 {
      var i :| 0 <= i < |es| && es[i] == e;
      assert Seeding.IsFree(b, es, i);
    }
  }

  /** The rings held now, and every ring ever held: any of them may still be in transit. */
  datatype Net = Net(rings: map<Peer, Ring>, sent: set<Ring>)

  datatype Step =
    | Seed
    | Grant(start: nat, end: nat, to: Peer)
    | ReportFree(free: map<nat, nat>)
    | HandOver(to: Peer)
    | Receive(gossip: Ring)

  function RingOf(c: Setup, s: Net, p: Peer): Ring {
    if p in s.rings then s.rings[p] else Ring(c.b, [], [])
  }

  /** Peer p takes the step and then holds r'. */
  ghost predicate Takes(c: Setup, s: Net, p: Peer, step: Step, r': Ring) {
    var r := RingOf(c, s, p);
    match step
    case Seed => r.entries == [] && r' == Ring(c.b, c.seed, c.peers)
    case Grant(start, end, to) =>
      && Sorted(r.entries) && Grantable(c.b, p, ToMap(r.entries), start, end)
      && Sorted(r'.entries) && Granted(c.b, p, ToMap(r.entries), ToMap(r'.entries), start, end, to)
      && r' == r.(entries := r'.entries)
    case ReportFree(free) =>
      && Sorted(r.entries) && Reportable(c.b, p, ToMap(r.entries), free)
      && r' == r.(entries := Report(r.entries, free))
    case HandOver(to) => r' == r.(entries := Transferred(r.entries, p, to))
    case Receive(gossip) =>
      gossip in s.sent && r' == Received(r, gossip, p)
  }

  function Put(s: Net, p: Peer, r: Ring): Net {
    Net(s.rings[p := r], s.sent + {r})
  }

  ghost predicate Next(c: Setup, s: Net, s': Net) {
    exists p, step, r' :: Takes(c, s, p, step, r') && s' == Put(s, p, r')
  }

  /** A run from the empty network. */
  ghost predicate IsRun(c: Setup, run: seq<Net>) {
    && |run| > 0 && run[0] == Net(map[], {})
    && forall i :: 0 <= i < |run| - 1 ==> Next(c, run[i], run[i + 1])
  }

  // ---------------------------------------------------------------- invariant

  ghost function MapOf(c: Setup, s: Net, p: Peer): RingMap {
    ToMap(RingOf(c, s, p).entries)
  }

  /** A ring that was ever held is explained by the history. */
  ghost predicate Copy(c: Setup, r: Ring, h: History) {
    && r.b == c.b && (r.seeds == [] || r.seeds == c.peers) && (r.entries != [] ==> r.seeds == c.peers)
    && Sorted(r.entries) && Recorded(ToMap(r.entries), h)
  }

  /** A former owner knows that it no longer holds what it held. */
  ghost predicate PastAt(c: Setup, s: Net, g: RingMap, h: History, t: nat, v: nat)
    requires (t, v) in h && t in g
  {
    var q := h[(t, v)].entry.peer;
    v < g[t].version ==> t in MapOf(c, s, q) && v < MapOf(c, s, q)[t].version
  }

  ghost predicate PastOwners(c: Setup, s: Net, g: RingMap, h: History) {
    forall t, v {:trigger PastAt(c, s, g, h, t, v)} :: (t, v) in h && t in g ==> PastAt(c, s, g, h, t, v)
  }

  ghost predicate SeedKnown(c: Setup, s: Net, g: RingMap, h: History)
    requires WellSeeded(c)
  {
    if g == map[] then forall r :: r in s.sent ==> r.entries == [] else Recorded(ToMap(c.seed), h)
  }

  ghost predicate Copies(c: Setup, s: Net, h: History) {
    && (forall r :: r in s.sent ==> Copy(c, r, h))
    && (forall p :: p in s.rings ==> s.rings[p] in s.sent)
  }

  ghost predicate Inv(c: Setup, s: Net, g: RingMap, h: History)
    requires WellSeeded(c)
  {
    && Explains(c.b, g, h)
    && Copies(c, s, h)
    && SeedKnown(c, s, g, h)
    && (forall p :: UpToDate(p, MapOf(c, s, p), g))
    && PastOwners(c, s, g, h)
  }

  lemma RingOfIsCopy(c: Setup, s: Net, h: History, p: Peer)
    requires Copies(c, s, h)
    ensures Copy(c, RingOf(c, s, p), h) && Recorded(MapOf(c, s, p), h)
  {
    if p in s.rings {
      assert s.rings[p] in s.sent;
    } else {
      assert ToMap([]) == map[];
    }
  }

  lemma OtherRings(c: Setup, s: Net, p: Peer, r: Ring, q: Peer)
    ensures RingOf(c, Put(s, p, r), q) == if q == p then r else RingOf(c, s, q)
  {
  }

  lemma MoreHistory(m: RingMap, h: History, h': History)
    requires Recorded(m, h) && forall k :: k in h ==> k in h' && h'[k] == h[k]
    ensures Recorded(m, h')
  {
    forall t | t in m ensures RecordedAt(m, h', t) {
      assert RecordedAt(m, h, t);
    }
  }

  lemma CopiesKept(c: Setup, s: Net, h: History, h': History, p: Peer, r: Ring)
    requires Copies(c, s, h) && Copy(c, r, h')
    requires forall k :: k in h ==> k in h' && h'[k] == h[k]
    ensures Copies(c, Put(s, p, r), h')
  {
    forall x | x in s.sent ensures Copy(c, x, h') {
      MoreHistory(ToMap(x.entries), h, h');
    }
  }

  // ---------------------------------------------------------------- merging

  /** Between explained rings nothing stomps: Ring.Merge succeeds with the join. */
  lemma MergeSucceeds(c: Setup, s: Net, g: RingMap, h: History, p: Peer, gossip: Ring)
    requires WellSeeded(c) && Inv(c, s, g, h) && gossip in s.sent
    ensures var r := RingOf(c, s, p);
            && MergeRing(r, gossip, p).Accepted?
            && Copy(c, r, h) && Copy(c, gossip, h) && Copy(c, MergeRing(r, gossip, p).ring, h)
            && ToMap(MergeRing(r, gossip, p).ring.entries) == Join(ToMap(r.entries), ToMap(gossip.entries))
            && (MergeRing(r, gossip, p).updated <==> MergeRing(r, gossip, p).ring.entries != r.entries)
  {
    var r := RingOf(c, s, p);
    RingOfIsCopy(c, s, h, p);
    assert Copy(c, gossip, h);
    var m, o := ToMap(r.entries), ToMap(gossip.entries);
    RecordedValid(c.b, g, h, o);
    ValidIffMapValid(c.b, gossip.entries);
    NothingStomps(c, g, h, r.entries, gossip.entries, p);
    StompedIffStomps(r.entries, gossip.entries, p, None);
    MergeIsJoin(r.entries, gossip.entries, p);
    JoinRecorded(h, m, o);
    RecordedValid(c.b, g, h, Join(m, o));
    ValidIffMapValid(c.b, MergeEntries(r.entries, gossip.entries, p).entries);
  }

  lemma NothingStomps(c: Setup, g: RingMap, h: History, es: seq<Entry>, other: seq<Entry>, p: Peer)
    requires Explains(c.b, g, h) && Sorted(es) && Sorted(other)
    requires Recorded(ToMap(es), h) && Recorded(ToMap(other), h) && UpToDate(p, ToMap(es), g)
    ensures !Stomps(es, other, p, None)
  {
    forall a, x | a in es && x in other ensures !Clash(p, a, x) {
      NoClash(c, g, h, es, other, p, a, x);
    }
    forall a, x ensures !Intrusion(p, es, other, a, x) {
      if a in es && x in other && a.peer == p {
        NoIntrusion(c, g, h, es, other, p, a, x);
      }
    }
  }

  lemma NoClash(c: Setup, g: RingMap, h: History, es: seq<Entry>, other: seq<Entry>, p: Peer, a: Entry, x: Entry)
    requires Explains(c.b, g, h) && Sorted(es) && Sorted(other) && a in es && x in other
    requires Recorded(ToMap(es), h) && Recorded(ToMap(other), h) && UpToDate(p, ToMap(es), g)
    ensures !Clash(p, a, x)
  {
    var m, o := ToMap(es), ToMap(other);
    assert a.token in m && m[a.token] == a by { MapFacts(es); }
    assert x.token in o && o[x.token] == x by { MapFacts(other); }
    if a.token == x.token {
      assert RecordedAt(m, h, a.token) && RecordedAt(o, h, a.token) && NewestAt(c.b, g, h, a.token, x.version);
    }
  }

  /** Our stretch is known to us in full, so no token of theirs can lie in it. */
  lemma NoIntrusion(c: Setup, g: RingMap, h: History, es: seq<Entry>, other: seq<Entry>, p: Peer, a: Entry, x: Entry)
    requires Explains(c.b, g, h) && Sorted(es) && Sorted(other) && a in es && x in other && a.peer == p
    requires Recorded(ToMap(es), h) && Recorded(ToMap(other), h) && UpToDate(p, ToMap(es), g)
    ensures !Intrusion(p, es, other, a, x)
  {
    var m, o := ToMap(es), ToMap(other);
    assert a.token in m && m[a.token] == a by { MapFacts(es); }
    assert x.token in o && o[x.token] == x by { MapFacts(other); }
    var n := OwnIsNewest(p, g, h, m, a.token);
    assert RecordedAt(o, h, x.token) && NewestAt(c.b, g, h, x.token, x.version);
    MapKeys(es);
    assert n in Tokens(es) + Tokens(other);
  }

  // ---------------------------------------------------------------- steps

  /** p's copy after p replaced it by m'; the others' copies are unchanged. */
  ghost function After(c: Setup, s: Net, p: Peer, m': RingMap, q: Peer): RingMap {
    if q == p then m' else MapOf(c, s, q)
  }

  lemma MapOfPut(c: Setup, s: Net, p: Peer, r: Ring, q: Peer)
    requires Sorted(r.entries)
    ensures MapOf(c, Put(s, p, r), q) == After(c, s, p, ToMap(r.entries), q)
  {
  }

  ghost predicate PastAfter(c: Setup, s: Net, g: RingMap, h: History, p: Peer, m': RingMap, t: nat, v: nat)
    requires (t, v) in h && t in g
  {
    var w := After(c, s, p, m', h[(t, v)].entry.peer);
    v < g[t].version ==> t in w && v < w[t].version
  }

  /** What is left to show when p replaces its copy by r'. */
  lemma StepKeepsInv(c: Setup, s: Net, g: RingMap, h: History, p: Peer, r': Ring, g': RingMap, h': History)
    requires WellSeeded(c) && Inv(c, s, g, h)
    requires Explains(c.b, g', h') && forall k :: k in h ==> k in h' && h'[k] == h[k]
    requires Copy(c, r', h')
    requires if g' == map[] then g == map[] && r'.entries == [] else Recorded(ToMap(c.seed), h')
    requires forall q :: UpToDate(q, After(c, s, p, ToMap(r'.entries), q), g')
    requires forall t, v {:trigger PastAfter(c, s, g', h', p, ToMap(r'.entries), t, v)} ::
               (t, v) in h' && t in g' ==> PastAfter(c, s, g', h', p, ToMap(r'.entries), t, v)
    ensures Inv(c, Put(s, p, r'), g', h')
  {
    var s', m' := Put(s, p, r'), ToMap(r'.entries);
    CopiesKept(c, s, h, h', p, r');
    forall q ensures UpToDate(q, MapOf(c, s', q), g') {
      MapOfPut(c, s, p, r', q);
    }
    forall t, v | (t, v) in h' && t in g' ensures PastAt(c, s', g', h', t, v) {
      MapOfPut(c, s, p, r', h'[(t, v)].entry.peer);
      assert PastAfter(c, s, g', h', p, m', t, v);
    }
  }

  lemma ReceiveKeepsInv(c: Setup, s: Net, g: RingMap, h: History, p: Peer, gossip: Ring, r': Ring)
    requires WellSeeded(c) && Inv(c, s, g, h)
    requires Takes(c, s, p, Receive(gossip), r')
    ensures Inv(c, Put(s, p, r'), g, h)
  {
    MergeSucceeds(c, s, g, h, p, gossip);
    var o, m' := ToMap(gossip.entries), ToMap(r'.entries);
    assert m' == Join(MapOf(c, s, p), o);
    if g == map[] {
      RingOfIsCopy(c, s, h, p);
      EmptyIffEmpty(r'.entries);
    }
    JoinUpToDate(c, s, g, h, p, o);
    forall q ensures UpToDate(q, After(c, s, p, m', q), g) {
      assert UpToDate(q, MapOf(c, s, q), g);
    }
    forall t, v | (t, v) in h && t in g ensures PastAfter(c, s, g, h, p, m', t, v) {
      assert PastAt(c, s, g, h, t, v);
    }
    StepKeepsInv(c, s, g, h, p, r', g, h);
  }

  /** What gossip tells p about its own entries is never outdated news. */
  lemma JoinUpToDate(c: Setup, s: Net, g: RingMap, h: History, p: Peer, o: RingMap)
    requires WellSeeded(c) && Inv(c, s, g, h) && Recorded(o, h)
    ensures UpToDate(p, Join(MapOf(c, s, p), o), g)
  {
    var m := MapOf(c, s, p);
    var j := Join(m, o);
    assert UpToDate(p, m, g);
    forall t | t in j && j[t].peer == p ensures t in g && j[t].version == g[t].version {
      if t in o && j[t] == o[t] {
        assert RecordedAt(o, h, t) && NewestAt(c.b, g, h, t, o[t].version) && PastAt(c, s, g, h, t, o[t].version);
      }
    }
  }

  lemma OwnStepUpToDate(c: Setup, s: Net, g: RingMap, h: History, p: Peer, m': RingMap, q: Peer)
    requires WellSeeded(c) && Inv(c, s, g, h)
    requires OwnChange(c.b, p, g, h, MapOf(c, s, p), m')
    ensures UpToDate(q, After(c, s, p, m', q), Advance(g, MapOf(c, s, p), m'))
  {
    var m, w := MapOf(c, s, p), After(c, s, p, m', q);
    var g' := Advance(g, m, m');
    assert UpToDate(q, MapOf(c, s, q), g);
    forall t | t in w && w[t].peer == q ensures t in g' && w[t].version == g'[t].version {
      if q != p && t in Changed(m, m') {
        RingOfIsCopy(c, s, h, q);
        var _ := OwnIsNewest(q, g, h, w, t);
        if t in m {
          var _ := OwnIsNewest(p, g, h, m, t);
        } else {
          var _, _ := NewTokenHead(c.b, p, g, h, m, m', t);
        }
      }
    }
  }

  lemma OwnStepPast(c: Setup, s: Net, g: RingMap, h: History, p: Peer, m': RingMap, t: nat, v: nat)
    requires WellSeeded(c) && Inv(c, s, g, h)
    requires OwnChange(c.b, p, g, h, MapOf(c, s, p), m')
    requires (t, v) in Extend(h, MapOf(c, s, p), m') && t in Advance(g, MapOf(c, s, p), m')
    ensures PastAfter(c, s, Advance(g, MapOf(c, s, p), m'), Extend(h, MapOf(c, s, p), m'), p, m', t, v)
  {
    var m := MapOf(c, s, p);
    if (t, v) in h {
      assert NewestAt(c.b, g, h, t, v) && PastAt(c, s, g, h, t, v);
      if v == g[t].version && t in Changed(m, m') {
        VersionsAreNew(c.b, p, g, h, m, m', t, v);
        var _ := OwnIsNewest(p, g, h, m, t);
        assert RecordedAt(g, h, t);
      }
    }
  }

  lemma EmptyIffEmpty(es: seq<Entry>)
    requires Sorted(es)
    ensures es == [] <==> ToMap(es) == map[]
  {
    if es != [] { MapAt(es, 0); }
  }

  lemma OwnStepSeeding(c: Setup, s: Net, g: RingMap, h: History, p: Peer, m': RingMap)
    requires WellSeeded(c) && Inv(c, s, g, h)
    requires OwnChange(c.b, p, g, h, MapOf(c, s, p), m')
    ensures var g', h' := Advance(g, MapOf(c, s, p), m'), Extend(h, MapOf(c, s, p), m');
            if g' == map[] then g == map[] && m' == map[] else Recorded(ToMap(c.seed), h')
  {
    var g', h' := Advance(g, MapOf(c, s, p), m'), Extend(h, MapOf(c, s, p), m');
    if g == map[] {
      assert RingOf(c, s, p).entries == [];
      EmptyIffEmpty([]);
    } else {
      var t :| t in g;
      assert t in g';
      MoreHistory(ToMap(c.seed), h, h');
    }
  }

  lemma OwnStepKeepsInv(c: Setup, s: Net, g: RingMap, h: History, p: Peer, r': Ring) returns (g': RingMap, h': History)
    requires WellSeeded(c) && Inv(c, s, g, h)
    requires r' == RingOf(c, s, p).(entries := r'.entries) && Sorted(r'.entries)
    requires LocalChange(p, MapOf(c, s, p), ToMap(r'.entries)) && MapValid(c.b, ToMap(r'.entries))
    requires RingOf(c, s, p).entries == [] ==> r'.entries == []
    ensures Inv(c, Put(s, p, r'), g', h')
  {
    RingOfIsCopy(c, s, h, p);
    EmptyIffEmpty(RingOf(c, s, p).entries);
    EmptyIffEmpty(r'.entries);
    var m, m' := MapOf(c, s, p), ToMap(r'.entries);
    assert UpToDate(p, m, g);
    g', h' := Advance(g, m, m'), Extend(h, m, m');
    OwnChangeExplained(c.b, p, g, h, m, m');
    OwnStepSeeding(c, s, g, h, p, m');
    forall q ensures UpToDate(q, After(c, s, p, m', q), g') {
      OwnStepUpToDate(c, s, g, h, p, m', q);
    }
    forall t, v | (t, v) in h' && t in g' ensures PastAfter(c, s, g', h', p, m', t, v) {
      OwnStepPast(c, s, g, h, p, m', t, v);
    }
    StepKeepsInv(c, s, g, h, p, r', g', h');
  }

  /** The records of a freshly seeded ring. */
  ghost function SeedHistory(m: RingMap): History {
    map k | k in (set t | t in m :: (t, 0)) :: Record(m[k.0], NextIn(m.Keys, k.0))
  }

  ghost predicate SeedAt(m: RingMap, h: History, t: nat, v: nat) {
    && ((t, v) in h <==> t in m && v == 0)
    && ((t, v) in h ==> h[(t, v)].entry == m[t] && IsNext(m.Keys, t, h[(t, v)].next))
  }

  ghost predicate IsSeedHistory(m: RingMap, h: History) {
    forall t, v {:trigger SeedAt(m, h, t, v)} :: SeedAt(m, h, t, v)
  }

  lemma SeedHistoryIs(m: RingMap)
    ensures IsSeedHistory(m, SeedHistory(m))
  {
  }

  lemma SeedExplained(b: Bounds, m: RingMap, h: History)
    requires MapValid(b, m) && forall t :: t in m ==> m[t].version == 0
    requires IsSeedHistory(m, h)
    ensures Explains(b, m, h)
  {
    forall t | t in m ensures RecordedAt(m, h, t) {
      assert SeedAt(m, h, t, 0);
    }
    forall t, v | (t, v) in h ensures NewestAt(b, m, h, t, v) {
      assert SeedAt(m, h, t, v);
    }
    forall t, v, u, w | (t, v) in h && (u, w) in h ensures NestedAt(h, t, v, u, w) {
      assert SeedAt(m, h, t, v) && SeedAt(m, h, u, w);
    }
  }

  lemma SeedVersions(c: Setup)
    requires WellSeeded(c)
    ensures forall t :: t in ToMap(c.seed) ==> ToMap(c.seed)[t].version == 0
  {
    MapFacts(c.seed);
  }

  lemma FirstSeedPast(c: Setup, s: Net, p: Peer, h: History)
    requires WellSeeded(c) && IsSeedHistory(ToMap(c.seed), h)
    ensures var m := ToMap(c.seed);
            forall t, v {:trigger PastAfter(c, s, m, h, p, m, t, v)} :: (t, v) in h && t in m ==>
                PastAfter(c, s, m, h, p, m, t, v)
  {
    var m := ToMap(c.seed);
    SeedVersions(c);
    forall t, v | (t, v) in h && t in m ensures PastAfter(c, s, m, h, p, m, t, v) {
      assert SeedAt(m, h, t, v);
    }
  }

  lemma FirstSeedKeepsInv(c: Setup, s: Net, g: RingMap, h: History, p: Peer, r': Ring, h': History)
    requires WellSeeded(c) && Inv(c, s, g, h) && g == map[]
    requires IsSeedHistory(ToMap(c.seed), h')
    requires Takes(c, s, p, Seed, r')
    ensures Inv(c, Put(s, p, r'), ToMap(c.seed), h')
  {
    var m' := ToMap(c.seed);
    EmptyIffEmpty(c.seed);
    ValidIffMapValid(c.b, c.seed);
    SeedVersions(c);
    SeedExplained(c.b, m', h');
    FirstSeedPast(c, s, p, h');
    NoHistory(c.b, g, h);
    FirstSeedUpToDate(c, s, g, h, p);
    StepKeepsInv(c, s, g, h, p, r', m', h');
  }

  lemma RecordedTokenExists(b: Bounds, g: RingMap, h: History, k: (nat, nat))
    requires Newest(b, g, h) && k in h
    ensures k.0 in g
  {
    assert NewestAt(b, g, h, k.0, k.1);
  }

  lemma NoHistory(b: Bounds, g: RingMap, h: History)
    requires Newest(b, g, h) && g == map[]
    ensures h == map[]
  {
    forall k ensures k !in h {
      if k in h { RecordedTokenExists(b, g, h, k); }
    }
  }

  lemma FirstSeedUpToDate(c: Setup, s: Net, g: RingMap, h: History, p: Peer)
    requires WellSeeded(c) && Inv(c, s, g, h) && g == map[]
    ensures forall q :: UpToDate(q, After(c, s, p, ToMap(c.seed), q), ToMap(c.seed))
  {
    var m' := ToMap(c.seed);
    forall q ensures UpToDate(q, After(c, s, p, m', q), m') {
      assert RingOf(c, s, q).entries == [];
      EmptyIffEmpty([]);
    }
  }

  lemma SeedKeepsInv(c: Setup, s: Net, g: RingMap, h: History, p: Peer, r': Ring) returns (g': RingMap, h': History)
    requires WellSeeded(c) && Inv(c, s, g, h)
    requires Takes(c, s, p, Seed, r')
    ensures Inv(c, Put(s, p, r'), g', h')
  {
    if g == map[] {
      g', h' := ToMap(c.seed), SeedHistory(ToMap(c.seed));
      SeedHistoryIs(ToMap(c.seed));
      FirstSeedKeepsInv(c, s, g, h, p, r', h');
    } else {
      g', h' := g, h;
      var m' := ToMap(c.seed);
      LateSeedUpToDate(c, s, g, h, p);
      EmptyIffEmpty(RingOf(c, s, p).entries);
      forall t, v | (t, v) in h && t in g ensures PastAfter(c, s, g, h, p, m', t, v) {
        assert PastAt(c, s, g, h, t, v);
      }
      StepKeepsInv(c, s, g, h, p, r', g', h');
    }
  }

  /** A peer that seeds late still holds what the seed gives it: nobody else could give it away. */
  lemma LateSeedUpToDate(c: Setup, s: Net, g: RingMap, h: History, p: Peer)
    requires WellSeeded(c) && Inv(c, s, g, h) && g != map[] && RingOf(c, s, p).entries == []
    ensures forall q :: UpToDate(q, After(c, s, p, ToMap(c.seed), q), g)
  {
    var m' := ToMap(c.seed);
    EmptyIffEmpty([]);
    SeedVersions(c);
    forall q ensures UpToDate(q, After(c, s, p, m', q), g) {
      assert UpToDate(q, MapOf(c, s, q), g);
      if q == p {
        forall t | t in m' && m'[t].peer == p ensures t in g && m'[t].version == g[t].version {
          assert RecordedAt(m', h, t) && NewestAt(c.b, g, h, t, 0) && PastAt(c, s, g, h, t, 0);
        }
      }
    }
  }

  lemma NextKeepsInv(c: Setup, s: Net, s': Net, g: RingMap, h: History) returns (g': RingMap, h': History)
    requires WellSeeded(c) && Inv(c, s, g, h) && Next(c, s, s')
    ensures Inv(c, s', g', h')
  {
    var p, step, r' :| Takes(c, s, p, step, r') && s' == Put(s, p, r');
    var r := RingOf(c, s, p);
    RingOfIsCopy(c, s, h, p);
    RecordedValid(c.b, g, h, ToMap(r.entries));
    ValidIffMapValid(c.b, r.entries);
    match step
    case Seed =>
      g', h' := SeedKeepsInv(c, s, g, h, p, r');
    case Grant(start, end, to) =>
      GrantIsLocal(c.b, p, ToMap(r.entries), ToMap(r'.entries), start, end, to);
      GrantValid(c.b, p, ToMap(r.entries), ToMap(r'.entries), start, end, to);
      EmptyIffEmpty(r.entries);
      g', h' := OwnStepKeepsInv(c, s, g, h, p, r');
    case ReportFree(free) =>
      ReportIsLocal(c.b, p, r.entries, free);
      g', h' := OwnStepKeepsInv(c, s, g, h, p, r');
    case HandOver(to) =>
      HandOverIsLocal(c.b, p, r.entries, to);
      g', h' := OwnStepKeepsInv(c, s, g, h, p, r');
    case Receive(gossip) =>
      ReceiveKeepsInv(c, s, g, h, p, gossip, r');
      g', h' := g, h;
  }

  lemma {:induction false} RunInv(c: Setup, run: seq<Net>, i: nat) returns (g: RingMap, h: History)
    requires WellSeeded(c) && IsRun(c, run) && i < |run|
    ensures Inv(c, run[i], g, h)
  {
    if i == 0 {
      g, h := map[], map[];
      EmptyIffEmpty([]);
    } else {
      var g0, h0 := RunInv(c, run, i - 1);
      assert Next(c, run[i - 1], run[i - 1 + 1]);
      g, h := NextKeepsInv(c, run[i - 1], run[i], g0, h0);
    }
  }

  // ---------------------------------------------------------------- theorems

  /** By its own ring, p is the owner of address x. */
  predicate Holds(c: Setup, s: Net, p: Peer, x: nat) {
    RingOf(c, s, p).entries != [] && Owner(RingOf(c, s, p).entries, x) == p
  }

  /** What p holds by its own ring it holds in the newest ring. */
  lemma HoldsInNewest(c: Setup, s: Net, g: RingMap, h: History, p: Peer, x: nat) returns (t: nat)
    requires WellSeeded(c) && Inv(c, s, g, h) && Holds(c, s, p, x)
    ensures t in MapOf(c, s, p) && t in g && MapOf(c, s, p)[t] == g[t] && g[t].peer == p
    ensures Heads(MapOf(c, s, p).Keys, t, x) && Heads(g.Keys, t, x)
  {
    var es, m := RingOf(c, s, p).entries, MapOf(c, s, p);
    RingOfIsCopy(c, s, h, p);
    HeadOfIndex(es, x);
    t := At(es, FirstAbove(es, x) as int - 1).token;
    assert UpToDate(p, m, g);
    var n := OwnIsNewest(p, g, h, m, t);
    HeadsIffBetween(m.Keys, t, n, x);
    HeadsIffBetween(g.Keys, t, n, x);
  }

  /** In no run does an address have two owners. */
  lemma OneOwner(c: Setup, run: seq<Net>, i: nat, p: Peer, q: Peer, x: nat)
    requires WellSeeded(c) && IsRun(c, run) && i < |run|
    requires Holds(c, run[i], p, x) && Holds(c, run[i], q, x)
    ensures p == q
  {
    var g, h := RunInv(c, run, i);
    var t := HoldsInNewest(c, run[i], g, h, p, x);
    var u := HoldsInNewest(c, run[i], g, h, q, x);
    HeadUnique(g.Keys, t, u, x);
  }

  /** In every run every gossiped ring is accepted and yields a valid ring. */
  lemma GossipAccepted(c: Setup, run: seq<Net>, i: nat, p: Peer, gossip: Ring)
    requires WellSeeded(c) && IsRun(c, run) && i < |run| && gossip in run[i].sent
    ensures var outcome := MergeRing(RingOf(c, run[i], p), gossip, p);
            && outcome.Accepted?
            && Valid(c.b, outcome.ring.entries)
            && (outcome.updated <==> outcome.ring.entries != RingOf(c, run[i], p).entries)
  {
    var g, h := RunInv(c, run, i);
    MergeSucceeds(c, run[i], g, h, p, gossip);
  }

  /** In every run a peer that has a ring has the seeds agreed on, whether it made the ring or
      received it, and refuses every ring of other seeds. */
  lemma SeedsAgreed(c: Setup, run: seq<Net>, i: nat, p: Peer, gossip: Ring)
    requires WellSeeded(c) && IsRun(c, run) && i < |run| && RingOf(c, run[i], p).entries != []
    ensures RingOf(c, run[i], p).seeds == c.peers
    ensures Valid(gossip.b, gossip.entries) && gossip.seeds != [] && c.peers != [] && gossip.seeds != c.peers ==>
              MergeRing(RingOf(c, run[i], p), gossip, p) == Refused(DifferentSeeds)
  {
    var g, h := RunInv(c, run, i);
    RingOfIsCopy(c, run[i], h, p);
  }

  /** In every run merging takes no address away from the peer that merges. */
  lemma GossipTakesNothing(c: Setup, run: seq<Net>, i: nat, p: Peer, gossip: Ring, x: nat)
    requires WellSeeded(c) && IsRun(c, run) && i < |run| && gossip in run[i].sent
    requires Holds(c, run[i], p, x)
    ensures var r' := Received(RingOf(c, run[i], p), gossip, p);
            r'.entries != [] && Owner(r'.entries, x) == p
  {
    var s := run[i];
    var g, h := RunInv(c, run, i);
    MergeSucceeds(c, s, g, h, p, gossip);
    var t := HoldsInNewest(c, s, g, h, p, x);
    RingOfIsCopy(c, s, h, p);
    var r' := Received(RingOf(c, s, p), gossip, p);
    var o := ToMap(gossip.entries);
    assert t in o ==> o[t].version <= g[t].version by {
      if t in o { assert RecordedAt(o, h, t) && NewestAt(c.b, g, h, t, o[t].version); }
    }
    KeptByJoin(h, MapOf(c, s, p), o, p, t, x);
    OwnerIsHead(r'.entries, t, x);
    EmptyIffEmpty(r'.entries);
  }

  lemma KeptByJoin(h: History, m: RingMap, o: RingMap, p: Peer, t: nat, x: nat)
    requires Nested(h) && Recorded(m, h) && Recorded(o, h)
    requires t in m && m[t].peer == p && Heads(m.Keys, t, x)
    requires t in o ==> o[t].version <= m[t].version
    ensures var j := Join(m, o); t in j && j[t].peer == p && Heads(j.Keys, t, x)
  {
    NextSurvives(h, m, o, t);
    var n := h[(t, m[t].version)].next;
    var j := Join(m, o);
    assert j.Keys == m.Keys + o.Keys;
    HeadsIffBetween(m.Keys, t, n, x);
    HeadsIffBetween(j.Keys, t, n, x);
  }

  /** Copies of the ring converge: two peers that merge each other's rings agree. */
  lemma GossipConverges(c: Setup, run: seq<Net>, i: nat, p: Peer, q: Peer)
    requires WellSeeded(c) && IsRun(c, run) && i < |run| && p in run[i].rings && q in run[i].rings
    ensures Received(run[i].rings[p], run[i].rings[q], p).entries ==
            Received(run[i].rings[q], run[i].rings[p], q).entries
  {
    var s := run[i];
    var g, h := RunInv(c, run, i);
    var r, r' := s.rings[p], s.rings[q];
    assert r in s.sent && r' in s.sent;
    MergeSucceeds(c, s, g, h, p, r');
    MergeSucceeds(c, s, g, h, q, r);
    JoinCommutes(h, ToMap(r.entries), ToMap(r'.entries));
    MapDetermines(Received(r, r', p).entries, Received(r', r, q).entries);
  }

  lemma JoinCommutes(h: History, m: RingMap, o: RingMap)
    requires Recorded(m, h) && Recorded(o, h)
    ensures Join(m, o) == Join(o, m)
  {
    forall t | t in m && t in o ensures m[t].version == o[t].version ==> m[t] == o[t] {
      assert RecordedAt(m, h, t) && RecordedAt(o, h, t);
    }
  }

  lemma MapDetermines(a: seq<Entry>, b: seq<Entry>)
    requires Sorted(a) && Sorted(b) && ToMap(a) == ToMap(b)
    ensures a == b
  {
    MapFacts(a);
    MapFacts(b);
    SortedUnique(a, b);
  }
}
