/** The history behind all copies of the ring: every version a token ever had, with
    the token that followed it then.  No copy of the ring is needed to be up to date
    for this history to explain it. */
module RingHistory {
  import opened RingEntries
  import opened RingGrant
  import opened RingMerge

  /** One version of a token's entry and the token that came next when it was made. */
  datatype Record = Record(entry: Entry, next: nat)

  /** Keyed by token and version. */
  type History = map<(nat, nat), Record>

  /** The entry of m at t is a recorded version, followed by the token recorded with it. */
  ghost predicate RecordedAt(m: RingMap, h: History, t: nat)
    requires t in m
  {
    && (t, m[t].version) in h
    && h[(t, m[t].version)].entry == m[t]
    && IsNext(m.Keys, t, h[(t, m[t].version)].next)
  }

  ghost predicate Recorded(m: RingMap, h: History) {
    forall t {:trigger RecordedAt(m, h, t)} :: t in m ==> RecordedAt(m, h, t)
  }

  /** g holds the newest version of every token ever made. */
  ghost predicate NewestAt(b: Bounds, g: RingMap, h: History, t: nat, v: nat)
    requires (t, v) in h
  {
    && t in g && b.lo <= t < b.hi && v <= g[t].version
    && h[(t, v)].entry.token == t && h[(t, v)].entry.version == v
    && h[(t, v)].next in g && h[(t, v)].entry.free <= Distance(b, t, h[(t, v)].next)
  }

  ghost predicate Newest(b: Bounds, g: RingMap, h: History) {
    forall t, v {:trigger NewestAt(b, g, h, t, v)} :: (t, v) in h ==> NewestAt(b, g, h, t, v)
  }

  /** A token u made inside the stretch of t never reaches beyond that stretch, and a
      newer version of t has a stretch no longer than an older one. */
  ghost predicate NestedAt(h: History, t: nat, v: nat, u: nat, w: nat)
    requires (t, v) in h && (u, w) in h
  {
    Between(t, h[(t, v)].next, u) || (t == u && v <= w) ==> !Between(u, h[(u, w)].next, h[(t, v)].next)
  }

  ghost predicate Nested(h: History) {
    forall t, v, u, w {:trigger NestedAt(h, t, v, u, w)} :: (t, v) in h && (u, w) in h ==> NestedAt(h, t, v, u, w)
  }

  ghost predicate Explains(b: Bounds, g: RingMap, h: History) {
    Newest(b, g, h) && Nested(h) && Recorded(g, h)
  }

  // ---------------------------------------------------------------- merging

  /** The entry kept at t by a join is still followed by its recorded next token. */
  lemma NextSurvives(h: History, x: RingMap, y: RingMap, t: nat)
    requires Nested(h) && Recorded(x, h) && Recorded(y, h)
    requires t in x && (t in y ==> y[t].version <= x[t].version)
    ensures RecordedAt(x, h, t)
    ensures IsNext(x.Keys + y.Keys, t, h[(t, x[t].version)].next)
  {
    assert RecordedAt(x, h, t);
    var n := h[(t, x[t].version)].next;
    forall z | z in y ensures !Between(t, n, z) {
      HeadExists(y.Keys, t);
      var u :| Heads(y.Keys, u, t);
      assert RecordedAt(y, h, u);
      var m := h[(u, y[u].version)].next;
      HeadsIffBetween(y.Keys, u, m, t);
      assert NestedAt(h, u, y[u].version, t, x[t].version);
      assert !Between(u, m, z);
      if t in y { HeadsSelf(y.Keys, t); HeadUnique(y.Keys, t, u, t); }
    }
  }

  /** The join of two explained copies is explained. */
  lemma JoinRecorded(h: History, m: RingMap, o: RingMap)
    requires Nested(h) && Recorded(m, h) && Recorded(o, h)
    ensures Recorded(Join(m, o), h)
  {
    var j := Join(m, o);
    assert j.Keys == m.Keys + o.Keys && j.Keys == o.Keys + m.Keys;
    forall t | t in j ensures RecordedAt(j, h, t) {
      if t !in o || (t in m && m[t].version >= o[t].version) {
        NextSurvives(h, m, o, t);
      } else {
        NextSurvives(h, o, m, t);
      }
    }
  }

  /** What a copy of the ring says is valid because each version was when it was made. */
  lemma RecordedValid(b: Bounds, g: RingMap, h: History, m: RingMap)
    requires Newest(b, g, h) && Recorded(m, h)
    ensures MapValid(b, m)
  {
    forall t | t in m ensures b.lo <= t < b.hi && m[t].token == t {
      assert RecordedAt(m, h, t) && NewestAt(b, g, h, t, m[t].version);
    }
    forall t, n | t in m && IsNext(m.Keys, t, n) ensures m[t].free <= Distance(b, t, n) {
      assert RecordedAt(m, h, t) && NewestAt(b, g, h, t, m[t].version);
      NextUnique(m.Keys, t, n, h[(t, m[t].version)].next);
    }
  }

  // ---------------------------------------------------------------- changes by an owner

  ghost function Changed(m: RingMap, m': RingMap): set<nat> {
    set t | t in m' && (t !in m || m'[t] != m[t])
  }

  ghost function NextIn(keys: set<nat>, t: nat): (n: nat)
    requires t in keys
    ensures IsNext(keys, t, n)
  {
    NextExists(keys, t);
    var n :| IsNext(keys, t, n);
    n
  }

  /** The newest ring after the change m to m'. */
  ghost function Advance(g: RingMap, m: RingMap, m': RingMap): RingMap {
    map t | t in g.Keys + Changed(m, m') :: if t in Changed(m, m') then m'[t] else g[t]
  }

  ghost function NewVersions(m: RingMap, m': RingMap): set<(nat, nat)> {
    set t | t in Changed(m, m') :: (t, m'[t].version)
  }

  /** The history after the change m to m'. */
  ghost function Extend(h: History, m: RingMap, m': RingMap): History {
    map k | k in h.Keys + NewVersions(m, m') :: if k in h then h[k] else Record(m'[k.0], NextIn(m'.Keys, k.0))
  }

  /** All entries that `us` owns in m are the newest there are. */
  ghost predicate UpToDate(us: Peer, m: RingMap, g: RingMap) {
    forall t :: t in m && m[t].peer == us ==> t in g && m[t].version == g[t].version
  }

  /** `us` changes its own part of its copy m. */
  ghost predicate OwnChange(b: Bounds, us: Peer, g: RingMap, h: History, m: RingMap, m': RingMap) {
    && Explains(b, g, h) && Recorded(m, h) && UpToDate(us, m, g)
    && LocalChange(us, m, m') && MapValid(b, m') && (m == map[] ==> m' == map[])
  }

  /** An owner's entry and its stretch are those of the newest ring. */
  lemma OwnIsNewest(us: Peer, g: RingMap, h: History, m: RingMap, t: nat) returns (n: nat)
    requires Recorded(g, h) && Recorded(m, h) && UpToDate(us, m, g)
    requires t in m && m[t].peer == us
    ensures t in g && m[t] == g[t]
    ensures IsNext(m.Keys, t, n) && IsNext(g.Keys, t, n)
  {
    assert RecordedAt(m, h, t) && RecordedAt(g, h, t);
    n := h[(t, m[t].version)].next;
  }

  /** A new token of the owner is new altogether and lies in a stretch u..n of the newest ring. */
  lemma NewTokenHead(b: Bounds, us: Peer, g: RingMap, h: History, m: RingMap, m': RingMap, x: nat)
    returns (u: nat, n: nat)
    requires OwnChange(b, us, g, h, m, m')
    requires x in m' && x !in m
    ensures u in m && m[u].peer == us && m'[u] != m[u] && u in g && x !in g
    ensures IsNext(g.Keys, u, n) && IsNext(m.Keys, u, n) && Between(u, n, x)
  {
    HeadExists(m.Keys, x);
    u :| Heads(m.Keys, u, x);
    n := OwnIsNewest(us, g, h, m, u);
    HeadsIffBetween(m.Keys, u, n, x);
  }

  lemma GapsDisjoint(keys: set<nat>, t: nat, n: nat, u: nat, n': nat, x: nat)
    requires t in keys && u in keys && IsNext(keys, t, n) && IsNext(keys, u, n')
    requires Between(t, n, x) && Between(u, n', x)
    ensures t == u
  {
    HeadsIffBetween(keys, t, n, x);
    HeadsIffBetween(keys, u, n', x);
    HeadUnique(keys, t, u, x);
  }

  /** Tokens the owner did not touch keep their successors in the newest ring. */
  lemma UntouchedNext(b: Bounds, us: Peer, g: RingMap, h: History, m: RingMap, m': RingMap, t: nat, n: nat)
    requires OwnChange(b, us, g, h, m, m')
    requires t in g && t !in Changed(m, m') && IsNext(g.Keys, t, n)
    ensures IsNext(Advance(g, m, m').Keys, t, n)
  {
    forall x | x in Changed(m, m') && x !in g ensures !Between(t, n, x) {
      if x in m {
        var _ := OwnIsNewest(us, g, h, m, x);
      } else if Between(t, n, x) {
        var u, k := NewTokenHead(b, us, g, h, m, m', x);
        GapsDisjoint(g.Keys, t, n, u, k, x);
      }
    }
  }

  /** A touched token is followed by the same token in the owner's copy and in the newest ring. */
  lemma TouchedNext(b: Bounds, us: Peer, g: RingMap, h: History, m: RingMap, m': RingMap, t: nat)
    requires OwnChange(b, us, g, h, m, m')
    requires t in Changed(m, m')
    ensures IsNext(Advance(g, m, m').Keys, t, NextIn(m'.Keys, t))
  {
    var n', g' := NextIn(m'.Keys, t), Advance(g, m, m');
    NextIsKnown(b, us, g, h, m, m', n');
    forall y | y in g' ensures !Between(t, n', y) {
      if y !in m' {
        TouchedGap(b, us, g, h, m, m', t, n', y);
      }
    }
  }

  lemma TouchedGap(b: Bounds, us: Peer, g: RingMap, h: History, m: RingMap, m': RingMap, t: nat, n': nat, y: nat)
    requires OwnChange(b, us, g, h, m, m')
    requires t in Changed(m, m') && IsNext(m'.Keys, t, n') && y in g
    ensures !Between(t, n', y)
  {
    if t in m {
      var n := OwnIsNewest(us, g, h, m, t);
      InsideGap(t, n, t, n', y);
    } else {
      var u, n := NewTokenHead(b, us, g, h, m, m', t);
      InsideGap(u, n, t, n', y);
    }
  }

  lemma InsideGap(u: nat, n: nat, t: nat, n': nat, y: nat)
    requires t == u || Between(u, n, t)
    requires !Between(t, n', n) && !Between(u, n, y)
    ensures !Between(t, n', y)
  {
  }

  lemma NextIsKnown(b: Bounds, us: Peer, g: RingMap, h: History, m: RingMap, m': RingMap, t: nat)
    requires OwnChange(b, us, g, h, m, m')
    requires t in m'
    ensures t in Advance(g, m, m')
  {
    if t in m { assert RecordedAt(m, h, t) && NewestAt(b, g, h, t, m[t].version); }
  }

  /** Every version the owner makes is new. */
  lemma VersionsAreNew(b: Bounds, us: Peer, g: RingMap, h: History, m: RingMap, m': RingMap, t: nat, v: nat)
    requires OwnChange(b, us, g, h, m, m')
    requires t in Changed(m, m') && (t, v) in h
    ensures t in m && v < m'[t].version
  {
    assert NewestAt(b, g, h, t, v);
    if t in m {
      var _ := OwnIsNewest(us, g, h, m, t);
    } else {
      var _, _ := NewTokenHead(b, us, g, h, m, m', t);
    }
  }

  /** The record of a touched token. */
  lemma NewRecord(b: Bounds, us: Peer, g: RingMap, h: History, m: RingMap, m': RingMap, t: nat)
    requires OwnChange(b, us, g, h, m, m') && t in Changed(m, m')
    ensures (t, m'[t].version) in Extend(h, m, m')
    ensures Extend(h, m, m')[(t, m'[t].version)] == Record(m'[t], NextIn(m'.Keys, t))
    ensures NewestAt(b, Advance(g, m, m'), Extend(h, m, m'), t, m'[t].version)
  {
    assert (t, m'[t].version) in NewVersions(m, m');
    if (t, m'[t].version) in h {
      VersionsAreNew(b, us, g, h, m, m', t, m'[t].version);
    }
    TouchedNext(b, us, g, h, m, m', t);
  }

  lemma ExtendRecords(b: Bounds, us: Peer, g: RingMap, h: History, m: RingMap, m': RingMap)
    requires OwnChange(b, us, g, h, m, m')
    ensures Recorded(m', Extend(h, m, m'))
    ensures Recorded(Advance(g, m, m'), Extend(h, m, m'))
  {
    var g', h' := Advance(g, m, m'), Extend(h, m, m');
    forall t | t in m' ensures RecordedAt(m', h', t) {
      if t in Changed(m, m') {
        NewRecord(b, us, g, h, m, m', t);
      } else {
        assert RecordedAt(m, h, t);
        var n := h[(t, m[t].version)].next;
        forall x | x in m'.Keys - m.Keys ensures !Heads(m.Keys, t, x) {
        }
        NextKept(m.Keys, m'.Keys, t, n);
      }
    }
    forall t | t in g' ensures RecordedAt(g', h', t) {
      if t in Changed(m, m') {
        NewRecord(b, us, g, h, m, m', t);
        TouchedNext(b, us, g, h, m, m', t);
      } else {
        assert RecordedAt(g, h, t);
        UntouchedNext(b, us, g, h, m, m', t, h[(t, g[t].version)].next);
      }
    }
  }

  lemma ExtendNewest(b: Bounds, us: Peer, g: RingMap, h: History, m: RingMap, m': RingMap)
    requires OwnChange(b, us, g, h, m, m')
    ensures Newest(b, Advance(g, m, m'), Extend(h, m, m'))
  {
    var g', h' := Advance(g, m, m'), Extend(h, m, m');
    forall t, v | (t, v) in h' ensures NewestAt(b, g', h', t, v) {
      if (t, v) in h {
        assert NewestAt(b, g, h, t, v);
        if t in Changed(m, m') {
          VersionsAreNew(b, us, g, h, m, m', t, v);
        }
      } else {
        NewRecord(b, us, g, h, m, m', t);
      }
    }
  }

  lemma ExtendNested(b: Bounds, us: Peer, g: RingMap, h: History, m: RingMap, m': RingMap)
    requires OwnChange(b, us, g, h, m, m')
    ensures Nested(Extend(h, m, m'))
  {
    ExtendNewest(b, us, g, h, m, m');
    var g', h' := Advance(g, m, m'), Extend(h, m, m');
    forall t, v, u, w | (t, v) in h' && (u, w) in h' ensures NestedAt(h', t, v, u, w) {
      assert NewestAt(b, g', h', t, v) && NewestAt(b, g', h', u, w);
      if (u, w) !in h {
        NewRecord(b, us, g, h, m, m', u);
        TouchedNext(b, us, g, h, m, m', u);
      } else if (t, v) in h {
        assert NestedAt(h, t, v, u, w);
      } else {
        NewRecord(b, us, g, h, m, m', t);
        TouchedNext(b, us, g, h, m, m', t);
        if t == u { VersionsAreNew(b, us, g, h, m, m', t, w); }
      }
    }
  }

  /** A change that an owner makes to its own part is explained by the history so far
      plus the versions it makes; nothing recorded before changes. */
  lemma OwnChangeExplained(b: Bounds, us: Peer, g: RingMap, h: History, m: RingMap, m': RingMap)
    requires OwnChange(b, us, g, h, m, m')
    ensures Explains(b, Advance(g, m, m'), Extend(h, m, m'))
    ensures Recorded(m', Extend(h, m, m'))
    ensures forall k :: k in h ==> k in Extend(h, m, m') && Extend(h, m, m')[k] == h[k]
  {
    ExtendRecords(b, us, g, h, m, m');
    ExtendNewest(b, us, g, h, m, m');
    ExtendNested(b, us, g, h, m, m');
  }
}
