/** GrantRangeToHost works in three stages; together they make up the grant. */
module RingGrantSteps {
  import Basics
  import opened RingEntries
  import opened RingGrant
  import opened RingOps

  // ---------------------------------------------------------------- one entry at a time

  lemma UpdateMap(es: seq<Entry>, i: nat, e: Entry)
    requires Sorted(es) && i < |es| && e.token == es[i].token
    ensures Sorted(es[i := e]) && ToMap(es[i := e]) == ToMap(es)[e.token := e]
  {
    var es' := es[i := e];
    SameTokens(es, es');
    MapAt(es, i);
    forall t | t in ToMap(es) ensures ToMap(es')[t] == ToMap(es)[e.token := e][t] {
      var k := SamePlace(es, es', t);
    }
  }

  /** One entry more in the list is one entry more in the map. */
  lemma InsertMapAt(es: seq<Entry>, es': seq<Entry>, e: Entry, t: nat)
    requires Sorted(es) && Sorted(es') && e.token !in Tokens(es) && t in ToMap(es')
    requires forall x :: x in es' <==> x == e || x in es
    ensures if t == e.token then ToMap(es')[t] == e else t in ToMap(es) && ToMap(es')[t] == ToMap(es)[t]
  {
    var i := MapIndex(es', t);
    assert es'[i] in es';
    if es'[i] != e {
      var k :| 0 <= k < |es| && es[k] == es'[i];
      MapAt(es, k);
    }
  }

  lemma InsertMap(es: seq<Entry>, e: Entry)
    requires Sorted(es) && e.token !in Tokens(es)
    ensures Sorted(Insert(es, e)) && ToMap(Insert(es, e)) == ToMap(es)[e.token := e]
  {
    var es' := Insert(es, e);
    InsertFacts(es, e);
    MapKeys(es);
    MapKeys(es');
    forall t | t in ToMap(es') ensures ToMap(es')[t] == ToMap(es)[e.token := e][t] {
      InsertMapAt(es, es', e, t);
    }
  }

  /** Owning a range by Ring.Owner is owning all stretches that reach into it. */
  lemma GrantableByOwner(b: Bounds, us: Peer, es: seq<Entry>, start: nat, end: nat)
    requires Valid(b, es) && es != [] && b.lo <= start < end <= b.hi
    requires forall x :: start <= x < end ==> Owner(es, x) == us
    ensures Grantable(b, us, ToMap(es), start, end)
  {
    ValidIffMapValid(b, es);
    MapAt(es, 0);
    forall x, t | start <= x < end && Heads(ToMap(es).Keys, t, x) ensures ToMap(es)[t].peer == us {
      OwnerIsHead(es, t, x);
    }
  }

  // ---------------------------------------------------------------- stages of a grant

  /** The map after the start of the grant has been dealt with. */
  ghost function Started(b: Bounds, us: Peer, m: RingMap, start: nat, to: Peer, free: nat): RingMap
    requires forall t :: t in m ==> b.lo <= t < b.hi
    requires b.lo <= start < b.hi
  {
    map t | t in m.Keys + {start} ::
      if t == start then Entry(t, to, if t in m then m[t].version + 1 else 0, free)
      else if IsSplit(m, start, t) then m[t].Update(us, Distance(b, t, start))
      else m[t]
  }

  /** The map after the tokens inside the grant have been given away. */
  ghost function Given(m: RingMap, start: nat, end: nat, to: Peer): RingMap {
    map t | t in m :: if start < t < end then m[t].Update(to, Basics.Min(m[t].free, end - t)) else m[t]
  }

  lemma StartGap(b: Bounds, keys: set<nat>, keys': set<nat>, start: nat, end: nat, n: nat, n': nat)
    requires forall y :: y in keys' ==> b.lo <= y < b.hi
    requires b.lo <= start < end <= b.hi
    requires keys' == keys + {start, EndToken(b, end)}
    requires IsNext(keys, start, n) && IsNext(keys', start, n')
    ensures Distance(b, start, n') == Basics.Min(Distance(b, start, n), end - start)
  {
    assert n' in keys ==> !Between(start, n, n');
    assert !Between(start, n', n) && !Between(start, n', EndToken(b, end));
  }

  lemma SplitGap(b: Bounds, keys: set<nat>, keys': set<nat>, start: nat, end: nat, t: nat, n': nat)
    requires forall y :: y in keys' ==> b.lo <= y < b.hi
    requires b.lo <= start < end <= b.hi && !(start <= t < end)
    requires keys' == keys + {start, EndToken(b, end)}
    requires start !in keys && Heads(keys, t, start) && IsNext(keys', t, n')
    ensures n' == start
  {
    assert !Between(t, n', start);
    assert n' in keys ==> !Within(t, start, n');
    assert t in keys';
  }

  /** The token at the end of the grant is there already, or is added for us. */
  ghost predicate Ended(b: Bounds, us: Peer, m: RingMap, m': RingMap, end: nat, k: nat) {
    var t := EndToken(b, end);
    if t in m then m' == m
    else IsNext(m.Keys, t, k) && Distance(b, t, k) >= 0 && m' == m[t := Entry(t, us, 0, Distance(b, t, k))]
  }

  /** m' comes from m by the three stages; n follows start in m, k follows the end in between. */
  ghost predicate Staged(b: Bounds, us: Peer, m: RingMap, m': RingMap, start: nat, end: nat, to: Peer, n: nat, k: nat) {
    && Grantable(b, us, m, start, end)
    && IsNext(m.Keys, start, n)
    && Ended(b, us, Given(Started(b, us, m, start, to, StartFree(b, start, end, n)), start, end, to), m', end, k)
  }

  /** All of the range up to the next token is free for the new owner. */
  function StartFree(b: Bounds, start: nat, end: nat, n: nat): nat
    requires b.lo <= start < end <= b.hi && b.lo <= n
  {
    Basics.Min(Distance(b, start, n), end - start)
  }

  lemma StagedEntry(b: Bounds, us: Peer, m: RingMap, m': RingMap, start: nat, end: nat, to: Peer, n: nat, k: nat,
                    t: nat)
    requires Staged(b, us, m, m', start, end, to, n, k)
    ensures m'.Keys == m.Keys + {start, EndToken(b, end)}
    ensures t == start ==>
              m'[t] == Entry(t, to, if t in m then m[t].version + 1 else 0, StartFree(b, start, end, n))
    ensures t in m && start < t < end ==> m'[t] == GivenEntry(b, us, m, start, end, to, t)
    ensures t in m && t != start && !(start < t < end) ==>
              m'[t] == if IsSplit(m, start, t) then m[t].Update(us, Distance(b, t, start)) else m[t]
    ensures t in m' && t !in m && t != start ==>
              IsNext(m.Keys + {start}, t, k) && m'[t].token == t && m'[t].peer == us && m'[t].version == 0
              && m'[t].free == Distance(b, t, k)
  {
    var s := Started(b, us, m, start, to, StartFree(b, start, end, n));
    assert s.Keys == m.Keys + {start};
    assert Given(s, start, end, to).Keys == m.Keys + {start};
  }

  /** The three stages make up the grant. */
  lemma StagesMakeGrant(b: Bounds, us: Peer, m: RingMap, m': RingMap, start: nat, end: nat, to: Peer, n: nat, k: nat)
    requires Staged(b, us, m, m', start, end, to, n, k)
    ensures Granted(b, us, m, m', start, end, to)
  {
    StagedEntry(b, us, m, m', start, end, to, n, k, start);
    forall t | t in m' ensures m'[t].token == t && GrantedEntry(b, us, m, m'.Keys, start, end, to, m'[t]) {
      StagedEntry(b, us, m, m', start, end, to, n, k, t);
      if MadeOrCut(m, start, end, t) { StagedGap(b, us, m, m', start, end, to, n, k, t); }
    }
  }

  /** The entries that a grant makes or cuts fill their gaps. */
  ghost predicate MadeOrCut(m: RingMap, start: nat, end: nat, t: nat) {
    t == start || (t !in m && !(start < t < end)) || (t in m && IsSplit(m, start, t) && !(start < t < end))
  }

  lemma StagedStart(b: Bounds, us: Peer, m: RingMap, m': RingMap, start: nat, end: nat, to: Peer, n: nat, k: nat,
                    n': nat)
    requires Staged(b, us, m, m', start, end, to, n, k) && start in m' && IsNext(m'.Keys, start, n')
    ensures m'[start].free == Distance(b, start, n')
  {
    StagedEntry(b, us, m, m', start, end, to, n, k, start);
    StartGap(b, m.Keys, m'.Keys, start, end, n, n');
  }

  lemma StagedEnd(b: Bounds, us: Peer, m: RingMap, m': RingMap, start: nat, end: nat, to: Peer, n: nat, k: nat, t: nat,
                  n': nat)
    requires Staged(b, us, m, m', start, end, to, n, k) && t in m' && IsNext(m'.Keys, t, n') && t != start && t !in m
    ensures m'[t].free == Distance(b, t, n')
  {
    StagedEntry(b, us, m, m', start, end, to, n, k, t);
    EndGap(m.Keys + {start}, m'.Keys, t, k, n');
  }

  lemma StagedSplit(b: Bounds, us: Peer, m: RingMap, m': RingMap, start: nat, end: nat, to: Peer, n: nat, k: nat,
                    t: nat, n': nat)
    requires Staged(b, us, m, m', start, end, to, n, k) && t in m' && IsNext(m'.Keys, t, n')
    requires t != start && t in m && IsSplit(m, start, t) && !(start < t < end)
    ensures m'[t].free == Distance(b, t, n')
  {
    StagedEntry(b, us, m, m', start, end, to, n, k, t);
    SplitGap(b, m.Keys, m'.Keys, start, end, t, n');
  }

  lemma StagedGap(b: Bounds, us: Peer, m: RingMap, m': RingMap, start: nat, end: nat, to: Peer, n: nat, k: nat, t: nat)
    requires Staged(b, us, m, m', start, end, to, n, k) && t in m' && MadeOrCut(m, start, end, t)
    ensures FillsGap(b, m'.Keys, m'[t])
  {
    StagedEntry(b, us, m, m', start, end, to, n, k, t);
    forall n' | IsNext(m'.Keys, t, n') ensures m'[t].free == Distance(b, t, n') {
      if t == start {
        StagedStart(b, us, m, m', start, end, to, n, k, n');
      } else if t !in m {
        StagedEnd(b, us, m, m', start, end, to, n, k, t, n');
      } else {
        StagedSplit(b, us, m, m', start, end, to, n, k, t, n');
      }
    }
  }

  lemma EndGap(keys: set<nat>, keys': set<nat>, t: nat, k: nat, n': nat)
    requires t !in keys && keys' == keys + {t}
    requires IsNext(keys, t, k) && IsNext(keys', t, n')
    ensures n' == k
  {
    assert !Between(t, n', k) && (n' in keys ==> !Between(t, k, n'));
  }

  // ---------------------------------------------------------------- reading off a list

  lemma NextAbove(es: seq<Entry>, x: nat)
    requires Sorted(es) && es != []
    ensures IsNext(ToMap(es).Keys, x, At(es, FirstAbove(es, x)).token)
  {
    var k := FirstAbove(es, x);
    FirstAboveFound(es, x);
    var i := if k == |es| then 0 else k;
    MapKeys(es);
    assert es[i] in es;
    forall y | y in Tokens(es) ensures !Between(x, es[i].token, y) {
      var j :| 0 <= j < |es| && es[j].token == y;
    }
  }

  lemma HeadIsToken(keys: set<nat>, t: nat, x: nat)
    requires Heads(keys, t, x) && t != x
    ensures x !in keys
  {
    assert Within(t, x, x);
  }

  lemma OwnerHead(es: seq<Entry>, x: nat) returns (t: nat)
    requires Sorted(es) && es != []
    ensures t in ToMap(es) && Heads(ToMap(es).Keys, t, x) && Owner(es, x) == ToMap(es)[t].peer
  {
    HeadOfIndex(es, x);
    t := At(es, FirstAbove(es, x) as int - 1).token;
  }

  /** Ring.Owner after a grant. */
  lemma GrantOwner(b: Bounds, us: Peer, es: seq<Entry>, es': seq<Entry>, start: nat, end: nat, to: Peer)
    requires Sorted(es) && Sorted(es') && es != [] && es' != []
    requires Grantable(b, us, ToMap(es), start, end)
    requires Granted(b, us, ToMap(es), ToMap(es'), start, end, to)
    ensures forall x :: b.lo <= x < b.hi ==> Owner(es', x) == if start <= x < end then to else Owner(es, x)
  {
    forall x | b.lo <= x < b.hi ensures Owner(es', x) == if start <= x < end then to else Owner(es, x) {
      var t := OwnerHead(es, x);
      var t' := OwnerHead(es', x);
      GrantHeadPeer(b, us, ToMap(es), ToMap(es'), start, end, to, x, t, t');
    }
  }

  lemma StartedInPlace(b: Bounds, us: Peer, m: RingMap, start: nat, to: Peer, free: nat)
    requires MapValid(b, m) && start in m
    ensures Started(b, us, m, start, to, free) == m[start := m[start].Update(to, free)]
  {
  }

  lemma StartedBySplit(b: Bounds, us: Peer, m: RingMap, start: nat, to: Peer, free: nat, t: nat)
    requires MapValid(b, m) && b.lo <= start < b.hi && t != start && Heads(m.Keys, t, start)
    ensures start !in m
    ensures Started(b, us, m, start, to, free)
         == m[start := Entry(start, to, 0, free)][t := m[t].Update(us, Distance(b, t, start))]
  {
    HeadIsToken(m.Keys, t, start);
    forall u | u in m && Heads(m.Keys, u, start) ensures u == t {
      HeadUnique(m.Keys, u, t, start);
    }
  }

  function Give(e: Entry, end: nat, to: Peer): Entry {
    e.Update(to, Basics.Min(e.free, if e.token < end then end - e.token else 0))
  }

  /** The second stage, entry by entry. */
  lemma GivenAll(es: seq<Entry>, es': seq<Entry>, start: nat, end: nat, to: Peer, first: nat, pos: nat)
    requires Sorted(es) && first < pos <= |es| == |es'| && es[first].token == start
    requires es[pos - 1].token < end && (pos < |es| ==> es[pos].token >= end)
    requires forall i :: 0 <= i < |es| ==> es'[i] == if first < i < pos then Give(es[i], end, to) else es[i]
    ensures Sorted(es') && ToMap(es') == Given(ToMap(es), start, end, to)
  {
    SameTokens(es, es');
    forall t | t in ToMap(es) ensures ToMap(es')[t] == Given(ToMap(es), start, end, to)[t] {
      GivenAt(es, es', start, end, to, first, pos, t);
    }
  }

  lemma GivenAt(es: seq<Entry>, es': seq<Entry>, start: nat, end: nat, to: Peer, first: nat, pos: nat, t: nat)
    requires Sorted(es) && Sorted(es') && first < pos <= |es| == |es'| && es[first].token == start
    requires es[pos - 1].token < end && (pos < |es| ==> es[pos].token >= end)
    requires forall i :: 0 <= i < |es| ==> es'[i] == if first < i < pos then Give(es[i], end, to) else es[i]
    requires t in ToMap(es)
    ensures t in ToMap(es') && ToMap(es')[t] == Given(ToMap(es), start, end, to)[t]
  {
    var i := SamePlace(es, es', t);
    InsideByIndex(es, start, end, first, pos, i);
  }

  lemma InsideByIndex(es: seq<Entry>, start: nat, end: nat, first: nat, pos: nat, i: nat)
    requires Sorted(es) && first < pos <= |es| && es[first].token == start && i < |es|
    requires es[pos - 1].token < end && (pos < |es| ==> es[pos].token >= end)
    ensures start < es[i].token < end <==> first < i < pos
  {
  }

  /** The entries that GrantRangeToHost checks are ours. */
  lemma CheckedEntryIsOurs(b: Bounds, us: Peer, es: seq<Entry>, start: nat, end: nat, pos: int)
    requires Sorted(es) && es != [] && Grantable(b, us, ToMap(es), start, end)
    requires FirstAbove(es, start) - 1 <= pos < |es| && At(es, pos).token < end
    ensures At(es, pos).peer == us
  {
    if pos < FirstAbove(es, start) {
      HeadOfIndex(es, start);
    } else {
      MapAt(es, pos);
      HeadsSelf(ToMap(es).Keys, es[pos].token);
      FirstAboveFound(es, start);
      assert start < es[pos].token;
    }
  }

  /** The list after the first stage. */
  ghost predicate StartPlaced(b: Bounds, us: Peer, es: seq<Entry>, es': seq<Entry>, start: nat, to: Peer, free: nat) {
    && MapValid(b, ToMap(es)) && es != [] && b.lo <= start < b.hi
    && Sorted(es') && InBounds(b, es') && ToMap(es') == Started(b, us, ToMap(es), start, to, free)
  }

  /** First stage when there is a token at start. */
  lemma StartUpdated(b: Bounds, us: Peer, es: seq<Entry>, start: nat, to: Peer, free: nat, i: nat)
    requires Valid(b, es) && MapValid(b, ToMap(es)) && i < |es| && es[i].token == start
    ensures StartPlaced(b, us, es, es[i := es[i].Update(to, free)], start, to, free)
  {
    MapAt(es, i);
    UpdateMap(es, i, es[i].Update(to, free));
    StartedInPlace(b, us, ToMap(es), start, to, free);
  }

  lemma NoTokenAt(es: seq<Entry>, start: nat, k: nat)
    requires Sorted(es) && es != [] && k == FirstAbove(es, start) && At(es, k - 1).token != start
    ensures start !in Tokens(es) && (k > 0 ==> es[k - 1].token < start) && (k < |es| ==> es[k].token > start)
  {
    FirstAboveFound(es, start);
  }

  /** What the first stage means if there is no token at start. */
  lemma StartedBelow(b: Bounds, us: Peer, es: seq<Entry>, start: nat, to: Peer, free: nat, prev: Entry)
    requires Valid(b, es) && MapValid(b, ToMap(es)) && es != [] && b.lo <= start < b.hi
    requires prev == At(es, FirstAbove(es, start) - 1) && prev.token != start
    ensures Started(b, us, ToMap(es), start, to, free)
         == ToMap(es)[start := Entry(start, to, 0, free)][prev.token := prev.Update(us, Distance(b, prev.token, start))]
  {
    HeadOfIndex(es, start);
    StartedBySplit(b, us, ToMap(es), start, to, free, prev.token);
  }

  lemma InsertedMap(b: Bounds, es: seq<Entry>, e: Entry, i: nat, e': Entry)
    requires Sorted(es) && InBounds(b, es) && e.token !in Tokens(es) && b.lo <= e.token < b.hi
    requires i < |Insert(es, e)| && Insert(es, e)[i].token == e'.token
    ensures var es' := Insert(es, e)[i := e'];
            Sorted(es') && InBounds(b, es') && ToMap(es') == ToMap(es)[e.token := e][e'.token := e']
  {
    InsertFacts(es, e);
    InsertMap(es, e);
    UpdateMap(Insert(es, e), i, e');
  }

  /** First stage when there is none: insert one at k and reset the entry before it. */
  lemma StartInserted(b: Bounds, us: Peer, es: seq<Entry>, es1: seq<Entry>, start: nat, to: Peer, free: nat, k: nat,
                      i: nat)
    requires Valid(b, es) && MapValid(b, ToMap(es)) && es != [] && b.lo <= start < b.hi
    requires k == FirstAbove(es, start) && At(es, k - 1).token != start
    requires start !in Tokens(es) && es1 == Insert(es, Entry(start, to, 0, free))
    requires i < |es1| && es1[i] == At(es, k - 1)
    ensures var es' := es1[i := At(es, k - 1).Update(us, Distance(b, At(es, k - 1).token, start))];
            StartPlaced(b, us, es, es', start, to, free)
  {
    var prev, e := At(es, k - 1), Entry(start, to, 0, free);
    StartedBelow(b, us, es, start, to, free, prev);
    InsertedMap(b, es, e, i, prev.Update(us, Distance(b, prev.token, start)));
  }

  /** The first token at or after the end of the grant follows the end token. */
  lemma EndNext(b: Bounds, es: seq<Entry>, end: nat, pos: nat)
    requires Sorted(es) && InBounds(b, es) && 0 < pos <= |es| && b.lo < end <= b.hi
    requires es[pos - 1].token < end && (pos < |es| ==> es[pos].token >= end)
    requires EndToken(b, end) !in Tokens(es)
    ensures IsNext(ToMap(es).Keys, EndToken(b, end), At(es, pos).token)
  {
    var t, n := EndToken(b, end), At(es, pos);
    MapKeys(es);
    assert n in es;
    forall y | y in Tokens(es) ensures !Between(t, n.token, y) {
      var i :| 0 <= i < |es| && es[i].token == y;
    }
  }

  lemma FoundBelow(es: seq<Entry>, x: nat)
    requires Sorted(es) && es != [] && At(es, FirstAbove(es, x) as int - 1).token == x
    ensures FirstAbove(es, x) > 0
  {
    FirstAboveFound(es, x);
    assert es[|es| - 1].token >= es[0].token;
  }

  /** Everything that holds once the three stages have led from es over es1 and es2 to es'. */
  lemma GrantDone(b: Bounds, us: Peer, es: seq<Entry>, es1: seq<Entry>, es2: seq<Entry>, es': seq<Entry>,
                  start: nat, end: nat, to: Peer, n: nat, free: nat, k: nat)
    requires Valid(b, es) && Sorted(es') && es != []
    requires Grantable(b, us, ToMap(es), start, end) && IsNext(ToMap(es).Keys, start, n)
    requires free == StartFree(b, start, end, n)
    requires ToMap(es1) == Started(b, us, ToMap(es), start, to, free)
    requires ToMap(es2) == Given(ToMap(es1), start, end, to)
    requires Ended(b, us, ToMap(es2), ToMap(es'), end, k)
    ensures Valid(b, es') && es' != []
    ensures Granted(b, us, ToMap(es), ToMap(es'), start, end, to)
    ensures forall x :: b.lo <= x < b.hi ==> Owner(es', x) == if start <= x < end then to else Owner(es, x)
  {
    var m, m' := ToMap(es), ToMap(es');
    StagesMakeGrant(b, us, m, m', start, end, to, n, k);
    GrantValid(b, us, m, m', start, end, to);
    ValidIffMapValid(b, es');
    assert start in m';
    assert es' != [];
    GrantOwner(b, us, es, es', start, end, to);
  }

  /** Third stage when there is no token at the end yet. */
  lemma EndInserted(b: Bounds, us: Peer, es: seq<Entry>, end: nat, pos: nat)
    requires Sorted(es) && InBounds(b, es) && 0 < pos <= |es| && b.lo < end <= b.hi
    requires es[pos - 1].token < end && (pos < |es| ==> es[pos].token >= end)
    requires EndToken(b, end) !in Tokens(es)
    ensures var n := At(es, pos).token;
            && Distance(b, EndToken(b, end), n) >= 0
            && var e := Entry(EndToken(b, end), us, 0, Distance(b, EndToken(b, end), n));
               Sorted(Insert(es, e)) && Ended(b, us, ToMap(es), ToMap(Insert(es, e)), end, n)
  {
    EndNext(b, es, end, pos);
    var e := Entry(EndToken(b, end), us, 0, Distance(b, EndToken(b, end), At(es, pos).token));
    InsertMap(es, e);
    MapKeys(es);
  }

  lemma SearchMisses(es: seq<Entry>, x: nat)
    requires Sorted(es)
    ensures var i := FirstAtLeast(es, x);
            x in Tokens(es) <==> i < |es| && es[i].token == x
  {
    var i := FirstAtLeast(es, x);
    FirstAtLeastFound(es, x);
    if i < |es| && es[i].token == x { assert es[i] in es; }
  }
}
