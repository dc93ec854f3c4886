/** What granting a range does to a ring, stated token by token on the map view,
    and what follows for validity and for the ownership of every address. */
module RingGrant {
  import Basics
  import opened RingEntries

  /** No token equals the end of the ring; a grant up to there ends at the ring's start. */
  function EndToken(b: Bounds, end: nat): nat {
    if end == b.hi then b.lo else end
  }

  /** The whole of [start, end) lies in stretches of `us`. */
  ghost predicate Grantable(b: Bounds, us: Peer, m: RingMap, start: nat, end: nat) {
    && MapValid(b, m) && m != map[]
    && b.lo <= start < end <= b.hi
    && forall x, t :: start <= x < end && Heads(m.Keys, t, x) ==> m[t].peer == us
  }

  /** The stretch at t gains the token start. */
  ghost predicate IsSplit(m: RingMap, start: nat, t: nat) {
    start !in m && Heads(m.Keys, t, start)
  }

  /** The entry at a token t strictly inside the grant.  If the ring wraps, t may itself
      head the start of the grant; it is then changed twice. */
  ghost function GivenEntry(b: Bounds, us: Peer, m: RingMap, start: nat, end: nat, to: Peer, t: nat): Entry
    requires t in m && start < t < end && b.lo <= start && end <= b.hi
  {
    var e := if IsSplit(m, start, t) then m[t].Update(us, Distance(b, t, start)) else m[t];
    e.Update(to, Basics.Min(e.free, end - t))
  }

  /** e is what the new ring, with tokens keys, must hold at e.token. */
  ghost predicate GrantedEntry(b: Bounds, us: Peer, m: RingMap, keys: set<nat>, start: nat, end: nat, to: Peer,
                               e: Entry)
    requires b.lo <= start && end <= b.hi
  {
    var t := e.token;
    if t == start then
      e.peer == to && FillsGap(b, keys, e) && e.version == if t in m then m[t].version + 1 else 0
    else if start < t < end then
      t in m && e == GivenEntry(b, us, m, start, end, to, t)
    else if t !in m then
      e.peer == us && FillsGap(b, keys, e) && e.version == 0
    else if IsSplit(m, start, t) then
      e.peer == us && FillsGap(b, keys, e) && e.version == m[t].version + 1
    else
      e == m[t]
  }

  /** The free count is the whole distance to the next token. */
  ghost predicate FillsGap(b: Bounds, keys: set<nat>, e: Entry) {
    forall n :: IsNext(keys, e.token, n) ==> e.free == Distance(b, e.token, n)
  }

  /** m' is m after granting [start, end) to peer `to`. */
  ghost predicate Granted(b: Bounds, us: Peer, m: RingMap, m': RingMap, start: nat, end: nat, to: Peer) {
    && b.lo <= start && end <= b.hi
    && m'.Keys == m.Keys + {start, EndToken(b, end)}
    && forall t :: t in m' ==> m'[t].token == t && GrantedEntry(b, us, m, m'.Keys, start, end, to, m'[t])
  }

  /** A token inside the grant keeps its free count as far as the grant reaches, and no more. */
  lemma GrantedFree(b: Bounds, us: Peer, m: RingMap, m': RingMap, start: nat, end: nat, to: Peer, t: nat)
    requires Granted(b, us, m, m', start, end, to) && t in m && start < t < end && !IsSplit(m, start, t)
    ensures m'[t].free <= m[t].free && m'[t].free <= end - t && (m'[t].free == m[t].free || m'[t].free == end - t)
  {
    assert GrantedEntry(b, us, m, m'.Keys, start, end, to, m'[t]);
  }

  /** A token whose stretch gains no new token keeps its successor. */
  lemma NextKept(keys: set<nat>, keys': set<nat>, t: nat, n: nat)
    requires t in keys && IsNext(keys, t, n) && keys <= keys'
    requires forall x :: x in keys' - keys ==> !Heads(keys, t, x)
    ensures IsNext(keys', t, n)
  {
    forall y | y in keys' ensures !Between(t, n, y) {
      HeadsIffBetween(keys, t, n, y);
    }
  }

  lemma HeadsSelf(keys: set<nat>, t: nat)
    requires t in keys
    ensures Heads(keys, t, t)
  {
  }

  /** A token that heads the end of a grant is inside the grant or heads its start. */
  lemma EndHead(b: Bounds, keys: set<nat>, start: nat, end: nat, t: nat)
    requires forall y :: y in keys ==> b.lo <= y < b.hi
    requires b.lo <= start < end <= b.hi
    requires EndToken(b, end) !in keys && Heads(keys, t, EndToken(b, end))
    ensures start <= t < end || (start !in keys && Heads(keys, t, start))
  {
    if !(start <= t < end) {
      var x := EndToken(b, end);
      forall y | y in keys ensures !Within(t, start, y) {
        assert !Within(t, x, y);
      }
      assert Within(t, x, start);
    }
  }

  /** Every token a grant adds lies in a stretch of ours whose entry the grant changes. */
  lemma GrantHeads(b: Bounds, us: Peer, m: RingMap, start: nat, end: nat, t: nat, x: nat)
    requires Grantable(b, us, m, start, end)
    requires x in {start, EndToken(b, end)} && x !in m
    requires Heads(m.Keys, t, x)
    ensures start <= t < end || (start !in m && Heads(m.Keys, t, start))
    ensures m[t].peer == us
  {
    if x != start {
      EndHead(b, m.Keys, start, end, t);
    }
    HeadsSelf(m.Keys, t);
  }

  /** x lies in e's stretch of the larger ring, so both lie in one stretch of the smaller. */
  lemma HeadOfHead(keys: set<nat>, keys': set<nat>, t: nat, e: nat, x: nat)
    requires keys <= keys' && Heads(keys', e, x) && Heads(keys, t, x)
    ensures Heads(keys, t, e)
  {
    forall y | y in keys ensures !Within(t, e, y) {
      assert !Within(e, x, y) && !Within(t, x, y) && !Within(e, x, t);
    }
  }

  lemma GrantChangesOwn(b: Bounds, us: Peer, m: RingMap, m': RingMap, start: nat, end: nat, to: Peer, t: nat)
    requires Grantable(b, us, m, start, end)
    requires Granted(b, us, m, m', start, end, to)
    requires t in m
    ensures m'[t] == m[t] || (m[t].peer == us && m'[t].version > m[t].version)
    ensures start <= t < end || IsSplit(m, start, t) ==> m'[t] != m[t]
  {
    HeadsSelf(m.Keys, t);
    assert m'[t].token == t && GrantedEntry(b, us, m, m'.Keys, start, end, to, m'[t]);
  }

  lemma GrantIsLocal(b: Bounds, us: Peer, m: RingMap, m': RingMap, start: nat, end: nat, to: Peer)
    requires Grantable(b, us, m, start, end)
    requires Granted(b, us, m, m', start, end, to)
    ensures LocalChange(us, m, m')
  {
    forall t | t in m ensures m'[t] == m[t] || (m[t].peer == us && m'[t].version > m[t].version) {
      GrantChangesOwn(b, us, m, m', start, end, to, t);
    }
    forall x, t | x in m' && x !in m && Heads(m.Keys, t, x) ensures m[t].peer == us && m'[t] != m[t] {
      GrantHeads(b, us, m, start, end, t, x);
      GrantChangesOwn(b, us, m, m', start, end, to, t);
    }
  }

  /** A grant keeps the ring valid. */
  lemma GrantValid(b: Bounds, us: Peer, m: RingMap, m': RingMap, start: nat, end: nat, to: Peer)
    requires Grantable(b, us, m, start, end)
    requires Granted(b, us, m, m', start, end, to)
    ensures MapValid(b, m')
  {
    forall t, n | t in m' && IsNext(m'.Keys, t, n) ensures m'[t].free <= Distance(b, t, n) {
      GrantFits(b, us, m, m', start, end, to, t, n);
    }
  }

  lemma GrantFits(b: Bounds, us: Peer, m: RingMap, m': RingMap, start: nat, end: nat, to: Peer, t: nat, n: nat)
    requires Grantable(b, us, m, start, end)
    requires Granted(b, us, m, m', start, end, to)
    requires t in m' && IsNext(m'.Keys, t, n)
    ensures m'[t].free <= Distance(b, t, n)
  {
    assert m'[t].token == t && GrantedEntry(b, us, m, m'.Keys, start, end, to, m'[t]);
    if t in m && t != start {
      NextExists(m.Keys, t);
      var n0 :| IsNext(m.Keys, t, n0);
      assert m[t].free <= Distance(b, t, n0);
      if start < t < end {
        assert Heads(m.Keys, t, start) ==> start !in m by { assert Within(t, start, start); }
        StepOver(b, m.Keys, m'.Keys, start, end, t, n0, n);
      } else if !IsSplit(m, start, t) {
        GrantKeepsNext(b, us, m, m', start, end, to, t, n0);
        NextUnique(m'.Keys, t, n0, n);
      }
    }
  }

  lemma GrantKeepsNext(b: Bounds, us: Peer, m: RingMap, m': RingMap, start: nat, end: nat, to: Peer, t: nat, n: nat)
    requires Grantable(b, us, m, start, end)
    requires Granted(b, us, m, m', start, end, to)
    requires t in m && !(start <= t < end) && (start in m || !Heads(m.Keys, t, start))
    requires IsNext(m.Keys, t, n)
    ensures IsNext(m'.Keys, t, n)
  {
    forall x | x in m'.Keys - m.Keys ensures !Heads(m.Keys, t, x) {
      if Heads(m.Keys, t, x) {
        GrantHeads(b, us, m, start, end, t, x);
      }
    }
    NextKept(m.Keys, m'.Keys, t, n);
  }

  /** From a token inside the grant the next token is the old one or the grant's end. */
  lemma StepOver(b: Bounds, keys: set<nat>, keys': set<nat>, start: nat, end: nat, t: nat, n: nat, n': nat)
    requires forall y :: y in keys' ==> b.lo <= y < b.hi
    requires b.lo <= start < t < end <= b.hi && t in keys
    requires Heads(keys, t, start) ==> start !in keys
    requires keys' == keys + {start, EndToken(b, end)}
    requires IsNext(keys, t, n) && IsNext(keys', t, n')
    ensures Distance(b, t, n') >= Distance(b, t, n) || Distance(b, t, n') >= end - t
    ensures Heads(keys, t, start) ==> Distance(b, t, n') >= end - t
  {
    if Heads(keys, t, start) { HeadsIffBetween(keys, t, n, start); }
    assert !Between(t, n, n') || n' !in keys;
    assert start in keys' && t in keys';
  }

  /** A grant changes the owner of exactly the addresses granted. */
  lemma GrantHeadPeer(b: Bounds, us: Peer, m: RingMap, m': RingMap, start: nat, end: nat, to: Peer, x: nat, t: nat,
                      t': nat)
    requires Grantable(b, us, m, start, end)
    requires Granted(b, us, m, m', start, end, to)
    requires b.lo <= x < b.hi
    requires Heads(m.Keys, t, x) && Heads(m'.Keys, t', x)
    ensures m'[t'].peer == if start <= x < end then to else m[t].peer
  {
    assert !Within(t', x, start) && !Within(t', x, EndToken(b, end));
    if !(start <= x < end) {
      HeadOfHead(m.Keys, m'.Keys, t, t', x);
      if t' in m {
        HeadUnique(m.Keys, t, t', x);
      } else {
        GrantHeads(b, us, m, start, end, t, t');
      }
    }
  }
}
