/** The ring's entry list (ipam/ring/entry.go) and the pure parts of the ring
    (ipam/ring/ring.go): distance, validity, ownership of an address, and the
    cyclic order in which all statements about rings are made. */
module RingEntries {

  /** mesh.PeerName; 0 is mesh.UnknownPeerName. */
  type Peer = nat
  const UNKNOWN_PEER: Peer := 0

  /** One entry: `peer` owns the addresses from `token` up to the next token. */
  datatype Entry = Entry(token: nat, peer: Peer, version: nat, free: nat) {

    function Update(p: Peer, f: nat): Entry {
      Entry(token, p, version + 1, f)
    }

    /** entry.Equal: the free count is not compared. */
    predicate Same(other: Entry) {
      token == other.token && peer == other.peer && version == other.version
    }
  }

  /** The ring covers the addresses lo, ..., hi - 1 and wraps from hi to lo. */
  datatype Bounds = Bounds(lo: nat, hi: nat)

  /** entries.entry(i): the index wraps around at either end. */
  function At(es: seq<Entry>, i: int): Entry
    requires -|es| <= i < 2 * |es|
  {
    if i < 0 then es[i + |es|] else if i < |es| then es[i] else es[i - |es|]
  }

  /** Ring.distance: number of addresses from s up to e, going around if e <= s. */
  function Distance(b: Bounds, s: nat, e: nat): int {
    if e > s then e - s else (b.hi - s) + (e - b.lo)
  }

  ghost predicate Sorted(es: seq<Entry>) {
    forall i, j :: 0 <= i < j < |es| ==> es[i].token < es[j].token
  }

  ghost predicate InBounds(b: Bounds, es: seq<Entry>) {
    forall i :: 0 <= i < |es| ==> b.lo <= es[i].token < b.hi
  }

  ghost predicate FreeFits(b: Bounds, es: seq<Entry>) {
    forall i :: 0 <= i < |es| ==> es[i].free <= Distance(b, es[i].token, At(es, i + 1).token)
  }

  /** What checkEntries demands of a list of entries. */
  ghost predicate Valid(b: Bounds, es: seq<Entry>) {
    Sorted(es) && InBounds(b, es) && FreeFits(b, es)
  }

  /** sort.Search for the first token greater than x. */
  function FirstAbove(es: seq<Entry>, x: nat): (k: nat)
    ensures k <= |es|
  {
    if es == [] || es[0].token > x then 0 else 1 + FirstAbove(es[1..], x)
  }

  lemma {:induction false} FirstAboveFound(es: seq<Entry>, x: nat)
    ensures var k := FirstAbove(es, x); (forall i :: 0 <= i < k ==> es[i].token <= x) && (k < |es| ==> es[k].token > x)
  {
    if es != [] && es[0].token <= x {
      FirstAboveFound(es[1..], x);
      forall i | 0 <= i < FirstAbove(es, x) ensures es[i].token <= x {
        assert i > 0 ==> es[i] == es[1..][i - 1];
      }
    }
  }

  /** sort.Search for the first token not less than x. */
  function FirstAtLeast(es: seq<Entry>, x: nat): (k: nat)
    ensures k <= |es|
  {
    if es == [] || es[0].token >= x then 0 else 1 + FirstAtLeast(es[1..], x)
  }

  lemma {:induction false} FirstAtLeastFound(es: seq<Entry>, x: nat)
    ensures var k := FirstAtLeast(es, x);
            (forall i :: 0 <= i < k ==> es[i].token < x) && (k < |es| ==> es[k].token >= x)
  {
    if es != [] && es[0].token < x {
      FirstAtLeastFound(es[1..], x);
      forall i | 0 <= i < FirstAtLeast(es, x) ensures es[i].token < x {
        assert i > 0 ==> es[i] == es[1..][i - 1];
      }
    }
  }

  lemma FirstAboveIs(es: seq<Entry>, x: nat, k: nat)
    requires Sorted(es) && k <= |es|
    requires k > 0 ==> es[k - 1].token <= x
    requires k < |es| ==> es[k].token > x
    ensures FirstAbove(es, x) == k
  {
    if k > 0 { FirstAboveIs(es[1..], x, k - 1); }
  }

  lemma FirstAtLeastIs(es: seq<Entry>, x: nat, k: nat)
    requires Sorted(es) && k <= |es|
    requires k > 0 ==> es[k - 1].token < x
    requires k < |es| ==> es[k].token >= x
    ensures FirstAtLeast(es, x) == k
  {
    if k > 0 { FirstAtLeastIs(es[1..], x, k - 1); }
  }

  /** entries.insert; inserting a token that is already there panics in the source. */
  function Insert(es: seq<Entry>, e: Entry): seq<Entry>
    requires e.token !in Tokens(es)
  {
    var k := FirstAtLeast(es, e.token);
    es[..k] + [e] + es[k..]
  }

  lemma InsertAt(es: seq<Entry>, e: Entry, k: nat)
    requires Sorted(es) && e.token !in Tokens(es) && k <= |es|
    requires k > 0 ==> es[k - 1].token < e.token
    requires k < |es| ==> es[k].token > e.token
    ensures Insert(es, e) == es[..k] + [e] + es[k..] && Sorted(Insert(es, e))
  {
    assert FirstAtLeast(es, e.token) == k by { FirstAtLeastIs(es, e.token, k); }
    SortedAround(es, e, k, es[..k] + [e] + es[k..]);
  }

  lemma SortedAround(es: seq<Entry>, e: Entry, k: nat, r: seq<Entry>)
    requires Sorted(es) && k <= |es| && |r| == |es| + 1
    requires k > 0 ==> es[k - 1].token < e.token
    requires k < |es| ==> es[k].token > e.token
    requires forall i :: 0 <= i < |r| ==> r[i] == if i < k then es[i] else if i == k then e else es[i - 1]
    ensures Sorted(r)
  {
    forall i, j | 0 <= i < j < |r| ensures r[i].token < r[j].token {
      var a := if i < k then es[i] else if i == k then e else es[i - 1];
      var c := if j < k then es[j] else if j == k then e else es[j - 1];
      assert r[i] == a && r[j] == c;
      assert i < k ==> es[i] == es[k - 1] || es[i].token < es[k - 1].token;
      assert j > k ==> es[k] == es[j - 1] || es[k].token < es[j - 1].token;
    }
  }

  lemma InsertPlace(es: seq<Entry>, e: Entry) returns (k: nat)
    requires Sorted(es) && e.token !in Tokens(es)
    ensures k <= |es| && (k > 0 ==> es[k - 1].token < e.token) && (k < |es| ==> es[k].token > e.token)
  {
    k := FirstAtLeast(es, e.token);
    FirstAtLeastFound(es, e.token);
    assert k < |es| ==> es[k] in es;
  }

  lemma InsertFacts(es: seq<Entry>, e: Entry)
    requires Sorted(es) && e.token !in Tokens(es)
    ensures Sorted(Insert(es, e)) && Tokens(Insert(es, e)) == Tokens(es) + {e.token}
    ensures forall x :: x in Insert(es, e) <==> x == e || x in es
  {
    var r := Insert(es, e);
    var k := InsertPlace(es, e);
    InsertAt(es, e, k);
    assert es == es[..k] + es[k..];
    TokensOfMembers(es, r, e);
  }

  /** The tokens of a list. */
  function Tokens(es: seq<Entry>): set<nat> {
    set e | e in es :: e.token
  }

  lemma TokensOfMembers(es: seq<Entry>, r: seq<Entry>, e: Entry)
    requires forall x :: x in r <==> x == e || x in es
    ensures Tokens(r) == Tokens(es) + {e.token}
  {
    assert e in r;
  }

  lemma HeadAndTail(es: seq<Entry>)
    requires Sorted(es) && es != []
    ensures Sorted(es[1..])
    ensures forall e :: e in es <==> e == es[0] || e in es[1..]
    ensures Tokens(es) == {es[0].token} + Tokens(es[1..])
    ensures forall e :: e in es[1..] ==> es[0].token < e.token
  {
    assert forall e :: e in es <==> e == es[0] || e in es[1..];
    TokensOfMembers(es[1..], es, es[0]);
  }

  /** A ring seen as a map from token to entry. */
  type RingMap = map<nat, Entry>

  /** A list as a map from token to entry. */
  ghost function ToMap(es: seq<Entry>): RingMap {
    if es == [] then map[] else ToMap(es[1..])[es[0].token := es[0]]
  }

  lemma {:induction false} MapKeys(es: seq<Entry>)
    requires Sorted(es)
    ensures ToMap(es).Keys == Tokens(es)
  {
    if es != [] {
      MapKeys(es[1..]);
      HeadAndTail(es);
    }
  }

  lemma {:induction false} MapAt(es: seq<Entry>, i: nat)
    requires Sorted(es) && i < |es|
    ensures es[i].token in ToMap(es) && ToMap(es)[es[i].token] == es[i]
  {
    if i > 0 {
      MapAt(es[1..], i - 1);
    }
  }

  lemma {:induction false} MapIndex(es: seq<Entry>, t: nat) returns (i: nat)
    requires Sorted(es) && t in ToMap(es)
    ensures i < |es| && es[i] == ToMap(es)[t] && es[i].token == t
  {
    if t == es[0].token {
      i := 0;
    } else {
      i := MapIndex(es[1..], t);
      i := i + 1;
    }
  }

  lemma MapFacts(es: seq<Entry>)
    requires Sorted(es)
    ensures ToMap(es).Keys == Tokens(es)
    ensures forall e :: e in es ==> e.token in ToMap(es) && ToMap(es)[e.token] == e
    ensures forall t :: t in ToMap(es) ==> ToMap(es)[t] in es && ToMap(es)[t].token == t
  {
    MapKeys(es);
    forall e | e in es ensures e.token in ToMap(es) && ToMap(es)[e.token] == e {
      var i :| 0 <= i < |es| && es[i] == e;
      MapAt(es, i);
    }
    forall t | t in ToMap(es) ensures ToMap(es)[t] in es && ToMap(es)[t].token == t {
      var i := MapIndex(es, t);
    }
  }

  /** Ring.Owner for a token in the ring's range. */
  function Owner(es: seq<Entry>, x: nat): Peer {
    if es == [] then UNKNOWN_PEER else At(es, FirstAbove(es, x) - 1).peer
  }

  // ---------------------------------------------------------------- cyclic order

  /** y lies strictly between t and n, going up from t and around. */
  predicate Between(t: nat, n: nat, y: nat) {
    if t < n then t < y < n else t < y || y < n
  }

  /** y lies in the half-open cyclic stretch (t, x]. */
  predicate Within(t: nat, x: nat, y: nat) {
    if t <= x then t < y <= x else t < y || y <= x
  }

  /** n is the first token after t. */
  ghost predicate IsNext(keys: set<nat>, t: nat, n: nat) {
    n in keys && forall y :: y in keys ==> !Between(t, n, y)
  }

  /** t is the last token at or before x: the stretch starting at t holds x. */
  ghost predicate Heads(keys: set<nat>, t: nat, x: nat) {
    t in keys && forall y :: y in keys ==> !Within(t, x, y)
  }

  lemma NextUnique(keys: set<nat>, t: nat, n: nat, n': nat)
    requires t in keys && IsNext(keys, t, n) && IsNext(keys, t, n')
    ensures n == n'
  {
    assert !Between(t, n, n') && !Between(t, n', n);
  }

  lemma HeadUnique(keys: set<nat>, t: nat, t': nat, x: nat)
    requires Heads(keys, t, x) && Heads(keys, t', x)
    ensures t == t'
  {
    assert !Within(t, x, t') && !Within(t', x, t);
  }

  /** The stretch of t is t itself and what lies before the next token. */
  lemma HeadsIffBetween(keys: set<nat>, t: nat, n: nat, x: nat)
    requires t in keys && IsNext(keys, t, n)
    ensures Heads(keys, t, x) <==> x == t || Between(t, n, x)
  {
    if x == t || Between(t, n, x) {
      forall y | y in keys ensures !Within(t, x, y) {
        assert !Between(t, n, y) && !Between(t, n, n);
      }
    } else {
      assert Within(t, x, n);
    }
  }

  lemma NextOfIndex(es: seq<Entry>, i: nat)
    requires Sorted(es) && i < |es|
    ensures IsNext(ToMap(es).Keys, es[i].token, At(es, i + 1).token)
  {
    var n := At(es, i + 1);
    MapKeys(es);
    assert n in es;
    forall y | y in Tokens(es) ensures !Between(es[i].token, n.token, y) {
      var k :| 0 <= k < |es| && es[k].token == y;
    }
  }

  lemma HeadOfIndex(es: seq<Entry>, x: nat)
    requires Sorted(es) && es != []
    ensures var e := At(es, FirstAbove(es, x) - 1);
            Heads(ToMap(es).Keys, e.token, x) && ToMap(es)[e.token] == e && Owner(es, x) == e.peer
  {
    var k := FirstAbove(es, x);
    FirstAboveFound(es, x);
    var i := if k == 0 then |es| - 1 else k - 1;
    MapKeys(es);
    MapAt(es, i);
    forall y | y in Tokens(es) ensures !Within(es[i].token, x, y) {
      var j :| 0 <= j < |es| && es[j].token == y;
    }
  }

  /** Ring.Owner answers for the entry at whose stretch the address lies. */
  lemma OwnerIsHead(es: seq<Entry>, t: nat, x: nat)
    requires Sorted(es) && Heads(ToMap(es).Keys, t, x)
    ensures Owner(es, x) == ToMap(es)[t].peer
  {
    var i := MapIndex(es, t);
    HeadOfIndex(es, x);
    HeadUnique(ToMap(es).Keys, t, At(es, FirstAbove(es, x) as int - 1).token, x);
  }

  lemma HeadIsMember(es: seq<Entry>)
    requires es != []
    ensures es[0] in es
  {
  }

  lemma {:induction false} NextExists(keys: set<nat>, t: nat)
    requires t in keys
    ensures exists n :: IsNext(keys, t, n)
  {
    if keys == {t} {
      assert IsNext(keys, t, t);
    } else {
      var x :| x in keys && x != t;
      var rest := keys - {x};
      NextExists(rest, t);
      var n :| IsNext(rest, t, n);
      var n' := if Between(t, n, x) then x else n;
      forall y | y in keys ensures !Between(t, n', y) {
        assert y in rest || y == x;
      }
      assert IsNext(keys, t, n');
    }
  }

  lemma {:induction false} HeadExists(keys: set<nat>, x: nat)
    requires keys != {}
    ensures exists t :: Heads(keys, t, x)
  {
    var k :| k in keys;
    if keys == {k} {
      assert Heads(keys, k, x);
    } else {
      var rest := keys - {k};
      HeadExists(rest, x);
      var t :| Heads(rest, t, x);
      var t' := if Within(t, x, k) then k else t;
      forall y | y in keys ensures !Within(t', x, y) {
        assert y in rest || y == k;
      }
      assert Heads(keys, t', x);
    }
  }

  // ---------------------------------------------------------------- rings as maps

  /** Valid, on the map view. */
  ghost predicate MapValid(b: Bounds, m: RingMap) {
    && (forall t :: t in m ==> b.lo <= t < b.hi && m[t].token == t)
    && forall t, n :: t in m && IsNext(m.Keys, t, n) ==> m[t].free <= Distance(b, t, n)
  }

  lemma ValidIffMapValid(b: Bounds, es: seq<Entry>)
    requires Sorted(es)
    ensures Valid(b, es) <==> MapValid(b, ToMap(es))
  {
    var m := ToMap(es);
    if Valid(b, es) {
      forall t | t in m
        ensures b.lo <= t < b.hi && m[t].token == t
        ensures forall n :: IsNext(m.Keys, t, n) ==> m[t].free <= Distance(b, t, n)
      {
        var i := MapIndex(es, t);
        NextOfIndex(es, i);
        forall n | IsNext(m.Keys, t, n) ensures m[t].free <= Distance(b, t, n) {
          NextUnique(m.Keys, t, n, At(es, i + 1).token);
        }
      }
    }
    if MapValid(b, m) {
      forall i | 0 <= i < |es|
        ensures b.lo <= es[i].token < b.hi && es[i].free <= Distance(b, es[i].token, At(es, i + 1).token)
      {
        NextOfIndex(es, i);
        MapAt(es, i);
      }
    }
  }

  /** A change that peer `us` makes to its own part of a ring: tokens stay, changed
      entries are its own and get a higher version, and a new token falls into a
      stretch of its own whose entry changes too. */
  ghost predicate LocalChange(us: Peer, m: RingMap, m': RingMap) {
    && m.Keys <= m'.Keys
    && (forall t :: t in m ==> m'[t] == m[t] || (m[t].peer == us && m'[t].version > m[t].version))
    && (forall x, t :: x in m' && x !in m && Heads(m.Keys, t, x) ==> m[t].peer == us && m'[t] != m[t])
  }

  /** Two sorted lists with the same entries are the same list. */
  lemma {:induction false} SortedUnique(a: seq<Entry>, b: seq<Entry>)
    requires Sorted(a) && Sorted(b)
    requires forall e :: e in a <==> e in b
    ensures a == b
  {
    if a == [] {
      if b != [] { HeadIsMember(b); }
    } else {
      assert a[0] in b;
      assert b[0] in a;
      assert a[0] == b[0];
      forall e ensures e in a[1..] <==> e in b[1..] {
        assert e in a <==> e == a[0] || e in a[1..];
        assert e in b <==> e == b[0] || e in b[1..];
        assert a[0] !in a[1..] && b[0] !in b[1..];
      }
      SortedUnique(a[1..], b[1..]);
    }
  }
}
