/** The replicated table of host names (nameserver/entry.go, nameserver/nameserver.go).  Every
    host name is taken to have one spelling, so that the name as supplied and the lower-cased
    one determine each other. */
module Nameserver {

  type Peer = nat

  // ---------------------------------------------------------------- order

  /** Lexicographic order of strings. */
  predicate Before(s: string, t: string) {
    t != [] && (s == [] || s[0] < t[0] || (s[0] == t[0] && Before(s[1..], t[1..])))
  }

  lemma {:induction false} BeforeTotal(s: string, t: string)
    ensures s == t || Before(s, t) || Before(t, s)
    ensures !(Before(s, t) && Before(t, s)) && !Before(s, s)
  {
    if s != [] && t != [] {
      BeforeTotal(s[1..], t[1..]);
      BeforeTotal(s[1..], s[1..]);
      if s[0] == t[0] && s[1..] == t[1..] { assert s == [s[0]] + s[1..] && t == [t[0]] + t[1..]; }
    } else if s != [] {
      BeforeTotal(s[1..], s[1..]);
    }
  }

  lemma {:induction false} BeforeTransitive(s: string, t: string, u: string)
    requires Before(s, t) && Before(t, u)
    ensures Before(s, u)
  {
    if s != [] && s[0] == t[0] == u[0] { BeforeTransitive(s[1..], t[1..], u[1..]); }
  }

  datatype Key = Key(hostname: string, origin: Peer, containerID: string, addr: nat)

  /** insensitiveLess */
  predicate Less(a: Key, b: Key) {
    if a.hostname != b.hostname then Before(a.hostname, b.hostname)
    else if a.origin != b.origin then a.origin < b.origin
    else if a.containerID != b.containerID then Before(a.containerID, b.containerID)
    else a.addr < b.addr
  }

  lemma LessTotal(a: Key, b: Key)
    ensures a == b || Less(a, b) || Less(b, a)
    ensures !(Less(a, b) && Less(b, a)) && !Less(a, a)
  {
    BeforeTotal(a.hostname, b.hostname);
    BeforeTotal(a.containerID, b.containerID);
  }

  lemma LessTransitive(a: Key, b: Key, c: Key)
    requires Less(a, b) && Less(b, c)
    ensures Less(a, c)
  {
    BeforeTotal(a.hostname, b.hostname);
    BeforeTotal(a.containerID, b.containerID);
    if a.hostname != b.hostname && b.hostname != c.hostname { BeforeTransitive(a.hostname, b.hostname, c.hostname); }
    if a.containerID != b.containerID && b.containerID != c.containerID && Before(a.containerID, b.containerID) &&
        Before(b.containerID, c.containerID) {
      BeforeTransitive(a.containerID, b.containerID, c.containerID);
    }
  }

  // ---------------------------------------------------------------- entries

  datatype Entry = Entry(key: Key, version: int, tombstone: int)

  /** Entry.merge changes the first entry to the second. */
  predicate Newer(e: Entry, than: Entry) {
    e.version > than.version || (e.version == than.version && e.tombstone > than.tombstone)
  }

  ghost predicate Sorted(es: seq<Entry>) {
    forall i, j :: 0 <= i < j < |es| ==> Less(es[i].key, es[j].key)
  }

  type Table = map<Key, Entry>

  ghost function ToMap(es: seq<Entry>): Table {
    if es == [] then map[] else ToMap(es[..|es| - 1])[es[|es| - 1].key := es[|es| - 1]]
  }

  ghost predicate Keyed(m: Table) {
    forall k :: k in m ==> m[k].key == k
  }

  lemma {:induction false} MapAt(es: seq<Entry>, i: nat)
    requires Sorted(es) && i < |es|
    ensures es[i].key in ToMap(es) && ToMap(es)[es[i].key] == es[i]
  {
    var n := |es| - 1;
    if i < n {
      MapAt(es[..n], i);
      LessTotal(es[i].key, es[n].key);
    }
  }

  lemma {:induction false} MapIndex(es: seq<Entry>, k: Key) returns (i: nat)
    requires k in ToMap(es)
    ensures i < |es| && es[i] == ToMap(es)[k] && es[i].key == k
  {
    var n := |es| - 1;
    if k == es[n].key {
      i := n;
    } else {
      i := MapIndex(es[..n], k);
    }
  }

  lemma MapKeyed(es: seq<Entry>)
    ensures Keyed(ToMap(es))
  {
    forall k | k in ToMap(es) ensures ToMap(es)[k].key == k {
      var i := MapIndex(es, k);
    }
  }

  /** check: the entries are in order and none occurs twice. */
  method Check(es: seq<Entry>) returns (ok: bool)
    ensures ok <==> Sorted(es)
  {
    var i := 1;
    while i < |es|
      invariant 1 <= i && (|es| > 0 ==> i <= |es| && SortedUpTo(es, i))
    {
      LessTotal(es[i - 1].key, es[i].key);
      if Less(es[i].key, es[i - 1].key) || es[i].key == es[i - 1].key {
        return false;
      }
      SortedMore(es, i);
      i := i + 1;
    }
    return true;
  }

  ghost predicate SortedUpTo(es: seq<Entry>, n: nat)
    requires n <= |es|
  {
    forall i, j :: 0 <= i < j < n ==> Less(es[i].key, es[j].key)
  }

  lemma SortedMore(es: seq<Entry>, n: nat)
    requires 0 < n < |es| && SortedUpTo(es, n) && Less(es[n - 1].key, es[n].key)
    ensures SortedUpTo(es, n + 1)
  {
    forall i, j | 0 <= i < j < n + 1 ensures Less(es[i].key, es[j].key) {
      if j == n && i < n - 1 { LessTransitive(es[i].key, es[n - 1].key, es[n].key); }
    }
  }

  // ---------------------------------------------------------------- merging as a join

  /** Of two entries with the same key, the one with the higher version, or the later
      tombstone. */
  function Later(a: Entry, b: Entry): Entry {
    if Newer(b, a) then b else a
  }

  ghost function Join(m: Table, o: Table): Table {
    map k | k in m.Keys + o.Keys :: if k !in o then m[k] else if k !in m then o[k] else Later(m[k], o[k])
  }

  lemma LaterLaws(a: Entry, b: Entry, c: Entry)
    requires a.key == b.key == c.key
    ensures Later(a, b) == Later(b, a) && Later(a, a) == a && Later(Later(a, b), c) == Later(a, Later(b, c))
  {
  }

  /** Merging is commutative, idempotent and associative. */
  lemma JoinCommutes(m: Table, o: Table)
    requires Keyed(m) && Keyed(o)
    ensures Join(m, o) == Join(o, m)
  {
    forall k | k in m && k in o ensures Join(m, o)[k] == Join(o, m)[k] {
      LaterLaws(m[k], o[k], o[k]);
    }
  }

  lemma JoinIdempotent(m: Table)
    ensures Join(m, m) == m
  {
  }

  lemma JoinAssociates(m: Table, o: Table, p: Table)
    requires Keyed(m) && Keyed(o) && Keyed(p)
    ensures Join(Join(m, o), p) == Join(m, Join(o, p))
  {
    var left, right := Join(Join(m, o), p), Join(m, Join(o, p));
    assert left.Keys == right.Keys;
    forall k | k in left ensures left[k] == right[k] {
      AssociatesAt(m, o, p, k);
    }
  }

  lemma AssociatesAt(m: Table, o: Table, p: Table, k: Key)
    requires Keyed(m) && Keyed(o) && Keyed(p) && k in m.Keys + o.Keys + p.Keys
    ensures k in Join(Join(m, o), p) && k in Join(m, Join(o, p)) && Join(Join(m, o), p)[k] == Join(m, Join(o, p))[k]
  {
    if k in m && k in o && k in p { LaterLaws(m[k], o[k], p[k]); }
  }

  /** A sorted list is determined by what it contains. */
  lemma {:induction false} SortedUnique(a: seq<Entry>, b: seq<Entry>)
    requires Sorted(a) && Sorted(b) && ToMap(a) == ToMap(b)
    ensures a == b
  {
    if a == [] || b == [] {
      if a != [] { MapAt(a, 0); }
      if b != [] { MapAt(b, 0); }
    } else {
      var n, m := |a| - 1, |b| - 1;
      MapAt(a, n);
      MapAt(b, m);
      var i := MapIndex(b, a[n].key);
      var j := MapIndex(a, b[m].key);
      LastIsGreatest(a, b, i, j);
      assert ToMap(a[..n]) == ToMap(a) - {a[n].key} by { WithoutLast(a); }
      assert ToMap(b[..m]) == ToMap(b) - {b[m].key} by { WithoutLast(b); }
      SortedUnique(a[..n], b[..m]);
      assert a == a[..n] + [a[n]] && b == b[..m] + [b[m]];
    }
  }

  lemma LastIsGreatest(a: seq<Entry>, b: seq<Entry>, i: nat, j: nat)
    requires Sorted(a) && Sorted(b) && j < |a| && i < |b|
    requires a[|a| - 1] == b[i] && b[|b| - 1] == a[j]
    ensures a[|a| - 1] == b[|b| - 1]
  {
    LessTotal(a[|a| - 1].key, b[|b| - 1].key);
  }

  lemma WithoutLast(a: seq<Entry>)
    requires Sorted(a) && a != []
    ensures ToMap(a[..|a| - 1]) == ToMap(a) - {a[|a| - 1].key}
  {
    LastIsNew(a);
  }

  lemma LastIsNew(a: seq<Entry>)
    requires Sorted(a) && a != []
    ensures a[|a| - 1].key !in ToMap(a[..|a| - 1])
  {
    var n := |a| - 1;
    if a[n].key in ToMap(a[..n]) {
      var i := MapIndex(a[..n], a[n].key);
      LessTotal(a[i].key, a[n].key);
    }
  }

  // ---------------------------------------------------------------- changing a list

  lemma MapIs(es: seq<Entry>, m: Table)
    requires Sorted(es) && Keyed(m)
    requires forall e :: e in es ==> e.key in m && m[e.key] == e
    requires forall k :: k in m ==> m[k] in es
    ensures ToMap(es) == m
  {
    forall k | k in m ensures k in ToMap(es) && ToMap(es)[k] == m[k] {
      var i :| 0 <= i < |es| && es[i] == m[k];
      MapAt(es, i);
    }
    forall k | k in ToMap(es) ensures k in m {
      var i := MapIndex(es, k);
      assert es[i] in es;
    }
  }

  lemma MapMembers(es: seq<Entry>)
    requires Sorted(es)
    ensures Keyed(ToMap(es))
    ensures forall e :: e in es ==> e.key in ToMap(es) && ToMap(es)[e.key] == e
    ensures forall k :: k in ToMap(es) ==> ToMap(es)[k] in es
  {
    MapKeyed(es);
    forall e | e in es ensures e.key in ToMap(es) && ToMap(es)[e.key] == e {
      var i :| 0 <= i < |es| && es[i] == e;
      MapAt(es, i);
    }
    forall k | k in ToMap(es) ensures ToMap(es)[k] in es {
      var i := MapIndex(es, k);
    }
  }

  lemma UpdatedMap(es: seq<Entry>, i: nat, e: Entry)
    requires Sorted(es) && i < |es| && e.key == es[i].key
    ensures Sorted(es[i := e]) && ToMap(es[i := e]) == ToMap(es)[e.key := e]
  {
    var es' := es[i := e];
    MapMembers(es);
    assert forall x :: x in es' ==> x == e || x in es;
    forall x | x in es' ensures ToMap(es)[e.key := e][x.key] == x {
      var j :| 0 <= j < |es'| && es'[j] == x;
      if j != i { LessTotal(es[i].key, es[j].key); }
    }
    var m' := ToMap(es)[e.key := e];
    forall k | k in m' ensures m'[k] in es' {
      if k == e.key {
        assert es'[i] == e;
      } else {
        var j := MapIndex(es, k);
        assert es'[j] == es[j];
      }
    }
    MapIs(es', m');
  }

  lemma InsertedSorted(es: seq<Entry>, i: nat, e: Entry)
    requires Sorted(es) && i <= |es|
    requires i > 0 ==> Less(es[i - 1].key, e.key)
    requires i < |es| ==> Less(e.key, es[i].key)
    ensures Sorted(es[..i] + [e] + es[i..])
  {
    var es' := es[..i] + [e] + es[i..];
    forall a, b | 0 <= a < b < |es'| ensures Less(es'[a].key, es'[b].key) {
      var x := if a < i then es[a] else if a == i then e else es[a - 1];
      var y := if b < i then es[b] else if b == i then e else es[b - 1];
      assert es'[a] == x && es'[b] == y;
      if a < i - 1 && b == i { LessTransitive(es[a].key, es[i - 1].key, e.key); }
      if a == i && b > i + 1 { LessTransitive(e.key, es[i].key, es[b - 1].key); }
    }
  }

  lemma InsertedMembers(es: seq<Entry>, i: nat, e: Entry, x: Entry)
    requires i <= |es|
    ensures x in es[..i] + [e] + es[i..] <==> x == e || x in es
  {
    assert es == es[..i] + es[i..];
  }

  lemma OneMore(es: seq<Entry>, es': seq<Entry>, e: Entry)
    requires Sorted(es) && Sorted(es') && e.key !in ToMap(es) && forall x :: x in es' <==> x == e || x in es
    ensures ToMap(es') == ToMap(es)[e.key := e]
  {
    MapMembers(es);
    MapIs(es', ToMap(es)[e.key := e]);
  }

  lemma InsertedMap(es: seq<Entry>, i: nat, e: Entry)
    requires Sorted(es) && i <= |es|
    requires i > 0 ==> Less(es[i - 1].key, e.key)
    requires i < |es| ==> Less(e.key, es[i].key)
    ensures e.key !in ToMap(es) && Sorted(es[..i] + [e] + es[i..]) &&
            ToMap(es[..i] + [e] + es[i..]) == ToMap(es)[e.key := e]
  {
    var es' := es[..i] + [e] + es[i..];
    InsertedSorted(es, i, e);
    KeyIsNew(es, i, e.key);
    forall x ensures x in es' <==> x == e || x in es {
      InsertedMembers(es, i, e, x);
    }
    OneMore(es, es', e);
  }

  lemma KeyIsNew(es: seq<Entry>, i: nat, k: Key)
    requires Sorted(es) && i <= |es|
    requires i > 0 ==> Less(es[i - 1].key, k)
    requires i < |es| ==> Less(k, es[i].key)
    ensures k !in ToMap(es)
  {
    if k in ToMap(es) {
      var j := MapIndex(es, k);
      if i > 0 { LessTotal(es[i - 1].key, k); }
      if i < |es| { LessTotal(k, es[i].key); }
    }
  }

  // ---------------------------------------------------------------- the merge

  /** The entry tells us something. */
  ghost predicate IsNews(m: Table, e: Entry) {
    e.key !in m || Newer(e, m[e.key])
  }

  /** What is new in a list, in its order. */
  ghost function News(m: Table, es: seq<Entry>): seq<Entry> {
    if es == [] then []
    else News(m, es[..|es| - 1]) + if IsNews(m, es[|es| - 1]) then [es[|es| - 1]] else []
  }

  ghost function Learn(m: Table, e: Entry): Table {
    if IsNews(m, e) then m[e.key := e] else m
  }

  /** Learning one more entry, at a key not met before. */
  lemma JoinSnoc(m: Table, o: Table, e: Entry)
    requires Keyed(m) && e.key !in o
    ensures Join(m, o[e.key := e]) == if IsNews(m, e) then Join(m, o)[e.key := e] else Join(m, o)
    ensures e.key in Join(m, o) <==> e.key in m
    ensures e.key in m ==> Join(m, o)[e.key] == m[e.key]
  {
  }

  lemma PrefixSorted(es: seq<Entry>, n: nat)
    requires Sorted(es) && n <= |es|
    ensures Sorted(es[..n])
  {
  }

  /** Adding the entry at i, where it belongs, is learning it. */
  method MergeOne(es: seq<Entry>, i: nat, e: Entry) returns (es': seq<Entry>, changed: bool)
    requires Sorted(es) && i <= |es|
    requires i > 0 ==> Less(es[i - 1].key, e.key)
    requires i < |es| ==> !Less(es[i].key, e.key)
    ensures Sorted(es') && ToMap(es') == Learn(ToMap(es), e)
    ensures changed <==> IsNews(ToMap(es), e)
    ensures i <= |es'| && es'[..i] == es[..i]
  {
    if i < |es| && es[i].key == e.key {
      MapAt(es, i);
      changed := Newer(e, es[i]);
      es' := es;
      if changed {
        UpdatedMap(es, i, e);
        es' := es[i := es[i].(version := e.version, tombstone := e.tombstone)];
      }
    } else {
      if i < |es| { LessTotal(es[i].key, e.key); }
      InsertedMap(es, i, e);
      es' := es[..i] + [e] + es[i..];
      changed := true;
    }
  }

  /** The first place from i on where the key belongs. */
  method Advance(es: seq<Entry>, i: nat, k: Key) returns (i': nat)
    requires Sorted(es) && i <= |es| && (i > 0 ==> Less(es[i - 1].key, k))
    ensures i <= i' <= |es| && (i' > 0 ==> Less(es[i' - 1].key, k)) && (i' < |es| ==> !Less(es[i'].key, k))
  {
    i' := i;
    while i' < |es| && Less(es[i'].key, k)
      invariant i <= i' <= |es| && (i' > 0 ==> Less(es[i' - 1].key, k))
    {
      i' := i' + 1;
    }
  }

  /** Entries.merge: one pass over both lists.  What is returned beside the merged list is
      what was new. */
  method Merge(es: seq<Entry>, incoming: seq<Entry>) returns (es': seq<Entry>, newEntries: seq<Entry>)
    requires Sorted(es) && Sorted(incoming)
    ensures Sorted(es') && ToMap(es') == Join(ToMap(es), ToMap(incoming))
    ensures newEntries == News(ToMap(es), incoming)
  {
    es', newEntries := es, [];
    var i := 0;
    MapKeyed(es);
    assert incoming[..0] == [] && Join(ToMap(es), map[]) == ToMap(es);
    for n := 0 to |incoming|
      invariant Sorted(es') && i <= |es'|
      invariant ToMap(es') == Join(ToMap(es), ToMap(incoming[..n]))
      invariant newEntries == News(ToMap(es), incoming[..n])
      invariant i > 0 ==> n > 0 && Less(es'[i - 1].key, incoming[n - 1].key)
    {
      var e := incoming[n];
      if i > 0 { LessTransitive(es'[i - 1].key, incoming[n - 1].key, e.key); }
      i := Advance(es', i, e.key);
      ghost var before := es';
      var changed;
      es', changed := MergeOne(es', i, e);
      assert i > 0 ==> es'[i - 1] == es'[..i][i - 1] == before[..i][i - 1];
      MergedOneMore(ToMap(es), incoming, n, ToMap(before));
      if changed {
        newEntries := newEntries + [e];
      }
    }
    assert incoming[..|incoming|] == incoming;
  }

  lemma MergedOneMore(m: Table, incoming: seq<Entry>, n: nat, now: Table)
    requires Keyed(m) && Sorted(incoming) && n < |incoming| && now == Join(m, ToMap(incoming[..n]))
    ensures Join(m, ToMap(incoming[..n + 1])) == Learn(now, incoming[n])
    ensures IsNews(now, incoming[n]) <==> IsNews(m, incoming[n])
    ensures News(m, incoming[..n + 1]) == News(m, incoming[..n]) + if IsNews(m, incoming[n]) then [incoming[n]] else []
  {
    var p := incoming[..n + 1];
    assert p[..n] == incoming[..n];
    PrefixSorted(incoming, n + 1);
    LastIsNew(p);
    JoinSnoc(m, ToMap(incoming[..n]), incoming[n]);
  }

  // ---------------------------------------------------------------- what merging means

  lemma ToMapSnoc(es: seq<Entry>, e: Entry)
    ensures ToMap(es + [e]) == ToMap(es)[e.key := e]
  {
    assert (es + [e])[..|es|] == es;
  }

  lemma NewsSnoc(m: Table, es: seq<Entry>)
    requires es != []
    ensures var front, e := es[..|es| - 1], es[|es| - 1];
            News(m, es) == if IsNews(m, e) then News(m, front) + [e] else News(m, front)
  {
  }

  lemma {:induction false} NewsKeys(m: Table, es: seq<Entry>)
    ensures ToMap(News(m, es)).Keys <= ToMap(es).Keys
  {
    if es != [] {
      var front, e := es[..|es| - 1], es[|es| - 1];
      NewsKeys(m, front);
      NewsSnoc(m, es);
      ToMapSnoc(News(m, front), e);
    }
  }

  lemma {:induction false} NewsJoin(m: Table, es: seq<Entry>)
    requires Keyed(m) && Sorted(es)
    ensures Join(m, ToMap(News(m, es))) == Join(m, ToMap(es))
  {
    if es != [] {
      var front, e := es[..|es| - 1], es[|es| - 1];
      NewsJoin(m, front);
      NewsSnoc(m, es);
      LastIsNew(es);
      JoinSnoc(m, ToMap(front), e);
      if IsNews(m, e) {
        NewsKeys(m, front);
        JoinSnoc(m, ToMap(News(m, front)), e);
        ToMapSnoc(News(m, front), e);
      }
    }
  }

  lemma {:induction false} NoNews(m: Table, es: seq<Entry>)
    requires Keyed(m) && Sorted(es) && Join(m, ToMap(es)) == m
    ensures News(m, es) == []
  {
    if es != [] {
      var front, e := es[..|es| - 1], es[|es| - 1];
      LastIsNew(es);
      JoinSnoc(m, ToMap(front), e);
      assert !IsNews(m, e);
      NewsSnoc(m, es);
      NoNews(m, front);
    }
  }

  /** What is returned brings the old list to the new one. */
  lemma DeltaIsEnough(es: seq<Entry>, incoming: seq<Entry>, es': seq<Entry>)
    requires Sorted(es) && Sorted(incoming) && ToMap(es') == Join(ToMap(es), ToMap(incoming))
    ensures ToMap(es') == Join(ToMap(es), ToMap(News(ToMap(es), incoming)))
  {
    MapKeyed(es);
    NewsJoin(ToMap(es), incoming);
  }

  lemma JoinNothing(m: Table)
    ensures Join(m, ToMap([])) == m
  {
  }

  /** Nothing is returned just when nothing changed. */
  lemma DeltaIsNeeded(es: seq<Entry>, incoming: seq<Entry>, es': seq<Entry>)
    requires Sorted(es) && Sorted(incoming) && Sorted(es') && ToMap(es') == Join(ToMap(es), ToMap(incoming))
    ensures News(ToMap(es), incoming) == [] <==> es' == es
  {
    MapKeyed(es);
    if News(ToMap(es), incoming) == [] {
      NewsJoin(ToMap(es), incoming);
      JoinNothing(ToMap(es));
      SortedUnique(es', es);
    }
    if es' == es { NoNews(ToMap(es), incoming); }
  }

  /** The order of merging does not matter: lists that have merged the same lists are equal. */
  lemma MergeCommutes(a: seq<Entry>, b: seq<Entry>, ab: seq<Entry>, ba: seq<Entry>)
    requires Sorted(a) && Sorted(b) && Sorted(ab) && Sorted(ba)
    requires ToMap(ab) == Join(ToMap(a), ToMap(b)) && ToMap(ba) == Join(ToMap(b), ToMap(a))
    ensures ab == ba
  {
    MapKeyed(a);
    MapKeyed(b);
    JoinCommutes(ToMap(a), ToMap(b));
    SortedUnique(ab, ba);
  }

  lemma MergeAssociates(a: seq<Entry>, b: seq<Entry>, c: seq<Entry>, left: seq<Entry>, right: seq<Entry>)
    requires Sorted(a) && Sorted(b) && Sorted(c) && Sorted(left) && Sorted(right)
    requires ToMap(left) == Join(Join(ToMap(a), ToMap(b)), ToMap(c)) &&
             ToMap(right) == Join(ToMap(a), Join(ToMap(b), ToMap(c)))
    ensures left == right
  {
    MapKeyed(a);
    MapKeyed(b);
    MapKeyed(c);
    JoinAssociates(ToMap(a), ToMap(b), ToMap(c));
    SortedUnique(left, right);
  }

  lemma MergeIdempotent(a: seq<Entry>, aa: seq<Entry>)
    requires Sorted(a) && Sorted(aa) && ToMap(aa) == Join(ToMap(a), ToMap(a))
    ensures aa == a
  {
    JoinIdempotent(ToMap(a));
    SortedUnique(aa, a);
  }

  // ---------------------------------------------------------------- receiving gossip

  /** How an entry is taken in: one that claims to come from us and that we know better is
      replaced by our data at a higher version, one that we do not know is marked deleted. */
  ghost function Answer(m: Table, us: Peer, now: int, e: Entry): Entry {
    if !Overridden(m, us, e) then e
    else if e.key in m then m[e.key].(version := e.version + 1)
    else e.(version := e.version + 1, tombstone := now)
  }

  ghost predicate Overridden(m: Table, us: Peer, e: Entry) {
    e.key.origin == us
    && if e.key in m then m[e.key].version < e.version ||
        (m[e.key].version == e.version && m[e.key].tombstone != e.tombstone)
       else e.tombstone <= 0
  }

  /** findEqual */
  method Find(es: seq<Entry>, k: Key) returns (found: bool, e: Entry)
    requires Sorted(es)
    ensures found <==> k in ToMap(es)
    ensures found ==> e == ToMap(es)[k]
  {
    var i := Advance(es, 0, k);
    found, e := false, Entry(k, 0, 0);
    if i < |es| && es[i].key == k {
      MapAt(es, i);
      return true, es[i];
    }
    if i < |es| { LessTotal(es[i].key, k); }
    KeyIsNew(es, i, k);
  }

  method AnswerOne(es: seq<Entry>, us: Peer, now: int, e: Entry) returns (e': Entry, overridden: bool)
    requires Sorted(es)
    ensures e' == Answer(ToMap(es), us, now, e) && e'.key == e.key
    ensures overridden <==> Overridden(ToMap(es), us, e)
  {
    MapKeyed(es);
    e', overridden := e, false;
    if e.key.origin == us {
      var found, ours := Find(es, e.key);
      if found {
        if ours.version < e.version || (ours.version == e.version && ours.tombstone != e.tombstone) {
          e', overridden := ours.(version := e.version + 1), true;
        }
      } else if !(e.tombstone > 0) {
        e', overridden := e.(version := e.version + 1, tombstone := now), true;
      }
    }
  }

  ghost predicate Answered(m: Table, us: Peer, now: int, incoming: seq<Entry>, answered: seq<Entry>) {
    |answered| == |incoming| && forall i :: 0 <= i < |incoming| ==> answered[i] == Answer(m, us, now, incoming[i])
  }

  /** overridden lists the answers that differ from what came in. */
  ghost predicate Lists(m: Table, us: Peer, now: int, incoming: seq<Entry>, overridden: seq<Entry>) {
    forall e :: e in overridden ==> exists i ::
        0 <= i < |incoming| && Overridden(m, us, incoming[i]) && e == Answer(m, us, now, incoming[i])
  }

  method AnswerAll(es: seq<Entry>, us: Peer, now: int, incoming: seq<Entry>)
    returns (answered: seq<Entry>, overridden: seq<Entry>)
    requires Sorted(es) && Sorted(incoming)
    ensures Sorted(answered) && Answered(ToMap(es), us, now, incoming, answered)
    ensures Lists(ToMap(es), us, now, incoming, overridden)
    ensures forall i :: 0 <= i < |incoming| && Overridden(ToMap(es), us, incoming[i]) ==> answered[i] in overridden
  {
    answered, overridden := [], [];
    for n := 0 to |incoming|
      invariant |answered| == n
      invariant forall i :: 0 <= i < n ==>
                answered[i] == Answer(ToMap(es), us, now, incoming[i]) && answered[i].key == incoming[i].key
      invariant Lists(ToMap(es), us, now, incoming, overridden)
      invariant forall i :: 0 <= i < n && Overridden(ToMap(es), us, incoming[i]) ==> answered[i] in overridden
    {
      var e, over := AnswerOne(es, us, now, incoming[n]);
      answered := answered + [e];
      if over {
        overridden := overridden + [e];
      }
    }
  }

  /** The entries of known peers. */
  method Known(es: seq<Entry>, known: set<Peer>) returns (kept: seq<Entry>)
    requires Sorted(es)
    ensures Sorted(kept) && ToMap(kept) == OfPeers(ToMap(es), known)
  {
    kept := [];
    assert es[..0] == [];
    for n := 0 to |es|
      invariant Sorted(kept) && ToMap(kept) == OfPeers(ToMap(es[..n]), known)
      invariant kept != [] ==> exists i :: 0 <= i < n && es[i] == kept[|kept| - 1]
    {
      OfPeersSnoc(es, n, known);
      if es[n].key.origin in known {
        AppendSorted(kept, es[n]);
        ToMapSnoc(kept, es[n]);
        kept := kept + [es[n]];
      }
    }
    assert es[..|es|] == es;
  }

  lemma AppendSorted(es: seq<Entry>, e: Entry)
    requires Sorted(es) && (es != [] ==> Less(es[|es| - 1].key, e.key))
    ensures Sorted(es + [e])
  {
    InsertedSorted(es, |es|, e);
    assert es[..|es|] + [e] + es[|es|..] == es + [e];
  }

  lemma OfPeersSnoc(es: seq<Entry>, n: nat, known: set<Peer>)
    requires n < |es|
    ensures OfPeers(ToMap(es[..n + 1]), known)
         == if es[n].key.origin in known then OfPeers(ToMap(es[..n]), known)[es[n].key := es[n]]
             else OfPeers(ToMap(es[..n]), known)
  {
    assert es[..n + 1] == es[..n] + [es[n]];
    ToMapSnoc(es[..n], es[n]);
  }

  ghost function OfPeers(m: Table, known: set<Peer>): Table {
    map k | k in m && k.origin in known :: m[k]
  }

  ghost predicate Live(m: Table, k: Key) {
    k in m && m[k].tombstone <= 0
  }

  /** What taking in the answers does to a table. */
  lemma AnsweredKey(m: Table, us: Peer, now: int, incoming: seq<Entry>, answered: seq<Entry>, k: Key)
    requires Keyed(m) && Sorted(incoming) && Sorted(answered) && Answered(m, us, now, incoming, answered)
    ensures k in ToMap(answered) <==> k in ToMap(incoming)
    ensures k in ToMap(incoming) ==> ToMap(answered)[k] == Answer(m, us, now, ToMap(incoming)[k])
  {
    if k in ToMap(incoming) {
      var i := MapIndex(incoming, k);
      assert answered[i] == Answer(m, us, now, incoming[i]);
      MapAt(answered, i);
    }
    if k in ToMap(answered) {
      var i := MapIndex(answered, k);
      assert answered[i] == Answer(m, us, now, incoming[i]);
      MapAt(incoming, i);
    }
  }

  /** Of our own names, the same are alive afterwards. */
  lemma OursStay(m: Table, us: Peer, now: int, incoming: seq<Entry>, answered: seq<Entry>, k: Key)
    requires Keyed(m) && Sorted(incoming) && Sorted(answered) && Answered(m, us, now, incoming, answered)
    requires now > 0 && k.origin == us
    ensures Live(Join(m, ToMap(answered)), k) <==> Live(m, k)
  {
    AnsweredKey(m, us, now, incoming, answered, k);
    MapKeyed(incoming);
  }

  /** Versions do not go down, and at the same version what was deleted stays deleted. */
  ghost predicate NotOlder(e: Entry, than: Entry) {
    e.version > than.version || (e.version == than.version && e.tombstone >= than.tombstone)
  }

  lemma VersionsRise(m: Table, o: Table, k: Key)
    requires k in m
    ensures k in Join(m, o) && NotOlder(Join(m, o)[k], m[k])
  {
  }

  lemma {:induction false} NewsAreNew(m: Table, es: seq<Entry>)
    ensures forall e :: e in News(m, es) ==> e in es && IsNews(m, e)
  {
    if es != [] {
      NewsAreNew(m, es[..|es| - 1]);
      NewsSnoc(m, es);
    }
  }

  /** What is broadcast in reply is what the table then says. */
  lemma OverriddenArrives(m: Table, us: Peer, now: int, incoming: seq<Entry>, answered: seq<Entry>, i: nat)
    requires Keyed(m) && Sorted(incoming) && Sorted(answered) && Answered(m, us, now, incoming, answered)
    requires i < |incoming| && Overridden(m, us, incoming[i])
    ensures var e := Answer(m, us, now, incoming[i]);
            e.key in Join(m, ToMap(answered)) && Join(m, ToMap(answered))[e.key] == e
  {
    assert answered[i] == Answer(m, us, now, incoming[i]);
    MapAt(answered, i);
  }

  /** A message entry in our name says alive what is dead with us, or the reverse, and is not
      older than what we have. */
  ghost predicate Contradicts(m: Table, us: Peer, e: Entry) {
    e.key.origin == us && (e.tombstone <= 0) != Live(m, e.key) && !(e.key in m && Newer(m[e.key], e))
  }

  /** f puts e right: it is the next version, with our data, or deleted now if we have none. */
  ghost predicate Corrects(m: Table, now: int, f: Entry, e: Entry) {
    && f.key == e.key && f.version == e.version + 1 && Newer(f, e)
    && f.tombstone == (if e.key in m then m[e.key].tombstone else now) && (f.tombstone <= 0 <==> Live(m, e.key))
  }

  /** An entry in our name differs from what we have and is not older, or is alive and unknown to us. */
  ghost predicate Disputed(m: Table, us: Peer, e: Entry) {
    e.key.origin == us && if e.key in m then m[e.key].version <= e.version && m[e.key] != e else e.tombstone <= 0
  }

  /** Whatever contradicts us is disputed. */
  lemma ContradictsIsDisputed(m: Table, us: Peer, e: Entry)
    requires Contradicts(m, us, e)
    ensures Disputed(m, us, e)
  {
  }

  /** What is disputed is answered, and nothing else; the answer puts it right. */
  lemma DisputedIsAnswered(m: Table, us: Peer, now: int, e: Entry)
    requires Keyed(m) && now > 0
    ensures Disputed(m, us, e) <==> Overridden(m, us, e)
    ensures Disputed(m, us, e) ==> Corrects(m, now, Answer(m, us, now, e), e)
  {
  }

  /** Entries in the message are among those of known peers just when their origin is known. */
  lemma KnownIndex(message: seq<Entry>, known: set<Peer>, gossip: seq<Entry>, e: Entry) returns (i: nat)
    requires Sorted(message) && Sorted(gossip) && ToMap(gossip) == OfPeers(ToMap(message), known)
    requires e in message && e.key.origin in known
    ensures i < |gossip| && gossip[i] == e
  {
    var k :| 0 <= k < |message| && message[k] == e;
    MapAt(message, k);
    i := MapIndex(gossip, e.key);
  }

  lemma KnownIsHeard(message: seq<Entry>, known: set<Peer>, gossip: seq<Entry>, i: nat)
    requires Sorted(message) && Sorted(gossip) && ToMap(gossip) == OfPeers(ToMap(message), known) && i < |gossip|
    ensures gossip[i] in message
  {
    MapAt(gossip, i);
    var k := MapIndex(message, gossip[i].key);
  }

  class Nameserver {
    const ourName: Peer
    var entries: seq<Entry>

    constructor (ourName: Peer)
      ensures this.ourName == ourName && entries == []
    {
      this.ourName, entries := ourName, [];
    }

    /** Takes in a gossip message, of which the entries of unknown peers are ignored.  Whatever
        it says, our own names stay as they are: overridden lists what is broadcast to correct
        it. */
    method ReceiveGossip(message: seq<Entry>, known: set<Peer>, now: int)
      returns (panicked: bool, newEntries: seq<Entry>, overridden: seq<Entry>)
      requires Sorted(entries) && now > 0
      modifies this
      ensures panicked <==> !Sorted(message)
      ensures panicked ==> entries == old(entries)
      ensures Sorted(entries)
      ensures forall k: Key :: k.origin == ourName ==> (Live(ToMap(entries), k) <==> Live(ToMap(old(entries)), k))
      ensures forall k :: k in ToMap(old(entries)) ==>
              k in ToMap(entries) && NotOlder(ToMap(entries)[k], ToMap(old(entries))[k])
      ensures forall e :: e in overridden ==> e.key in ToMap(entries) && ToMap(entries)[e.key] == e
      ensures forall f :: f in overridden ==>
                exists e :: e in message && Disputed(ToMap(old(entries)), ourName, e) &&
                  Corrects(ToMap(old(entries)), now, f, e)
      ensures !panicked && ourName in known ==> forall e ::
              e in message && Disputed(ToMap(old(entries)), ourName, e) ==>
                exists f :: f in overridden && Corrects(ToMap(old(entries)), now, f, e)
      ensures !panicked ==> forall k: Key :: k.origin in known && k.origin != ourName ==>
              SameAt(ToMap(entries), Join(ToMap(old(entries)), ToMap(message)), k)
      ensures forall k: Key :: k.origin !in known ==> SameAt(ToMap(entries), ToMap(old(entries)), k)
      ensures ToMap(entries) == Join(ToMap(old(entries)), ToMap(newEntries))
      ensures forall e :: e in newEntries ==> IsNews(ToMap(old(entries)), e)
      ensures newEntries == [] <==> entries == old(entries)
    {
      newEntries, overridden := [], [];
      var ok := Check(message);
      panicked := !ok;
      if panicked {
        JoinNothing(ToMap(entries));
        return;
      }
      var gossip := Known(message, known);
      var answered;
      answered, overridden := AnswerAll(entries, ourName, now, gossip);
      ghost var m := ToMap(entries);
      MapKeyed(entries);
      entries, newEntries := Merge(entries, answered);
      DeltaIsNeeded(old(entries), answered, entries);
      forall k: Key | k.origin == ourName ensures Live(ToMap(entries), k) <==> Live(m, k) {
        OursStay(m, ourName, now, gossip, answered, k);
      }
      forall k | k in m ensures k in ToMap(entries) && NotOlder(ToMap(entries)[k], m[k]) {
        VersionsRise(m, ToMap(answered), k);
      }
      DeltaIsEnough(old(entries), answered, entries);
      NewsAreNew(m, answered);
      forall e | e in overridden ensures e.key in ToMap(entries) && ToMap(entries)[e.key] == e {
        var i :| 0 <= i < |gossip| && Overridden(m, ourName, gossip[i]) && e == Answer(m, ourName, now, gossip[i]);
        OverriddenArrives(m, ourName, now, gossip, answered, i);
      }
      forall f | f in overridden
        ensures exists e :: e in message && Disputed(m, ourName, e) && Corrects(m, now, f, e) {
        var i :| 0 <= i < |gossip| && Overridden(m, ourName, gossip[i]) && f == Answer(m, ourName, now, gossip[i]);
        DisputedIsAnswered(m, ourName, now, gossip[i]);
        KnownIsHeard(message, known, gossip, i);
      }
      forall e | e in message && ourName in known && Disputed(m, ourName, e)
        ensures exists f :: f in overridden && Corrects(m, now, f, e) {
        var i := KnownIndex(message, known, gossip, e);
        DisputedIsAnswered(m, ourName, now, e);
        assert answered[i] == Answer(m, ourName, now, gossip[i]) && answered[i] in overridden;
      }
      forall k: Key
        ensures k.origin != ourName && k.origin in known ==> SameAt(ToMap(entries), Join(m, ToMap(message)), k)
        ensures k.origin !in known ==> SameAt(ToMap(entries), m, k) {
        AnsweredKey(m, ourName, now, gossip, answered, k);
        MapKeyed(gossip);
      }
    }
  }

  ghost predicate SameAt(m: Table, o: Table, k: Key) {
    (k in m <==> k in o) && (k in m ==> m[k] == o[k])
  }
}
