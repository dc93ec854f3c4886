/** Which container holds which addresses: the allocator's table of owned addresses
    (ipam/allocator.go). */
module Holdings {
  import opened Address
  import opened Cidrs

  /** A container ID, a name such as "weave:expose", or an address in dotted form. */
  type Ident = string

  /** api.NoContainerID */
  const NO_CONTAINER: Ident := "_"

  datatype Owned = Owned(isContainer: bool, cidrs: seq<CIDR>)

  type Table = map<Ident, Owned>

  function AddressesOf(t: Table, ident: Ident): seq<CIDR> {
    if ident in t then t[ident].cidrs else []
  }

  /** The k-th address of ident is x. */
  ghost predicate HeldAt(t: Table, ident: Ident, k: int, x: nat) {
    ident in t && 0 <= k < |t[ident].cidrs| && t[ident].cidrs[k].addr == x
  }

  ghost predicate Held(t: Table, x: nat) {
    exists i, k :: HeldAt(t, i, k, x)
  }

  /** Nobody but one ident holds x, and that one only once. */
  ghost predicate Once(t: Table, x: nat) {
    forall i, k, j, l :: HeldAt(t, i, k, x) && HeldAt(t, j, l, x) ==> i == j && k == l
  }

  ghost predicate HeldBy(t: Table, ident: Ident, x: nat) {
    exists k :: HeldAt(t, ident, k, x)
  }

  // ---------------------------------------------------------------- addOwned

  function Added(t: Table, ident: Ident, cidr: CIDR, isContainer: bool): Table {
    t[ident := Owned(isContainer, AddressesOf(t, ident) + [cidr])]
  }

  lemma AddedAt(t: Table, ident: Ident, cidr: CIDR, isContainer: bool, i: Ident, k: int, x: nat)
    ensures HeldAt(Added(t, ident, cidr, isContainer), i, k, x)
       <==> HeldAt(t, i, k, x) || (i == ident && k == |AddressesOf(t, ident)| && x == cidr.addr)
  {
  }

  /** The record of ident has one more address, with its prefix, at the end, and is a container's
      just when the last one to add to it said so; all other records are as before. */
  lemma AddedRecord(t: Table, ident: Ident, cidr: CIDR, isContainer: bool)
    ensures var t' := Added(t, ident, cidr, isContainer);
            && ident in t' && t'[ident].isContainer == isContainer
            && |t'[ident].cidrs| == |AddressesOf(t, ident)| + 1
            && t'[ident].cidrs[|AddressesOf(t, ident)|] == cidr &&
                t'[ident].cidrs[..|AddressesOf(t, ident)|] == AddressesOf(t, ident)
            && t'.Keys == t.Keys + {ident} && forall i :: i in t && i != ident ==> t'[i] == t[i]
  {
  }

  /** Of the containers only those in ids are left. */
  ghost predicate Pruned(t: Table, ids: set<Ident>, t': Table) {
    && (forall i :: i in t' <==> i in t && (!t[i].isContainer || i in ids))
    && forall i :: i in t' ==> t'[i] == t[i]
  }

  /** What was filed under a name survives pruning just when it was not filed for a container, or
      the container is known to exist. */
  lemma FiledSurvives(t: Table, ident: Ident, cidr: CIDR, isContainer: bool, ids: set<Ident>, t': Table)
    requires Pruned(Added(t, ident, cidr, isContainer), ids, t')
    ensures HeldBy(t', ident, cidr.addr) <==> !isContainer || ident in ids
  {
    var added := Added(t, ident, cidr, isContainer);
    AddedRecord(t, ident, cidr, isContainer);
    if ident in t' { assert HeldAt(t', ident, |AddressesOf(t, ident)|, cidr.addr); }
  }

  /** After adding an address it is held, and everything else as before; an address that
      nobody held is then held once. */
  lemma AddedHeld(t: Table, ident: Ident, cidr: CIDR, isContainer: bool, x: nat)
    ensures var t' := Added(t, ident, cidr, isContainer);
            && (Held(t', x) <==> Held(t, x) || x == cidr.addr)
            && (Once(t, x) && (x == cidr.addr ==> !Held(t, x)) ==> Once(t', x))
  {
    var t' := Added(t, ident, cidr, isContainer);
    forall i, k
      ensures HeldAt(t', i, k, x) <==>
              HeldAt(t, i, k, x) || (i == ident && k == |AddressesOf(t, ident)| && x == cidr.addr) {
      AddedAt(t, ident, cidr, isContainer, i, k, x);
    }
    if Held(t, x) {
      var i, k :| HeldAt(t, i, k, x);
      assert HeldAt(t', i, k, x);
    }
    if x == cidr.addr { assert HeldAt(t', ident, |AddressesOf(t, ident)|, x); }
  }

  // ---------------------------------------------------------------- removeOwned

  /** The table without the k-th address of ident. */
  function Dropped(t: Table, ident: Ident, k: nat): Table
    requires ident in t && k < |t[ident].cidrs|
  {
    var cidrs := t[ident].cidrs;
    if |cidrs| == 1 then t - {ident} else t[ident := t[ident].(cidrs := cidrs[..k] + cidrs[k + 1..])]
  }

  /** The record of ident lacks one address and is otherwise as before, or is gone with the last one;
      all other records are as before. */
  lemma DroppedRecord(t: Table, ident: Ident, k: nat)
    requires ident in t && k < |t[ident].cidrs|
    ensures var t' := Dropped(t, ident, k);
            && (ident in t' <==> |t[ident].cidrs| > 1)
            && (ident in t' ==>
                t'[ident].isContainer == t[ident].isContainer && |t'[ident].cidrs| + 1 == |t[ident].cidrs|)
            && (ident in t' ==> forall l :: 0 <= l < |t'[ident].cidrs| ==>
                  t'[ident].cidrs[l] == t[ident].cidrs[Before(ident, k, ident, l)])
            && forall i :: i != ident ==> (i in t' <==> i in t) && (i in t ==> t'[i] == t[i])
  {
  }

  /** Where the l-th address of i was before the k-th of ident was dropped. */
  function Before(ident: Ident, k: nat, i: Ident, l: int): int {
    if i == ident && l >= k then l + 1 else l
  }

  lemma DroppedAt(t: Table, ident: Ident, k: nat, i: Ident, l: int, x: nat)
    requires ident in t && k < |t[ident].cidrs|
    ensures HeldAt(Dropped(t, ident, k), i, l, x) <==> HeldAt(t, i, Before(ident, k, i, l), x)
  {
  }

  /** Dropping an address leaves all others as they are; one held once is then free. */
  lemma DroppedHeld(t: Table, t': Table, ident: Ident, k: nat, x: nat)
    requires ident in t && k < |t[ident].cidrs| && t' == Dropped(t, ident, k)
    ensures x != t[ident].cidrs[k].addr ==> (Held(t', x) <==> Held(t, x))
    ensures Once(t, x) ==> Once(t', x)
    ensures Once(t, x) && x == t[ident].cidrs[k].addr ==> !Held(t', x)
  {
    forall i, l ensures HeldAt(t', i, l, x) <==> HeldAt(t, i, Before(ident, k, i, l), x) {
      DroppedAt(t, ident, k, i, l, x);
    }
    assert HeldAt(t, ident, k, t[ident].cidrs[k].addr);
    if Held(t, x) && x != t[ident].cidrs[k].addr {
      var i, l :| HeldAt(t, i, l, x);
      var l' := if i == ident && l > k then l - 1 else l;
      assert Before(ident, k, i, l') == l;
      assert HeldAt(t', i, l', x);
    }
  }

  // ---------------------------------------------------------------- removeAllOwned

  lemma DeletedAt(t: Table, ident: Ident, i: Ident, k: int, x: nat)
    ensures HeldAt(t - {ident}, i, k, x) <==> HeldAt(t, i, k, x) && i != ident
  {
  }

  lemma DeletedHeld(t: Table, ident: Ident, x: nat)
    ensures var t' := t - {ident};
            && (!HeldBy(t, ident, x) ==> (Held(t', x) <==> Held(t, x)))
            && (Once(t, x) ==> Once(t', x) && (HeldBy(t, ident, x) ==> !Held(t', x)))
  {
    var t' := t - {ident};
    forall i, k ensures HeldAt(t', i, k, x) <==> HeldAt(t, i, k, x) && i != ident {
      DeletedAt(t, ident, i, k, x);
    }
    if Held(t, x) && !HeldBy(t, ident, x) {
      var i, k :| HeldAt(t, i, k, x);
      assert HeldAt(t', i, k, x);
    }
  }

  // ---------------------------------------------------------------- searching

  /** The first position of the address in the list, or its length. */
  method IndexOf(cidrs: seq<CIDR>, addr: nat) returns (k: nat)
    ensures k <= |cidrs| && (k < |cidrs| ==> cidrs[k].addr == addr)
    ensures forall i :: 0 <= i < k ==> cidrs[i].addr != addr
  {
    k := 0;
    while k < |cidrs| && cidrs[k].addr != addr
      invariant k <= |cidrs| && forall i :: 0 <= i < k ==> cidrs[i].addr != addr
    {
      k := k + 1;
    }
  }

  /** Some holder of the address, in whatever order the table is walked, or "". */
  method FindOwner(t: Table, addr: nat) returns (ident: Ident)
    ensures HeldBy(t, ident, addr) || (ident == "" && !Held(t, addr))
  {
    var todo := t.Keys;
    while todo != {}
      invariant todo <= t.Keys
      invariant forall i, k :: HeldAt(t, i, k, addr) ==> i in todo
    {
      ident :| ident in todo;
      var k := IndexOf(t[ident].cidrs, addr);
      if k < |t[ident].cidrs| {
        assert HeldAt(t, ident, k, addr);
        return;
      }
      todo := todo - {ident};
    }
    ident := "";
  }

  /** Removes the first occurrence of the address from those of ident, if there is one. */
  method RemoveOwned(t: Table, ident: Ident, addr: nat) returns (t': Table, found: bool, ghost k: nat)
    ensures found <==> HeldBy(t, ident, addr)
    ensures !found ==> t' == t
    ensures found ==> HeldAt(t, ident, k, addr) && t' == Dropped(t, ident, k)
    ensures found ==> forall j :: 0 <= j < k ==> !HeldAt(t, ident, j, addr)
  {
    var i := IndexOf(AddressesOf(t, ident), addr);
    k := i;
    if i == |AddressesOf(t, ident)| {
      return t, false, k;
    }
    assert HeldAt(t, ident, i, addr);
    t' := Dropped(t, ident, i);
    found := true;
  }

  ghost predicate HoldsIn(t: Table, ident: Ident, r: Range) {
    exists x: nat :: r.Contains(x) && HeldBy(t, ident, x)
  }

  /** addr is the first address of ident that lies in the range. */
  ghost predicate FirstOf(t: Table, ident: Ident, r: Range, addr: nat) {
    exists k :: HeldAt(t, ident, k, addr) && r.Contains(addr) &&
      forall j :: 0 <= j < k ==> !r.Contains(AddressesOf(t, ident)[j].addr)
  }

  /** The first of the addresses of ident that lie in the range. */
  method FirstInRange(t: Table, ident: Ident, r: Range) returns (found: bool, addr: nat)
    ensures found <==> HoldsIn(t, ident, r)
    ensures found ==> r.Contains(addr) && HeldBy(t, ident, addr) && FirstOf(t, ident, r, addr)
  {
    var cidrs := AddressesOf(t, ident);
    for i := 0 to |cidrs|
      invariant forall k :: 0 <= k < i ==> !r.Contains(cidrs[k].addr)
    {
      if r.Contains(cidrs[i].addr) {
        assert HeldAt(t, ident, i, cidrs[i].addr);
        return true, cidrs[i].addr;
      }
    }
    return false, 0;
  }
}
