/** What an allocator does, on values: its ring, its space and its table of owned addresses, and
    how each of its actions may change them (ipam/allocator.go, ipam/allocate.go, ipam/claim.go). */
module Actions {
  import Bits
  import opened Address
  import opened Cidrs
  import opened Boundaries
  import opened Space
  import opened Holdings
  import opened RingEntries
  import opened RingGrant
  import opened RingGrantSteps
  import opened RingMerge
  import opened RingOps
  import RingRanges
  import Seeding
  import RingState
  import opened FreeReport

  // ---------------------------------------------------------------- what is kept

  /** By the ring, the address is ours. */
  ghost predicate Mine(b: Bounds, us: Peer, es: seq<Entry>, x: nat) {
    b.lo <= x < b.hi && es != [] && Owner(es, x) == us
  }

  /** What the space owns, used or free, is what the ring says is ours. */
  ghost predicate InStep(b: Bounds, us: Peer, es: seq<Entry>, ours: seq<nat>, free: seq<nat>) {
    forall x: nat {:trigger Contains(ours, x)} {:trigger Contains(free, x)} {:trigger Mine(b, us, es, x)} ::
      Contains(ours, x) || Contains(free, x) <==> Mine(b, us, es, x)
  }

  /** The addresses in use are those in the universe that somebody holds. */
  ghost predicate Accounted(b: Bounds, t: Table, ours: seq<nat>) {
    forall x: nat {:trigger Contains(ours, x)} {:trigger Held(t, x)} ::
      Contains(ours, x) <==> b.lo <= x < b.hi && Held(t, x)
  }

  /** No address of the universe is held twice. */
  ghost predicate OnceInside(b: Bounds, t: Table) {
    forall x: nat {:trigger Once(t, x)} :: b.lo <= x < b.hi ==> Once(t, x)
  }

  /** All holders have a name, and no address at all is held twice. */
  ghost predicate Named(t: Table) {
    "" !in t && forall x: nat {:trigger Once(t, x)} :: Once(t, x)
  }

  // ---------------------------------------------------------------- steps on values

  lemma TakenInStep(b: Bounds, us: Peer, es: seq<Entry>, ours: seq<nat>, free: seq<nat>, ours': seq<nat>,
                    free': seq<nat>, addr: nat)
    requires InStep(b, us, es, ours, free)
    requires Taken(ours, free, ours', free', addr) || Taken(ours', free', ours, free, addr)
    ensures InStep(b, us, es, ours', free')
  {
  }

  /** Taking a free address and filing it under any name keeps the accounts. */
  lemma TakenAccounted(b: Bounds, t: Table, t': Table, ours: seq<nat>, free: seq<nat>, ours': seq<nat>, free': seq<nat>,
                       ident: Ident, cidr: CIDR, isContainer: bool)
    requires Accounted(b, t, ours) && Apart(ours, free) && b.lo <= cidr.addr < b.hi
    requires Taken(ours, free, ours', free', cidr.addr) && t' == Added(t, ident, cidr, isContainer)
    ensures !Held(t, cidr.addr) && Accounted(b, t', ours')
  {
    assert !Contains(ours, cidr.addr);
    forall x: nat ensures Contains(ours', x) <==> b.lo <= x < b.hi && Held(t', x) {
      AddedHeld(t, ident, cidr, isContainer, x);
    }
  }

  lemma AddedOnce(b: Bounds, t: Table, t': Table, ident: Ident, cidr: CIDR, isContainer: bool)
    requires !Held(t, cidr.addr) && t' == Added(t, ident, cidr, isContainer)
    ensures OnceInside(b, t) ==> OnceInside(b, t')
    ensures Named(t) && ident != "" ==> Named(t')
  {
    forall x: nat | Once(t, x) ensures Once(t', x) {
      AddedHeld(t, ident, cidr, isContainer, x);
    }
  }

  /** An address outside the universe does not affect the accounts. */
  lemma AddedOutside(b: Bounds, t: Table, t': Table, ours: seq<nat>, ident: Ident, cidr: CIDR, isContainer: bool)
    requires Accounted(b, t, ours) && OnceInside(b, t) && !(b.lo <= cidr.addr < b.hi)
    requires t' == Added(t, ident, cidr, isContainer)
    ensures Accounted(b, t', ours) && OnceInside(b, t')
  {
    forall x: nat
      ensures (b.lo <= x < b.hi ==> Once(t', x)) && (Contains(ours, x) <==> b.lo <= x < b.hi && Held(t', x)) {
      AddedHeld(t, ident, cidr, isContainer, x);
    }
  }

  lemma DroppedOnce(b: Bounds, t: Table, t': Table, ident: Ident, k: nat)
    requires ident in t && k < |t[ident].cidrs| && t' == Dropped(t, ident, k)
    ensures OnceInside(b, t) ==> OnceInside(b, t')
    ensures Named(t) ==> Named(t') && !Held(t', t[ident].cidrs[k].addr)
  {
    forall x: nat | Once(t, x) ensures Once(t', x) {
      DroppedHeld(t, t', ident, k, x);
    }
    if Named(t) {
      var x := t[ident].cidrs[k].addr;
      assert Once(t, x);
      DroppedHeld(t, t', ident, k, x);
    }
  }

  /** Dropping an address that is not in the universe does not affect the accounts. */
  lemma DroppedOutside(b: Bounds, t: Table, t': Table, ours: seq<nat>, ident: Ident, k: nat)
    requires Accounted(b, t, ours) && ident in t && k < |t[ident].cidrs| && t' == Dropped(t, ident, k)
    requires !(b.lo <= t[ident].cidrs[k].addr < b.hi)
    ensures Accounted(b, t', ours)
  {
    forall x: nat ensures Contains(ours, x) <==> b.lo <= x < b.hi && Held(t', x) {
      DroppedHeld(t, t', ident, k, x);
    }
  }

  /** Dropping an address of the universe frees it. */
  lemma DroppedInside(b: Bounds, t: Table, t': Table, ours: seq<nat>, free: seq<nat>, ours': seq<nat>, free': seq<nat>,
                      ident: Ident, k: nat)
    requires Accounted(b, t, ours) && OnceInside(b, t)
    requires ident in t && k < |t[ident].cidrs| && t' == Dropped(t, ident, k)
    requires b.lo <= t[ident].cidrs[k].addr < b.hi && Taken(ours', free', ours, free, t[ident].cidrs[k].addr) &&
             Apart(ours', free')
    ensures Accounted(b, t', ours')
  {
    var addr := t[ident].cidrs[k].addr;
    assert Once(t, addr);
    forall x: nat ensures Contains(ours', x) <==> b.lo <= x < b.hi && Held(t', x) {
      DroppedHeld(t, t', ident, k, x);
    }
  }

  ghost predicate Listed(cidrs: seq<CIDR>, x: nat) {
    exists k :: 0 <= k < |cidrs| && cidrs[k].addr == x
  }

  lemma ListedIsHeld(t: Table, ident: Ident, x: nat)
    ensures Listed(AddressesOf(t, ident), x) <==> HeldBy(t, ident, x)
  {
    if k :| HeldAt(t, ident, k, x) { assert AddressesOf(t, ident)[k].addr == x; }
    if Listed(AddressesOf(t, ident), x) {
      var k :| 0 <= k < |AddressesOf(t, ident)| && AddressesOf(t, ident)[k].addr == x;
      assert HeldAt(t, ident, k, x);
    }
  }

  /** Forgetting all addresses of ident and freeing them keeps the accounts. */
  lemma DeletedAccounted(b: Bounds, t: Table, ours: seq<nat>, ours': seq<nat>, ident: Ident)
    requires Accounted(b, t, ours) && OnceInside(b, t)
    requires forall x: nat :: Contains(ours', x) <==> Contains(ours, x) && !Listed(AddressesOf(t, ident), x)
    ensures Accounted(b, t - {ident}, ours')
  {
    var t' := t - {ident};
    forall x: nat ensures Contains(ours', x) <==> b.lo <= x < b.hi && Held(t', x) {
      ListedIsHeld(t, ident, x);
      DeletedHeld(t, ident, x);
      if b.lo <= x < b.hi { assert Once(t, x); }
    }
  }

  lemma DeletedOnce(b: Bounds, t: Table, ident: Ident)
    ensures OnceInside(b, t) ==> OnceInside(b, t - {ident})
    ensures Named(t) ==> Named(t - {ident})
  {
    forall x: nat | Once(t, x) ensures Once(t - {ident}, x) {
      DeletedHeld(t, ident, x);
    }
  }

  lemma ListedSnoc(cidrs: seq<CIDR>, i: nat, x: nat)
    requires i < |cidrs|
    ensures Listed(cidrs[..i + 1], x) <==> Listed(cidrs[..i], x) || x == cidrs[i].addr
  {
    var p, q := cidrs[..i], cidrs[..i + 1];
    if k :| 0 <= k < |p| && p[k].addr == x { assert q[k].addr == x; }
    if x == cidrs[i].addr { assert q[i].addr == x; }
    if k :| 0 <= k < |q| && q[k].addr == x { assert k < i ==> p[k].addr == x; }
  }

  // ---------------------------------------------------------------- requests

  /** Addresses are 32 bits wide. */
  function Wrap(x: int): nat {
    x % 0x1_0000_0000
  }

  function CidrSize(c: CIDR): nat
    requires c.prefixLen <= ADDRESS_BITS
  {
    Wrap(Bits.Pow2(c.Bits()))
  }

  function CidrRange(c: CIDR): Range
    requires c.prefixLen <= ADDRESS_BITS
  {
    Range(c.addr, Wrap(c.addr + CidrSize(c)))
  }

  /** All but the first and the last address. */
  function HostRange(c: CIDR): Range
    requires c.prefixLen <= ADDRESS_BITS
  {
    Range(Wrap(c.addr + 1), Wrap(c.addr + 1 + CidrSize(c) - 2))
  }

  lemma WrapSmall(x: nat)
    requires x < 0x1_0000_0000
    ensures Wrap(x) == x
  {
  }

  lemma WrapOnce(x: nat)
    requires 0x1_0000_0000 <= x < 0x2_0000_0000
    ensures Wrap(x) == x - 0x1_0000_0000
  {
  }

  lemma FullSize()
    ensures Bits.Pow2(32) == 0x1_0000_0000
  {
    QuarterSize();
    Bits.Pow2Add(16, 16);
  }

  lemma QuarterSize()
    ensures Bits.Pow2(16) == 0x1_0000
  {
    assert Bits.Pow2(8) == 0x100;
    Bits.Pow2Add(8, 8);
  }

  lemma SizeFits(k: nat)
    requires k <= ADDRESS_BITS
    ensures Bits.Pow2(k) <= 0x1_0000_0000
  {
    FullSize();
    Bits.Pow2Order(k, 32);
  }

  /** Where the range of n addresses from addr ends, in 32 bits. */
  lemma WrappedEnd(addr: nat, n: nat)
    requires addr < 0x1_0000_0000 && 0 < n <= 0x1_0000_0000
    ensures var end := Wrap(addr + Wrap(n)); if addr + n < 0x1_0000_0000 then end == addr + n else end <= addr
  {
    if n == 0x1_0000_0000 {
      WrapOnce(n);
      WrapSmall(addr);
    } else {
      WrapSmall(n);
      if addr + n < 0x1_0000_0000 { WrapSmall(addr + n); } else { WrapOnce(addr + n); }
    }
  }

  /** A range that reaches 2^32 is read as empty. */
  lemma CidrRangeExact(c: CIDR, x: nat)
    requires c.prefixLen <= ADDRESS_BITS && c.addr < 0x1_0000_0000
    ensures CidrRange(c).Contains(x) <==> c.End() < 0x1_0000_0000 && c.addr <= x < c.End()
  {
    var n := Bits.Pow2(c.Bits());
    assert n <= 0x1_0000_0000 by { SizeFits(c.Bits()); }
    WrappedEnd(c.addr, n);
  }

  lemma HostRangeExact(c: CIDR, x: nat)
    requires c.prefixLen <= ADDRESS_BITS && c.End() < 0x1_0000_0000
    ensures HostRange(c).Contains(x) <==> c.addr < x < c.End() - 1
  {
    var n := Bits.Pow2(c.Bits());
    WrapSmall(n);
    WrapSmall(c.addr + 1);
    WrapSmall(c.addr + 1 + n - 2);
  }

  /** Of a subnet that overlaps the universe, neither the first nor the last address is a host. */
  lemma HostInside(b: Bounds, c: CIDR, x: nat)
    requires c.prefixLen <= ADDRESS_BITS && b.hi < 0x1_0000_0000
    requires Range(b.lo, b.hi).Overlaps(CidrRange(c)) && HostRange(c).Contains(x)
    ensures c.addr < x < c.End() - 1
  {
    var n := Bits.Pow2(c.Bits());
    assert n <= 0x1_0000_0000 by { SizeFits(c.Bits()); }
    HostAt(b.lo, b.hi, c.addr, n, x);
  }

  lemma HostAt(lo: nat, hi: nat, addr: nat, n: nat, x: nat)
    requires hi < 0x1_0000_0000 && 0 < n <= 0x1_0000_0000
    requires Range(lo, hi).Overlaps(Range(addr, Wrap(addr + Wrap(n))))
    requires Wrap(addr + 1) <= x < Wrap(addr + 1 + Wrap(n) - 2)
    ensures addr < x < addr + n - 1
  {
    WrappedEnd(addr, n);
    WrapSmall(addr + 1);
    if n == 0x1_0000_0000 {
      WrapOnce(n);
    } else {
      WrapSmall(n);
      if addr + n - 1 >= 0x1_0000_0000 { WrapOnce(addr + n - 1); } else { WrapSmall(addr + n - 1); }
    }
  }

  function Digits(n: nat): string {
    if n < 10 then [(48 + n) as char] else Digits(n / 10) + [(48 + n % 10) as char]
  }

  /** Address.String */
  function Dotted(addr: nat): (s: Ident)
    ensures s != ""
  {
    Digits(addr / 0x100_0000 % 256) + "." + Digits(addr / 0x1_0000 % 256) + "." +
    Digits(addr / 0x100 % 256) + "." + Digits(addr % 256)
  }

  lemma {:induction false} DigitsPlain(n: nat)
    ensures Digits(n) != "" && forall i :: 0 <= i < |Digits(n)| ==> Digits(n)[i] != '.'
  {
    if n >= 10 { DigitsPlain(n / 10); }
  }

  lemma {:induction false} DigitsInjective(m: nat, n: nat)
    requires Digits(m) == Digits(n)
    ensures m == n
  {
    DigitsPlain(m / 10);
    DigitsPlain(n / 10);
    var s, t := Digits(m), Digits(n);
    assert s[|s| - 1] == (48 + m % 10) as char && t[|t| - 1] == (48 + n % 10) as char;
    if m >= 10 && n >= 10 {
      assert s[..|s| - 1] == Digits(m / 10) && t[..|t| - 1] == Digits(n / 10);
      DigitsInjective(m / 10, n / 10);
    }
  }

  /** What stands before the first dot is determined, and so is what stands after it. */
  lemma FirstDot(s: string, u: string, t: string, v: string)
    requires s + "." + u == t + "." + v
    requires (forall i :: 0 <= i < |s| ==> s[i] != '.') && forall i :: 0 <= i < |t| ==> t[i] != '.'
    ensures s == t && u == v
  {
    var w := s + "." + u;
    assert w[|s|] == '.' && (t + "." + v)[|t|] == '.';
    assert forall i :: 0 <= i < |s| ==> w[i] == s[i];
    assert forall i :: 0 <= i < |t| ==> w[i] == t[i];
    assert |s| == |t|;
    assert s == w[..|s|] && t == w[..|t|] && u == w[|s| + 1..] && v == w[|t| + 1..];
  }

  lemma SamePart(m: nat, u: string, n: nat, v: string)
    requires Digits(m) + "." + u == Digits(n) + "." + v
    ensures m == n && u == v
  {
    DigitsPlain(m);
    DigitsPlain(n);
    FirstDot(Digits(m), u, Digits(n), v);
    DigitsInjective(m, n);
  }

  /** Addresses that are filed without a name never share a record. */
  lemma DottedInjective(a: nat, b: nat)
    requires a < 0x1_0000_0000 && b < 0x1_0000_0000 && Dotted(a) == Dotted(b)
    ensures a == b
  {
    var a3, b3 := a / 0x100, b / 0x100;
    var a2, b2 := a3 / 0x100, b3 / 0x100;
    var a1, b1 := a2 / 0x100, b2 / 0x100;
    DottedParts(a, a1, a2, a3);
    DottedParts(b, b1, b2, b3);
    SameParts(a1, a2 % 256, a3 % 256, a % 256, b1, b2 % 256, b3 % 256, b % 256);
  }

  function Parts(p: nat, q: nat, r: nat, s: nat): string {
    Digits(p) + "." + (Digits(q) + "." + (Digits(r) + "." + Digits(s)))
  }

  lemma DottedParts(a: nat, a1: nat, a2: nat, a3: nat)
    requires a < 0x1_0000_0000 && a3 == a / 0x100 && a2 == a3 / 0x100 && a1 == a2 / 0x100
    ensures Dotted(a) == Parts(a1, a2 % 256, a3 % 256, a % 256)
  {
    assert a / 0x1_0000 == a2 && a / 0x100_0000 == a1 < 256;
  }

  lemma SameParts(p: nat, q: nat, r: nat, s: nat, p': nat, q': nat, r': nat, s': nat)
    requires Parts(p, q, r, s) == Parts(p', q', r', s')
    ensures p == p' && q == q' && r == r' && s == s'
  {
    var u2, v2 := Digits(r) + "." + Digits(s), Digits(r') + "." + Digits(s');
    SamePart(p, Digits(q) + "." + u2, p', Digits(q') + "." + v2);
    SamePart(q, u2, q', v2);
    SamePart(r, Digits(s), r', Digits(s'));
    DigitsInjective(s, s');
  }

  /** The name an address is filed under. */
  function FiledUnder(ident: Ident, addr: nat): Ident {
    if ident == NO_CONTAINER then Dotted(addr) else ident
  }

  /** No address of the range up to addr is free. */
  ghost predicate NoneBelow(free: seq<nat>, r: Range, addr: nat) {
    forall x :: x in FreeIn(free, r) ==> addr < x
  }

  lemma LowestTaken(ours: seq<nat>, free: seq<nat>, ours': seq<nat>, free': seq<nat>, r: Range, addr: nat)
    requires Taken(ours, free, ours', free', addr) && forall x :: x in FreeIn(free, r) ==> addr <= x
    ensures NoneBelow(free', r, addr)
  {
    forall x | x in FreeIn(free', r) ensures addr < x {
      assert x in FreeIn(free, r);
    }
  }

  datatype AllocateResult = Waiting | Cancelled | OutOfBounds | Given(addr: nat)

  datatype ClaimError = ClaimCancelled | InUseBy(ident: Ident) | InUse | NotFree | OwnedByPeer(peer: Peer)

  /** What was sent to the caller, and whether the claim is to be tried again. */
  datatype ClaimResult = Claimed(done: bool) | Denied(error: ClaimError, done: bool) | Undecided

  /** Why an address of ours may be refused, from the table before. */
  ghost predicate Taker(t: Table, ident: Ident, addr: nat, error: ClaimError) {
    match error
    case InUseBy(holder) => HeldBy(t, holder, addr) && holder != ident && holder != Dotted(addr)
    case InUse => HeldBy(t, Dotted(addr), addr) && ident != Dotted(addr)
    case NotFree => HeldBy(t, "", addr)
    case _ => false
  }

  /** The address is held: by the claimant, or, without a name to go by, by anyone. */
  ghost predicate ClaimedFor(ident: Ident, addr: nat, t: Table) {
    if ident == NO_CONTAINER then Held(t, addr) else HeldBy(t, ident, addr)
  }

  /** What findOwner may return: a holder, or "" if there is none. */
  ghost predicate FoundOwner(t: Table, addr: nat, ident: Ident) {
    HeldBy(t, ident, addr) || (ident == "" && !Held(t, addr))
  }

  /** How claiming an address outside the universe may change the table. */
  ghost predicate OutsideStep(t: Table, dead: map<Ident, nat>, ident: Ident, cidr: CIDR, isContainer: bool, t': Table,
                              ok: bool) {
    exists prev: Ident ::
        FoundOwner(t, cidr.addr, prev) && OutsideStepFrom(t, dead, ident, cidr, isContainer, prev, t', ok)
  }

  ghost predicate OutsideStepFrom(t: Table, dead: map<Ident, nat>, ident: Ident, cidr: CIDR, isContainer: bool,
                                  prev: Ident, t': Table, ok: bool) {
    if prev == "" then ok && t' == Added(t, FiledUnder(ident, cidr.addr), cidr, isContainer)
    else if prev == ident || ident == NO_CONTAINER then ok && t' == t
    else if prev in dead then ok && exists k: nat ::
        HeldAt(t, prev, k, cidr.addr) &&
            t' == Added(Dropped(t, prev, k), FiledUnder(ident, cidr.addr), cidr, isContainer)
    else !ok && t' == t
  }

  /** The name "" must not be used: findOwner cannot tell it from no owner.  Once it holds an
      address outside the universe, any two other containers can both claim that address. */
  lemma NamelessHolderShares(t: Table, dead: map<Ident, nat>, cidr: CIDR, p: Ident, q: Ident)
    returns (t1: Table, t2: Table, t3: Table)
    requires !Held(t, cidr.addr) && p != q && p != NO_CONTAINER && q != NO_CONTAINER
    ensures OutsideStep(t, dead, "", cidr, true, t1, true)
    ensures OutsideStep(t1, dead, p, cidr, true, t2, true) && OutsideStep(t2, dead, q, cidr, true, t3, true)
    ensures HeldBy(t3, p, cidr.addr) && HeldBy(t3, q, cidr.addr) && !Once(t3, cidr.addr)
  {
    var a := cidr.addr;
    t1 := Added(t, "", cidr, true);
    t2 := Added(t1, p, cidr, true);
    t3 := Added(t2, q, cidr, true);
    ghost var k0, kp, kq := |AddressesOf(t, "")|, |AddressesOf(t1, p)|, |AddressesOf(t2, q)|;
    assert FoundOwner(t, a, "") && OutsideStepFrom(t, dead, "", cidr, true, "", t1, true);
    assert HeldAt(t1, "", k0, a);
    assert FoundOwner(t1, a, "") && OutsideStepFrom(t1, dead, p, cidr, true, "", t2, true);
    AddedAt(t1, p, cidr, true, "", k0, a);
    AddedAt(t1, p, cidr, true, p, kp, a);
    assert FoundOwner(t2, a, "") && OutsideStepFrom(t2, dead, q, cidr, true, "", t3, true);
    AddedAt(t2, q, cidr, true, p, kp, a);
    AddedAt(t2, q, cidr, true, q, kq, a);
    assert HeldAt(t3, p, kp, a) && HeldAt(t3, q, kq, a);
  }

  lemma AddedFor(t: Table, ident: Ident, cidr: CIDR, isContainer: bool)
    ensures var t' := Added(t, FiledUnder(ident, cidr.addr), cidr, isContainer);
            && ClaimedFor(ident, cidr.addr, t')
            && HeldBy(t', if ident == NO_CONTAINER then Dotted(cidr.addr) else ident, cidr.addr)
            && forall x: nat :: x != cidr.addr ==> (Held(t', x) <==> Held(t, x))
  {
    var name := FiledUnder(ident, cidr.addr);
    var t' := Added(t, name, cidr, isContainer);
    assert HeldAt(t', name, |AddressesOf(t, name)|, cidr.addr);
    forall x: nat ensures Held(t', x) <==> Held(t, x) || x == cidr.addr {
      AddedHeld(t, name, cidr, isContainer, x);
    }
  }

  /** A claim outside the universe affects nobody else's addresses, and no name but "" makes an
      address held twice. */
  lemma OutsideHolds(t: Table, dead: map<Ident, nat>, ident: Ident, cidr: CIDR, isContainer: bool, t': Table, ok: bool)
    requires OutsideStep(t, dead, ident, cidr, isContainer, t', ok)
    ensures ok ==> ClaimedFor(ident, cidr.addr, t')
    ensures forall x: nat :: x != cidr.addr ==> (Held(t', x) <==> Held(t, x))
    ensures Named(t) && ident != "" ==> Named(t')
  {
    var prev: Ident :| FoundOwner(t, cidr.addr, prev) &&
        OutsideStepFrom(t, dead, ident, cidr, isContainer, prev, t', ok);
    if prev == "" {
      AddedFor(t, ident, cidr, isContainer);
      if Named(t) { AddedNamed(t, ident, cidr, isContainer); }
    } else if prev == ident || ident == NO_CONTAINER {
      var k :| HeldAt(t, prev, k, cidr.addr);
    } else if prev in dead {
      var k: nat :| HeldAt(t, prev, k, cidr.addr) &&
          t' == Added(Dropped(t, prev, k), FiledUnder(ident, cidr.addr), cidr, isContainer);
      ReplacedHolds(t, prev, k, ident, cidr, isContainer);
    }
  }

  lemma AddedNamed(t: Table, ident: Ident, cidr: CIDR, isContainer: bool)
    requires Named(t) && !Held(t, cidr.addr)
    ensures ident != "" ==> Named(Added(t, FiledUnder(ident, cidr.addr), cidr, isContainer))
  {
    var name := FiledUnder(ident, cidr.addr);
    forall x: nat ensures Once(Added(t, name, cidr, isContainer), x) {
      assert Once(t, x);
      AddedHeld(t, name, cidr, isContainer, x);
    }
  }

  /** A dead holder makes room for the claimant. */
  lemma ReplacedHolds(t: Table, prev: Ident, k: nat, ident: Ident, cidr: CIDR, isContainer: bool)
    requires HeldAt(t, prev, k, cidr.addr)
    ensures var t' := Added(Dropped(t, prev, k), FiledUnder(ident, cidr.addr), cidr, isContainer);
            && ClaimedFor(ident, cidr.addr, t')
            && (forall x: nat :: x != cidr.addr ==> (Held(t', x) <==> Held(t, x)))
            && (Named(t) && ident != "" ==> Named(t'))
  {
    var d := Dropped(t, prev, k);
    forall x: nat | x != cidr.addr ensures Held(d, x) <==> Held(t, x) {
      DroppedHeld(t, d, prev, k, x);
    }
    AddedFor(d, ident, cidr, isContainer);
    if Named(t) {
      forall x: nat ensures Once(d, x) {
        assert Once(t, x);
        DroppedHeld(t, d, prev, k, x);
      }
      assert Once(t, cidr.addr);
      DroppedHeld(t, d, prev, k, cidr.addr);
      AddedNamed(d, ident, cidr, isContainer);
    }
  }

  lemma AddedTwice(t: Table, ident: Ident, cidr: CIDR, isContainer: bool)
    requires Held(t, cidr.addr)
    ensures !Once(Added(t, ident, cidr, isContainer), cidr.addr)
  {
    var i, k :| HeldAt(t, i, k, cidr.addr);
    var l := |AddressesOf(t, ident)|;
    AddedAt(t, ident, cidr, isContainer, i, k, cidr.addr);
    AddedAt(t, ident, cidr, isContainer, ident, l, cidr.addr);
    assert HeldAt(Added(t, ident, cidr, isContainer), ident, l, cidr.addr);
  }

  /** An address outside the universe that is held once stays so, whoever claims it, just when
      it is not the empty name that holds it. */
  lemma OutsideOnceIff(t: Table, dead: map<Ident, nat>, ident: Ident, cidr: CIDR, isContainer: bool, t': Table,
                       ok: bool)
    requires Once(t, cidr.addr) && OutsideStep(t, dead, ident, cidr, isContainer, t', ok)
    ensures Once(t', cidr.addr) <==> !HeldBy(t, "", cidr.addr)
  {
    var x, name := cidr.addr, FiledUnder(ident, cidr.addr);
    var prev: Ident :| FoundOwner(t, x, prev) && OutsideStepFrom(t, dead, ident, cidr, isContainer, prev, t', ok);
    if prev == "" {
      if HeldBy(t, "", x) { AddedTwice(t, name, cidr, isContainer); } else { AddedHeld(t, name, cidr, isContainer, x); }
    } else {
      assert !HeldBy(t, "", x);
      if prev != ident && ident != NO_CONTAINER && prev in dead {
        var k: nat :| HeldAt(t, prev, k, x) && t' == Added(Dropped(t, prev, k), name, cidr, isContainer);
        DroppedHeld(t, Dropped(t, prev, k), prev, k, x);
        AddedHeld(Dropped(t, prev, k), name, cidr, isContainer, x);
      }
    }
  }

  /** The ring is cut for the given peers, in the order of their names and without repetition. */
  ghost predicate SeededBy(b: Bounds, es: seq<Entry>, seeds: seq<Peer>, peers: seq<Peer>) {
    Seeding.CutFor(b, es, seeds) && Seeding.Rising(seeds) && forall p :: p in seeds <==> p in peers
  }

  /** Whatever the order of the names agreed on, and however often they occur, the ring is the same. */
  lemma SameNamesSameRing(b: Bounds, es: seq<Entry>, seeds: seq<Peer>, peers: seq<Peer>,
                          es': seq<Entry>, seeds': seq<Peer>, peers': seq<Peer>)
    requires SeededBy(b, es, seeds, peers) && SeededBy(b, es', seeds', peers')
    requires forall p :: p in peers <==> p in peers'
    ensures seeds == seeds' && es == es'
  {
    Seeding.RisingUnique(seeds, seeds');
  }

  /** A claim of an address of ours is granted to the anonymous, to the holder, and if nobody holds it;
      but never if it is the empty name that does. */
  ghost predicate MayClaim(t: Table, ident: Ident, addr: nat) {
    !HeldBy(t, "", addr) && (ident == NO_CONTAINER || HeldBy(t, ident, addr) || !Held(t, addr))
  }

  /** The answer about an address of the universe that is not ours.  Success is reported without the
      address only to those who asked for that. */
  ghost predicate Elsewhere(owner: Peer, noErrorOnUnknown: bool, reachable: bool, result: ClaimResult) {
    && (result.Claimed? <==> noErrorOnUnknown && (owner == UNKNOWN_PEER || !reachable))
    && (result.Denied? <==> !noErrorOnUnknown && owner != UNKNOWN_PEER && !reachable)
    && (!result.Undecided? ==> !result.done) && (result.Denied? ==> result.error == OwnedByPeer(owner))
  }

  /** The answer about an address of the universe; t is the table before. */
  ghost predicate Answered(b: Bounds, us: Peer, es: seq<Entry>, t: Table, ident: Ident, addr: nat,
                           noErrorOnUnknown: bool, reachable: bool, result: ClaimResult) {
    if Mine(b, us, es, addr)
    then result == Claimed(true) || (result.Denied? && result.done && Taker(t, ident, addr, result.error))
    else Elsewhere(Owner(es, addr), noErrorOnUnknown, reachable, result)
  }

  /** Outside the universe only a living holder of another name is a reason to refuse. */
  ghost predicate TakenOutside(t: Table, dead: map<Ident, nat>, ident: Ident, addr: nat, result: ClaimResult) {
    && result.Denied? && result.done && result.error.InUseBy? && HeldBy(t, result.error.ident, addr)
    && result.error.ident !in dead && result.error.ident != ident && ident != NO_CONTAINER
  }

  lemma CoveredIsMine(b: Bounds, us: Peer, es: seq<Entry>, ranges: seq<Range>, x: nat)
    requires RingRanges.Ascending(ranges, b.lo, b.hi)
    requires b.lo <= x < b.hi ==> (Covers(ranges, x) <==> es != [] && Owner(es, x) == us)
    ensures Covers(ranges, x) <==> Mine(b, us, es, x)
  {
  }

  lemma DonatedIsMine(b: Bounds, us: Peer, es: seq<Entry>, ours: seq<nat>, free: seq<nat>, c: Range)
    requires InStep(b, us, es, ours, free)
    requires c.start < c.end && forall x: nat :: c.Contains(x) ==> Contains(free, x)
    ensures b.lo <= c.start < c.end <= b.hi
    ensures forall x: nat :: c.start <= x < c.end ==> Owner(es, x) == us
  {
    forall x: nat | c.start <= x < c.end ensures Mine(b, us, es, x) && Owner(es, x) == us {
      assert c.Contains(x) && Contains(free, x);
    }
    assert c.Contains(c.start) && c.Contains(c.end - 1);
  }

  /** What is given away leaves the space and the ring together. */
  lemma DonatedInStep(b: Bounds, us: Peer, es: seq<Entry>, es': seq<Entry>, ours: seq<nat>, free: seq<nat>,
                      free': seq<nat>, c: Range, to: Peer)
    requires InStep(b, us, es, ours, free) && Apart(ours, free) && es != [] && es' != [] && to != us
    requires forall x: nat :: c.Contains(x) ==> Contains(free, x)
    requires forall x: nat :: Contains(free', x) <==> Contains(free, x) && !c.Contains(x)
    requires forall x :: b.lo <= x < b.hi ==> Owner(es', x) == if c.start <= x < c.end then to else Owner(es, x)
    ensures InStep(b, us, es', ours, free')
  {
    forall x: nat ensures Contains(ours, x) || Contains(free', x) <==> Mine(b, us, es', x) {
      assert Contains(ours, x) || Contains(free, x) <==> Mine(b, us, es, x);
    }
  }

  lemma ReportedInStep(b: Bounds, us: Peer, es: seq<Entry>, es': seq<Entry>, ours: seq<nat>, free: seq<nat>)
    requires Sorted(es) && InStep(b, us, es, ours, free) && Reported(b, us, es, es', free)
    ensures InStep(b, us, es', ours, free)
  {
    forall x: nat ensures Mine(b, us, es', x) <==> Mine(b, us, es, x) {
      ReportedOwner(b, us, es, es', free, x);
    }
  }

  /** What was ours stays ours. */
  ghost predicate TakesNothing(b: Bounds, us: Peer, es: seq<Entry>, es': seq<Entry>) {
    forall x: nat :: Mine(b, us, es, x) ==> Mine(b, us, es', x)
  }

  lemma UpdatedInStep(b: Bounds, us: Peer, es: seq<Entry>, es': seq<Entry>, ours: seq<nat>, free: seq<nat>,
                      free': seq<nat>)
    requires InStep(b, us, es, ours, free)
    requires forall x: nat :: Contains(ours, x) || Contains(free', x) <==>
             Contains(ours, x) || Contains(free, x) || Mine(b, us, es', x)
    ensures InStep(b, us, es', ours, free') <==> TakesNothing(b, us, es, es')
  {
    if InStep(b, us, es', ours, free') {
      forall x: nat | Mine(b, us, es, x) ensures Mine(b, us, es', x) {
        assert Contains(ours, x) || Contains(free, x);
      }
    }
  }

  lemma UpdatedIff(r: Ring, gossip: Ring, us: Peer)
    requires Sorted(r.entries) && MergeRing(r, gossip, us).Accepted?
    ensures MergeRing(r, gossip, us).updated <==> MergeRing(r, gossip, us).ring.entries != r.entries
  {
    MergeKeepsSurvivors(r.entries, gossip.entries, us, None);
  }

  // ---------------------------------------------------------------- merging a ring

  /** Somebody else's token, unknown to us, lies on an address of ours. */
  ghost predicate CutAt(b: Bounds, us: Peer, es: seq<Entry>, other: seq<Entry>, u: nat) {
    u in ToMap(other) && u !in ToMap(es) && ToMap(other)[u].peer != us && Mine(b, us, es, u)
  }

  ghost predicate CutsInto(b: Bounds, us: Peer, es: seq<Entry>, other: seq<Entry>) {
    exists u :: CutAt(b, us, es, other, u)
  }

  /** The merged ring says that an address where somebody else put a new token is not ours. */
  lemma CutTakes(b: Bounds, us: Peer, es: seq<Entry>, other: seq<Entry>, u: nat)
    requires Sorted(es) && Sorted(other) && MergeEntries(es, other, us).Merged? && CutAt(b, us, es, other, u)
    ensures !Mine(b, us, MergeEntries(es, other, us).entries, u)
  {
    MergeIsJoin(es, other, us);
    HeadsSelf(Join(ToMap(es), ToMap(other)).Keys, u);
    OwnerIsHead(MergeEntries(es, other, us).entries, u, u);
  }

  /** The head of x after the join is a token of ours or a new one on an address of ours. */
  lemma HeadAfterJoin(keys: set<nat>, keys': set<nat>, t: nat, t': nat, x: nat)
    requires keys <= keys' && Heads(keys, t, x) && Heads(keys', t', x)
    ensures t' == t || (t' !in keys && Heads(keys, t, t'))
  {
    if t' in keys {
      HeadUnique(keys, t, t', x);
    } else {
      assert !Within(t', x, t);
      forall y | y in keys ensures !Within(t, t', y) {
        assert !Within(t, x, y);
      }
    }
  }

  lemma UncutIsKept(b: Bounds, us: Peer, es: seq<Entry>, other: seq<Entry>, x: nat)
    requires Valid(b, es) && Valid(b, other) && MergeEntries(es, other, us).Merged?
    requires !CutsInto(b, us, es, other) && Mine(b, us, es, x)
    ensures Mine(b, us, MergeEntries(es, other, us).entries, x)
  {
    var m, o, es' := ToMap(es), ToMap(other), MergeEntries(es, other, us).entries;
    MergeIsJoin(es, other, us);
    MergeNotEmpty(es, other, us);
    var t := OwnerHead(es, x);
    var t' := OwnerHead(es', x);
    HeadAfterJoin(m.Keys, Join(m, o).Keys, t, t', x);
    if t' == t {
      OursNotOverridden(us, es, other, t);
    } else {
      OwnerIsHead(es, t, t');
      assert b.lo <= t' < b.hi by { ValidIffMapValid(b, other); }
      assert !CutAt(b, us, es, other, t');
    }
  }

  lemma MergeNotEmpty(es: seq<Entry>, other: seq<Entry>, us: Peer)
    requires Sorted(es) && Sorted(other) && MergeEntries(es, other, us).Merged? && es != []
    ensures MergeEntries(es, other, us).entries != []
  {
    MergeIsJoin(es, other, us);
    MapAt(es, 0);
  }

  /** A newer entry at a token of ours is refused. */
  lemma OursNotOverridden(us: Peer, es: seq<Entry>, other: seq<Entry>, t: nat)
    requires Sorted(es) && Sorted(other) && MergeEntries(es, other, us).Merged?
    requires t in ToMap(es) && ToMap(es)[t].peer == us
    ensures Join(ToMap(es), ToMap(other))[t] == ToMap(es)[t]
  {
    StompedIffStomps(es, other, us, None);
    MapFacts(es);
    MapFacts(other);
    if t in ToMap(other) { assert !Clash(us, ToMap(es)[t], ToMap(other)[t]); }
  }

  /** A ring that is accepted takes nothing from us just when none of its new tokens lies on an
      address of ours. */
  lemma TakesNothingIff(b: Bounds, us: Peer, es: seq<Entry>, other: seq<Entry>)
    requires Valid(b, es) && Valid(b, other) && MergeEntries(es, other, us).Merged?
    ensures TakesNothing(b, us, es, MergeEntries(es, other, us).entries) <==> !CutsInto(b, us, es, other)
  {
    var es' := MergeEntries(es, other, us).entries;
    if u :| CutAt(b, us, es, other, u) {
      CutTakes(b, us, es, other, u);
      assert Mine(b, us, es, u) && !Mine(b, us, es', u);
    } else {
      forall x: nat | Mine(b, us, es, x) ensures Mine(b, us, es', x) {
        UncutIsKept(b, us, es, other, x);
      }
    }
  }

  /** The walk does not look at the stretch before the first token, which belongs to the last
      entry: a ring with a token there is accepted, and takes what lies from there to ours. */
  lemma WrapIsUnguarded(b: Bounds, us: Peer, them: Peer, t: nat, x: nat)
    requires b.lo <= x < t < b.hi && them != us
    ensures var es, other := [Entry(t, us, 0, 0)], [Entry(b.lo, them, 0, 0), Entry(t, us, 0, 0)];
            && Valid(b, es) && MergeRing(Ring(b, es, []), Ring(b, other, []), us).Accepted?
            && Mine(b, us, es, x) && !Mine(b, us, Received(Ring(b, es, []), Ring(b, other, []), us).entries, x)
  {
    var mine, theirs := Entry(t, us, 0, 0), Entry(b.lo, them, 0, 0);
    var es, other := [mine], [theirs, mine];
    assert other[1..] == [mine] && es[1..] == [] && [mine][1..] == [];
    assert MergeFrom([], [], us, Some(us)) == Merged([], false);
    assert MergeFrom(es, [mine], us, None) == Merged([mine], false);
    assert [theirs] + [mine] == other;
    assert MergeEntries(es, other, us) == Merged(other, true);
    FirstAboveIs(es, x, 0);
    FirstAboveIs(other, x, 1);
  }

  // ---------------------------------------------------------------- an allocator as a machine

  /** What an allocator keeps. */
  datatype State = State(ring: Ring, owned: Table, ours: seq<nat>, free: seq<nat>)

  /** What it does at a time.  Allocating stands for any way to take a free address of the
      universe; shutting down leaves all ranges to an heir. */
  datatype Action =
    | Creates(peers: seq<Peer>)
    | Updates(gossip: Ring)
    | Donates(c: Range, to: Peer)
    | Reports
    | Allocates(ident: Ident, cidr: CIDR, isContainer: bool)
    | ClaimsOutside(ident: Ident, cidr: CIDR, isContainer: bool, dead: map<Ident, nat>)
    | Frees(ident: Ident, k: nat)
    | Deletes(ident: Ident)
    | ShutsDown(heir: Peer)

  /** What the new ring gives us and we did not have becomes free. */
  ghost predicate Gained(b: Bounds, us: Peer, es': seq<Entry>, ours: seq<nat>, free: seq<nat>, free': seq<nat>) {
    forall x: nat :: Contains(free', x) <==> Contains(free, x) || (Mine(b, us, es', x) && !Contains(ours, x))
  }

  /** The ring learns the number of free addresses of each of our ranges. */
  ghost predicate ReportsTo(b: Bounds, us: Peer, es: seq<Entry>, free: seq<nat>, es': seq<Entry>) {
    es' == es || exists f {:trigger Counted(b, us, es, free, f)} ::
      Counted(b, us, es, free, f) && es' == Report(es, RingState.JoinOverZero(b, es, f))
  }

  ghost predicate Counted(b: Bounds, us: Peer, es: seq<Entry>, free: seq<nat>, f: map<nat, nat>) {
    && es != [] && Counts(RingRanges.OwnedRanges(b, es, us), free, f)
    && (b.lo in f && es[0].token != b.lo ==> es[|es| - 1].token in f)
  }

  ghost predicate Freed(b: Bounds, s: State, ident: Ident, k: nat, s': State) {
    && ident in s.owned && k < |s.owned[ident].cidrs| && s'.owned == Dropped(s.owned, ident, k)
    && var addr := s.owned[ident].cidrs[k].addr;
       if b.lo <= addr < b.hi then Taken(s'.ours, s'.free, s.ours, s.free, addr) && !Contains(s'.ours, addr)
       else s'.ours == s.ours && s'.free == s.free
  }

  ghost predicate Released(s: State, ident: Ident, s': State) {
    && s'.owned == s.owned - {ident}
    && (forall x: nat :: Contains(s'.ours, x) <==> Contains(s.ours, x) && !Listed(AddressesOf(s.owned, ident), x))
    && (forall x: nat :: Contains(s'.free, x) <==>
        Contains(s.free, x) || (Contains(s.ours, x) && !Contains(s'.ours, x)))
  }

  /** A chunk of free addresses goes to another peer. */
  ghost predicate Donated(us: Peer, s: State, c: Range, to: Peer, s': State) {
    && to != us && c.start < c.end && (forall x: nat :: c.Contains(x) ==> Contains(s.free, x))
    && (forall x: nat :: Contains(s'.free, x) <==> Contains(s.free, x) && !c.Contains(x))
    && Sorted(s'.ring.entries)
    && Granted(s.ring.b, us, ToMap(s.ring.entries), ToMap(s'.ring.entries), c.start, c.end, to)
  }

  ghost predicate SameRing(s: State, s': State) {
    s'.ring == s.ring
  }

  /** Only the entries of the ring and the free addresses change. */
  ghost predicate SameHoldings(s: State, s': State) {
    s'.ring == s.ring.(entries := s'.ring.entries) && s'.owned == s.owned && s'.ours == s.ours
  }

  /** The allocator of peer us can pass from s to s' by the action. */
  ghost predicate Acts(us: Peer, s: State, a: Action, s': State) {
    var b := s.ring.b;
    match a
    case Creates(peers) =>
      && s.ring.entries == [] && s'.ring.b == b && s'.owned == s.owned && s'.ours == s.ours
      && SeededBy(b, s'.ring.entries, s'.ring.seeds, peers) && s'.ring.entries != []
      && Gained(b, us, s'.ring.entries, s.ours, s.free, s'.free)
    case Updates(gossip) =>
      && s'.ring == Received(s.ring, gossip, us) && s'.owned == s.owned && s'.ours == s.ours
      && if s'.ring.entries == s.ring.entries then s'.free == s.free
          else Gained(b, us, s'.ring.entries, s.ours, s.free, s'.free)
    case Donates(c, to) => SameHoldings(s, s') && s.ring.entries != [] && Donated(us, s, c, to, s')
    case Reports => SameHoldings(s, s') && s'.free == s.free &&
        ReportsTo(b, us, s.ring.entries, s.free, s'.ring.entries)
    case Allocates(ident, cidr, isContainer) =>
      && SameRing(s, s') && b.lo <= cidr.addr < b.hi && Taken(s.ours, s.free, s'.ours, s'.free, cidr.addr)
      && s'.owned == Added(s.owned, FiledUnder(ident, cidr.addr), cidr, isContainer)
    case ClaimsOutside(ident, cidr, isContainer, dead) =>
      && SameRing(s, s') && s'.ours == s.ours && s'.free == s.free && !(b.lo <= cidr.addr < b.hi)
      && exists ok {:trigger OutsideStep(s.owned, dead, ident, cidr, isContainer, s'.owned, ok)} ::
           OutsideStep(s.owned, dead, ident, cidr, isContainer, s'.owned, ok)
    case Frees(ident, k) => SameRing(s, s') && Freed(b, s, ident, k, s')
    case Deletes(ident) => SameRing(s, s') && Released(s, ident, s')
    case ShutsDown(heir) =>
      && heir != us && s'.ring == s.ring.(entries := Transferred(s.ring.entries, us, heir))
      && s'.owned == s.owned && s'.ours == [] && s'.free == []
  }

  /** A ring has been created if that was possible. */
  ghost predicate Established(us: Peer, s: State, consensus: Option<seq<Peer>>, s': State) {
    s' == s || (consensus.Some? && Acts(us, s, Creates(consensus.value), s'))
  }

  /** And then the action was done, or nothing. */
  ghost predicate EstablishedThen(us: Peer, s: State, consensus: Option<seq<Peer>>, a: Action, s': State) {
    exists mid :: Established(us, s, consensus, mid) && (s' == mid || Acts(us, mid, a, s'))
  }

  /** The holders have been deleted one after the other. */
  ghost predicate DeletedAll(us: Peer, s: State, idents: seq<Ident>, s': State)
    decreases |idents|, 0
  {
    if idents == [] then s' == s else DeletedLast(us, s, idents[..|idents| - 1], idents[|idents| - 1], s')
  }

  ghost predicate DeletedLast(us: Peer, s: State, idents: seq<Ident>, ident: Ident, s': State)
    decreases |idents|, 1
  {
    exists mid :: DeletedAll(us, s, idents, mid) && Acts(us, mid, Deletes(ident), s')
  }

  lemma DeletedMore(us: Peer, s: State, idents: seq<Ident>, mid: State, ident: Ident, s': State)
    requires DeletedAll(us, s, idents, mid) && Acts(us, mid, Deletes(ident), s')
    ensures DeletedAll(us, s, idents + [ident], s')
  {
    assert (idents + [ident])[..|idents|] == idents;
    assert DeletedLast(us, s, idents, ident, s');
  }

  /** Ring, space and table of a peer fit together. */
  ghost predicate Fits(us: Peer, s: State) {
    && InStep(s.ring.b, us, s.ring.entries, s.ours, s.free) && Apart(s.ours, s.free)
    && Accounted(s.ring.b, s.owned, s.ours) && OnceInside(s.ring.b, s.owned)
  }

  lemma GainedFits(b: Bounds, us: Peer, es: seq<Entry>, es': seq<Entry>, ours: seq<nat>, free: seq<nat>,
                   free': seq<nat>)
    requires InStep(b, us, es, ours, free) && Apart(ours, free) && Gained(b, us, es', ours, free, free') &&
             TakesNothing(b, us, es, es')
    ensures InStep(b, us, es', ours, free') && Apart(ours, free')
  {
    UpdatedInStep(b, us, es, es', ours, free, free');
  }

  /** What merging a ring means for the space. */
  lemma UpdatesIff(us: Peer, s: State, gossip: Ring, s': State)
    requires Valid(s.ring.b, s.ring.entries) && InStep(s.ring.b, us, s.ring.entries, s.ours, s.free)
    requires Acts(us, s, Updates(gossip), s')
    ensures InStep(s.ring.b, us, s'.ring.entries, s'.ours, s'.free) <==>
            MergeRing(s.ring, gossip, us).Refused? || !CutsInto(s.ring.b, us, s.ring.entries, gossip.entries)
  {
    var b := s.ring.b;
    if MergeRing(s.ring, gossip, us).Accepted? {
      TakesNothingIff(b, us, s.ring.entries, gossip.entries);
      if s'.ring.entries != s.ring.entries {
        UpdatedInStep(b, us, s.ring.entries, s'.ring.entries, s.ours, s.free, s'.free);
      }
    }
  }

  lemma AllocatedFits(us: Peer, s: State, a: Action, s': State)
    requires Fits(us, s) && Acts(us, s, a, s') && a.Allocates?
    ensures Fits(us, s')
  {
    var b, name := s.ring.b, FiledUnder(a.ident, a.cidr.addr);
    TakenInStep(b, us, s.ring.entries, s.ours, s.free, s'.ours, s'.free, a.cidr.addr);
    TakenAccounted(b, s.owned, s'.owned, s.ours, s.free, s'.ours, s'.free, name, a.cidr, a.isContainer);
    AddedOnce(b, s.owned, s'.owned, name, a.cidr, a.isContainer);
  }

  lemma OutsideFits(b: Bounds, t: Table, ours: seq<nat>, dead: map<Ident, nat>, ident: Ident, cidr: CIDR,
                    isContainer: bool, t': Table, ok: bool)
    requires Accounted(b, t, ours) && OnceInside(b, t) && !(b.lo <= cidr.addr < b.hi)
    requires OutsideStep(t, dead, ident, cidr, isContainer, t', ok)
    ensures Accounted(b, t', ours) && OnceInside(b, t')
  {
    var name := FiledUnder(ident, cidr.addr);
    var prev: Ident :| FoundOwner(t, cidr.addr, prev) &&
        OutsideStepFrom(t, dead, ident, cidr, isContainer, prev, t', ok);
    if prev == "" {
      AddedOutside(b, t, t', ours, name, cidr, isContainer);
    } else if prev != ident && ident != NO_CONTAINER && prev in dead {
      var k: nat :| HeldAt(t, prev, k, cidr.addr) && t' == Added(Dropped(t, prev, k), name, cidr, isContainer);
      DroppedOnce(b, t, Dropped(t, prev, k), prev, k);
      DroppedOutside(b, t, Dropped(t, prev, k), ours, prev, k);
      AddedOutside(b, Dropped(t, prev, k), t', ours, name, cidr, isContainer);
    }
  }

  /** The space frees an address of the table exactly when it lies inside the universe; either way
      ring, space and table stay in step. */
  lemma FreedKeeps(b: Bounds, us: Peer, es: seq<Entry>, t: Table, t': Table, ours: seq<nat>, free: seq<nat>,
                   ours': seq<nat>, free': seq<nat>, ident: Ident, k: nat, addr: nat, freed: bool)
    requires InStep(b, us, es, ours, free) && Apart(ours, free) && Accounted(b, t, ours) && OnceInside(b, t)
    requires HeldAt(t, ident, k, addr) && t' == Dropped(t, ident, k) && (freed <==> Contains(ours, addr))
    requires if freed then Taken(ours', free', ours, free, addr) && Apart(ours', free')
             else ours' == ours && free' == free
    ensures InStep(b, us, es, ours', free') && Accounted(b, t', ours') && OnceInside(b, t')
    ensures freed <==> b.lo <= addr < b.hi
    ensures freed ==> !Contains(ours', addr) && Contains(free', addr) && !Held(t', addr)
    ensures Named(t) ==> Named(t') && !Held(t', addr)
  {
    assert Held(t, addr);
    DroppedOnce(b, t, t', ident, k);
    if freed {
      TakenInStep(b, us, es, ours, free, ours', free', addr);
      DroppedInside(b, t, t', ours, free, ours', free', ident, k);
    } else {
      DroppedOutside(b, t, t', ours, ident, k);
    }
  }

  lemma FreedFits(us: Peer, s: State, ident: Ident, k: nat, s': State)
    requires Fits(us, s) && SameRing(s, s') && Freed(s.ring.b, s, ident, k, s')
    ensures Fits(us, s')
  {
    var b, addr := s.ring.b, s.owned[ident].cidrs[k].addr;
    assert HeldAt(s.owned, ident, k, addr);
    assert Held(s.owned, addr);
    if b.lo <= addr < b.hi { FreedApart(s.ours, s.free, s'.ours, s'.free, addr); }
    FreedKeeps(b, us, s.ring.entries, s.owned, s'.owned, s.ours, s.free, s'.ours, s'.free, ident, k, addr,
               b.lo <= addr < b.hi);
  }

  lemma FreedApart(ours: seq<nat>, free: seq<nat>, ours': seq<nat>, free': seq<nat>, addr: nat)
    requires Apart(ours, free) && Taken(ours', free', ours, free, addr) && !Contains(ours', addr)
    ensures Apart(ours', free')
  {
  }

  lemma ReleasedFits(us: Peer, s: State, ident: Ident, s': State)
    requires Fits(us, s) && SameRing(s, s') && Released(s, ident, s')
    ensures Fits(us, s')
  {
    DeletedAccounted(s.ring.b, s.owned, s.ours, s'.ours, ident);
    DeletedOnce(s.ring.b, s.owned, ident);
  }

  lemma DonatedFits(us: Peer, s: State, c: Range, to: Peer, s': State)
    requires Fits(us, s) && SameHoldings(s, s') && Valid(s.ring.b, s.ring.entries) && s.ring.entries != [] &&
             Donated(us, s, c, to, s')
    ensures Fits(us, s') && Grantable(s.ring.b, us, ToMap(s.ring.entries), c.start, c.end)
  {
    var b, es, es' := s.ring.b, s.ring.entries, s'.ring.entries;
    DonatedIsMine(b, us, es, s.ours, s.free, c);
    GrantableByOwner(b, us, es, c.start, c.end);
    assert c.start in ToMap(es');
    GrantOwner(b, us, es, es', c.start, c.end, to);
    DonatedInStep(b, us, es, es', s.ours, s.free, s'.free, c, to);
  }

  lemma CountsCounted(b: Bounds, us: Peer, es: seq<Entry>, free: seq<nat>, f: map<nat, nat>)
    requires Valid(b, es) && es != [] && Counts(RingRanges.OwnedRanges(b, es, us), free, f)
    ensures Counted(b, us, es, free, f) && Reportable(b, us, ToMap(es), RingState.JoinOverZero(b, es, f))
  {
    JoinedDefined(b, es, us, free, f);
    CountsReportable(b, es, us, free, f);
  }

  lemma CountedFits(b: Bounds, us: Peer, es: seq<Entry>, es': seq<Entry>, ours: seq<nat>, free: seq<nat>,
                    f: map<nat, nat>)
    requires InStep(b, us, es, ours, free) && Valid(b, es) && Counted(b, us, es, free, f)
    requires es' == Report(es, RingState.JoinOverZero(b, es, f))
    ensures InStep(b, us, es', ours, free) && Reported(b, us, es, es', free)
    ensures Reportable(b, us, ToMap(es), RingState.JoinOverZero(b, es, f))
  {
    CountsReportable(b, es, us, free, f);
    ReportArrives(b, us, es, es', free, f);
    ReportedInStep(b, us, es, es', ours, free);
  }

  lemma ReportedFits(b: Bounds, us: Peer, es: seq<Entry>, es': seq<Entry>, ours: seq<nat>, free: seq<nat>)
    returns (f: map<nat, nat>)
    requires InStep(b, us, es, ours, free) && Valid(b, es) && ReportsTo(b, us, es, free, es')
    ensures InStep(b, us, es', ours, free)
    ensures Reportable(b, us, ToMap(es), f) && es' == Report(es, f)
  {
    if es' == es {
      f := map[];
      assert Report(es, f) == es;
    } else {
      var g :| Counted(b, us, es, free, g) && es' == Report(es, RingState.JoinOverZero(b, es, g));
      f := RingState.JoinOverZero(b, es, g);
      CountedFits(b, us, es, es', ours, free, g);
    }
  }

  /** Every action keeps ring, space and table in step, except that shutting down ends the
      allocator, and that a ring received must take nothing. */
  lemma ActKeepsFit(us: Peer, s: State, a: Action, s': State)
    requires Fits(us, s) && Valid(s.ring.b, s.ring.entries) && Acts(us, s, a, s') && !a.ShutsDown?
    requires a.Updates? ==> s'.ring.b == s.ring.b && TakesNothing(s.ring.b, us, s.ring.entries, s'.ring.entries)
    ensures Fits(us, s')
  {
    var b := s.ring.b;
    match a
    case Creates(_) => GainedFits(b, us, s.ring.entries, s'.ring.entries, s.ours, s.free, s'.free);
    case Updates(_) =>
      if s'.ring.entries != s.ring.entries {
        GainedFits(b, us, s.ring.entries, s'.ring.entries, s.ours, s.free, s'.free);
      }
    case Donates(c, to) => DonatedFits(us, s, c, to, s');
    case Reports => var _ := ReportedFits(b, us, s.ring.entries, s'.ring.entries, s.ours, s.free);
    case Allocates(_, _, _) => AllocatedFits(us, s, a, s');
    case ClaimsOutside(ident, cidr, isContainer, dead) =>
      var ok :| OutsideStep(s.owned, dead, ident, cidr, isContainer, s'.owned, ok);
      OutsideFits(b, s.owned, s.ours, dead, ident, cidr, isContainer, s'.owned, ok);
    case Frees(ident, k) => FreedFits(us, s, ident, k, s');
    case Deletes(ident) => ReleasedFits(us, s, ident, s');
  }
}
