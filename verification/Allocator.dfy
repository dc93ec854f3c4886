/** The IP address allocator: ring, space and table of owned addresses kept in step
    (ipam/allocator.go, ipam/allocate.go, ipam/claim.go). */
module Allocator {
  import Bits
  import opened Address
  import opened Cidrs
  import opened Boundaries
  import opened Space
  import opened Holdings
  import opened RingEntries
  import opened RingGrant
  import opened RingMerge
  import opened RingOps
  import Seeding
  import opened RingState
  import opened FreeReport
  import opened Actions

  /** Frees the addresses one by one; those that are not ours are passed over. */
  method FreeAll(space: AddressSpace, cidrs: seq<CIDR>)
    requires space.Valid()
    modifies space
    ensures space.Valid()
    ensures forall x: nat :: Contains(space.ours, x) <==> Contains(old(space.ours), x) && !Listed(cidrs, x)
    ensures forall x: nat :: Contains(space.ours, x) || Contains(space.free, x) <==>
            Contains(old(space.ours), x) || Contains(old(space.free), x)
  {
    for i := 0 to |cidrs|
      invariant space.Valid()
      invariant forall x: nat :: Contains(space.ours, x) <==> Contains(old(space.ours), x) && !Listed(cidrs[..i], x)
      invariant forall x: nat :: Contains(space.ours, x) || Contains(space.free, x) <==>
                Contains(old(space.ours), x) || Contains(old(space.free), x)
    {
      forall x: nat ensures Listed(cidrs[..i + 1], x) <==> Listed(cidrs[..i], x) || x == cidrs[i].addr {
        ListedSnoc(cidrs, i, x);
      }
      var _ := space.Free(cidrs[i].addr);
    }
    assert cidrs[..|cidrs|] == cidrs;
  }

  /** The table after a claim of an address outside the universe, and the answer. */
  method ClaimedOutside(t: Table, dead: map<Ident, nat>, ident: Ident, cidr: CIDR, isContainer: bool)
    returns (t': Table, result: ClaimResult)
    ensures OutsideStep(t, dead, ident, cidr, isContainer, t', result.Claimed?)
    ensures result == Claimed(true) || (TakenOutside(t, dead, ident, cidr.addr, result) && t' == t)
  {
    var previousOwner := FindOwner(t, cidr.addr);
    var name := FiledUnder(ident, cidr.addr);
    t', result := t, Claimed(true);
    if previousOwner == "" {
      t' := Added(t, name, cidr, isContainer);
    } else if previousOwner == ident {
    } else if ident == NO_CONTAINER {
    } else if previousOwner in dead {
      var rest, _, _ := RemoveOwned(t, previousOwner, cidr.addr);
      t' := Added(rest, name, cidr, isContainer);
    } else {
      result := Denied(InUseBy(previousOwner), true);
    }
    assert OutsideStepFrom(t, dead, ident, cidr, isContainer, previousOwner, t', result.Claimed?);
  }

  /** claim.Try for an address that the ring says is not ours. */
  method ClaimTheirs(owner: Peer, noErrorOnUnknown: bool, reachable: bool) returns (result: ClaimResult)
    ensures Elsewhere(owner, noErrorOnUnknown, reachable, result)
  {
    if owner == UNKNOWN_PEER {
      return if noErrorOnUnknown then Claimed(false) else Undecided;
    } else if reachable {
      return Undecided;
    } else {
      return if noErrorOnUnknown then Claimed(false) else Denied(OwnedByPeer(owner), false);
    }
  }

  class Allocator {
    const ring: LiveRing
    const space: AddressSpace
    var owned: Table
    var dead: map<Ident, nat>
    var awaitingConsensus: bool

    ghost predicate Valid()
      reads this, ring, space
    {
      && ring.Valid() && ring.us != UNKNOWN_PEER
      && Block(Range(ring.b.lo, ring.b.hi)) && ring.b.hi < Bits.Pow2(ADDRESS_BITS)
      && (awaitingConsensus ==> ring.entries == [])
      && space.Valid()
      && InStep(ring.b, ring.us, ring.entries, space.ours, space.free)
      && Accounted(ring.b, owned, space.ours)
      && OnceInside(ring.b, owned)
    }

    /** What the allocator keeps, as a value. */
    ghost function Abs(): State
      reads this, ring, space
    {
      State(Ring(ring.b, ring.entries, ring.seeds), owned, space.ours, space.free)
    }

    /** A new allocator owns nothing. */
    constructor (universe: Bounds, us: Peer)
      requires Block(Range(universe.lo, universe.hi)) && universe.hi < Bits.Pow2(ADDRESS_BITS) && us != UNKNOWN_PEER
      ensures Valid() && fresh(ring) && fresh(space)
      ensures ring.b == universe && ring.us == us && ring.entries == [] && owned == map[] && Named(owned)
    {
      ring := new LiveRing(universe, us);
      space := new AddressSpace();
      owned, dead, awaitingConsensus := map[], map[], false;
    }

    // -------------------------------------------------------------- taking addresses

    /** If we had heard that this container died, it did not. */
    method Resurrect(ident: Ident)
      requires Valid()
      modifies this`dead
      ensures Valid() && dead == old(dead) - {ident} && Abs() == old(Abs())
    {
      dead := dead - {ident};
    }

    method TakeLowest(r: Range) returns (ok: bool, addr: nat)
      requires Valid()
      modifies space
      ensures space.Valid() && InStep(ring.b, ring.us, ring.entries, space.ours, space.free)
      ensures !ok ==> FreeIn(old(space.free), r) == {} && space.ours == old(space.ours) && space.free == old(space.free)
      ensures ok ==>
                && addr in FreeIn(old(space.free), r) && NoneBelow(space.free, r, addr) && ring.b.lo <= addr < ring.b.hi
                && Taken(old(space.ours), old(space.free), space.ours, space.free, addr)
    {
      ok, addr := space.Allocate(r);
      if ok {
        assert Contains(old(space.free), addr);
        LowestTaken(old(space.ours), old(space.free), space.ours, space.free, r, addr);
        TakenInStep(ring.b, ring.us, ring.entries, old(space.ours), old(space.free), space.ours, space.free, addr);
      }
    }

    /** The part of allocate.Try after the ring has been established: takes the lowest free
        host address of the subnet. */
    method AllocateNow(ident: Ident, r: CIDR, isContainer: bool) returns (result: AllocateResult)
      requires Valid() && r.prefixLen <= ADDRESS_BITS
      modifies this`owned, space
      ensures Valid()
      ensures result == Waiting || result.Given?
      ensures result == Waiting <==> FreeIn(old(space.free), HostRange(r)) == {}
      ensures result == Waiting ==> owned == old(owned)
      ensures result.Given? ==>
                && result.addr in FreeIn(old(space.free), HostRange(r)) && !Held(old(owned), result.addr)
                && owned == Added(old(owned), FiledUnder(ident, result.addr), CIDR(result.addr, r.prefixLen),
                    isContainer)
                && NoneBelow(space.free, HostRange(r), result.addr)
                && Acts(ring.us, old(Abs()), Allocates(ident, CIDR(result.addr, r.prefixLen), isContainer), Abs())
      ensures result == Waiting ==> Abs() == old(Abs())
      ensures Named(old(owned)) && ident != "" ==> Named(owned)
    {
      var ok, addr := TakeLowest(HostRange(r));
      if !ok {
        return Waiting;
      }
      File(ident, CIDR(addr, r.prefixLen), isContainer, old(space.ours), old(space.free));
      result := Given(addr);
    }

    /** addOwned for an address that was just taken from the free ones. */
    method File(ident: Ident, cidr: CIDR, isContainer: bool, ghost ours: seq<nat>, ghost free: seq<nat>)
      requires Accounted(ring.b, owned, ours) && OnceInside(ring.b, owned) && Apart(ours, free)
      requires ring.b.lo <= cidr.addr < ring.b.hi && Taken(ours, free, space.ours, space.free, cidr.addr)
      modifies this`owned
      ensures !Held(old(owned), cidr.addr)
      ensures owned == Added(old(owned), FiledUnder(ident, cidr.addr), cidr, isContainer)
      ensures ClaimedFor(ident, cidr.addr, owned) &&
              (ident == NO_CONTAINER ==> HeldBy(owned, Dotted(cidr.addr), cidr.addr))
      ensures Accounted(ring.b, owned, space.ours) && OnceInside(ring.b, owned)
      ensures Named(old(owned)) && ident != "" ==> Named(owned)
    {
      var name := FiledUnder(ident, cidr.addr);
      ghost var t := owned;
      owned := Added(owned, name, cidr, isContainer);
      TakenAccounted(ring.b, t, owned, ours, free, space.ours, space.free, name, cidr, isContainer);
      AddedOnce(ring.b, t, owned, name, cidr, isContainer);
      AddedFor(t, ident, cidr, isContainer);
    }

    /** allocate.Try; consensus is what proposing a ring leads to at once. */
    method AllocateTry(ident: Ident, r: CIDR, isContainer: bool, cancelled: bool, consensus: Option<seq<Peer>>)
      returns (result: AllocateResult)
      requires Valid() && r.prefixLen <= ADDRESS_BITS && (consensus.Some? ==> consensus.value != [])
      modifies this, ring, space
      ensures Valid()
      ensures result == Cancelled <==> cancelled
      ensures result == OutOfBounds <==>
              !cancelled && !HoldsIn(old(owned), ident, CidrRange(r)) &&
                  !Range(ring.b.lo, ring.b.hi).Overlaps(CidrRange(r))
      ensures !result.Given? ==> owned == old(owned)
      ensures !cancelled && HoldsIn(old(owned), ident, CidrRange(r)) ==>
                result.Given? && owned == old(owned) && CidrRange(r).Contains(result.addr) &&
                    HeldBy(owned, ident, result.addr) &&
                    FirstOf(owned, ident, CidrRange(r), result.addr)
      ensures result.Given? && !HoldsIn(old(owned), ident, CidrRange(r)) ==>
                && HostRange(r).Contains(result.addr) && !Held(old(owned), result.addr)
                && owned == Added(old(owned), FiledUnder(ident, result.addr), CIDR(result.addr, r.prefixLen),
                    isContainer)
                && NoneBelow(space.free, HostRange(r), result.addr)
      ensures result.Given? && !HoldsIn(old(owned), ident, CidrRange(r)) ==> r.addr < result.addr < r.End() - 1
      ensures dead == if !cancelled && HoldsIn(old(owned), ident, CidrRange(r)) then old(dead) - {ident} else old(dead)
      ensures result == Waiting ==> FreeIn(space.free, HostRange(r)) == {}
      ensures if result.Given?
              then EstablishedThen(ring.us, old(Abs()), consensus,
                                   Allocates(ident, CIDR(result.addr, r.prefixLen), isContainer), Abs())
              else Established(ring.us, old(Abs()), consensus, Abs())
      ensures Named(old(owned)) && ident != "" ==> Named(owned)
    {
      if cancelled {
        return Cancelled;
      }
      var found, addr := FirstInRange(owned, ident, CidrRange(r));
      if found {
        Resurrect(ident);
        assert Established(ring.us, old(Abs()), consensus, Abs());
        return Given(addr);
      }
      result := AllocateNew(ident, r, isContainer, consensus);
    }

    /** The part of allocate.Try for a holder that has no address in the subnet. */
    method AllocateNew(ident: Ident, r: CIDR, isContainer: bool, consensus: Option<seq<Peer>>)
      returns (result: AllocateResult)
      requires Valid() && r.prefixLen <= ADDRESS_BITS && (consensus.Some? ==> consensus.value != [])
      modifies this`owned, this`awaitingConsensus, ring, space
      ensures Valid() && result != Cancelled
      ensures result == OutOfBounds <==> !Range(ring.b.lo, ring.b.hi).Overlaps(CidrRange(r))
      ensures !result.Given? ==> owned == old(owned)
      ensures result.Given? ==>
                && HostRange(r).Contains(result.addr) && !Held(old(owned), result.addr)
                && owned == Added(old(owned), FiledUnder(ident, result.addr), CIDR(result.addr, r.prefixLen),
                    isContainer)
                && NoneBelow(space.free, HostRange(r), result.addr) && r.addr < result.addr < r.End() - 1
      ensures result == Waiting ==> FreeIn(space.free, HostRange(r)) == {}
      ensures if result.Given?
              then EstablishedThen(ring.us, old(Abs()), consensus,
                                   Allocates(ident, CIDR(result.addr, r.prefixLen), isContainer), Abs())
              else Established(ring.us, old(Abs()), consensus, Abs())
      ensures Named(old(owned)) && ident != "" ==> Named(owned)
    {
      if !Range(ring.b.lo, ring.b.hi).Overlaps(CidrRange(r)) {
        return OutOfBounds;
      }
      EstablishRing(consensus);
      ghost var mid := Abs();
      result := AllocateNow(ident, r, isContainer);
      if result.Given? {
        SizeFits(ADDRESS_BITS);
        HostInside(ring.b, r, result.addr);
      }
      assert Established(ring.us, old(Abs()), consensus, mid);
    }

    /** claim.Try for an address outside the universe. */
    method ClaimOutside(ident: Ident, cidr: CIDR, isContainer: bool) returns (result: ClaimResult)
      requires Valid() && !(ring.b.lo <= cidr.addr < ring.b.hi)
      modifies this`owned
      ensures Valid()
      ensures result == Claimed(true) ||
              (TakenOutside(old(owned), dead, ident, cidr.addr, result) && owned == old(owned))
      ensures OutsideStep(old(owned), dead, ident, cidr, isContainer, owned, result.Claimed?)
      ensures Acts(ring.us, old(Abs()), ClaimsOutside(ident, cidr, isContainer, dead), Abs())
      ensures Once(old(owned), cidr.addr) ==> (Once(owned, cidr.addr) <==> !HeldBy(old(owned), "", cidr.addr))
      ensures result.Claimed? ==> ClaimedFor(ident, cidr.addr, owned)
      ensures forall x: nat :: x != cidr.addr ==> (Held(owned, x) <==> Held(old(owned), x))
      ensures Named(old(owned)) && ident != "" ==> Named(owned)
    {
      var t;
      t, result := ClaimedOutside(owned, dead, ident, cidr, isContainer);
      OutsideFits(ring.b, owned, space.ours, dead, ident, cidr, isContainer, t, result.Claimed?);
      OutsideHolds(owned, dead, ident, cidr, isContainer, t, result.Claimed?);
      if Once(owned, cidr.addr) {
        OutsideOnceIff(owned, dead, ident, cidr, isContainer, t, result.Claimed?);
      }
      owned := t;
    }

    /** Takes an address that is ours and that nobody is found to hold. */
    method TakeOurs(ident: Ident, cidr: CIDR, isContainer: bool) returns (ok: bool)
      requires Valid() && Mine(ring.b, ring.us, ring.entries, cidr.addr)
      modifies this`owned, space
      ensures Valid() && (ok <==> !Held(old(owned), cidr.addr))
      ensures if ok then Acts(ring.us, old(Abs()), Allocates(ident, cidr, isContainer), Abs()) else Abs() == old(Abs())
      ensures ok ==> ClaimedFor(ident, cidr.addr, owned)
      ensures forall x: nat :: x != cidr.addr ==> (Held(owned, x) <==> Held(old(owned), x))
      ensures Named(old(owned)) && ident != "" ==> Named(owned)
    {
      assert Contains(space.ours, cidr.addr) || Contains(space.free, cidr.addr);
      ok := space.Claim(cidr.addr);
      if ok {
        TakenInStep(ring.b, ring.us, ring.entries, old(space.ours), old(space.free), space.ours, space.free, cidr.addr);
        File(ident, cidr, isContainer, old(space.ours), old(space.free));
        AddedFor(old(owned), ident, cidr, isContainer);
      }
    }

    /** claim.Try for an address that the ring says is ours. */
    method ClaimOurs(ident: Ident, cidr: CIDR, isContainer: bool) returns (result: ClaimResult)
      requires Valid() && Mine(ring.b, ring.us, ring.entries, cidr.addr)
      modifies this`owned, space
      ensures Valid()
      ensures Abs() == old(Abs()) || Acts(ring.us, old(Abs()), Allocates(ident, cidr, isContainer), Abs())
      ensures result == Claimed(true) || (result.Denied? && result.done && owned == old(owned))
      ensures result.Denied? ==> Taker(old(owned), ident, cidr.addr, result.error)
      ensures result.Claimed? ==> ClaimedFor(ident, cidr.addr, owned)
      ensures forall x: nat :: x != cidr.addr ==> (Held(owned, x) <==> Held(old(owned), x))
      ensures Named(old(owned)) && ident != "" ==> Named(owned)
      ensures result.Claimed? <==> MayClaim(old(owned), ident, cidr.addr)
    {
      var existing := FindOwner(owned, cidr.addr);
      if existing == "" {
        var ok := TakeOurs(ident, cidr, isContainer);
        return if ok then Claimed(true) else Denied(NotFree, true);
      }
      assert Held(owned, cidr.addr) && Once(owned, cidr.addr);
      if existing == ident || (ident == NO_CONTAINER && existing == Dotted(cidr.addr)) {
        return Claimed(true);
      } else if existing == Dotted(cidr.addr) {
        return Denied(InUse, true);
      } else if ident == NO_CONTAINER {
        return Claimed(true);
      } else {
        return Denied(InUseBy(existing), true);
      }
    }

    /** claim.Try for an address inside the universe, once there is a ring if there can be one. */
    method ClaimInside(ident: Ident, cidr: CIDR, isContainer: bool, noErrorOnUnknown: bool, reachable: bool)
      returns (result: ClaimResult)
      requires Valid() && ring.b.lo <= cidr.addr < ring.b.hi
      modifies this`owned, space
      ensures Valid()
      ensures Mine(ring.b, ring.us, ring.entries, cidr.addr) ==>
                (result == Claimed(true) <==> MayClaim(old(owned), ident, cidr.addr))
      ensures Answered(ring.b, ring.us, ring.entries, old(owned), ident, cidr.addr, noErrorOnUnknown, reachable, result)
      ensures if result == Claimed(true) then ClaimedFor(ident, cidr.addr, owned) else owned == old(owned)
      ensures Abs() == old(Abs()) || Acts(ring.us, old(Abs()), Allocates(ident, cidr, isContainer), Abs())
      ensures forall x: nat :: x != cidr.addr ==> (Held(owned, x) <==> Held(old(owned), x))
      ensures Named(old(owned)) && ident != "" ==> Named(owned)
    {
      var owner := Owner(ring.entries, cidr.addr);
      if owner == ring.us {
        assert Mine(ring.b, ring.us, ring.entries, cidr.addr);
        result := ClaimOurs(ident, cidr, isContainer);
      } else {
        result := ClaimTheirs(owner, noErrorOnUnknown, reachable);
      }
    }

    /** claim.Try; reachable says whether a request to the owning peer can be sent. */
    method ClaimTry(ident: Ident, cidr: CIDR, isContainer: bool, noErrorOnUnknown: bool, cancelled: bool,
                    consensus: Option<seq<Peer>>, reachable: bool) returns (result: ClaimResult)
      requires Valid() && (consensus.Some? ==> consensus.value != [])
      modifies this, ring, space
      ensures Valid()
      ensures result == Denied(ClaimCancelled, true) <==> cancelled
      ensures !cancelled && !(ring.b.lo <= cidr.addr < ring.b.hi) ==>
                OutsideStep(old(owned), old(dead), ident, cidr, isContainer, owned, result == Claimed(true))
      ensures !cancelled && Mine(ring.b, ring.us, ring.entries, cidr.addr) ==>
                (result == Claimed(true) <==> MayClaim(old(owned), ident, cidr.addr))
      ensures !cancelled && ring.b.lo <= cidr.addr < ring.b.hi ==>
                Answered(ring.b, ring.us, ring.entries, old(owned), ident, cidr.addr, noErrorOnUnknown, reachable,
                    result)
      ensures !cancelled && !(ring.b.lo <= cidr.addr < ring.b.hi) && result != Claimed(true) ==>
                TakenOutside(old(owned), old(dead), ident, cidr.addr, result)
      ensures dead == if !cancelled && ring.b.lo <= cidr.addr < ring.b.hi then old(dead) - {ident} else old(dead)
      ensures result == Claimed(true) ==> ClaimedFor(ident, cidr.addr, owned)
      ensures result != Claimed(true) ==> owned == old(owned)
      ensures cancelled ==> Abs() == old(Abs())
      ensures !cancelled ==>
                if ring.b.lo <= cidr.addr < ring.b.hi
                then EstablishedThen(ring.us, old(Abs()), consensus, Allocates(ident, cidr, isContainer), Abs())
                else Acts(ring.us, old(Abs()), ClaimsOutside(ident, cidr, isContainer, old(dead)), Abs())
      ensures forall x: nat :: x != cidr.addr ==> (Held(owned, x) <==> Held(old(owned), x))
      ensures Named(old(owned)) && ident != "" ==> Named(owned)
    {
      if cancelled {
        return Denied(ClaimCancelled, true);
      }
      if !(ring.b.lo <= cidr.addr < ring.b.hi) {
        result := ClaimOutside(ident, cidr, isContainer);
        return;
      }
      EstablishRing(consensus);
      ghost var mid := Abs();
      Resurrect(ident);
      result := ClaimInside(ident, cidr, isContainer, noErrorOnUnknown, reachable);
      assert Established(ring.us, old(Abs()), consensus, mid);
    }

    // -------------------------------------------------------------- releasing addresses

    /** Frees one address held by ident. */
    method Free(ident: Ident, addr: nat) returns (ok: bool, ghost k: nat)
      requires Valid()
      modifies this`owned, space
      ensures Valid()
      ensures ok <==> HeldBy(old(owned), ident, addr)
      ensures !ok ==> owned == old(owned) && space.ours == old(space.ours) && space.free == old(space.free)
      ensures ok ==> HeldAt(old(owned), ident, k, addr) && Acts(ring.us, old(Abs()), Frees(ident, k), Abs())
      ensures ok && ring.b.lo <= addr < ring.b.hi ==> !Held(owned, addr) && Contains(space.free, addr)
      ensures Named(old(owned)) ==> Named(owned) && (ok ==> !Held(owned, addr))
    {
      var t;
      t, ok, k := RemoveOwned(owned, ident, addr);
      if ok {
        var freed := space.Free(addr);
        FreedKeeps(ring.b, ring.us, ring.entries, owned, t, old(space.ours), old(space.free), space.ours, space.free,
            ident, k,
                   addr, freed);
        owned := t;
      }
    }

    /** Frees and forgets all addresses of ident. */
    method Release(ident: Ident)
      requires Valid()
      modifies this`owned, space
      ensures Valid() && owned == old(owned) - {ident}
      ensures Acts(ring.us, old(Abs()), Deletes(ident), Abs())
      ensures Named(old(owned)) ==> Named(owned)
    {
      FreeAll(space, AddressesOf(owned, ident));
      DeletedAccounted(ring.b, owned, old(space.ours), space.ours, ident);
      DeletedOnce(ring.b, owned, ident);
      owned := owned - {ident};
    }

    method Delete(ident: Ident) returns (ok: bool)
      requires Valid()
      modifies this`owned, space
      ensures Valid()
      ensures ok <==> AddressesOf(old(owned), ident) != []
      ensures owned == old(owned) - {ident}
      ensures Acts(ring.us, old(Abs()), Deletes(ident), Abs())
      ensures Named(old(owned)) ==> Named(owned)
    {
      ok := AddressesOf(owned, ident) != [];
      Release(ident);
    }

    method PruneOne(ident: Ident, ghost was: State, ghost pruned: seq<Ident>) returns (ghost pruned': seq<Ident>)
      requires Valid() && DeletedAll(ring.us, was, pruned, Abs())
      modifies this`owned, space
      ensures Valid() && owned == old(owned) - {ident} && (Named(old(owned)) ==> Named(owned))
      ensures DeletedAll(ring.us, was, pruned', Abs())
    {
      Release(ident);
      DeletedMore(ring.us, was, pruned, old(Abs()), ident, Abs());
      pruned' := pruned + [ident];
    }

    /** Forgets every container that is not among those known to exist. */
    method PruneOwned(ids: set<Ident>) returns (ghost pruned: seq<Ident>)
      requires Valid()
      modifies this`owned, space
      ensures Valid()
      ensures Pruned(old(owned), ids, owned)
      ensures DeletedAll(ring.us, old(Abs()), pruned, Abs())
      ensures Named(old(owned)) ==> Named(owned)
    {
      pruned := [];
      var todo := owned.Keys;
      while todo != {}
        invariant Valid() && (Named(old(owned)) ==> Named(owned))
        invariant DeletedAll(ring.us, old(Abs()), pruned, Abs())
        invariant todo <= owned.Keys <= old(owned).Keys
        invariant forall i :: i in owned ==> owned[i] == old(owned)[i]
        invariant forall i :: i in old(owned) && i !in todo ==> (i in owned <==> !old(owned)[i].isContainer || i in ids)
      {
        var ident :| ident in todo;
        todo := todo - {ident};
        if owned[ident].isContainer && ident !in ids {
          pruned := PruneOne(ident, old(Abs()), pruned);
        }
      }
    }

    // -------------------------------------------------------------- the ring

    /** Space that the ring says is ours and that we did not have becomes free. */
    method RingUpdated()
      requires ring.Valid() && space.Valid()
      modifies this`awaitingConsensus, space
      ensures space.Valid() && space.ours == old(space.ours) && !awaitingConsensus
      ensures Gained(ring.b, ring.us, ring.entries, space.ours, old(space.free), space.free)
    {
      awaitingConsensus := false;
      var ranges := ring.OwnedRangesOfPeer(ring.us);
      space.UpdateRanges(ranges);
      forall x: nat ensures Covers(ranges, x) <==> Mine(ring.b, ring.us, ring.entries, x) {
        CoveredIsMine(ring.b, ring.us, ring.entries, ranges, x);
      }
    }

    /** Makes the first ring from the peers agreed on; their order and repetitions do not
        matter. */
    method CreateRing(peers: seq<Peer>)
      requires Valid() && ring.entries == [] && peers != []
      modifies this`awaitingConsensus, ring, space
      ensures Valid() && ring.entries != [] && !awaitingConsensus
      ensures space.ours == old(space.ours)
      ensures SeededBy(ring.b, ring.entries, ring.seeds, peers)
      ensures Acts(ring.us, old(Abs()), Creates(peers), Abs())
    {
      SeedRing(peers);
      RingUpdated();
      UpdatedInStep(ring.b, ring.us, old(ring.entries), ring.entries, space.ours, old(space.free), space.free);
    }

    method SeedRing(peers: seq<Peer>)
      requires ring.Valid() && ring.entries == [] && peers != [] && Block(Range(ring.b.lo, ring.b.hi))
      modifies ring
      ensures ring.Valid() && ring.entries != []
      ensures SeededBy(ring.b, ring.entries, ring.seeds, peers)
    {
      var names := Seeding.NormalizeConsensus(peers);
      assert peers[0] in names;
      ring.ClaimForPeers(names);
    }

    /** Proposes a ring if there is none; consensus is what that leads to at once. */
    method EstablishRing(consensus: Option<seq<Peer>>)
      requires Valid() && (consensus.Some? ==> consensus.value != [])
      modifies this`awaitingConsensus, ring, space
      ensures Valid() && space.ours == old(space.ours)
      ensures if old(ring.entries) == [] && !old(awaitingConsensus) && consensus.Some?
              then ring.entries != [] && SeededBy(ring.b, ring.entries, ring.seeds, consensus.value)
              else ring.entries == old(ring.entries) && ring.seeds == old(ring.seeds) && space.free == old(space.free)
      ensures awaitingConsensus <==> ring.entries == [] && (old(awaitingConsensus) || consensus == None)
      ensures Established(ring.us, old(Abs()), consensus, Abs())
    {
      if ring.entries != [] || awaitingConsensus {
        return;
      }
      awaitingConsensus := true;
      if consensus.Some? {
        CreateRing(consensus.value);
      }
    }

    /** Gives space in r to a peer: the donated block leaves the space and changes owner in the
        ring, and nothing else does.  Giving to ourselves would lose it. */
    method DonateSpace(r: Range, to: Peer) returns (given: Option<Range>)
      requires Valid() && ring.entries != [] && r.end < Bits.Pow2(ADDRESS_BITS)
      modifies ring, space
      ensures ring.Valid() && space.Valid() && ring.seeds == old(ring.seeds) && space.ours == old(space.ours)
      ensures Valid() <==> given == None || to != ring.us
      ensures given == None <==> FreeIn(old(space.free), r) == {}
      ensures given == None ==> ring.entries == old(ring.entries) && space.free == old(space.free)
      ensures given.Some? ==> Donation(old(space.free), r, given.value) && ring.entries != []
      ensures given.Some? ==> forall x: nat :: Contains(space.free, x) <==>
              Contains(old(space.free), x) && !given.value.Contains(x)
      ensures given.Some? ==> forall x :: ring.b.lo <= x < ring.b.hi ==>
                Owner(ring.entries, x) == if given.value.Contains(x) then to else Owner(old(ring.entries), x)
      ensures given.Some? && to != ring.us ==> Acts(ring.us, old(Abs()), Donates(given.value, to), Abs())
    {
      var chunk, ok := space.Donate(r);
      if !ok {
        var free := space.NumFreeAddressesInRange(r);
        assert free == 0;
        return None;
      }
      GrantChunk(chunk, to, old(space.free));
      given := Some(chunk);
    }

    /** Grants a chunk that has just left the free addresses. */
    method GrantChunk(c: Range, to: Peer, ghost free: seq<nat>)
      requires ring.Valid() && ring.entries != [] && Apart(space.ours, free)
      requires InStep(ring.b, ring.us, ring.entries, space.ours, free)
      requires c.start < c.end && forall x: nat :: c.Contains(x) ==> Contains(free, x)
      requires forall x: nat :: Contains(space.free, x) <==> Contains(free, x) && !c.Contains(x)
      modifies ring
      ensures ring.Valid() && ring.entries != [] && ring.seeds == old(ring.seeds)
      ensures InStep(ring.b, ring.us, ring.entries, space.ours, space.free) <==> to != ring.us
      ensures Granted(ring.b, ring.us, ToMap(old(ring.entries)), ToMap(ring.entries), c.start, c.end, to)
      ensures forall x :: ring.b.lo <= x < ring.b.hi ==>
                Owner(ring.entries, x) == if c.Contains(x) then to else Owner(old(ring.entries), x)
    {
      DonatedIsMine(ring.b, ring.us, ring.entries, space.ours, free, c);
      ring.GrantRangeToHost(c.start, c.end, to);
      if to != ring.us {
        DonatedInStep(ring.b, ring.us, old(ring.entries), ring.entries, space.ours, free, space.free, c, to);
      } else {
        assert Mine(ring.b, ring.us, ring.entries, c.start) && c.Contains(c.start);
      }
    }

    /** Merges a ring received from another peer.  Everything stays in step just when the ring is
        refused or puts no token of another peer on an address of ours; in runs of the protocol
        there is no other ring. */
    method Update(gossip: Ring) returns (outcome: MergeOutcome)
      requires Valid()
      modifies this`awaitingConsensus, ring, space
      ensures ring.Valid() && space.Valid() && space.ours == old(space.ours)
      ensures awaitingConsensus <==> old(awaitingConsensus) && ring.entries == old(ring.entries)
      ensures outcome == MergeRing(Ring(ring.b, old(ring.entries), old(ring.seeds)), gossip, ring.us)
      ensures outcome.Accepted? ==> Ring(ring.b, ring.entries, ring.seeds) == outcome.ring
      ensures outcome.Refused? ==> ring.entries == old(ring.entries) && space.free == old(space.free)
      ensures Acts(ring.us, old(Abs()), Updates(gossip), Abs())
      ensures Valid() <==> outcome.Refused? || !CutsInto(ring.b, ring.us, old(ring.entries), gossip.entries)
    {
      outcome := ring.Merge(gossip);
      if outcome.Accepted? {
        UpdatedIff(old(Abs()).ring, gossip, ring.us);
        if outcome.updated {
          RingUpdated();
        }
      }
      UpdatesIff(ring.us, old(Abs()), gossip, Abs());
    }

    /** Tells the ring how many addresses are free in each of our stretches.  Nothing that
        ReportFree asserts about the counts can fail. */
    method ReportFreeSpace() returns (updated: bool)
      requires Valid()
      modifies ring
      ensures Valid() && ring.seeds == old(ring.seeds)
      ensures Reported(ring.b, ring.us, old(ring.entries), ring.entries, space.free)
      ensures updated <==> ring.entries != old(ring.entries)
      ensures Acts(ring.us, old(Abs()), Reports, Abs())
    {
      var ours, freespace := CountFree(ring, space.free);
      if !ours {
        return false;
      }
      CountsCounted(ring.b, ring.us, ring.entries, space.free, freespace);
      updated := ring.ReportFree(freespace);
      CountedFits(ring.b, ring.us, old(ring.entries), ring.entries, space.ours, space.free, freespace);
    }

    /** Leaves all ranges to another peer.  The allocator does nothing afterwards; its containers
        are taken to be gone. */
    method Shutdown(heir: Peer)
      requires Valid() && heir != ring.us
      modifies ring, space
      ensures ring.Valid() && space.Valid()
      ensures Acts(ring.us, old(Abs()), ShutsDown(heir), Abs())
      ensures forall x: nat :: !Mine(ring.b, ring.us, ring.entries, x)
    {
      var _ := ring.Transfer(ring.us, heir);
      space.Clear();
    }

    /** The check after every action: the ranges we own by the ring are the ranges of the
        space.  It never fails. */
    method AssertInvariants() returns (ok: bool)
      requires Valid()
      ensures ok
    {
      var ranges := ring.OwnedRangesOfPeer(ring.us);
      var checkSpace := UnionRanges([], ranges);
      var everything := space.Everything();
      forall x: nat ensures Contains(checkSpace, x) <==> Contains(everything, x) {
        CoveredIsMine(ring.b, ring.us, ring.entries, ranges, x);
      }
      Canonical(checkSpace, everything);
      ok := checkSpace == everything;
    }
  }
}
