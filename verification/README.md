# Weave Net: address allocation, agreement, naming, policies and transport, verified

A model in Dafny of the parts of Weave Net whose correctness is not local to one function: the
ring that divides the IP address range among peers and is kept by gossip, the Paxos variant that
peers use to agree on the first ring, the allocator that hands addresses to containers, the sets
of CIDR blocks derived from the owned ranges, the replicated name server, the network policy
controller, the replay window of encrypted packets and the discovery of the path MTU.

| file | what it is about |
|---|---|
| `RingEntries`, `RingGrant`, `RingGrantSteps`, `RingMerge`, `RingOps`, `RingRanges` | the ring as a value: entries in cyclic order, granting, merging, reporting, owned ranges |
| `RingState` | `LiveRing`, the ring a peer updates in place |
| `RingHistory`, `RingRuns` | runs of a network of rings under lossy, reordered, repeated gossip |
| `Seeding` | the first ring, cut from the universe for the peers agreed on |
| `Paxos`, `PaxosRuns` | one Paxos node, and runs of a group |
| `PaxosBallots`, `PaxosOrigins` | single ballots of a run, and when counting acceptances by origin can be relied on |
| `Bits`, `Address`, `Cidrs`, `Tracker` | 32-bit arithmetic, biggest aligned block, smallest cover by blocks, following a changing cover |
| `Boundaries`, `Space` | sets of addresses as boundary arrays, and the space of a peer |
| `Holdings`, `FreeReport`, `Actions` | who holds which address, the free counts, and what an allocator does, on values |
| `Allocator`, `Cluster` | the allocator that updates ring, space and table in place, and runs of all peers together |
| `Elections` | such runs after an election: each peer makes its first ring of what it sees a consensus on |
| `Nameserver` | merging and correcting replicated entries |
| `IpSets`, `NetworkPolicy` | IP sets with several users, and the policy controller of a namespace |
| `ReplayWindow`, `PathMtu` | dropping duplicates, and searching the path MTU |
| `Basics` | what several of these need |

The main results:

* In every run no address has two owners by the owners' own rings (`RingRuns.OneOwner`), every
  gossiped ring is accepted (`GossipAccepted`) and takes nothing from the receiver
  (`GossipTakesNothing`).
* In every run of the whole system, in which peers make the first ring, merge, donate, report,
  allocate, claim, free, delete and shut down in any order, each peer has ring, space and table
  in step (`Cluster.AlwaysInStep`), and containers on two peers never hold the same address
  (`Cluster.NoAddressTwice`). What a method of the allocator does is one of these actions, or several
  of them one after the other.
* Once a quorum has accepted one ballot, every acceptance at that or a later ballot has the same
  value and origin (`PaxosRuns.Agreement`). `Node.Consensus` counts by origin, over all ballots.
  That is not the same: nodes that count like this agree in all runs if and only if a quorum is
  the whole group (`PaxosOrigins.CountingAgreesIff`). With the quorum of more than half that the
  allocator uses, this is so for one and two peers only; for every bigger group there is a run
  after which two nodes see a consensus on different values, although each stops taking part as
  soon as it sees one.
* Peers make their first rings of what they see a consensus on. From any election on, in any run,
  no address gets two owners and no two containers on different peers hold one address, if and only
  if a quorum is the whole group (`Elections.NeverTwoOwnersIff`). Otherwise there is an election
  after which two peers make rings of different names, refuse each other's, both own an address and
  both give it to a container (`SplitElection`).
* A ring from outside such runs is not always harmless: one that is accepted leaves space and ring
  in step just when none of its new tokens of other peers lies on an address of ours
  (`Actions.TakesNothingIff`). The walk does not look at the stretch that wraps around the end of
  the range (`WrapIsUnguarded`).
* Outside the universe, an address that is held once stays so, whoever claims it, just when it is
  not the empty name that holds it (`Actions.OutsideOnceIff`). The routes of `ipam/http.go` match a
  non-empty name, so the empty one can only come from a caller of the exported `Claim`.
* The comparison of labels takes a dropped label with an empty value for one that is still there.
  When a pod keeps its address and its labels change but compare equal, nothing is done, and the sets
  are right just when all selectors see old and new labels alike; any other change, address included,
  is dealt with rightly just when not both labels and address change or no policy begins to apply
  (`NetworkPolicy.Namespace.UpdatePod`). Otherwise the pod goes on being allowed by default, for any
  labels, addresses and policy (`ChangeOverlooked`, `ChangedTogether`).

Method and structure follow the source: what the source updates in place is a class, what it
computes is a function, and each method is proved against a specification about which lemmas are
proved. Maps are walked in arbitrary order; `sort.Sort` and `sort.Search` stand for what they
return. Messages, clocks, the kernel's answers and the outcome of an election are parameters.

## Model

| member | source | states |
|---|---|---|
| RingEntries.ValidIffMapValid | ipam/ring/ring.go:62-98 | validity of an entry list is a statement about tokens and their cyclic successors |
| RingEntries.OwnerIsHead | ipam/ring/ring.go:582-598 | the owner found by binary search is the peer of the entry that heads the address in cyclic order |
| RingEntries.HeadsIffBetween | ipam/ring/entry.go:77-99 | an entry heads an address just when the address is its token or lies before its successor, going around |
| RingEntries.InsertFacts | ipam/ring/entry.go:46-58 | inserting keeps the list sorted and adds exactly one entry |
| RingGrant.GrantIsLocal | ipam/ring/ring.go:147-212 | a grant changes only entries of the granting peer, each to a higher version |
| RingGrant.GrantValid | ipam/ring/ring.go:147-212 | a grant keeps tokens in range and free counts within their gaps, also past the origin |
| RingGrant.GrantHeadPeer | ipam/ring/ring.go:147-212 | after a grant exactly the granted addresses have the new owner |
| RingGrant.GrantedFree | ipam/ring/ring.go:191-196 | a token inside the grant keeps its free count as far as the grant reaches, and no more |
| RingGrantSteps.StagesMakeGrant | ipam/ring/ring.go:175-212 | the three stages of the code make the grant |
| RingGrantSteps.GrantableByOwner | ipam/ring/ring.go:147-172 | owning all addresses is owning all entries that reach into the range |
| RingMerge.MergeKeepsSurvivors | ipam/ring/ring.go:263-330 | the merge holds exactly the newer entry for each token; updated just when the list changed |
| RingMerge.StompedIffStomps | ipam/ring/ring.go:263-330 | the merge fails just when an entry clashes with or intrudes on ours |
| RingMerge.MergeIsJoin | ipam/ring/ring.go:263-330 | a merge is the join by version, token by token |
| RingMerge.StompedRightly | ipam/ring/ring.go:263-330 | each complaint is about what it says: entries of one version that disagree, a newer version of an entry of ours, or a token in a range of ours |
| RingOps.ReportIsLocal | ipam/ring/ring.go:451-491 | reporting changes our own entries only and keeps the ring valid |
| RingOps.HandOverIsLocal | ipam/ring/ring.go:557-574 | handing over our ranges changes our own entries only and keeps the ring valid |
| RingOps.MergeWeighed | ipam/ring/ring.go:216-257 | when a ring is refused and for what, in order, and what ours is otherwise |
| RingRanges.OwnedRangesExact | ipam/ring/ring.go:339-376 | the owned ranges are exact, also when the last entry wraps |
| RingState.LiveRing.GrantRangeToHost | ipam/ring/ring.go:147-212 | on a range we own: owners change exactly there, the ring stays valid, and no check of the code fails |
| RingState.LiveRing.ClaimForPeers | ipam/ring/ring.go:399-411 | the seeded ring is valid, all free, made of aligned blocks within a factor of two, one per peer |
| RingState.LiveRing.Merge | ipam/ring/ring.go:216-257 | each refusal has its exact condition and changes nothing; otherwise the ring is the join by version, updated just when the entries changed, and the seeds are the received ones just when there were none |
| RingState.LiveRing.OwnedRangesOfPeer | ipam/ring/ring.go:339-376 | the ranges are ascending and disjoint and contain exactly the addresses owned by the peer |
| RingState.LiveRing.Transfer | ipam/ring/ring.go:557-574 | the addresses of one peer, and no others, change owner, at a higher version and with their free counts; exactly its ranges are returned |
| RingState.LiveRing.ReportFree | ipam/ring/ring.go:451-491 | counts arrive at their entries, joined over the origin; updated just when something changed |
| RingState.CheckEntries | ipam/ring/ring.go:62-98 | the loop accepts exactly the valid lists and names the first kind of fault |
| RingState.MergeLists | ipam/ring/ring.go:263-330 | the two-index walk computes the merge of two lists |
| RingState.LiveRing.constructor | ipam/ring/ring.go:113-118 | a new ring is empty and valid |
| RingState.TransferOwner | ipam/ring/ring.go:557-574 | transferring changes the owner of exactly the addresses of one peer |
| RingState.LiveRing.PlaceStartToken | ipam/ring/ring.go:180-189 | after the first stage of a grant there is a token at its start and the entry before it ends there |
| RingState.LiveRing.GiveTokens | ipam/ring/ring.go:191-196 | the second stage gives exactly the tokens inside the grant to the new owner |
| RingState.LiveRing.PlaceEnd | ipam/ring/ring.go:198-212 | after the third stage what follows the grant has a token of its own, at the start of the ring if the grant reaches its end |
| RingState.RangesOf | ipam/ring/ring.go:365-376 | one range for each entry of the peer, from its token to the next |
| RingState.TransferAll | ipam/ring/ring.go:557-574 | the loop changes exactly the entries of the peer and collects their ranges |
| RingState.ReportAll | ipam/ring/ring.go:468-491 | the loop, in whatever order, sets exactly the counts given, and says whether anything changed |
| RingHistory.JoinRecorded | ipam/ring/ring.go:263-330 | joining two recorded rings gives a recorded ring |
| RingHistory.RecordedValid | ipam/ring/ring.go:62-98 | every ring that history records is valid |
| RingHistory.OwnChangeExplained | ipam/ring/ring.go:147-212 | a peer's change to its own entries extends the history consistently |
| RingRuns.RunInv | ipam/ring/ring.go:147-330 | an inductive invariant of all runs of seeding, grants, reports, hand-overs and gossip |
| RingRuns.OneOwner | ipam/ring/ring.go:147-330 | in every run no address is owned by two peers by their own rings |
| RingRuns.GossipAccepted | ipam/ring/ring.go:216-330 | in every run, merging any ring ever held succeeds |
| RingRuns.SeedsAgreed | ipam/ring/ring.go:226-255 | in every run a peer that has a ring has the seeds agreed on, made or received, and refuses every ring of other seeds |
| RingRuns.GossipTakesNothing | ipam/ring/ring.go:216-330 | in every run a merge never takes an address from the merging peer |
| RingRuns.GossipConverges | ipam/ring/ring.go:216-257 | peers that exchange their rings hold the same entries |
| RingRuns.ClaimSeedsWell | ipam/ring/ring.go:399-427 | the ring made for a CIDR is a possible start of such runs |
| Seeding.SeededRing | ipam/ring/ring.go:399-427 | on an aligned universe: valid, all free up to the end, aligned blocks, fair, one block per peer in order |
| Seeding.FairShares | ipam/ring/ring.go:415-427 | no share is more than twice another, for any number of peers |
| Seeding.OneShareEach | ipam/ring/ring.go:415-427 | with enough addresses every peer gets exactly one share |
| Seeding.LowerHalf | ipam/ring/ring.go:424-426 | of every range cut, the lower half goes to the first half of its peers, rounded down, so an odd peer shares the upper half |
| Seeding.SharesAligned | ipam/ring/ring.go:413-427 | every share is a CIDR |
| Seeding.Subdivide | ipam/ring/ring.go:415-427 | the recursion appends exactly the shares of its range |
| Seeding.NormalizeConsensus | ipam/allocator.go:767-785 | the result is strictly ascending and has exactly the names given |
| Seeding.DropRepeats | ipam/allocator.go:776-784 | the in-place loop leaves each element once at the front |
| Seeding.RisingUnique | ipam/allocator.go:764-766 | a set of names has one such listing, so order and repetition do not matter |
| Seeding.SubdivideAll | ipam/ring/ring.go:399-411 | an empty ring is cut for all peers |
| Paxos.ProposalOrder | ipam/paxos/paxos.go:24-35 | proposals are totally ordered |
| Paxos.MaxRound | ipam/paxos/paxos.go:130-142 | the loop finds the highest round known |
| Paxos.Node.Update | ipam/paxos/paxos.go:93-118 | newer promises and acceptances are taken over; changed just when something was new |
| Paxos.Node.Propose | ipam/paxos/paxos.go:130-153 | the proposal is above all known ones; with a quorum of one it is accepted at once |
| Paxos.Node.Think | ipam/paxos/paxos.go:157-227 | promise, request and acceptance as one step on what is known; changed just when that changed |
| Paxos.Node.Consensus | ipam/paxos/paxos.go:243-261 | says yes just when some origin was accepted by a quorum of known nodes |
| Paxos.CountOne | ipam/paxos/paxos.go:249-258 | counts one acceptance, and notices when its origin reaches a quorum |
| Paxos.PromiseHighest | ipam/paxos/paxos.go:160-166 | the promise made is the highest known |
| Paxos.CountPromisers | ipam/paxos/paxos.go:180-195 | how many promised a ballot, and the newest value that they accepted |
| Paxos.Follow | ipam/paxos/paxos.go:211-219 | a promised ballot that somebody accepted is accepted |
| Paxos.PickValue | ipam/paxos/paxos.go:232-240 | the names of all nodes known, one for each node |
| PaxosRuns.RunInv | ipam/paxos/paxos.go:93-227 | an inductive invariant of all runs of propose, think and gossip |
| PaxosRuns.Agreement | ipam/paxos/paxos.go:93-227 | once a quorum accepted one ballot, all acceptances at it or later have its value and origin |
| PaxosRuns.OriginDeterminesValue | ipam/paxos/paxos.go:157-227 | each origin has one value |
| PaxosRuns.KnowledgeIsPast | ipam/paxos/paxos.go:93-118 | what is known of a node is what it claimed at some time |
| PaxosRuns.KnownQuorumDecides | ipam/paxos/paxos.go:243-261 | knowing a quorum that accepted one ballot is knowing the value for good |
| PaxosBallots.HoldAgain | ipam/paxos/paxos.go:130-227 | from any reachable state a quorum can hold a ballot in which only the proposer accepts, with the newest value accepted among them |
| PaxosBallots.HoldFirst | ipam/paxos/paxos.go:130-240 | if none of them has accepted anything, the value is made of all names that reach the proposer |
| PaxosOrigins.OnlyOneValue | ipam/paxos/paxos.go:157-227 | if a quorum is the whole group, all acceptances ever made have one value |
| PaxosOrigins.EverybodyAgrees | ipam/paxos/paxos.go:243-261 | if a quorum is the whole group, all nodes see the same consensus at all times |
| PaxosOrigins.CountingMisleads | ipam/paxos/paxos.go:243-261 | otherwise there is a run after which two nodes see a consensus on different values, the names of a quorum and those of one node more, although nobody goes on voting once it sees one |
| PaxosOrigins.CountingAgreesIff | ipam/paxos/paxos.go:243-261 | in all runs all nodes see the same consensus, if and only if a quorum is the whole group |
| Address.Msb | net/address/address.go:40-48 | the highest bit set, below 2^32 |
| Address.BiggestCIDRRange | net/address/address.go:50-65 | an aligned block inside the range, more than a quarter of it; none inside is bigger, and none of that size lies lower |
| Address.PickedBlockIsBiggest | net/address/address.go:50-65 | no aligned block in the range is bigger than the one picked |
| Address.PickedIsLowest | net/address/address.go:50-65 | of the blocks of its size it is the lowest in the range |
| Cidrs.CidrsOf | net/address/address.go:77-108 | aligned blocks that tile the range in order, each as big as can be |
| Cidrs.FewestBlocks | net/address/address.go:77-108 | no tiling by aligned blocks has fewer |
| Cidrs.BiggestUnique | net/address/address.go:77-108 | there is only one such tiling |
| Cidrs.BiggestFrom | net/address/address.go:85-97 | the loop over the mask finds the biggest aligned block that starts here and fits |
| Cidrs.Widen | net/address/address.go:89-95 | a mask one bit shorter either still fits, or the block is the biggest |
| Tracker.Merge | ipam/tracker/helpers.go:9-21 | adjacent ranges are joined; the same addresses are covered |
| Tracker.ApartUnique | ipam/tracker/helpers.go:9-21 | only one list of ranges that do not touch covers a given set |
| Tracker.NewCIDRs | net/address/address.go:128-133 | the smallest covers of the ranges, one after the other |
| Tracker.RemoveCommon | ipam/tracker/helpers.go:25-46 | on ascending lists, both differences |
| Tracker.FollowsUnique | net/bridge.go:564-585 | what is installed depends on the addresses only |
| Tracker.FollowsCovers | net/bridge.go:564-585 | what is installed contains exactly the addresses of the ranges |
| Tracker.NoMasqLocalTracker.HandleUpdate | net/bridge.go:564-585 | from the cover of the previous ranges to the cover of the current ones; blocks in neither, or in both, are left alone |
| Tracker.MergeOne | ipam/tracker/helpers.go:12-19 | a range that touches the last one extends it |
| Boundaries.ContainsIsMembership | ipam/space/space.go:172-174 | an odd number of boundaries up to an address means that it lies in a range |
| Boundaries.AddSub | ipam/space/space.go:186-206 | set union or difference, on a strictly sorted even array again |
| Boundaries.Canonical | ipam/space/space.go:15-23 | equal sets have equal arrays |
| Boundaries.Union | ipam/space/space.go:177-179 | set union with a range |
| Boundaries.Difference | ipam/space/space.go:182-184 | set difference with a range |
| Space.WalkFree | ipam/space/space.go:40-69 | the loop visits exactly the parts of the free ranges in the range |
| Space.ChunksAreFree | ipam/space/space.go:40-69 | the parts visited hold exactly the free addresses in the range |
| Space.SizesCount | ipam/space/space.go:107-114 | the sizes of the parts add up to the number of free addresses |
| Space.SumOf | ipam/space/space.go:107-114 | the loop counts the free addresses in the range |
| Space.ChooseDonation | ipam/space/space.go:129-157 | the biggest free aligned block if that is at most half of what is free, and otherwise its upper half, rounded up; none just when nothing is free |
| Space.AddressSpace.Allocate | ipam/space/space.go:71-79 | takes the lowest free address in the range; fails just when there is none |
| Space.AddressSpace.Claim | ipam/space/space.go:81-89 | takes a free address; fails just when it is not free |
| Space.AddressSpace.Free | ipam/space/space.go:116-127 | the inverse of taking; fails just when the address is not in use |
| Space.AddressSpace.NumFreeAddressesInRange | ipam/space/space.go:107-114 | the number of free addresses in the range |
| Space.AddressSpace.Donate | ipam/space/space.go:144-161 | removes exactly the donated block from the free addresses and nothing from those in use |
| Space.AddressSpace.Everything | ipam/space/space.go:240-247 | used and free addresses as one array |
| Space.AddressSpace.AddRanges | ipam/space/space.go:261-265 | the ranges become free |
| Space.AddressSpace.UpdateRanges | ipam/space/space.go:268-280 | what is in the ranges and not owned yet becomes free, and nothing else changes |
| Space.BiggestOf | ipam/space/space.go:129-142 | no aligned block in any part is bigger, and none in a later part as big |
| Space.AddressSpace.Clear | ipam/space/space.go:33-36 | nothing is owned any more |
| Holdings.AddedHeld | ipam/allocator.go:1031-1037 | the address is held in addition; held once if nobody held it |
| Holdings.AddedRecord | ipam/allocator.go:1031-1037 | the record gets the address, with its prefix, at its end and is a container's just as said; all others are as before |
| Holdings.FiledSurvives | ipam/allocator.go:1085-1103 | an address filed under a name survives pruning just when it was not filed for a container or the container is known to exist |
| Holdings.DroppedRecord | ipam/allocator.go:1046-1061 | the record lacks one address and is otherwise as before, or is gone with its last; all others are as before |
| Holdings.DroppedHeld | ipam/allocator.go:1046-1061 | all other addresses stay; one that was held once is then held by nobody |
| Holdings.DeletedHeld | ipam/allocator.go:1039-1044 | exactly the addresses of one holder are given up |
| Holdings.FindOwner | ipam/allocator.go:1073-1082 | a holder, in whatever order the table is walked, or the empty name |
| Holdings.RemoveOwned | ipam/allocator.go:1046-1061 | removes the first occurrence of an address of a holder just when it is there |
| Holdings.FirstInRange | ipam/allocator.go:1063-1071 | the first address of the holder in the range, found just when there is one |
| FreeReport.CollectFree | ipam/allocator.go:932-945 | the number of free addresses of each owned range, by its start |
| FreeReport.CountsReportable | ipam/ring/ring.go:451-491 | every assertion of ReportFree about the counts holds |
| FreeReport.ReportArrives | ipam/ring/ring.go:451-491 | each own entry gets the number of free addresses in its stretch, at a new version just when that changed; others stay |
| Actions.TakesNothingIff | ipam/ring/ring.go:263-330 | a ring that is accepted takes nothing from us just when none of its tokens, unknown to us and of another peer, lies on an address of ours |
| Actions.WrapIsUnguarded | ipam/ring/ring.go:263-330 | a ring with a token before our only one is accepted and takes what lies between them |
| Actions.UpdatedIff | ipam/ring/ring.go:263-330 | the merge says that something changed just when the entries did |
| Actions.OutsideOnceIff | ipam/claim.go:51-73 | an address outside the universe stays held once, whoever claims it, just when it is not the empty name that holds it |
| Actions.OutsideHolds | ipam/claim.go:51-73 | a claim affects no other address, and under no name but the empty one makes an address held twice |
| Actions.NamelessHolderShares | ipam/claim.go:51-73 | once the empty name holds an address outside the universe, any two others can both claim it |
| Actions.SameNamesSameRing | ipam/allocator.go:738-743 | whatever the order and repetition of the names agreed on, the first ring is the same |
| Actions.CidrRangeExact | net/address/address.go:151-153 | the range of a CIDR is its addresses, or empty if it reaches 2^32 |
| Actions.HostRangeExact | net/address/address.go:154-157 | the host range is all addresses but the first and the last |
| Actions.HostInside | ipam/allocate.go:39-46 | of a subnet that overlaps the universe neither the first nor the last address is a host, wrap-around included |
| Actions.DottedInjective | net/address/address.go:178-193 | no two addresses have the same dotted form, so those filed without a name never share a record |
| Actions.FreedKeeps | ipam/allocator.go:418-431 | the space frees an address of the table just when it lies in the universe; either way everything stays in step |
| Actions.UpdatesIff | ipam/allocator.go:831-850 | after merging a ring, ring and space are in step just when it was refused or none of its new tokens of other peers lies on an address of ours |
| Actions.ActKeepsFit | ipam/allocator.go:915-930 | every action keeps ring, space and table in step and no address of the universe held twice |
| Allocator.Allocator.AllocateTry | ipam/allocate.go:24-68 | a first ring may be made, then an address is taken, and nothing else is done; the first address already held in the subnet is given again, and only then the holder is taken to be alive; else the lowest free host address, neither first nor last of the subnet, which nobody held; every refusal has its exact condition; invariants kept |
| Allocator.Allocator.AllocateNew | ipam/allocate.go:38-56 | the same for a holder without an address in the subnet |
| Allocator.Allocator.AllocateNow | ipam/allocate.go:46-56 | takes the lowest free host address and files it; waits just when there is none |
| Allocator.Allocator.ClaimTry | ipam/claim.go:37-129 | a first ring may be made, then the address is taken, and nothing else is done; the answer for every kind of address: a refusal is final for ours and names who holds it, success without the address is reported only if that was asked for; a claim that succeeds leaves it held by the claimant, one that fails changes no holding; inside the universe the claimant is taken to be alive; invariants kept |
| Allocator.Allocator.ClaimOutside | ipam/claim.go:51-73 | one action on the table; an address held once stays so just when it is not the empty name that holds it |
| Allocator.ClaimedOutside | ipam/claim.go:51-73 | every case of a claim outside the universe, including those from dead containers; refused only for a living holder of another name, who is named |
| Allocator.Allocator.ClaimInside | ipam/claim.go:76-129 | ours: taken, or refused for good for a holder that is named; not ours: success, refusal or delay, each under its exact condition |
| Allocator.Allocator.ClaimOurs | ipam/claim.go:100-128 | succeeds just when the claimant is anonymous, holds it already, or nobody does, and it is not the empty name that holds it; otherwise refused for a holder that is named |
| Allocator.ClaimTheirs | ipam/claim.go:78-98 | success is reported just when asked for and the owner unknown or out of reach, refusal just when not asked for and the owner known and out of reach |
| Allocator.Allocator.TakeOurs | ipam/claim.go:103-111 | takes the address just when nobody holds it |
| Allocator.Allocator.Free | ipam/allocator.go:418-431 | frees one address of a holder just when it holds it; it is free again just when it lies in the universe |
| Allocator.Allocator.Delete | ipam/allocator.go:406-415 | frees all addresses of a holder |
| Allocator.Allocator.PruneOwned | ipam/allocator.go:1085-1103 | forgets exactly the containers not listed, deleting one after the other |
| Allocator.Allocator.RingUpdated | ipam/allocator.go:745-755 | what the ring gives us becomes free space, and no consensus is awaited any more |
| Allocator.Allocator.CreateRing | ipam/allocator.go:738-743 | the first ring is cut for the names in order and without repetition, and what it gives us becomes free |
| Allocator.Allocator.EstablishRing | ipam/allocator.go:723-736 | a ring is made just when there is none, none is awaited and the proposal leads to consensus; one is awaited afterwards just when there is none and the proposal does not |
| Allocator.Allocator.DonateSpace | ipam/allocator.go:892-913 | the donated block leaves space and ring together; denied just when nothing is free; in step afterwards unless given to ourselves |
| Allocator.Allocator.Update | ipam/allocator.go:831-850 | ring and space stay in step just when the ring is refused or none of its new tokens of other peers lies on an address of ours |
| Allocator.Allocator.ReportFreeSpace | ipam/allocator.go:932-945 | the ring learns the free addresses of each own stretch; no owner changes |
| Allocator.Allocator.AssertInvariants | ipam/allocator.go:915-930 | the check after every action never fails |
| Allocator.Allocator.constructor | ipam/allocator.go:102-143 | a new allocator owns nothing and is in step |
| Allocator.Allocator.File | ipam/allocator.go:1031-1037 | an address just taken is filed under the name or, without one, under its dotted form, and nobody held it |
| Allocator.FreeAll | ipam/allocator.go:406-415 | exactly the listed addresses are in use no longer, and all of them stay ours |
| Allocator.Allocator.Release | ipam/allocator.go:406-415 | one holder disappears and everything stays accounted for |
| Allocator.Allocator.Shutdown | ipam/allocator.go:461-480 | all our ranges go to the heir and nothing is left in the space |
| Cluster.SentTakesNothing | ipam/allocator.go:831-850 | in every run, merging a ring that was sent takes nothing |
| Cluster.ActIsStep | ipam/allocator.go:693-717 | every action that changes the ring is a step of a run of rings |
| Cluster.AlwaysInStep | ipam/allocator.go:915-930 | in every run of the whole system each peer has ring, space and table in step |
| Cluster.NoAddressTwice | ipam/allocator.go:50-62 | in every run of the whole system, an address held on one peer is neither held nor free on another |
| Cluster.OneOwnerInSystem | ipam/ring/ring.go:147-330 | in every run of the whole system no address is owned by two peers by their own rings |
| Elections.EverybodyElects | ipam/allocator.go:863-873 | if a quorum is the whole group, no election and no run after it gives an address two owners or two holders |
| Elections.ElectedIsRunning | ipam/allocator.go:738-743 | a run after such an election is a run of the system under one agreement |
| Elections.SplitElection | ipam/allocator.go:863-873 | otherwise there is an election after which two peers own and give out one address and refuse each other's rings |
| Elections.NeverTwoOwnersIff | ipam/allocator.go:723-743 | from the election on no address has two owners, and none two holders, if and only if a quorum is the whole group |
| Nameserver.Merge | nameserver/entry.go:165-189 | the pass computes the pointwise later entry over both lists, and returns what was new |
| Nameserver.JoinAssociates | nameserver/entry.go:91-102 | merging is associative |
| Nameserver.MergeCommutes | nameserver/entry.go:165-189 | merging in either order gives the same list |
| Nameserver.MergeAssociates | nameserver/entry.go:165-189 | merging three lists in either grouping gives the same list |
| Nameserver.MergeIdempotent | nameserver/entry.go:165-189 | merging a list with itself changes nothing |
| Nameserver.DeltaIsEnough | nameserver/entry.go:165-189 | merging only what was returned leads to the same list |
| Nameserver.DeltaIsNeeded | nameserver/entry.go:165-189 | nothing is returned just when nothing changed |
| Nameserver.AnswerAll | nameserver/nameserver.go:221-241 | entries in our name are answered by our data at a higher version, or marked deleted |
| Nameserver.OursStay | nameserver/nameserver.go:205-255 | of our own names the same are alive after any message |
| Nameserver.OverriddenArrives | nameserver/nameserver.go:246-248 | what is broadcast in reply is what the table then says |
| Nameserver.DisputedIsAnswered | nameserver/nameserver.go:221-241 | exactly the entries in our name that differ from ours and are not older, or are alive and unknown to us, are answered: by our data at the next version, or as deleted now |
| Nameserver.ContradictsIsDisputed | nameserver/nameserver.go:221-241 | every entry in our name that says alive what is dead with us, or the reverse, and is not older is among them |
| Nameserver.Check | nameserver/entry.go:121-132 | passes just those lists in which every entry comes after the one before |
| Nameserver.Nameserver.ReceiveGossip | nameserver/nameserver.go:205-255 | panics, with nothing changed, just when the message is out of order or has an entry twice; any other message: own names stay, nothing gets older, every disputed entry in our name is put right and broadcast and nothing else is, entries of known peers are merged, those of unknown ones ignored, and what is passed on is new and leads from the old table to the new |
| Nameserver.Known | nameserver/nameserver.go:215-217 | exactly the entries of known peers are kept |
| Nameserver.Find | nameserver/entry.go:220-228 | finds the entry of a key just when there is one |
| Nameserver.AnswerOne | nameserver/nameserver.go:224-242 | when an entry in our name is contradicted, and with what |
| IpSets.IpSet.KernelHasUsed | net/ipset/ipset.go:44-53 | an address is in a kernel set just when some user wants it there |
| IpSets.IpSet.AddEntry | net/ipset/ipset.go:96-110 | one more use, and the kernel set still holds exactly the entries in use |
| IpSets.IpSet.DelEntry | net/ipset/ipset.go:112-122 | one use less, and an entry stays in the kernel set while anyone uses it |
| IpSets.IpSet.Destroy | net/ipset/ipset.go:138-141 | all uses of the set end |
| IpSets.IpSet.constructor | net/ipset/ipset.go:55-60 | there are no sets and no uses |
| IpSets.IpSet.Create | net/ipset/ipset.go:85-94 | a new set is empty |
| IpSets.IpSet.Exist | net/ipset/ipset.go:124-126 | whether a user uses an entry |
| NetworkPolicy.Namespace.AddPod | npc/namespace.go:165-189 | the pod enters exactly the sets it belongs in |
| NetworkPolicy.Namespace.UpdatePod | npc/namespace.go:191-286 | when the sets are right afterwards, exactly: if the labels changed but compare equal, just when all selectors see them alike; else just when not both labels and address changed, or no policy begins to apply; and when the address is then allowed by default, everything else being right |
| NetworkPolicy.Equals | npc/namespace.go:518-528 | the loop compares the numbers of labels and the values of the first map, a missing label counting as an empty one |
| NetworkPolicy.EqualUnlessDropped | npc/namespace.go:518-528 | labels that compare equal are equal just when no empty one was dropped |
| NetworkPolicy.NothingDone | npc/namespace.go:239-268 | when nothing is done on a change of labels the sets are right just when all selectors see old and new alike |
| NetworkPolicy.Namespace.DeletePod | npc/namespace.go:288-303 | the pod leaves all sets |
| NetworkPolicy.Namespace.AddNetworkPolicy | npc/namespace.go:305-324 | provisions the selectors of the policy, the sets being right afterwards |
| NetworkPolicy.Namespace.DeleteNetworkPolicy | npc/namespace.go:365-389 | undoes exactly what adding the policy did |
| NetworkPolicy.Namespace.ProvisionSelector | npc/selector.go:170-202 | one more user of a selector, with its target directions |
| NetworkPolicy.Namespace.DeprovisionSelector | npc/selector.go:142-168 | the inverse of provisioning |
| NetworkPolicy.Namespace.AddToDefaultAllowIfNoMatching | npc/namespace.go:140-156 | allowed by default just when no target selects the pod |
| NetworkPolicy.Namespace.KernelIsRight | npc/namespace.go:32-36 | an address is in a default-allow set just when a pod with it is selected by no target, in a selector's set just when that matches |
| NetworkPolicy.Namespace.TargetsAreProvisioned | npc/selector.go:89-94 | a selector counts as a target just when some policy says so |
| NetworkPolicy.NewNamespace | npc/namespace.go:46-85 | a new namespace is right and has the selector of all pods |
| NetworkPolicy.ChangedTogether | npc/namespace.go:231-268 | for any pod whose labels and address change together so that a policy begins to apply, the kernel goes on allowing the new address by default |
| NetworkPolicy.ChangeOverlooked | npc/namespace.go:239-268 | for any pod whose labels change into a policy but compare equal, nothing is done and the kernel goes on allowing it by default |
| NetworkPolicy.DroppedIsOverlooked | npc/namespace.go:518-528 | such a change: any empty label dropped for any other label |
| NetworkPolicy.Namespace.CountTarget | npc/selector.go:188-198 | with its first instance a target takes its pods out of the default-allow set |
| NetworkPolicy.Namespace.AddToMatching | npc/selector.go:108-125 | the address enters the sets of all selectors that match, and for each direction it is known whether a target is among them |
| NetworkPolicy.Namespace.DelFromMatching | npc/selector.go:127-136 | the address leaves the sets of all selectors that match |
| NetworkPolicy.Namespace.OnNewPodSelector | npc/namespace.go:95-107 | a new set gets the addresses of exactly the pods that match |
| NetworkPolicy.Namespace.OnNewTargetPodSelector | npc/namespace.go:109-123 | pods that a new target selects are allowed by default no longer |
| NetworkPolicy.Namespace.OnDestroyTargetPodSelector | npc/namespace.go:125-138 | pods that no target selects any more are allowed by default again |
| NetworkPolicy.Namespace.UpdateSelectors | npc/namespace.go:235-268 | what the sets are after all selectors have been looked at, in whatever order |
| ReplayWindow.Instance.AdvanceState | router/frame_crypto.go:261-284 | the set to look in holds exactly the numbers passed on in that window |
| ReplayWindow.Instance.Accept | router/frame_crypto.go:232-241 | passed on just when not passed on before and at most one window behind |
| ReplayWindow.Decryptor.Decrypt | router/frame_crypto.go:212-242 | a packet that cannot be decrypted changes nothing; the two kinds are independent |
| ReplayWindow.DeliveredOnce | router/frame_crypto.go:212-242 | no packet of a stream is delivered twice |
| ReplayWindow.RecentIsDelivered | router/frame_crypto.go:212-284 | a new packet less than 2^20 behind is passed on, one 2^21 or more behind is not |
| ReplayWindow.Receive | router/frame_crypto.go:212-284 | over any stream exactly the packets to be delivered are passed on |
| ReplayWindow.Instance.constructor | router/frame_crypto.go:152-158 | nothing has been passed on |
| ReplayWindow.ReceiveOne | router/frame_crypto.go:212-242 | each packet is decided by the whole stream before it |
| PathMtu.Forwarder.ProcessSendError | router/sleeve.go:921-938 | starts over just when no search is on or the size reported is below the one being tried, with that size as the first; the limit stays between good and bad |
| PathMtu.Forwarder.SendMTUTest | router/sleeve.go:940-951 | sends a probe, or has started over with a smaller size |
| PathMtu.Forwarder.HandleMTUTestAck | router/sleeve.go:959-973 | an answer leaves one size less to be tried or ends the search; a stale one changes nothing |
| PathMtu.Forwarder.HandleMTUTestFailure | router/sleeve.go:975-983 | a timeout uses up an attempt or leaves one size less to be tried |
| PathMtu.Forwarder.SearchMTU | router/sleeve.go:985-1006 | goes on in the middle of the interval, both parts being at most half, or ends with the limit |
| PathMtu.Forwarder.Handle | router/sleeve.go:921-1006 | whatever happens, the limit stays between good and bad or has been found, and each change brings the end nearer |
| PathMtu.HalvingsLog | router/sleeve.go:985-1006 | an interval of at most 2^k sizes takes at most k tries in its middle |
| PathMtu.Discover | router/sleeve.go:921-1006 | over any sequence of events the search ends with exactly the limit once time has passed often enough; the number of changes is bounded, logarithmically in the first size if no further packet proves too big |

## Left out

- Versions of ring entries, Paxos rounds and ballots are unbounded; the source uses 32-bit and machine-word counters.
- Address.BiggestCIDRRange and Space: ranges that end at 2^32, which 32-bit addresses cannot express, are not covered.
- Seeding: a universe that is not a CIDR is not covered by the results about the first ring; the source promises CIDR alignment only for CIDRs.
- PaxosRuns: nodes do not restart, and the group and quorum are fixed during a run.
- RingRuns: taking over another peer's entries on an administrator's command is not a step of a run; the documentation of the command warns of its consequences.
- Allocator.Allocator.AllocateTry: pending operations are not retried inside another one, and donors are not asked; each is an action of its own that keeps the invariants.
- Allocator.Allocator.ClaimTry: the same.
- Allocator.Allocator.RingUpdated: the same.
- Allocator.Allocator.EstablishRing: what proposing leads to is a parameter.
- Allocator.Allocator.Update: the branches for an election in progress and for nicknames.
- Allocator.Allocator.constructor: claims made before the start are not modelled.
- Cluster.NoAddressTwice: a peer that has shut down is left out, its containers being taken to be gone; all peers are taken to make the first ring for the same names. `Elections.NeverTwoOwnersIff` says when they do.
- Cluster.AlwaysInStep: the same.
- Elections: a group of fixed members and quorum, with distinct names and no more of them than addresses; rings arrive after the election, not during it.
- RingEntries.HeadsIffBetween: `between` in `ipam/ring/entry.go` leaves out the token itself when it is the only one; no result depends on that.
- Loading and saving of allocator state, restart from disk, claims made before the start, and nicknames.
- Choosing peers to ask for space, which is random, and the messages themselves.
- Nameserver.Nameserver.ReceiveGossip: the refusal of messages from a skewed clock.
- Nameserver: host names that differ only in case; lookups, deletion, expiry of tombstones and the check of the sender's clock.
- NetworkPolicy.Namespace.AddNetworkPolicy: only the pod selectors of a policy.
- NetworkPolicy.Namespace.DeleteNetworkPolicy: only the pod selectors of a policy.
- NetworkPolicy: rules and IP blocks derived from a policy, namespace selectors, replacing a policy by another, and failing ipset commands. What a selector matches is a parameter, and generated set names are taken to be distinct. The map from keys to selectors and the map from keys to users have the same keys and are one field.
- IpSets.IpSet.AddEntry: comments on entries are not modelled.
- PathMtu.Discover: the path carries the smallest size taken to be safe and reports no less than it carries, and the last attempt of a size it carries is answered in time.
- PathMtu: errors other than a packet being too big end the connection and are not modelled.
- ReplayWindow: encryption itself; a packet either opens or does not.
- Tracker.RemoveCommon: the end of a block is not wrapped to 32 bits; a block that ends at 2^32 has the end 0 in the source.
- Tracker.NewCIDRs: ranges that end at 2^32 are not covered, since no range of a ring does.
- Tracker: the AWS route tables, which are driven by the same differences.
