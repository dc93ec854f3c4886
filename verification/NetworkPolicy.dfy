/** The network policy controller of one namespace (npc/namespace.go, npc/selector.go). */
module NetworkPolicy {
  import opened Basics
  import opened IpSets

  /** The string form of a label selector; it determines what the selector matches. */
  type Key = string
  type Labels = map<string, string>
  type Matcher = (Key, Labels) -> bool

  /** hasIP: the pod is running, has an address, and one of its own. */
  datatype Pod = Pod(labels: Labels, hasIP: bool, ip: IP)

  /** How many provisioned selectors are targets of a policy, by key and direction. */
  type Counts = map<(Key, PolicyType), int>

  predicate IsTarget(counts: Counts, k: Key, pt: PolicyType) {
    (k, pt) in counts && counts[(k, pt)] > 0
  }

  /** Some policy of this direction applies to pods with these labels. */
  ghost predicate Selected(sel: Matcher, counts: Counts, pt: PolicyType, labels: Labels) {
    exists k :: IsTarget(counts, k, pt) && sel(k, labels)
  }

  ghost predicate Has(pods: map<UID, Pod>, u: UID, ip: IP) {
    u in pods && pods[u].hasIP && pods[u].ip == ip
  }

  /** Which sets a pod with these labels belongs to. */
  ghost predicate Belongs(sel: Matcher, entries: set<Key>, counts: Counts, n: SetName, labels: Labels) {
    match n
    case DefaultAllow(pt) => !Selected(sel, counts, pt, labels)
    case SelectorSet(k) => k in entries && sel(k, labels)
  }

  ghost predicate Wanted(sel: Matcher, pods: map<UID, Pod>, entries: set<Key>, counts: Counts, u: UID, n: SetName,
                         ip: IP) {
    Has(pods, u, ip) && Belongs(sel, entries, counts, n, pods[u].labels)
  }

  /** The IP sets are used for exactly the pods that belong in them. */
  ghost predicate Right(sel: Matcher, pods: map<UID, Pod>, entries: set<Key>, counts: Counts, uses: set<Use>) {
    forall u, n, ip :: (u, n, ip) in uses <==> Wanted(sel, pods, entries, counts, u, n, ip)
  }

  // ---------------------------------------------------------------- changes of selectors

  lemma NewSelector(sel: Matcher, pods: map<UID, Pod>, entries: set<Key>, counts: Counts, uses: set<Use>,
                    uses': set<Use>, key: Key)
    requires Right(sel, pods, entries, counts, uses) && key !in entries
    requires forall u, n, ip :: (u, n, ip) in uses' <==>
             (u, n, ip) in uses || (n == SelectorSet(key) && Has(pods, u, ip) && sel(key, pods[u].labels))
    ensures Right(sel, pods, entries + {key}, counts, uses')
  {
  }

  lemma OldSelector(sel: Matcher, pods: map<UID, Pod>, entries: set<Key>, counts: Counts, uses: set<Use>,
                    uses': set<Use>, key: Key)
    requires Right(sel, pods, entries, counts, uses)
    requires forall u, n, ip :: (u, n, ip) in uses' <==> (u, n, ip) in uses && n != SelectorSet(key)
    ensures Right(sel, pods, entries - {key}, counts, uses')
  {
  }

  /** Only whether there are any targets matters. */
  lemma SameTargets(sel: Matcher, pods: map<UID, Pod>, entries: set<Key>, counts: Counts, counts': Counts,
                    uses: set<Use>)
    requires Right(sel, pods, entries, counts, uses)
    requires forall k, pt :: IsTarget(counts', k, pt) <==> IsTarget(counts, k, pt)
    ensures Right(sel, pods, entries, counts', uses)
  {
    forall pt, labels ensures Selected(sel, counts', pt, labels) <==> Selected(sel, counts, pt, labels) {
      SameSelected(sel, counts, counts', pt, labels);
    }
    forall u, n, ip ensures (u, n, ip) in uses <==> Wanted(sel, pods, entries, counts', u, n, ip) {
      assert Wanted(sel, pods, entries, counts', u, n, ip) <==> Wanted(sel, pods, entries, counts, u, n, ip);
    }
  }

  lemma SameSelected(sel: Matcher, counts: Counts, counts': Counts, pt: PolicyType, labels: Labels)
    requires forall k :: IsTarget(counts', k, pt) <==> IsTarget(counts, k, pt)
    ensures Selected(sel, counts', pt, labels) <==> Selected(sel, counts, pt, labels)
  {
    if Selected(sel, counts', pt, labels) {
      var k :| IsTarget(counts', k, pt) && sel(k, labels);
      assert IsTarget(counts, k, pt);
    }
    if Selected(sel, counts, pt, labels) {
      var k :| IsTarget(counts, k, pt) && sel(k, labels);
      assert IsTarget(counts', k, pt);
    }
  }

  /** Exactly the key becomes a target of the direction. */
  ghost predicate OneMoreTarget(counts: Counts, counts': Counts, key: Key, policyType: PolicyType) {
    forall k, pt :: IsTarget(counts', k, pt) <==> IsTarget(counts, k, pt) || (k == key && pt == policyType)
  }

  lemma MoreSelected(sel: Matcher, counts: Counts, counts': Counts, key: Key, policyType: PolicyType, pt: PolicyType,
                     labels: Labels)
    requires OneMoreTarget(counts, counts', key, policyType)
    ensures Selected(sel, counts', pt, labels) <==>
            Selected(sel, counts, pt, labels) || (pt == policyType && sel(key, labels))
  {
    if Selected(sel, counts', pt, labels) {
      var k :| IsTarget(counts', k, pt) && sel(k, labels);
      assert IsTarget(counts, k, pt) || (k == key && pt == policyType);
    }
    if Selected(sel, counts, pt, labels) {
      var k :| IsTarget(counts, k, pt) && sel(k, labels);
      assert IsTarget(counts', k, pt);
    }
    if pt == policyType && sel(key, labels) { assert IsTarget(counts', key, pt); }
  }

  lemma NewTarget(sel: Matcher, pods: map<UID, Pod>, entries: set<Key>, counts: Counts, counts': Counts,
                  uses: set<Use>, uses': set<Use>, key: Key, policyType: PolicyType)
    requires Right(sel, pods, entries, counts, uses) && OneMoreTarget(counts, counts', key, policyType)
    requires forall u, n, ip :: (u, n, ip) in uses' <==>
               (u, n, ip) in uses && !(n == DefaultAllow(policyType) && Has(pods, u, ip) && sel(key, pods[u].labels))
    ensures Right(sel, pods, entries, counts', uses')
  {
    forall u, n, ip ensures (u, n, ip) in uses' <==> Wanted(sel, pods, entries, counts', u, n, ip) {
      if Has(pods, u, ip) && n.DefaultAllow? {
        MoreSelected(sel, counts, counts', key, policyType, n.policyType, pods[u].labels);
      }
      assert (u, n, ip) in uses <==> Wanted(sel, pods, entries, counts, u, n, ip);
    }
  }

  /** A pod that the key selected and that no target selects any more. */
  ghost predicate Freed(sel: Matcher, pods: map<UID, Pod>, counts: Counts, key: Key, policyType: PolicyType, u: UID,
                        ip: IP) {
    Has(pods, u, ip) && sel(key, pods[u].labels) && !Selected(sel, counts, policyType, pods[u].labels)
  }

  lemma OldTarget(sel: Matcher, pods: map<UID, Pod>, entries: set<Key>, counts: Counts, counts': Counts,
                  uses: set<Use>, uses': set<Use>, key: Key, policyType: PolicyType)
    requires Right(sel, pods, entries, counts, uses) && OneMoreTarget(counts', counts, key, policyType)
    requires forall u, n, ip :: (u, n, ip) in uses' <==>
               ((u, n, ip) in uses ||
                   (n == DefaultAllow(policyType) && Freed(sel, pods, counts', key, policyType, u, ip)))
    ensures Right(sel, pods, entries, counts', uses')
  {
    forall u, n, ip ensures (u, n, ip) in uses' <==> Wanted(sel, pods, entries, counts', u, n, ip) {
      if Has(pods, u, ip) && n.DefaultAllow? {
        MoreSelected(sel, counts', counts, key, policyType, n.policyType, pods[u].labels);
      }
      assert (u, n, ip) in uses <==> Wanted(sel, pods, entries, counts, u, n, ip);
    }
  }

  // ---------------------------------------------------------------- changes of pods

  lemma PodAdded(sel: Matcher, pods: map<UID, Pod>, entries: set<Key>, counts: Counts, uses: set<Use>, uses': set<Use>,
                 uid: UID, pod: Pod)
    requires Right(sel, pods, entries, counts, uses)
    requires uid in pods ==> !pods[uid].hasIP
    requires forall u, n, ip :: (u, n, ip) in uses' <==>
               (u, n, ip) in uses ||
                   (u == uid && pod.hasIP && ip == pod.ip && Belongs(sel, entries, counts, n, pod.labels))
    ensures Right(sel, pods[uid := pod], entries, counts, uses')
  {
    forall u, n, ip ensures (u, n, ip) in uses' <==> Wanted(sel, pods[uid := pod], entries, counts, u, n, ip) {
      assert (u, n, ip) in uses <==> Wanted(sel, pods, entries, counts, u, n, ip);
    }
  }

  lemma PodRemoved(sel: Matcher, pods: map<UID, Pod>, entries: set<Key>, counts: Counts, uses: set<Use>,
                   uses': set<Use>, uid: UID)
    requires Right(sel, pods, entries, counts, uses) && uid in pods
    requires forall u, n, ip :: (u, n, ip) in uses' <==>
               (u, n, ip) in uses &&
                   !(u == uid && pods[uid].hasIP && ip == pods[uid].ip &&
                       Belongs(sel, entries, counts, n, pods[uid].labels))
    ensures Right(sel, pods - {uid}, entries, counts, uses')
  {
    forall u, n, ip ensures (u, n, ip) in uses' <==> Wanted(sel, pods - {uid}, entries, counts, u, n, ip) {
      assert (u, n, ip) in uses <==> Wanted(sel, pods, entries, counts, u, n, ip);
    }
  }

  // ---------------------------------------------------------------- counting targets

  /** The p-th direction of the selector with this key, as provisioned for this user. */
  type Instance = (UID, Key, PolicyType, nat)

  ghost function Of(instances: set<Instance>, k: Key, pt: PolicyType): set<Instance> {
    set i | i in instances && i.1 == k && i.2 == pt
  }

  function Count(counts: Counts, k: Key, pt: PolicyType): int {
    if (k, pt) in counts then counts[(k, pt)] else 0
  }

  ghost predicate Counted(counts: Counts, instances: set<Instance>) {
    forall k, pt :: Count(counts, k, pt) == |Of(instances, k, pt)|
  }

  lemma CountedUp(counts: Counts, instances: set<Instance>, x: Instance)
    requires Counted(counts, instances) && x !in instances
    ensures Counted(counts[(x.1, x.2) := Count(counts, x.1, x.2) + 1], instances + {x})
  {
    var counts', instances' := counts[(x.1, x.2) := Count(counts, x.1, x.2) + 1], instances + {x};
    forall k, pt ensures Count(counts', k, pt) == |Of(instances', k, pt)| {
      OfAdded(instances, x, k, pt);
      assert Count(counts, k, pt) == |Of(instances, k, pt)|;
    }
  }

  lemma OfAdded(instances: set<Instance>, x: Instance, k: Key, pt: PolicyType)
    requires x !in instances
    ensures |Of(instances + {x}, k, pt)| == |Of(instances, k, pt)| + if k == x.1 && pt == x.2 then 1 else 0
  {
    if k == x.1 && pt == x.2 {
      assert Of(instances + {x}, k, pt) == Of(instances, k, pt) + {x};
    } else {
      assert Of(instances + {x}, k, pt) == Of(instances, k, pt);
    }
  }

  lemma CountedDown(counts: Counts, instances: set<Instance>, x: Instance)
    requires Counted(counts, instances) && x in instances
    ensures Count(counts, x.1, x.2) > 0
    ensures Counted(counts[(x.1, x.2) := Count(counts, x.1, x.2) - 1], instances - {x})
  {
    var counts', instances' := counts[(x.1, x.2) := Count(counts, x.1, x.2) - 1], instances - {x};
    assert x in Of(instances, x.1, x.2) && Count(counts, x.1, x.2) == |Of(instances, x.1, x.2)|;
    forall k, pt ensures Count(counts', k, pt) == |Of(instances', k, pt)| {
      assert Of(instances', k, pt) == if k == x.1 && pt == x.2 then Of(instances, k, pt) - {x}
             else Of(instances, k, pt);
      assert Count(counts, k, pt) == |Of(instances, k, pt)|;
    }
  }

  lemma TargetHasInstance(counts: Counts, instances: set<Instance>, k: Key, pt: PolicyType) returns (x: Instance)
    requires Counted(counts, instances) && IsTarget(counts, k, pt)
    ensures x in instances && x.1 == k && x.2 == pt
  {
    assert Count(counts, k, pt) == |Of(instances, k, pt)|;
    assert Of(instances, k, pt) != {};
    x :| x in Of(instances, k, pt);
  }

  /** Which selectors are provisioned for whom, and for which directions as targets. */
  type Provisions = map<(UID, Key), seq<PolicyType>>

  ghost predicate IsProvided(prov: Provisions, u: UID, k: Key, pt: PolicyType, p: int) {
    (u, k) in prov && 0 <= p < |prov[(u, k)]| && prov[(u, k)][p] == pt
  }

  /** The instances are those of what is provisioned, and of the directions lo, ..., hi - 1 of
      the selector that is being dealt with. */
  ghost predicate Covered(prov: Provisions, instances: set<Instance>, user: UID, key: Key, pts: seq<PolicyType>,
                          lo: nat, hi: nat)
    requires hi <= |pts|
  {
    forall u, k, pt, p: nat :: (u, k, pt, p) in instances <==>
      (IsProvided(prov, u, k, pt, p) || (u == user && k == key && lo <= p < hi && pts[p] == pt))
  }

  ghost predicate AllProvided(prov: Provisions, instances: set<Instance>) {
    forall u, k, pt, p: nat :: (u, k, pt, p) in instances <==> IsProvided(prov, u, k, pt, p)
  }

  /** The users of the selectors are those they are provisioned for. */
  ghost predicate UsersOf(prov: Provisions, users: map<Key, set<UID>>) {
    && (forall k :: k in users ==> users[k] != {})
    && (forall u, k :: (u, k) in prov <==> k in users && u in users[k])
  }

  lemma TargetsAreUsed(prov: Provisions, users: map<Key, set<UID>>, counts: Counts, instances: set<Instance>,
                       user: UID, key: Key, pts: seq<PolicyType>, lo: nat, hi: nat, pt: PolicyType)
    requires Counted(counts, instances) && UsersOf(prov, users) && hi <= |pts| &&
             Covered(prov, instances, user, key, pts, lo, hi)
    requires key in users || !IsTarget(counts, key, pt)
    ensures forall k :: IsTarget(counts, k, pt) ==> k in users
  {
    forall k | IsTarget(counts, k, pt) ensures k in users {
      var x := TargetHasInstance(counts, instances, k, pt);
      assert (x.0, x.1, x.2, x.3) in instances;
    }
  }

  // ---------------------------------------------------------------- the controller

  lemma TwoDirections(n: SetName)
    ensures n.DefaultAllow? <==> n == DefaultAllow(Ingress) || n == DefaultAllow(Egress)
  {
    if n.DefaultAllow? {
      match n.policyType
      case Ingress =>
      case Egress =>
    }
  }

  /** The uses after one selector was looked at because a pod's labels changed. */
  ghost function Adjusted(sel: Matcher, counts: Counts, uid: UID, k: Key, o: Pod, p: Pod, pt: PolicyType,
                          uses: set<Use>): set<Use> {
    if !IsTarget(counts, k, pt) then uses
    else if !sel(k, o.labels) && sel(k, p.labels) then uses - {(uid, DefaultAllow(pt), o.ip)}
    else if sel(k, o.labels) && !sel(k, p.labels) &&
        !Selected(sel, counts, pt, p.labels) then uses + {(uid, DefaultAllow(pt), p.ip)}
    else uses
  }

  ghost function Switched(sel: Matcher, uid: UID, k: Key, o: Pod, p: Pod, uses: set<Use>): set<Use> {
    uses - (if sel(k, o.labels) then {(uid, SelectorSet(k), o.ip)}
        else {}) + (if sel(k, p.labels) then {(uid, SelectorSet(k), p.ip)} else {})
  }

  ghost function Looked(sel: Matcher, counts: Counts, uid: UID, k: Key, o: Pod, p: Pod, uses: set<Use>): set<Use> {
    Adjusted(sel, counts, uid, k, o, p, Egress,
        Adjusted(sel, counts, uid, k, o, p, Ingress, Switched(sel, uid, k, o, p, uses)))
  }

  /** The uses when the selectors in done have been brought up to date. */
  ghost predicate Between(sel: Matcher, counts: Counts, keys: set<Key>, done: set<Key>, uid: UID, o: Pod, p: Pod,
                          before: set<Use>, uses: set<Use>) {
    && (forall u, n, ip :: u != uid ==> ((u, n, ip) in uses <==> (u, n, ip) in before))
    && (forall k, ip :: (uid, SelectorSet(k), ip) in uses <==>
          k in keys && if k in done then sel(k, p.labels) && ip == p.ip else sel(k, o.labels) && ip == o.ip)
    && (forall pt, ip :: (uid, DefaultAllow(pt), ip) in uses ==> ip == p.ip)
    && (forall pt :: Progress(sel, counts, pt, done, o, p, (uid, DefaultAllow(pt), p.ip) in uses))
  }

  /** The uses after the old address was replaced in a default-allow set. */
  ghost function Moved(uid: UID, oldIP: IP, newIP: IP, pt: PolicyType, uses: set<Use>): set<Use> {
    if (uid, DefaultAllow(pt), oldIP) in uses
    then uses - {(uid, DefaultAllow(pt), oldIP)} + {(uid, DefaultAllow(pt), newIP)}
    else uses
  }

  ghost function MovedBoth(uid: UID, oldIP: IP, newIP: IP, uses: set<Use>): set<Use> {
    if oldIP == newIP then uses else Moved(uid, oldIP, newIP, Egress, Moved(uid, oldIP, newIP, Ingress, uses))
  }

  lemma MovedBothAt(uid: UID, oldIP: IP, newIP: IP, uses: set<Use>, u: UID, n: SetName, ip: IP)
    requires forall pt, i :: (uid, DefaultAllow(pt), i) in uses ==> i == oldIP
    ensures (u, n, ip) in MovedBoth(uid, oldIP, newIP, uses) <==>
            if u == uid && n.DefaultAllow? then (uid, n, oldIP) in uses && ip == newIP else (u, n, ip) in uses
  {
    TwoDirections(n);
  }

  lemma StartBetween(sel: Matcher, pods: map<UID, Pod>, keys: set<Key>, counts: Counts, uses: set<Use>, moved: set<Use>,
                     uid: UID, o: Pod, p: Pod)
    requires Right(sel, pods, keys, counts, uses) && uid in pods && pods[uid] == o && o.hasIP
    requires moved == MovedBoth(uid, o.ip, p.ip, uses)
    ensures Between(sel, counts, keys, {}, uid, o, p, moved, moved)
    ensures forall u, n, ip :: u != uid ==> ((u, n, ip) in moved <==> (u, n, ip) in uses)
  {
    forall u, n, ip
      ensures (u, n, ip) in moved <==> if u == uid && n.DefaultAllow? then (uid, n, o.ip) in uses && ip == p.ip
              else (u, n, ip) in uses {
      forall pt, i | (uid, DefaultAllow(pt), i) in uses ensures i == o.ip {
        assert Wanted(sel, pods, keys, counts, uid, DefaultAllow(pt), i);
      }
      MovedBothAt(uid, o.ip, p.ip, uses, u, n, ip);
    }
    forall k, ip ensures (uid, SelectorSet(k), ip) in moved <==> k in keys && sel(k, o.labels) && ip == o.ip {
      assert (uid, SelectorSet(k), ip) in uses <==> Wanted(sel, pods, keys, counts, uid, SelectorSet(k), ip);
    }
    forall pt ensures Progress(sel, counts, pt, {}, o, p, (uid, DefaultAllow(pt), p.ip) in moved) {
      assert (uid, DefaultAllow(pt), o.ip) in uses <==> Wanted(sel, pods, keys, counts, uid, DefaultAllow(pt), o.ip);
      PhaseStart(sel, counts, pt, o, p);
    }
  }

  /** The sets are right, except perhaps whether this address of the pod is allowed by default. */
  ghost predicate RightBut(sel: Matcher, pods: map<UID, Pod>, keys: set<Key>, counts: Counts, uses: set<Use>, uid: UID,
                           ip: IP) {
    forall u, n: SetName, i :: u != uid || n.SelectorSet? || i != ip ==>
      ((u, n, i) in uses <==> Wanted(sel, pods, keys, counts, u, n, i))
  }

  lemma EndBetween(sel: Matcher, pods: map<UID, Pod>, keys: set<Key>, counts: Counts, uses: set<Use>, moved: set<Use>,
                   uses': set<Use>, uid: UID, o: Pod, p: Pod)
    requires Right(sel, pods, keys, counts, uses) && p.hasIP
    requires forall k, pt :: IsTarget(counts, k, pt) ==> k in keys
    requires forall u, n, ip :: u != uid ==> ((u, n, ip) in moved <==> (u, n, ip) in uses)
    requires Between(sel, counts, keys, keys, uid, o, p, moved, uses')
    ensures Right(sel, pods[uid := p], keys, counts, uses') <==> forall pt :: Keeps(sel, counts, pt, o, p)
    ensures forall pt :: (uid, DefaultAllow(pt), p.ip) in uses' <==> EndsAllowed(sel, counts, pt, o, p)
    ensures RightBut(sel, pods[uid := p], keys, counts, uses', uid, p.ip)
  {
    var pods' := pods[uid := p];
    forall pt
      ensures ((uid, DefaultAllow(pt), p.ip) in uses' <==>
              Wanted(sel, pods', keys, counts, uid, DefaultAllow(pt), p.ip)) <==> Keeps(sel, counts, pt, o, p) {
      PhaseEnd(sel, counts, pt, keys, o, p, (uid, DefaultAllow(pt), p.ip) in uses');
    }
    forall u, n: SetName, ip | u != uid || n.SelectorSet? || ip != p.ip
      ensures (u, n, ip) in uses' <==> Wanted(sel, pods', keys, counts, u, n, ip) {
      if u != uid {
        assert (u, n, ip) in uses <==> Wanted(sel, pods, keys, counts, u, n, ip);
      } else if n.SelectorSet? {
        assert n == SelectorSet(n.key);
      } else {
        assert n == DefaultAllow(n.policyType);
      }
    }
    if forall pt :: Keeps(sel, counts, pt, o, p) {
      forall u, n, ip ensures (u, n, ip) in uses' <==> Wanted(sel, pods', keys, counts, u, n, ip) {
        if u == uid && n.DefaultAllow? && ip == p.ip {
          assert n == DefaultAllow(n.policyType) && Keeps(sel, counts, n.policyType, o, p);
        }
      }
    }
  }

  lemma AdjustedElsewhere(sel: Matcher, counts: Counts, uid: UID, k: Key, o: Pod, p: Pod, pt: PolicyType,
                          uses: set<Use>, x: Use)
    requires x.0 != uid || x.1 != DefaultAllow(pt)
    ensures x in Adjusted(sel, counts, uid, k, o, p, pt, uses) <==> x in uses
  {
  }

  lemma LookedDefault(sel: Matcher, counts: Counts, uid: UID, k: Key, o: Pod, p: Pod, uses: set<Use>, pt: PolicyType,
                      ip: IP)
    ensures (uid, DefaultAllow(pt), ip) in Looked(sel, counts, uid, k, o, p, uses)
       <==> (uid, DefaultAllow(pt), ip) in Adjusted(sel, counts, uid, k, o, p, pt, uses)
  {
    TwoDirections(DefaultAllow(pt));
  }

  lemma LookedElsewhere(sel: Matcher, counts: Counts, uid: UID, k: Key, o: Pod, p: Pod, uses: set<Use>, x: Use)
    requires x.0 != uid || x.1.SelectorSet?
    ensures x in Looked(sel, counts, uid, k, o, p, uses) <==> x in Switched(sel, uid, k, o, p, uses)
  {
    AdjustedElsewhere(sel, counts, uid, k, o, p, Ingress, Switched(sel, uid, k, o, p, uses), x);
    AdjustedElsewhere(sel, counts, uid, k, o, p, Egress,
        Adjusted(sel, counts, uid, k, o, p, Ingress, Switched(sel, uid, k, o, p, uses)), x);
  }

  lemma BetweenStep(sel: Matcher, counts: Counts, keys: set<Key>, done: set<Key>, uid: UID, k: Key, o: Pod, p: Pod,
                    before: set<Use>, uses: set<Use>)
    requires Between(sel, counts, keys, done, uid, o, p, before, uses) && k in keys && k !in done
    ensures sel(k, o.labels) ==> (uid, SelectorSet(k), o.ip) in uses
    ensures Between(sel, counts, keys, done + {k}, uid, o, p, before, Looked(sel, counts, uid, k, o, p, uses))
  {
    var uses' := Looked(sel, counts, uid, k, o, p, uses);
    forall u, n, ip | u != uid ensures (u, n, ip) in uses' <==> (u, n, ip) in before {
      LookedElsewhere(sel, counts, uid, k, o, p, uses, (u, n, ip));
    }
    forall j, ip ensures (uid, SelectorSet(j), ip) in uses' <==>
        j in keys && if j in done + {k} then sel(j, p.labels) && ip == p.ip else sel(j, o.labels) && ip == o.ip {
      LookedElsewhere(sel, counts, uid, k, o, p, uses, (uid, SelectorSet(j), ip));
    }
    forall pt ensures Progress(sel, counts, pt, done + {k}, o, p, (uid, DefaultAllow(pt), p.ip) in uses') {
      PhaseStep(sel, counts, uid, k, o, p, pt, done, uses);
      LookedDefault(sel, counts, uid, k, o, p, uses, pt, p.ip);
    }
    forall pt, ip | (uid, DefaultAllow(pt), ip) in uses' ensures ip == p.ip {
      PhaseStep(sel, counts, uid, k, o, p, pt, done, uses);
      LookedDefault(sel, counts, uid, k, o, p, uses, pt, ip);
    }
  }

  /** Some target among the keys. */
  ghost predicate AnyTarget(sel: Matcher, counts: Counts, pt: PolicyType, keys: set<Key>, yes: Labels) {
    exists k :: k in keys && IsTarget(counts, k, pt) && sel(k, yes)
  }

  ghost predicate AnyNewTarget(sel: Matcher, counts: Counts, pt: PolicyType, keys: set<Key>, yes: Labels, no: Labels) {
    exists k :: k in keys && IsTarget(counts, k, pt) && sel(k, yes) && !sel(k, no)
  }

  /** Whether the pod is in the default-allow set when the selectors in done have been looked at. */
  ghost predicate Phase(sel: Matcher, counts: Counts, pt: PolicyType, done: set<Key>, o: Labels, p: Labels, v: bool) {
    if Selected(sel, counts, pt, p)
    then Selected(sel, counts, pt, o) || AnyNewTarget(sel, counts, pt, done, p, o) ==> !v
    else !Selected(sel, counts, pt, o) || AnyTarget(sel, counts, pt, done, o) ==> v
  }

  /** The same when the address changes with the labels: deletions then miss the entry. */
  ghost predicate PhaseMoved(sel: Matcher, counts: Counts, pt: PolicyType, done: set<Key>, o: Labels, p: Labels,
                             v: bool) {
    v <==> !Selected(sel, counts, pt, o) || (!Selected(sel, counts, pt, p) && AnyTarget(sel, counts, pt, done, o))
  }

  ghost predicate Progress(sel: Matcher, counts: Counts, pt: PolicyType, done: set<Key>, o: Pod, p: Pod, v: bool) {
    if o.labels == p.labels || o.ip == p.ip then Phase(sel, counts, pt, done, o.labels, p.labels, v)
    else PhaseMoved(sel, counts, pt, done, o.labels, p.labels, v)
  }

  lemma PhaseStart(sel: Matcher, counts: Counts, pt: PolicyType, o: Pod, p: Pod)
    ensures Progress(sel, counts, pt, {}, o, p, !Selected(sel, counts, pt, o.labels))
  {
  }

  lemma PhaseStep(sel: Matcher, counts: Counts, uid: UID, k: Key, o: Pod, p: Pod, pt: PolicyType, done: set<Key>,
                  uses: set<Use>)
    requires Progress(sel, counts, pt, done, o, p, (uid, DefaultAllow(pt), p.ip) in uses)
    requires forall ip :: (uid, DefaultAllow(pt), ip) in uses ==> ip == p.ip
    ensures Progress(sel, counts, pt, done + {k}, o, p,
            (uid, DefaultAllow(pt), p.ip) in Adjusted(sel, counts, uid, k, o, p, pt, uses))
    ensures forall ip :: (uid, DefaultAllow(pt), ip) in Adjusted(sel, counts, uid, k, o, p, pt, uses) ==> ip == p.ip
  {
    if IsTarget(counts, k, pt) && sel(k, p.labels) { assert Selected(sel, counts, pt, p.labels); }
    if IsTarget(counts, k, pt) && sel(k, o.labels) { assert AnyTarget(sel, counts, pt, done + {k}, o.labels); }
    AnyTargetMore(sel, counts, pt, done, k, o.labels);
  }

  lemma AnyTargetMore(sel: Matcher, counts: Counts, pt: PolicyType, done: set<Key>, k: Key, o: Labels)
    ensures AnyTarget(sel, counts, pt, done + {k}, o) <==>
            AnyTarget(sel, counts, pt, done, o) || (IsTarget(counts, k, pt) && sel(k, o))
  {
    if AnyTarget(sel, counts, pt, done, o) {
      var j :| j in done && IsTarget(counts, j, pt) && sel(j, o);
      assert j in done + {k};
    }
    if IsTarget(counts, k, pt) && sel(k, o) { assert k in done + {k}; }
  }

  /** Changing labels and address at once is handled right just when no policy begins to apply
      to the pod. */
  ghost predicate Keeps(sel: Matcher, counts: Counts, pt: PolicyType, o: Pod, p: Pod) {
    o.labels == p.labels || o.ip == p.ip ||
        (Selected(sel, counts, pt, p.labels) ==> Selected(sel, counts, pt, o.labels))
  }

  /** After the change the pod is allowed by default: where it goes wrong, it is allowed although a
      policy applies. */
  ghost predicate EndsAllowed(sel: Matcher, counts: Counts, pt: PolicyType, o: Pod, p: Pod) {
    !Selected(sel, counts, pt, p.labels) || !Keeps(sel, counts, pt, o, p)
  }

  // ---------------------------------------------------------------- comparing labels

  /** A missing key of a Go map reads as the empty string. */
  function LabelOf(labels: Labels, k: string): string {
    if k in labels then labels[k] else ""
  }

  /** What equals looks at: the numbers of labels, and the labels of the first map. */
  ghost predicate EqualLabels(a: Labels, b: Labels) {
    |a| == |b| && forall k :: k in a ==> LabelOf(b, k) == a[k]
  }

  /** Labels that look equal are equal just when no empty one was dropped. */
  lemma EqualUnlessDropped(a: Labels, b: Labels)
    requires EqualLabels(a, b)
    ensures a == b <==> forall k :: k in a && a[k] == "" ==> k in b
  {
    if forall k :: k in a && a[k] == "" ==> k in b {
      forall k | k in a ensures k in b {
        assert LabelOf(b, k) == a[k];
      }
      assert |a.Keys| == |a| && |b.Keys| == |b|;
      WholeSet(a.Keys, b.Keys);
      forall k | k in a ensures a[k] == b[k] {
        assert LabelOf(b, k) == a[k];
      }
    }
  }

  /** equals: walks the first map in whatever order. */
  method Equals(a: Labels, b: Labels) returns (equal: bool)
    ensures equal <==> EqualLabels(a, b)
  {
    if |a| != |b| {
      return false;
    }
    var todo := a.Keys;
    while todo != {}
      invariant todo <= a.Keys && forall k :: k in a && k !in todo ==> LabelOf(b, k) == a[k]
    {
      var k :| k in todo;
      todo := todo - {k};
      if LabelOf(b, k) != a[k] {
        return false;
      }
    }
    return true;
  }

  /** The labels changed, but they look equal, and the address is the same: nothing is done. */
  ghost predicate Overlooked(o: Pod, p: Pod) {
    EqualLabels(o.labels, p.labels) && o.labels != p.labels && o.ip == p.ip
  }

  /** The pod is allowed by default after the change. */
  ghost predicate AllowedAfter(sel: Matcher, counts: Counts, pt: PolicyType, o: Pod, p: Pod) {
    if Overlooked(o, p) then !Selected(sel, counts, pt, o.labels) else EndsAllowed(sel, counts, pt, o, p)
  }

  /** The change of a pod is dealt with rightly. */
  ghost predicate Handled(sel: Matcher, counts: Counts, keys: set<Key>, o: Pod, p: Pod) {
    if Overlooked(o, p) then forall k :: k in keys ==> (sel(k, o.labels) <==> sel(k, p.labels))
    else forall pt :: Keeps(sel, counts, pt, o, p)
  }

  /** If nothing is done, the sets are right just when all selectors see the labels alike. */
  lemma NothingDone(sel: Matcher, pods: map<UID, Pod>, keys: set<Key>, counts: Counts, uses: set<Use>, uid: UID,
                    p: Pod)
    requires Right(sel, pods, keys, counts, uses) && uid in pods && pods[uid].hasIP && p.hasIP && pods[uid].ip == p.ip
    requires forall k, pt :: IsTarget(counts, k, pt) ==> k in keys
    ensures Right(sel, pods[uid := p], keys, counts, uses) <==>
            forall k :: k in keys ==> (sel(k, pods[uid].labels) <==> sel(k, p.labels))
    ensures forall pt :: (uid, DefaultAllow(pt), p.ip) in uses <==> !Selected(sel, counts, pt, pods[uid].labels)
  {
    var o, pods' := pods[uid], pods[uid := p];
    forall pt ensures (uid, DefaultAllow(pt), p.ip) in uses <==> !Selected(sel, counts, pt, o.labels) {
      assert (uid, DefaultAllow(pt), p.ip) in uses <==> Wanted(sel, pods, keys, counts, uid, DefaultAllow(pt), p.ip);
    }
    if Right(sel, pods', keys, counts, uses) {
      forall k | k in keys ensures sel(k, o.labels) <==> sel(k, p.labels) {
        assert (uid, SelectorSet(k), p.ip) in uses <==> Wanted(sel, pods, keys, counts, uid, SelectorSet(k), p.ip);
        assert (uid, SelectorSet(k), p.ip) in uses <==> Wanted(sel, pods', keys, counts, uid, SelectorSet(k), p.ip);
      }
    }
    if forall k :: k in keys ==> (sel(k, o.labels) <==> sel(k, p.labels)) {
      forall pt ensures Selected(sel, counts, pt, o.labels) <==> Selected(sel, counts, pt, p.labels) {
        SeenAlike(sel, counts, keys, pt, o.labels, p.labels);
        SeenAlike(sel, counts, keys, pt, p.labels, o.labels);
      }
      forall u, n, ip ensures (u, n, ip) in uses <==> Wanted(sel, pods', keys, counts, u, n, ip) {
        assert (u, n, ip) in uses <==> Wanted(sel, pods, keys, counts, u, n, ip);
      }
    }
  }

  lemma SeenAlike(sel: Matcher, counts: Counts, keys: set<Key>, pt: PolicyType, a: Labels, b: Labels)
    requires forall k :: k in keys ==> (sel(k, a) <==> sel(k, b))
    requires forall k, pt :: IsTarget(counts, k, pt) ==> k in keys
    ensures Selected(sel, counts, pt, a) ==> Selected(sel, counts, pt, b)
  {
    if k :| IsTarget(counts, k, pt) && sel(k, a) {
      assert sel(k, b);
    }
  }

  lemma PhaseEnd(sel: Matcher, counts: Counts, pt: PolicyType, keys: set<Key>, o: Pod, p: Pod, v: bool)
    requires Progress(sel, counts, pt, keys, o, p, v) && forall k :: IsTarget(counts, k, pt) ==> k in keys
    ensures (v <==> !Selected(sel, counts, pt, p.labels)) <==> Keeps(sel, counts, pt, o, p)
    ensures v <==> EndsAllowed(sel, counts, pt, o, p)
  {
    if Selected(sel, counts, pt, o.labels) {
      var k :| IsTarget(counts, k, pt) && sel(k, o.labels);
      assert AnyTarget(sel, counts, pt, keys, o.labels);
    }
    if Selected(sel, counts, pt, p.labels) {
      var k :| IsTarget(counts, k, pt) && sel(k, p.labels);
      if sel(k, o.labels) { assert Selected(sel, counts, pt, o.labels); }
      else { assert AnyNewTarget(sel, counts, pt, keys, p.labels, o.labels); }
    }
  }

  class Namespace {
    const sel: Matcher
    const ips: IpSet
    var pods: map<UID, Pod>
    /** The provisioned selectors and their users. */
    var users: map<Key, set<UID>>
    var counts: Counts
    ghost var instances: set<Instance>
    ghost var provisioned: Provisions

    /** The sets there are: two for default-allow, and one for each selector. */
    ghost predicate HasSets()
      reads this, ips
    {
      forall n :: n in ips.kernel <==> n.DefaultAllow? || n.key in users
    }

    ghost predicate Valid()
      reads this, ips
    {
      Consistent() && Right(sel, pods, users.Keys, counts, ips.uses)
    }

    /** The bookkeeping of selectors, whatever the sets contain. */
    ghost predicate Consistent()
      reads this, ips
    {
      && ips.Valid() && HasSets()
      && UsersOf(provisioned, users)
      && Counted(counts, instances) && AllProvided(provisioned, instances)
    }

    constructor Empty(sel: Matcher)
      ensures Valid() && this.sel == sel && fresh(ips) && pods == map[] && provisioned == map[]
    {
      this.sel := sel;
      ips := new IpSet();
      pods, users, counts, instances, provisioned := map[], map[], map[], {}, map[];
      new;
      ips.Create(DefaultAllow(Ingress));
      ips.Create(DefaultAllow(Egress));
      forall n | n in {DefaultAllow(Ingress), DefaultAllow(Egress)} || n.DefaultAllow?
        ensures n in ips.kernel && n.DefaultAllow? {
        TwoDirections(n);
      }
      assert forall k, pt :: Of(instances, k, pt) == {};
    }

    // -------------------------------------------------------------- pods and selectors

    /** addToMatching: adds the pod to the sets of all selectors that match it. */
    method AddToMatching(uid: UID, pod: Pod) returns (foundIngress: bool, foundEgress: bool)
      requires ips.Valid() && HasSets()
      requires forall k, pt :: IsTarget(counts, k, pt) ==> k in users
      modifies ips
      ensures ips.Valid() && HasSets()
      ensures foundIngress <==> Selected(sel, counts, Ingress, pod.labels)
      ensures foundEgress <==> Selected(sel, counts, Egress, pod.labels)
      ensures forall u, n, ip :: (u, n, ip) in ips.uses <==>
                (u, n, ip) in old(ips.uses) ||
                    (u == uid && ip == pod.ip && n.SelectorSet? && n.key in users && sel(n.key, pod.labels))
    {
      foundIngress, foundEgress := false, false;
      var todo := users.Keys;
      while todo != {}
        invariant todo <= users.Keys && ips.Valid() && ips.kernel.Keys == old(ips.kernel.Keys)
        invariant foundIngress <==> AnyTarget(sel, counts, Ingress, users.Keys - todo, pod.labels)
        invariant foundEgress <==> AnyTarget(sel, counts, Egress, users.Keys - todo, pod.labels)
        invariant forall u, n, ip :: (u, n, ip) in ips.uses <==>
                    (u, n, ip) in old(ips.uses)
                    || (u == uid && ip == pod.ip && n.SelectorSet? && n.key in users && n.key !in todo &&
                        sel(n.key, pod.labels))
      {
        var k :| k in todo;
        todo := todo - {k};
        if sel(k, pod.labels) {
          if IsTarget(counts, k, Ingress) {
            foundIngress := true;
          }
          if IsTarget(counts, k, Egress) {
            foundEgress := true;
          }
          ips.AddEntry(uid, SelectorSet(k), pod.ip);
        }
      }
    }

    method DelFromMatching(uid: UID, pod: Pod)
      requires ips.Valid() && HasSets()
      modifies ips
      ensures ips.Valid() && HasSets()
      ensures forall u, n, ip :: (u, n, ip) in ips.uses <==>
                (u, n, ip) in old(ips.uses) &&
                    !(u == uid && ip == pod.ip && n.SelectorSet? && n.key in users && sel(n.key, pod.labels))
    {
      var todo := users.Keys;
      while todo != {}
        invariant todo <= users.Keys && ips.Valid() && ips.kernel.Keys == old(ips.kernel.Keys)
        invariant forall u, n, ip :: (u, n, ip) in ips.uses <==>
                    (u, n, ip) in old(ips.uses)
                    && !(u == uid && ip == pod.ip && n.SelectorSet? && n.key in users && n.key !in todo &&
                        sel(n.key, pod.labels))
      {
        var k :| k in todo;
        todo := todo - {k};
        if sel(k, pod.labels) {
          ips.DelEntry(uid, SelectorSet(k), pod.ip);
        }
      }
    }

    /** Adds the pod to every set it belongs in. */
    method AddToSets(uid: UID, pod: Pod)
      requires ips.Valid() && HasSets()
      requires forall k, pt :: IsTarget(counts, k, pt) ==> k in users
      modifies ips
      ensures ips.Valid() && HasSets()
      ensures forall u, n, ip :: (u, n, ip) in ips.uses <==>
                (u, n, ip) in old(ips.uses) ||
                    (u == uid && ip == pod.ip && Belongs(sel, users.Keys, counts, n, pod.labels))
    {
      var foundIngress, foundEgress := AddToMatching(uid, pod);
      AddToDefault(uid, pod.ip, !foundIngress, !foundEgress);
    }

    method AddToDefault(uid: UID, ip: IP, ingress: bool, egress: bool)
      requires ips.Valid() && HasSets()
      modifies ips
      ensures ips.Valid() && HasSets()
      ensures forall u, n, i :: (u, n, i) in ips.uses <==>
                (u, n, i) in old(ips.uses) ||
                    (u == uid && i == ip && n.DefaultAllow? && if n.policyType == Ingress then ingress else egress)
    {
      if ingress {
        ips.AddEntry(uid, DefaultAllow(Ingress), ip);
      }
      if egress {
        ips.AddEntry(uid, DefaultAllow(Egress), ip);
      }
      forall u, n, i ensures (u, n, i) in ips.uses <==>
          (u, n, i) in old(ips.uses) ||
              (u == uid && i == ip && n.DefaultAllow? && if n.policyType == Ingress then ingress else egress) {
        TwoDirections(n);
      }
    }

    /** Deletes the pod from every set it can be in. */
    method DelFromSets(uid: UID, pod: Pod)
      requires ips.Valid() && HasSets()
      modifies ips
      ensures ips.Valid() && HasSets()
      ensures forall u, n, ip :: (u, n, ip) in ips.uses <==>
                (u, n, ip) in old(ips.uses) &&
                    !(u == uid && ip == pod.ip && (n.DefaultAllow? || (n.key in users && sel(n.key, pod.labels))))
    {
      ips.DelEntry(uid, DefaultAllow(Ingress), pod.ip);
      ips.DelEntry(uid, DefaultAllow(Egress), pod.ip);
      forall u, n, ip
        ensures (u, n, ip) in ips.uses <==>
                (u, n, ip) in old(ips.uses) && !(u == uid && ip == pod.ip && n.DefaultAllow?) {
        TwoDirections(n);
      }
      DelFromMatching(uid, pod);
    }

    lemma TargetsUsed()
      requires Valid()
      ensures forall k, pt :: IsTarget(counts, k, pt) ==> k in users
    {
      forall k, pt | IsTarget(counts, k, pt) ensures k in users {
        var x := TargetHasInstance(counts, instances, k, pt);
        assert (x.0, x.1, x.2, x.3) in instances;
      }
    }

    method AddPod(uid: UID, pod: Pod)
      requires Valid() && uid !in pods
      modifies this, ips
      ensures Valid() && pods == old(pods)[uid := pod]
      ensures provisioned == old(provisioned)
    {
      TargetsUsed();
      ghost var before := ips.uses;
      if pod.hasIP {
        AddToSets(uid, pod);
      }
      PodAdded(sel, pods, users.Keys, counts, before, ips.uses, uid, pod);
      pods := pods[uid := pod];
    }

    method DeletePod(uid: UID)
      requires Valid() && uid in pods
      modifies this, ips
      ensures Valid() && pods == old(pods) - {uid}
      ensures provisioned == old(provisioned)
    {
      var pod := pods[uid];
      ghost var before := ips.uses;
      if pod.hasIP {
        DelFromSets(uid, pod);
        assert forall n, ip :: (uid, n, ip) in before <==> Wanted(sel, pods, users.Keys, counts, uid, n, ip);
      }
      PodRemoved(sel, pods, users.Keys, counts, before, ips.uses, uid);
      pods := pods - {uid};
    }

    // -------------------------------------------------------------- changed pods

    /** updateDefaultAllowIPSetEntry: a new address takes the place of the old one. */
    method MoveInDefault(uid: UID, oldIP: IP, newIP: IP, pt: PolicyType)
      requires ips.Valid() && HasSets()
      modifies ips
      ensures ips.Valid() && HasSets()
      ensures ips.uses == Moved(uid, oldIP, newIP, pt, old(ips.uses))
    {
      var exist := ips.Exist(uid, DefaultAllow(pt), oldIP);
      if exist {
        ips.DelEntry(uid, DefaultAllow(pt), oldIP);
        ips.AddEntry(uid, DefaultAllow(pt), newIP);
      }
    }

    /** addOrRemoveToDefaultAllowIPSet */
    method AdjustDefault(uid: UID, k: Key, o: Pod, p: Pod, pt: PolicyType)
      requires ips.Valid() && HasSets() && forall j :: IsTarget(counts, j, pt) ==> j in users
      modifies ips
      ensures ips.Valid() && HasSets()
      ensures ips.uses == Adjusted(sel, counts, uid, k, o, p, pt, old(ips.uses))
    {
      if IsTarget(counts, k, pt) {
        if !sel(k, o.labels) && sel(k, p.labels) {
          ips.DelEntry(uid, DefaultAllow(pt), o.ip);
        } else if sel(k, o.labels) && !sel(k, p.labels) {
          AddToDefaultAllowIfNoMatching(uid, p, pt);
        }
      }
    }

    /** Brings one selector up to date with a changed pod. */
    method UpdateSelector(uid: UID, k: Key, o: Pod, p: Pod)
      requires ips.Valid() && HasSets() && k in users && forall j, pt :: IsTarget(counts, j, pt) ==> j in users
      requires sel(k, o.labels) ==> (uid, SelectorSet(k), o.ip) in ips.uses
      modifies ips
      ensures ips.Valid() && HasSets()
      ensures ips.uses == Looked(sel, counts, uid, k, o, p, old(ips.uses))
    {
      var oldMatch, newMatch := sel(k, o.labels), sel(k, p.labels);
      if oldMatch == newMatch && o.ip == p.ip {
        assert Switched(sel, uid, k, o, p, ips.uses) == ips.uses;
        return;
      }
      SwitchSelector(uid, k, o, p);
      AdjustDefault(uid, k, o, p, Ingress);
      AdjustDefault(uid, k, o, p, Egress);
    }

    method SwitchSelector(uid: UID, k: Key, o: Pod, p: Pod)
      requires ips.Valid() && HasSets() && k in users
      modifies ips
      ensures ips.Valid() && HasSets() && ips.uses == Switched(sel, uid, k, o, p, old(ips.uses))
    {
      if sel(k, o.labels) {
        ips.DelEntry(uid, SelectorSet(k), o.ip);
      }
      if sel(k, p.labels) {
        ips.AddEntry(uid, SelectorSet(k), p.ip);
      }
    }

    /** The loop of updatePod over the selectors, in any order. */
    method UpdateSelectors(uid: UID, o: Pod, p: Pod)
      requires ips.Valid() && HasSets() && forall j, pt :: IsTarget(counts, j, pt) ==> j in users
      requires Between(sel, counts, users.Keys, {}, uid, o, p, ips.uses, ips.uses)
      modifies ips
      ensures ips.Valid() && HasSets()
      ensures Between(sel, counts, users.Keys, users.Keys, uid, o, p, old(ips.uses), ips.uses)
    {
      var todo := users.Keys;
      assert users.Keys - todo == {};
      while todo != {}
        invariant todo <= users.Keys && ips.Valid() && HasSets()
        invariant Between(sel, counts, users.Keys, users.Keys - todo, uid, o, p, old(ips.uses), ips.uses)
      {
        var k :| k in todo;
        ghost var done := users.Keys - todo;
        BetweenStep(sel, counts, users.Keys, done, uid, k, o, p, old(ips.uses), ips.uses);
        todo := todo - {k};
        assert users.Keys - todo == done + {k};
        UpdateSelector(uid, k, o, p);
      }
      assert users.Keys - todo == users.Keys;
    }

    /** A pod has changed its labels or its address.  If the change of labels is overlooked, the
        sets are right just when no selector tells the labels apart; if labels and address
        changed at once, just when no policy begins to apply to the pod; and otherwise always. */
    method UpdatePod(uid: UID, pod: Pod)
      requires Valid() && uid in pods
      modifies this, ips
      ensures Consistent() && pods == old(pods)[uid := pod]
      ensures provisioned == old(provisioned) && counts == old(counts)
      ensures users == old(users)
      ensures Valid() <==> (old(pods)[uid].hasIP && pod.hasIP ==> Handled(sel, counts, users.Keys, old(pods)[uid], pod))
      ensures old(pods)[uid].hasIP && pod.hasIP ==>
                forall pt :: (uid, DefaultAllow(pt), pod.ip) in ips.uses <==>
                             AllowedAfter(sel, counts, pt, old(pods)[uid], pod)
      ensures old(pods)[uid].hasIP && pod.hasIP ==>
                if Overlooked(old(pods)[uid], pod) then ips.uses == old(ips.uses)
                else RightBut(sel, pods, users.Keys, counts, ips.uses, uid, pod.ip)
    {
      TargetsUsed();
      var was := pods[uid];
      if was.hasIP && pod.hasIP {
        ChangePod(uid, was, pod);
      } else if was.hasIP {
        DelFromSets(uid, was);
        assert forall n, ip :: (uid, n, ip) in old(ips.uses) <==> Wanted(sel, pods, users.Keys, counts, uid, n, ip);
        PodRemoved(sel, pods, users.Keys, counts, old(ips.uses), ips.uses, uid);
        PodAdded(sel, pods - {uid}, users.Keys, counts, ips.uses, ips.uses, uid, pod);
        assert (pods - {uid})[uid := pod] == pods[uid := pod];
      } else {
        if pod.hasIP {
          AddToSets(uid, pod);
        }
        PodAdded(sel, pods, users.Keys, counts, old(ips.uses), ips.uses, uid, pod);
      }
      pods := pods[uid := pod];
    }

    method ChangePod(uid: UID, o: Pod, p: Pod)
      requires ips.Valid() && HasSets() && forall j, pt :: IsTarget(counts, j, pt) ==> j in users
      requires Right(sel, pods, users.Keys, counts, ips.uses)
      requires uid in pods && pods[uid] == o && o.hasIP && p.hasIP
      modifies ips
      ensures ips.Valid() && HasSets()
      ensures Right(sel, pods[uid := p], users.Keys, counts, ips.uses) <==> Handled(sel, counts, users.Keys, o, p)
      ensures forall pt :: (uid, DefaultAllow(pt), p.ip) in ips.uses <==> AllowedAfter(sel, counts, pt, o, p)
      ensures if Overlooked(o, p) then ips.uses == old(ips.uses)
              else RightBut(sel, pods[uid := p], users.Keys, counts, ips.uses, uid, p.ip)
    {
      if o.ip != p.ip {
        MoveInDefault(uid, o.ip, p.ip, Ingress);
        MoveInDefault(uid, o.ip, p.ip, Egress);
      }
      ghost var moved := ips.uses;
      var equal := Equals(o.labels, p.labels);
      if !equal || o.ip != p.ip {
        StartBetween(sel, pods, users.Keys, counts, old(ips.uses), moved, uid, o, p);
        UpdateSelectors(uid, o, p);
        EndBetween(sel, pods, users.Keys, counts, old(ips.uses), moved, ips.uses, uid, o, p);
      } else {
        NothingDone(sel, pods, users.Keys, counts, ips.uses, uid, p);
      }
    }

    // -------------------------------------------------------------- selectors of policies

    /** Fills the set of a new selector. */
    method OnNewPodSelector(key: Key)
      requires ips.Valid() && SelectorSet(key) in ips.kernel
      modifies ips
      ensures ips.Valid() && ips.kernel.Keys == old(ips.kernel).Keys
      ensures forall u, n, ip :: (u, n, ip) in ips.uses <==>
                (u, n, ip) in old(ips.uses) || (n == SelectorSet(key) && Has(pods, u, ip) && sel(key, pods[u].labels))
    {
      var todo := pods.Keys;
      while todo != {}
        invariant todo <= pods.Keys && ips.Valid() && ips.kernel.Keys == old(ips.kernel).Keys
        invariant forall u, n, ip :: (u, n, ip) in ips.uses <==>
                    (u, n, ip) in old(ips.uses) ||
                        (n == SelectorSet(key) && Has(pods, u, ip) && u !in todo && sel(key, pods[u].labels))
      {
        var uid :| uid in todo;
        todo := todo - {uid};
        if pods[uid].hasIP && sel(key, pods[uid].labels) {
          ips.AddEntry(uid, SelectorSet(key), pods[uid].ip);
        }
      }
    }

    /** Pods that a new target selects are no longer allowed by default. */
    method OnNewTargetPodSelector(key: Key, pt: PolicyType)
      requires ips.Valid() && DefaultAllow(pt) in ips.kernel
      modifies ips
      ensures ips.Valid() && ips.kernel.Keys == old(ips.kernel).Keys
      ensures forall u, n, ip :: (u, n, ip) in ips.uses <==>
                (u, n, ip) in old(ips.uses) && !(n == DefaultAllow(pt) && Has(pods, u, ip) && sel(key, pods[u].labels))
    {
      var todo := pods.Keys;
      while todo != {}
        invariant todo <= pods.Keys && ips.Valid() && ips.kernel.Keys == old(ips.kernel).Keys
        invariant forall u, n, ip :: (u, n, ip) in ips.uses <==>
                    (u, n, ip) in old(ips.uses) &&
                        !(n == DefaultAllow(pt) && Has(pods, u, ip) && u !in todo && sel(key, pods[u].labels))
      {
        var uid :| uid in todo;
        todo := todo - {uid};
        if pods[uid].hasIP && sel(key, pods[uid].labels) {
          ips.DelEntry(uid, DefaultAllow(pt), pods[uid].ip);
        }
      }
    }

    /** Adds the pod to the default-allow set if no target selects it. */
    method AddToDefaultAllowIfNoMatching(uid: UID, pod: Pod, pt: PolicyType)
      requires ips.Valid() && DefaultAllow(pt) in ips.kernel
      requires forall k :: IsTarget(counts, k, pt) ==> k in users
      modifies ips
      ensures ips.Valid() && ips.kernel.Keys == old(ips.kernel).Keys
      ensures ips.uses == if Selected(sel, counts, pt, pod.labels) then old(ips.uses)
              else old(ips.uses) + {(uid, DefaultAllow(pt), pod.ip)}
    {
      var found := false;
      var todo := users.Keys;
      while todo != {} && !found
        invariant todo <= users.Keys
        invariant found ==> Selected(sel, counts, pt, pod.labels)
        invariant !found ==> forall k :: k in users && k !in todo ==> !(IsTarget(counts, k, pt) && sel(k, pod.labels))
      {
        var k :| k in todo;
        todo := todo - {k};
        if IsTarget(counts, k, pt) && sel(k, pod.labels) {
          found := true;
        }
      }
      if !found {
        ips.AddEntry(uid, DefaultAllow(pt), pod.ip);
      }
    }

    /** Pods that only an old target selected are allowed by default again. */
    method OnDestroyTargetPodSelector(key: Key, pt: PolicyType)
      requires ips.Valid() && DefaultAllow(pt) in ips.kernel
      requires forall k :: IsTarget(counts, k, pt) ==> k in users
      modifies ips
      ensures ips.Valid() && ips.kernel.Keys == old(ips.kernel).Keys
      ensures forall u, n, ip :: (u, n, ip) in ips.uses <==>
                ((u, n, ip) in old(ips.uses) || (n == DefaultAllow(pt) && Freed(sel, pods, counts, key, pt, u, ip)))
    {
      var todo := pods.Keys;
      while todo != {}
        invariant todo <= pods.Keys && ips.Valid() && ips.kernel.Keys == old(ips.kernel).Keys
        invariant forall u, n, ip :: (u, n, ip) in ips.uses <==>
                    ((u, n, ip) in old(ips.uses) ||
                        (n == DefaultAllow(pt) && u !in todo && Freed(sel, pods, counts, key, pt, u, ip)))
      {
        var uid :| uid in todo;
        todo := todo - {uid};
        if pods[uid].hasIP && sel(key, pods[uid].labels) {
          AddToDefaultAllowIfNoMatching(uid, pods[uid], pt);
        }
      }
    }

    /** Creates and fills the set of a new selector. */
    method MakeSet(key: Key)
      requires ips.Valid() && HasSets() && key !in users && Right(sel, pods, users.Keys, counts, ips.uses)
      modifies ips
      ensures ips.Valid() && ips.kernel.Keys == old(ips.kernel).Keys + {SelectorSet(key)}
      ensures Right(sel, pods, users.Keys + {key}, counts, ips.uses)
    {
      ips.Create(SelectorSet(key));
      OnNewPodSelector(key);
      NewSelector(sel, pods, users.Keys, counts, old(ips.uses), ips.uses, key);
    }

    /** A selector gets one more user, and a set if it is the first. */
    method Register(user: UID, key: Key)
      requires Valid() && (user, key) !in provisioned
      modifies this, ips
      ensures Valid() && provisioned == old(provisioned)[(user, key) := []] && pods == old(pods)
    {
      if key !in users {
        MakeSet(key);
      } else {
        assert users.Keys + {key} == users.Keys;
      }
      Registered(provisioned, users, instances, user, key);
      users := WithUser(users, user, key);
      provisioned := provisioned[(user, key) := []];
    }

    /** One more instance of a target; with the first, its pods are allowed by default no longer. */
    method CountTarget(key: Key, pt: PolicyType)
      requires ips.Valid() && HasSets() && Right(sel, pods, users.Keys, counts, ips.uses)
      modifies this`counts, ips
      ensures counts == old(counts)[(key, pt) := Count(old(counts), key, pt) + 1]
      ensures ips.Valid() && HasSets() && Right(sel, pods, users.Keys, counts, ips.uses)
    {
      ghost var before := counts;
      counts := counts[(key, pt) := Count(counts, key, pt) + 1];
      if counts[(key, pt)] == 1 {
        ghost var uses := ips.uses;
        OnNewTargetPodSelector(key, pt);
        NewTarget(sel, pods, users.Keys, before, counts, uses, ips.uses, key, pt);
      } else {
        SameTargets(sel, pods, users.Keys, before, counts, ips.uses);
      }
    }

    /** A selector becomes the target of one more policy. */
    method AddTarget(user: UID, key: Key, pt: PolicyType)
      requires Valid() && (user, key) in provisioned
      modifies this, ips
      ensures Valid() && pods == old(pods)
      ensures provisioned == old(provisioned)[(user, key) := old(provisioned)[(user, key)] + [pt]]
    {
      ghost var x: Instance := (user, key, pt, |provisioned[(user, key)]|);
      assert (x.0, x.1, x.2, x.3) !in instances;
      CountedUp(counts, instances, x);
      CountTarget(key, pt);
      ProvidedMore(provisioned, instances, user, key, pt);
      instances := instances + {x};
      provisioned := provisioned[(user, key) := provisioned[(user, key)] + [pt]];
    }

    /** provision for one selector. */
    method ProvisionSelector(user: UID, key: Key, pts: seq<PolicyType>)
      requires Valid() && (user, key) !in provisioned
      modifies this, ips
      ensures Valid() && provisioned == old(provisioned)[(user, key) := pts] && pods == old(pods)
    {
      Register(user, key);
      for i := 0 to |pts|
        invariant Valid() && pods == old(pods)
        invariant provisioned == old(provisioned)[(user, key) := pts[..i]]
      {
        AddTarget(user, key, pts[i]);
        assert pts[..i + 1] == pts[..i] + [pts[i]];
      }
      assert pts[..|pts|] == pts;
    }

    /** Half-way through deprovision: directions i and later of the selector still count. */
    ghost predicate Leaving(user: UID, key: Key, pts: seq<PolicyType>, i: nat)
      requires i <= |pts|
      reads this, ips
    {
      && ips.Valid() && HasSets()
      && UsersOf(provisioned, users)
      && Counted(counts, instances) && Covered(provisioned, instances, user, key, pts, i, |pts|)
      && (user, key) !in provisioned
      && Right(sel, pods, users.Keys, counts, ips.uses)
    }

    /** A selector loses a user, and its set with the last one. */
    method Unregister(user: UID, key: Key)
      requires Valid() && (user, key) in provisioned
      modifies this, ips
      ensures Leaving(user, key, old(provisioned)[(user, key)], 0)
      ensures provisioned == old(provisioned) - {(user, key)} && pods == old(pods)
    {
      Unregistered(provisioned, users, instances, user, key);
      if users[key] == {user} {
        ips.Destroy(SelectorSet(key));
        OldSelector(sel, pods, users.Keys, counts, old(ips.uses), ips.uses, key);
      }
      users := WithoutUser(users, user, key);
      provisioned := provisioned - {(user, key)};
    }

    /** A selector is the target of one policy less. */
    method DropTarget(user: UID, key: Key, pts: seq<PolicyType>, i: nat)
      requires i < |pts| && Leaving(user, key, pts, i)
      modifies this, ips
      ensures Leaving(user, key, pts, i + 1) && provisioned == old(provisioned) && pods == old(pods)
    {
      var pt := pts[i];
      ghost var x: Instance := (user, key, pt, i);
      assert (x.0, x.1, x.2, x.3) in instances;
      CountedDown(counts, instances, x);
      CoveredLess(provisioned, instances, user, key, pts, i);
      ghost var before := counts;
      counts := counts[(key, pt) := Count(counts, key, pt) - 1];
      instances := instances - {x};
      if counts[(key, pt)] == 0 {
        TargetsAreUsed(provisioned, users, counts, instances, user, key, pts, i + 1, |pts|, pt);
        OnDestroyTargetPodSelector(key, pt);
        OldTarget(sel, pods, users.Keys, before, counts, old(ips.uses), ips.uses, key, pt);
      } else {
        SameTargets(sel, pods, users.Keys, before, counts, ips.uses);
      }
    }

    /** deprovision for one selector. */
    method DeprovisionSelector(user: UID, key: Key, pts: seq<PolicyType>)
      requires Valid() && (user, key) in provisioned && provisioned[(user, key)] == pts
      modifies this, ips
      ensures Valid() && provisioned == old(provisioned) - {(user, key)} && pods == old(pods)
    {
      Unregister(user, key);
      for i := 0 to |pts|
        invariant Leaving(user, key, pts, i) && provisioned == old(provisioned) - {(user, key)} && pods == old(pods)
      {
        DropTarget(user, key, pts, i);
      }
    }

    // -------------------------------------------------------------- policies

    /** A new policy, by the selectors it needs; the one that says which pods it is for comes
        with the directions it is for. */
    method AddNetworkPolicy(uid: UID, selectors: map<Key, seq<PolicyType>>)
      requires Valid() && forall k :: (uid, k) !in provisioned
      modifies this, ips
      ensures Valid() && pods == old(pods)
      ensures forall u, k :: (u, k) in provisioned <==> (u, k) in old(provisioned) || (u == uid && k in selectors)
      ensures forall u, k :: (u, k) in provisioned ==> provisioned[(u, k)] == if u == uid then selectors[k]
              else old(provisioned)[(u, k)]
    {
      var todo := selectors.Keys;
      while todo != {}
        invariant todo <= selectors.Keys && Valid() && pods == old(pods)
        invariant forall u, k :: (u, k) in provisioned <==>
                  (u, k) in old(provisioned) || (u == uid && k in selectors && k !in todo)
        invariant forall u, k :: (u, k) in provisioned ==> provisioned[(u, k)] == if u == uid then selectors[k]
                  else old(provisioned)[(u, k)]
      {
        var k :| k in todo;
        todo := todo - {k};
        ProvisionSelector(uid, k, selectors[k]);
      }
    }

    /** The policy is removed as it was added. */
    method DeleteNetworkPolicy(uid: UID, selectors: map<Key, seq<PolicyType>>)
      requires Valid() && forall k :: k in selectors ==>
               (uid, k) in provisioned && provisioned[(uid, k)] == selectors[k]
      modifies this, ips
      ensures Valid() && pods == old(pods)
      ensures forall u, k :: (u, k) in provisioned <==> (u, k) in old(provisioned) && !(u == uid && k in selectors)
      ensures forall u, k :: (u, k) in provisioned ==> provisioned[(u, k)] == old(provisioned)[(u, k)]
    {
      var todo := selectors.Keys;
      while todo != {}
        invariant todo <= selectors.Keys && Valid() && pods == old(pods)
        invariant forall u, k :: (u, k) in provisioned <==>
                  (u, k) in old(provisioned) && !(u == uid && k in selectors && k !in todo)
        invariant forall u, k :: (u, k) in provisioned ==> provisioned[(u, k)] == old(provisioned)[(u, k)]
      {
        var k :| k in todo;
        todo := todo - {k};
        DeprovisionSelector(uid, k, selectors[k]);
      }
    }

    // -------------------------------------------------------------- what the kernel sees

    /** An address is in a set of the kernel just when a pod with this address belongs there:
        in a default-allow set if no target of the direction selects the pod, in the set of a
        selector if that matches the pod. */
    lemma KernelIsRight(n: SetName, ip: IP)
      requires Valid() && (n.DefaultAllow? || n.key in users)
      ensures n in ips.kernel
      ensures ip in ips.kernel[n] <==> exists u ::
              Has(pods, u, ip) && Belongs(sel, users.Keys, counts, n, pods[u].labels)
    {
      ips.KernelHasUsed(n, ip);
      if u :| (u, n, ip) in ips.uses { assert Wanted(sel, pods, users.Keys, counts, u, n, ip); }
      if u :| Has(pods, u, ip) && Belongs(sel, users.Keys, counts, n, pods[u].labels) {
        assert Wanted(sel, pods, users.Keys, counts, u, n, ip);
      }
    }

    /** A selector counts as a target of a direction just when some policy says so. */
    lemma TargetsAreProvisioned(k: Key, pt: PolicyType)
      requires Valid()
      ensures IsTarget(counts, k, pt) <==> exists u :: (u, k) in provisioned && pt in provisioned[(u, k)]
    {
      if IsTarget(counts, k, pt) {
        var x := TargetHasInstance(counts, instances, k, pt);
        assert (x.0, x.1, x.2, x.3) in instances;
        assert pt in provisioned[(x.0, k)];
      }
      if u :| (u, k) in provisioned && pt in provisioned[(u, k)] {
        var p :| 0 <= p < |provisioned[(u, k)]| && provisioned[(u, k)][p] == pt;
        assert IsProvided(provisioned, u, k, pt, p);
        assert (u, k, pt, p) in Of(instances, k, pt);
        assert Count(counts, k, pt) == |Of(instances, k, pt)|;
      }
    }
  }

  /** The selector without requirements. */
  const ALL_PODS: Key := ""

  /** A new namespace has the selector of all its pods. */
  method NewNamespace(sel: Matcher, uid: UID) returns (ns: Namespace)
    ensures fresh(ns) && fresh(ns.ips) && ns.Valid() && ns.sel == sel
    ensures ns.pods == map[] && ns.provisioned == map[(uid, ALL_PODS) := []]
  {
    ns := new Namespace.Empty(sel);
    ns.ProvisionSelector(uid, ALL_PODS, []);
  }

  /** A namespace with a pod and a policy with one target. */
  method WithPolicy(sel: Matcher, owner: UID, uid: UID, pod: Pod, policy: UID, key: Key) returns (ns: Namespace)
    requires owner != policy
    ensures fresh(ns) && fresh(ns.ips) && ns.Valid() && ns.sel == sel && ns.pods == map[uid := pod]
    ensures forall k :: IsTarget(ns.counts, k, Ingress) <==> k == key
  {
    ns := NewNamespace(sel, owner);
    ns.AddPod(uid, pod);
    ns.AddNetworkPolicy(policy, map[key := [Ingress]]);
    assert (policy, key) in ns.provisioned;
    forall k ensures IsTarget(ns.counts, k, Ingress) <==> k == key {
      ns.TargetsAreProvisioned(k, Ingress);
    }
  }

  /** A pod gets labels that a policy selects and a new address at the same time: the kernel goes
      on allowing the new address by default. */
  method ChangedTogether(sel: Matcher, owner: UID, uid: UID, was: Pod, pod: Pod, policy: UID, key: Key)
    returns (ns: Namespace)
    requires owner != policy && was.hasIP && pod.hasIP && was.ip != pod.ip && sel(key, pod.labels) &&
             !sel(key, was.labels)
    ensures !ns.Valid() && ns.pods == map[uid := pod] && Selected(sel, ns.counts, Ingress, pod.labels)
    ensures DefaultAllow(Ingress) in ns.ips.kernel && pod.ip in ns.ips.kernel[DefaultAllow(Ingress)]
  {
    ns := WithPolicy(sel, owner, uid, was, policy, key);
    assert IsTarget(ns.counts, key, Ingress);
    ns.UpdatePod(uid, pod);
    assert !Keeps(sel, ns.counts, Ingress, was, pod);
    ns.ips.KernelHasUsed(DefaultAllow(Ingress), pod.ip);
  }

  /** A pod drops an empty label for one that a policy selects: nothing is done, and the kernel goes
      on allowing it by default. */
  method ChangeOverlooked(sel: Matcher, owner: UID, uid: UID, was: Pod, pod: Pod, policy: UID, key: Key)
    returns (ns: Namespace)
    requires owner != policy && was.hasIP && pod.hasIP && Overlooked(was, pod)
    requires sel(key, pod.labels) && !sel(key, was.labels)
    ensures !ns.Valid() && ns.pods == map[uid := pod] && Selected(sel, ns.counts, Ingress, pod.labels)
    ensures DefaultAllow(Ingress) in ns.ips.kernel && pod.ip in ns.ips.kernel[DefaultAllow(Ingress)]
  {
    ns := WithPolicy(sel, owner, uid, was, policy, key);
    assert IsTarget(ns.counts, key, Ingress);
    ns.TargetsUsed();
    ns.UpdatePod(uid, pod);
    ns.ips.KernelHasUsed(DefaultAllow(Ingress), pod.ip);
  }

  /** Such a change: one empty label dropped, another label added. */
  lemma DroppedIsOverlooked(k: string, l: string, v: string, ip: IP)
    requires k != l
    ensures Overlooked(Pod(map[k := ""], true, ip), Pod(map[l := v], true, ip))
  {
    var a: Labels, b: Labels := map[k := ""], map[l := v];
    assert k in a && k !in b;
  }

  function WithoutUser(users: map<Key, set<UID>>, user: UID, key: Key): map<Key, set<UID>>
    requires key in users
  {
    if users[key] == {user} then users - {key} else users[key := users[key] - {user}]
  }

  lemma Unregistered(prov: Provisions, users: map<Key, set<UID>>, instances: set<Instance>, user: UID, key: Key)
    requires UsersOf(prov, users) && AllProvided(prov, instances) && (user, key) in prov
    ensures key in users && UsersOf(prov - {(user, key)}, WithoutUser(users, user, key))
    ensures WithoutUser(users, user, key).Keys == if users[key] == {user} then users.Keys - {key} else users.Keys
    ensures Covered(prov - {(user, key)}, instances, user, key, prov[(user, key)], 0, |prov[(user, key)]|)
  {
    var prov', users' := prov - {(user, key)}, WithoutUser(users, user, key);
    assert user in users[key];
    assert users[key] != {user} ==> users[key] - {user} != {} by {
      if users[key] - {user} == {} { assert users[key] == {user}; }
    }
    forall u, k ensures (u, k) in prov' <==> k in users' && u in users'[k] {
      assert (u, k) in prov <==> k in users && u in users[k];
    }
    forall u, k, t, p: nat ensures (u, k, t, p) in instances <==>
        (IsProvided(prov', u, k, t, p) ||
            (u == user && k == key && 0 <= p < |prov[(user, key)]| && prov[(user, key)][p] == t)) {
      assert (u, k, t, p) in instances <==> IsProvided(prov, u, k, t, p);
    }
  }

  lemma CoveredLess(prov: Provisions, instances: set<Instance>, user: UID, key: Key, pts: seq<PolicyType>, i: nat)
    requires i < |pts| && Covered(prov, instances, user, key, pts, i, |pts|) && (user, key) !in prov
    ensures Covered(prov, instances - {(user, key, pts[i], i)}, user, key, pts, i + 1, |pts|)
  {
    var instances' := instances - {(user, key, pts[i], i)};
    forall u, k, t, p: nat ensures (u, k, t, p) in instances' <==>
        (IsProvided(prov, u, k, t, p) || (u == user && k == key && i + 1 <= p < |pts| && pts[p] == t)) {
      assert (u, k, t, p) in instances <==>
             (IsProvided(prov, u, k, t, p) || (u == user && k == key && i <= p < |pts| && pts[p] == t));
    }
  }

  function WithUser(users: map<Key, set<UID>>, user: UID, key: Key): map<Key, set<UID>> {
    users[key := (if key in users then users[key] else {}) + {user}]
  }

  lemma Registered(prov: Provisions, users: map<Key, set<UID>>, instances: set<Instance>, user: UID, key: Key)
    requires UsersOf(prov, users) && AllProvided(prov, instances) && (user, key) !in prov
    ensures UsersOf(prov[(user, key) := []], WithUser(users, user, key)) &&
            WithUser(users, user, key).Keys == users.Keys + {key}
    ensures AllProvided(prov[(user, key) := []], instances)
  {
    var prov' := prov[(user, key) := []];
    forall u, k, t, p: nat ensures (u, k, t, p) in instances <==> IsProvided(prov', u, k, t, p) {
      assert (u, k, t, p) in instances <==> IsProvided(prov, u, k, t, p);
    }
  }

  lemma ProvidedMore(prov: Provisions, instances: set<Instance>, user: UID, key: Key, pt: PolicyType)
    requires AllProvided(prov, instances) && (user, key) in prov
    ensures AllProvided(prov[(user, key) := prov[(user, key)] + [pt]],
            instances + {(user, key, pt, |prov[(user, key)]|)})
  {
    var prov' := prov[(user, key) := prov[(user, key)] + [pt]];
    var instances' := instances + {(user, key, pt, |prov[(user, key)]|)};
    forall u, k, t, p: nat ensures (u, k, t, p) in instances' <==> IsProvided(prov', u, k, t, p) {
      assert (u, k, t, p) in instances <==> IsProvided(prov, u, k, t, p);
    }
  }
}
