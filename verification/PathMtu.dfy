/** Discovering the MTU of a path by probing (router/sleeve.go). */
module PathMtu {
  import Bits

  const MTU_VERIFY_ATTEMPTS: nat := 8
  const UDP_OVERHEAD: nat := 28

  /** The size that is taken to work without trying. */
  const SAFE_MTU: nat := 552

  /** The kernel's answers to the following sends: 0 if the packet was sent, otherwise the
      path MTU it reports.  A path over which `limit` bytes get through never reports less. */
  ghost predicate Honest(reports: seq<nat>, limit: nat, overhead: nat) {
    forall i :: 0 <= i < |reports| ==> reports[i] == 0 || reports[i] >= limit + overhead
  }

  /** All packets were sent. */
  ghost predicate Quiet(reports: seq<nat>) {
    forall i :: 0 <= i < |reports| ==> reports[i] == 0
  }

  class Forwarder {
    const overheadDF: nat
    var highestGood: int
    var lowestBad: int
    /** The size being tried, or 0. */
    var candidate: int
    var testsSent: nat
    var timer: bool
    var mtu: int
    var maxPayload: int

    constructor (overhead: nat)
      ensures overheadDF == overhead && candidate == 0
    {
      overheadDF := overhead;
      highestGood, lowestBad, candidate, testsSent, timer := 0, 0, 0, 0, false;
      mtu, maxPayload := 65535, 65535 - UDP_OVERHEAD;
    }

    /** A search is on, and `limit` lies between what is known to work and what is not.  While
        it is on, mtu is the size that was last reported. */
    ghost predicate Probing(limit: nat)
      reads this
    {
      && SAFE_MTU <= highestGood <= limit < lowestBad <= mtu + 1
      && highestGood <= candidate < lowestBad
      && (candidate == highestGood ==> lowestBad == highestGood + 1)
      && maxPayload == mtu + overheadDF - UDP_OVERHEAD
    }

    /** And a probe is out. */
    ghost predicate Running(limit: nat)
      reads this
    {
      Probing(limit) && timer
    }

    /** The search has found the limit. */
    ghost predicate Found(limit: nat)
      reads this
    {
      candidate == 0 && !timer && mtu == limit && maxPayload == limit + overheadDF - UDP_OVERHEAD
    }

    /** How often the candidate may still be tried. */
    ghost function AttemptsLeft(): nat
      reads this
    {
      if testsSent < MTU_VERIFY_ATTEMPTS then MTU_VERIFY_ATTEMPTS - testsSent else 0
    }

    /** Bounds how often the state of the search can still change before it ends. */
    ghost function Rank(): int
      reads this
    {
      if candidate == 0 then 0 else RankOf(mtu, Tries(), AttemptsLeft())
    }

    /** How many sizes may still be tried after the candidate.  The first one is not in the middle
        of the interval. */
    ghost function Tries(): nat
      reads this
    {
      Halvings(lowestBad - highestGood) + if InMiddle(highestGood, candidate, lowestBad) then 0 else 1
    }

    /** A packet was too big for the path.  The search starts over unless it is already at
        smaller sizes. */
    method ProcessSendError(underlayPMTU: nat, reports: seq<nat>, ghost limit: nat) returns (rest: seq<nat>)
      requires limit >= SAFE_MTU && underlayPMTU >= limit + overheadDF && Honest(reports, limit, overheadDF)
      requires candidate != 0 ==> Probing(limit)
      modifies this
      ensures Probing(limit) && Honest(rest, limit, overheadDF) && |rest| <= |reports|
      ensures timer || (old(candidate) != 0 && underlayPMTU - overheadDF >= old(candidate) && !old(timer))
      ensures old(candidate) == 0 ==> mtu <= underlayPMTU - overheadDF
      ensures old(candidate) != 0 && underlayPMTU - overheadDF >= old(candidate) ==>
              SameSearch(old(highestGood), old(lowestBad), old(candidate), old(mtu), old(testsSent))
      ensures !(old(candidate) != 0 && underlayPMTU - overheadDF >= old(candidate)) && Quiet(reports) ==>
              var reported := underlayPMTU - overheadDF; SameSearch(SAFE_MTU, reported + 1, reported, reported, 1)
      ensures old(candidate) != 0 ==>
              mtu < old(mtu) || SameSearch(old(highestGood), old(lowestBad), old(candidate), old(mtu), old(testsSent))
      decreases |reports|, 1
    {
      var reported := underlayPMTU - overheadDF;
      if candidate != 0 && reported >= candidate {
        return reports;
      }
      highestGood := SAFE_MTU;
      lowestBad := reported + 1;
      candidate := reported;
      testsSent := 0;
      maxPayload := underlayPMTU - UDP_OVERHEAD;
      mtu := reported;
      rest := SendMTUTest(reports, limit);
    }

    /** The state of the search is the given one. */
    ghost predicate SameSearch(good: int, bad: int, c: int, m: int, sent: nat)
      reads this
    {
      highestGood == good && lowestBad == bad && candidate == c && mtu == m && testsSent == sent
    }

    method SendMTUTest(reports: seq<nat>, ghost limit: nat) returns (rest: seq<nat>)
      requires Probing(limit) && Honest(reports, limit, overheadDF)
      modifies this
      ensures Running(limit) && Honest(rest, limit, overheadDF) && |rest| <= |reports|
      ensures mtu < old(mtu) ||
              SameSearch(old(highestGood), old(lowestBad), old(candidate), old(mtu), old(testsSent) + 1)
      ensures Quiet(reports) ==> mtu == old(mtu)
      decreases |reports|, 0
    {
      rest := reports;
      if rest != [] {
        var report := rest[0];
        rest := rest[1..];
        if report != 0 {
          rest := ProcessSendError(report, rest, limit);
        }
      }
      timer := true;
      testsSent := testsSent + 1;
    }

    /** A probe of the given size arrived, now or long ago. */
    method HandleMTUTestAck(size: int, reports: seq<nat>, ghost limit: nat) returns (rest: seq<nat>)
      requires Running(limit) || Found(limit)
      requires Honest(reports, limit, overheadDF) && 0 < size <= limit
      modifies this
      ensures Running(limit) || Found(limit)
      ensures Honest(rest, limit, overheadDF)
      ensures size != old(candidate) ==>
              SameSearch(old(highestGood), old(lowestBad), old(candidate), old(mtu), old(testsSent))
      ensures Quiet(reports) ==> candidate == 0 || mtu == old(mtu)
      ensures size == old(candidate) && candidate != 0 ==> mtu < old(mtu) || (mtu == old(mtu) && Tries() < old(Tries()))
    {
      if size != candidate {
        return reports;
      }
      if highestGood < candidate { HalvingsDrop(highestGood, candidate, lowestBad); }
      highestGood := size;
      rest := SearchMTU(reports, limit);
    }

    /** No answer came in time.  After the last attempt the size is given up, which is right
        only if it is above the limit. */
    method HandleMTUTestFailure(reports: seq<nat>, ghost limit: nat) returns (rest: seq<nat>)
      requires Running(limit) && Honest(reports, limit, overheadDF)
      requires testsSent >= MTU_VERIFY_ATTEMPTS ==> candidate > limit
      modifies this
      ensures Running(limit) || Found(limit)
      ensures Honest(rest, limit, overheadDF)
      ensures Quiet(reports) ==> candidate == 0 || mtu == old(mtu)
      ensures candidate != 0 ==>
                || mtu < old(mtu)
                || (mtu == old(mtu) && Tries() < old(Tries()))
                || (mtu == old(mtu) && Tries() == old(Tries()) && AttemptsLeft() < old(AttemptsLeft()))
    {
      if testsSent < MTU_VERIFY_ATTEMPTS {
        rest := SendMTUTest(reports, limit);
        return;
      }
      HalvingsDrop(highestGood, candidate, lowestBad);
      lowestBad := candidate;
      rest := SearchMTU(reports, limit);
    }

    /** Halves the interval, or ends the search. */
    method SearchMTU(reports: seq<nat>, ghost limit: nat) returns (rest: seq<nat>)
      requires SAFE_MTU <= highestGood <= limit < lowestBad <= mtu + 1 && Honest(reports, limit, overheadDF)
      requires maxPayload == mtu + overheadDF - UDP_OVERHEAD
      modifies this
      ensures Running(limit) || Found(limit)
      ensures Honest(rest, limit, overheadDF)
      ensures Quiet(reports) ==> candidate == 0 || mtu == old(mtu)
      ensures candidate != 0 ==>
              mtu < old(mtu) || (mtu == old(mtu) && lowestBad == old(lowestBad) && highestGood == old(highestGood))
      ensures candidate != 0 && mtu == old(mtu) ==>
                highestGood < candidate && InMiddle(highestGood, candidate, lowestBad)
    {
      rest := reports;
      if highestGood + 1 >= lowestBad {
        timer := false;
        candidate := 0;
        maxPayload := highestGood + overheadDF - UDP_OVERHEAD;
        mtu := highestGood;
        return;
      }
      candidate := (highestGood + lowestBad) / 2;
      testsSent := 0;
      rest := SendMTUTest(reports, limit);
    }

    /** Deals with an event.  The limit stays between what is known to work and what is not, or has
        been found; an event that changes the search without ending it brings its end nearer. */
    method Handle(event: Event, ghost limit: nat) returns (effective: bool)
      requires limit >= SAFE_MTU && (Running(limit) || Found(limit)) && Possible(event, limit, overheadDF)
      requires event.Silence? && testsSent >= MTU_VERIFY_ATTEMPTS ==> candidate == 0 || candidate > limit
      modifies this
      ensures Running(limit) || Found(limit)
      ensures !effective ==> SameSearch(old(highestGood), old(lowestBad), old(candidate), old(mtu), old(testsSent))
      ensures effective && old(candidate) != 0 ==> Rank() < old(Rank())
      ensures !event.TooBig? && Quiet(event.reports) ==> candidate == 0 || mtu == old(mtu)
      ensures old(candidate) != 0 && (event.Silence? || (event.Ack? && event.size == old(candidate))) ==> effective
    {
      var good, bad, c, m, sent := highestGood, lowestBad, candidate, mtu, testsSent;
      match event {
        case TooBig(underlayPMTU, reports) =>
          var _ := ProcessSendError(underlayPMTU, reports, limit);
        case Ack(size, reports) =>
          var _ := HandleMTUTestAck(size, reports, limit);
        case Silence(reports) =>
          // the timer is off when there is no search
          if candidate != 0 {
            var _ := HandleMTUTestFailure(reports, limit);
          }
      }
      effective := !(highestGood == good && lowestBad == bad && candidate == c && mtu == m && testsSent == sent);
      if effective && c != 0 && candidate != 0 && mtu < m {
        HalvingsGrow(lowestBad - highestGood, mtu + 1);
        RankDrops(m, old(Tries()), old(AttemptsLeft()), mtu, Tries(), AttemptsLeft());
      }
    }
  }

  /** What can happen during a search, with the kernel's answers to the probes sent in reply: a
      packet proves too big for the path, a probe is answered, or time passes without an answer. */
  datatype Event =
    | TooBig(underlayPMTU: nat, reports: seq<nat>)
    | Ack(size: nat, reports: seq<nat>)
    | Silence(reports: seq<nat>)

  /** The event can happen on a path that lets through exactly the sizes up to limit. */
  ghost predicate Possible(event: Event, limit: nat, overhead: nat) {
    && Honest(event.reports, limit, overhead)
    && (event.TooBig? ==> event.underlayPMTU >= limit + overhead)
    && (event.Ack? ==> 0 < event.size <= limit)
  }

  /** Both parts of the interval are at most half of it, rounded up. */
  ghost predicate InMiddle(good: int, c: int, bad: int) {
    2 * (c - good) <= bad - good + 1 && 2 * (bad - c) <= bad - good + 1
  }

  /** How often an interval can be cut in the middle. */
  ghost function Halvings(gap: int): nat {
    if gap <= 1 then 0 else 1 + Halvings((gap + 1) / 2)
  }

  lemma {:induction false} HalvingsGrow(gap: int, gap': int)
    requires gap <= gap'
    ensures Halvings(gap) <= Halvings(gap')
  {
    if gap > 1 { HalvingsGrow((gap + 1) / 2, (gap' + 1) / 2); }
  }

  /** An interval of at most 2^k sizes takes at most k of them. */
  lemma {:induction false} HalvingsLog(gap: int, k: nat)
    requires gap <= Bits.Pow2(k)
    ensures Halvings(gap) <= k
  {
    if gap > 1 { HalvingsLog((gap + 1) / 2, k - 1); }
  }

  /** Whichever part is left of an interval, one size less remains to be tried. */
  lemma HalvingsDrop(good: int, c: int, bad: int)
    requires good < c < bad
    ensures var tries := Halvings(bad - good) + if InMiddle(good, c, bad) then 0 else 1;
            Halvings(bad - c) < tries && Halvings(c - good) < tries
  {
    var gap := bad - good;
    if InMiddle(good, c, bad) {
      HalvingsGrow(bad - c, (gap + 1) / 2);
      HalvingsGrow(c - good, (gap + 1) / 2);
    } else {
      HalvingsGrow(bad - c, gap);
      HalvingsGrow(c - good, gap);
    }
  }

  /** A smaller mtu weighs more than any interval, and one size less to be tried more than all
      attempts. */
  ghost function RankOf(mtu: int, tries: nat, attempts: int): int {
    Weight(if mtu < 0 then 0 else mtu) + 9 * tries + attempts
  }

  ghost function Weight(mtu: nat): nat {
    if mtu == 0 then 0 else Weight(mtu - 1) + 9 * Halvings(mtu) + 18
  }

  lemma {:induction false} WeightGrows(mtu: nat, mtu': nat)
    requires mtu' < mtu
    ensures Weight(mtu) >= Weight(mtu') + 9 * Halvings(mtu' + 1) + 18
  {
    if mtu' < mtu - 1 { WeightGrows(mtu - 1, mtu'); }
  }

  lemma RankDrops(mtu: int, tries: nat, attempts: int, mtu': int, tries': nat, attempts': int)
    requires 0 <= mtu' < mtu && attempts >= 0 && tries' <= Halvings(mtu' + 1) + 1 && attempts' <= MTU_VERIFY_ATTEMPTS
    ensures RankOf(mtu', tries', attempts') < RankOf(mtu, tries, attempts)
  {
    WeightGrows(mtu, mtu');
  }

  /** How often time passes without an answer, among the first n events. */
  ghost function Silences(events: seq<Event>, n: nat): nat
    requires n <= |events|
  {
    if n == 0 then 0 else Silences(events, n - 1) + if events[n - 1].Silence? then 1 else 0
  }

  /** How many events can change a search that starts at this size. */
  ghost function Budget(mtu: int): int {
    RankOf(mtu, Halvings(mtu + 1) + 1, MTU_VERIFY_ATTEMPTS)
  }

  /** How many, if no packet proves too big any more: each of the sizes tried takes no more than all
      its attempts. */
  ghost function QuietBudget(mtu: int): int {
    9 * (Halvings(mtu + 1) + 2)
  }

  ghost predicate AllQuiet(events: seq<Event>) {
    forall i :: 0 <= i < |events| ==> !events[i].TooBig? && Quiet(events[i].reports)
  }

  lemma StartRank(fwd: Forwarder, mtu: int, limit: nat)
    requires fwd.Probing(limit) && fwd.mtu <= mtu
    ensures fwd.Rank() <= Budget(mtu)
  {
    HalvingsGrow(fwd.lowestBad - fwd.highestGood, fwd.mtu + 1);
    if fwd.mtu < mtu {
      RankDrops(mtu, Halvings(mtu + 1) + 1, MTU_VERIFY_ATTEMPTS, fwd.mtu, fwd.Tries(), fwd.AttemptsLeft());
    }
  }

  /** Over a path that lets through exactly the sizes up to `limit`, whatever happens and in
      whatever order, the search ends with that size once time has passed often enough, and no
      more events than the first report allows change its state.  The last attempt of a size
      that the path carries is answered in time. */
  method Discover(overhead: nat, limit: nat, firstReport: nat, events: seq<Event>)
    returns (fwd: Forwarder, effective: nat)
    requires limit >= SAFE_MTU && firstReport >= limit + overhead
    requires forall i :: 0 <= i < |events| ==> Possible(events[i], limit, overhead)
    ensures fwd.Found(limit) || fwd.Running(limit)
    ensures effective <= Budget(firstReport - overhead)
    ensures AllQuiet(events) ==> effective <= QuietBudget(firstReport - overhead)
    ensures Silences(events, |events|) >= Budget(firstReport - overhead) ==> fwd.Found(limit)
  {
    fwd := new Forwarder(overhead);
    var _ := fwd.ProcessSendError(firstReport, [], limit);
    effective := 0;
    var i := 0;
    StartRank(fwd, firstReport - overhead, limit);
    while i < |events| && fwd.candidate != 0
      invariant 0 <= i <= |events| && fwd.overheadDF == overhead && fresh(fwd)
      invariant fwd.Running(limit) || fwd.Found(limit)
      invariant effective + fwd.Rank() <= Budget(firstReport - overhead)
      invariant AllQuiet(events) ==> (fwd.candidate == 0 || fwd.mtu == firstReport - overhead)
      invariant AllQuiet(events) ==> effective <= QuietBudget(firstReport - overhead)
      invariant Silences(events, i) <= effective
    {
      if AllQuiet(events) { QuietBound(fwd, firstReport - overhead, limit, effective); }
      var changed := Meet(fwd, events[i], limit);
      if changed {
        effective := effective + 1;
      }
      i := i + 1;
    }
  }

  lemma QuietBound(fwd: Forwarder, mtu: int, limit: nat, effective: nat)
    requires fwd.Probing(limit) && fwd.mtu == mtu && effective + fwd.Rank() <= Budget(mtu)
    ensures effective < QuietBudget(mtu)
  {
  }

  /** The event happens, except that the last attempt of a size that the path carries is answered. */
  method Meet(fwd: Forwarder, event: Event, limit: nat) returns (changed: bool)
    requires limit >= SAFE_MTU && fwd.Running(limit) && Possible(event, limit, fwd.overheadDF)
    modifies fwd
    ensures fwd.Running(limit) || fwd.Found(limit)
    ensures changed ==> fwd.Rank() < old(fwd.Rank())
    ensures !changed ==> fwd.Rank() == old(fwd.Rank()) && fwd.mtu == old(fwd.mtu) && fwd.candidate == old(fwd.candidate)
    ensures !event.TooBig? && Quiet(event.reports) ==> fwd.candidate == 0 || fwd.mtu == old(fwd.mtu)
    ensures event.Silence? ==> changed
  {
    var e := event;
    if event.Silence? && fwd.candidate <= limit && fwd.testsSent >= MTU_VERIFY_ATTEMPTS {
      e := Ack(fwd.candidate, event.reports);
    }
    changed := fwd.Handle(e, limit);
  }
}
