/** Dropping duplicates of encrypted packets with two bit sets (router/frame_crypto.go). */
module ReplayWindow {
  import opened Basics

  /** 1 << WindowSize */
  const WINDOW: nat := 0x10_0000

  /** 1 << 63: set in packets that must not be fragmented. */
  const DF_BIT: nat := 0x8000_0000_0000_0000

  function Window(seqNo: nat): nat {
    seqNo / WINDOW
  }

  class BitSet {
    var bits: set<nat>

    constructor ()
      ensures bits == {}
    {
      bits := {};
    }
  }

  /** The offsets of the sequence numbers in one window. */
  ghost function Offsets(passed: set<nat>, window: int): set<nat> {
    set s | s in passed && Window(s) == window :: s % WINDOW
  }

  lemma SameNumber(s: nat, t: nat)
    requires Window(s) == Window(t) && s % WINDOW == t % WINDOW
    ensures s == t
  {
  }

  lemma OffsetIsMember(passed: set<nat>, s: nat)
    ensures s % WINDOW in Offsets(passed, Window(s)) <==> s in passed
  {
    if s % WINDOW in Offsets(passed, Window(s)) {
      var t :| t in passed && Window(t) == Window(s) && t % WINDOW == s % WINDOW;
      SameNumber(s, t);
    }
  }

  lemma OffsetsAdd(passed: set<nat>, s: nat, window: int)
    ensures Offsets(passed + {s}, window) == if Window(s) == window then Offsets(passed, window) + {s % WINDOW}
            else Offsets(passed, window)
  {
  }

  /** Nothing has been passed from windows above the highest. */
  lemma NoOffsetsAbove(passed: set<nat>, highest: nat, window: int)
    requires window > highest && forall s :: s in passed ==> Window(s) <= highest
    ensures Offsets(passed, window) == {}
  {
  }

  /** One of the two windows of a decryptor.  The ghost state is what it stands for: all
      sequence numbers passed on, and the highest window of any packet. */
  class Instance {
    var currentWindow: nat
    var usedOffsets: BitSet
    var previousUsedOffsets: BitSet?
    ghost var passed: set<nat>
    ghost var highest: nat

    ghost predicate Valid()
      reads this, usedOffsets, previousUsedOffsets
    {
      && usedOffsets != previousUsedOffsets
      && currentWindow == highest
      && (forall s :: s in passed ==> Window(s) <= highest)
      && usedOffsets.bits == Offsets(passed, currentWindow)
      && (previousUsedOffsets == null ==> currentWindow == 0)
      && (previousUsedOffsets != null ==> previousUsedOffsets.bits == Offsets(passed, currentWindow as int - 1))
    }

    constructor ()
      ensures Valid() && passed == {} && highest == 0 && fresh(usedOffsets) && previousUsedOffsets == null
    {
      currentWindow, passed, highest := 0, {}, 0;
      usedOffsets := new BitSet();
      previousUsedOffsets := null;
    }

    /** Slides the window; the set to look in is returned, or null if it is too far back. */
    method AdvanceState(seqNo: nat) returns (offset: nat, used: BitSet?)
      requires Valid()
      modifies this
      ensures Valid() && passed == old(passed) && highest == Max(old(highest), Window(seqNo))
      ensures offset == seqNo % WINDOW
      ensures used == null <==> Window(seqNo) + 1 < highest
      ensures used != null ==>
              used.bits == Offsets(passed, Window(seqNo)) && (used == usedOffsets || used == previousUsedOffsets)
      ensures used == usedOffsets <==> Window(seqNo) == highest
      ensures usedOffsets == old(usedOffsets) || fresh(usedOffsets)
      ensures previousUsedOffsets == old(previousUsedOffsets) || previousUsedOffsets == old(usedOffsets) ||
              fresh(previousUsedOffsets)
    {
      offset := seqNo % WINDOW;
      var window := Window(seqNo);
      var delta := window as int - currentWindow as int;
      if delta < -1 {
        return offset, null;
      } else if delta == -1 {
        return offset, previousUsedOffsets;
      } else if delta == 0 {
        return offset, usedOffsets;
      }
      NoOffsetsAbove(passed, highest, window);
      if delta == 1 {
        previousUsedOffsets := usedOffsets;
      } else {
        NoOffsetsAbove(passed, highest, window as int - 1);
        previousUsedOffsets := new BitSet();
      }
      currentWindow, highest := window, window;
      usedOffsets := new BitSet();
      used := usedOffsets;
    }

    /** Is this packet to be passed on?  Just when it was not passed on before and its
        window is at most one behind the highest one seen. */
    method Accept(seqNo: nat) returns (ok: bool)
      requires Valid()
      modifies this, usedOffsets, previousUsedOffsets
      ensures Valid() && highest == Max(old(highest), Window(seqNo))
      ensures ok <==> seqNo !in old(passed) && Window(seqNo) + 1 >= old(highest)
      ensures passed == if ok then old(passed) + {seqNo} else old(passed)
      ensures usedOffsets == old(usedOffsets) || fresh(usedOffsets)
      ensures previousUsedOffsets == old(previousUsedOffsets) || previousUsedOffsets == old(usedOffsets) ||
              fresh(previousUsedOffsets)
    {
      var offset, used := AdvanceState(seqNo);
      OffsetIsMember(passed, seqNo);
      if used == null || offset in used.bits {
        return false;
      }
      OffsetsAdd(passed, seqNo, currentWindow);
      OffsetsAdd(passed, seqNo, currentWindow as int - 1);
      used.bits := used.bits + {offset};
      passed := passed + {seqNo};
      ok := true;
    }
  }

  // ---------------------------------------------------------------- streams of packets

  /** A received packet: its leading 64-bit word, and whether it can be decrypted. */
  datatype Packet = Packet(word: nat, opens: bool) {
    predicate Df() {
      word >= DF_BIT
    }

    function SeqNo(): nat {
      if word >= DF_BIT then word - DF_BIT else word
    }

    /** The two kinds of packets are numbered independently. */
    function Number(): (bool, nat) {
      (Df(), SeqNo())
    }
  }

  /** A decrypted packet of the given kind. */
  predicate Opened(ps: seq<Packet>, j: nat, df: bool)
    requires j < |ps|
  {
    ps[j].opens && ps[j].Df() == df
  }

  /** The packet is decrypted, was not passed on before, and is at most one window behind all
      decrypted packets of its kind. */
  ghost predicate Delivered(ps: seq<Packet>, i: nat)
    requires i < |ps|
    decreases i, 1
  {
    ps[i].opens && ps[i].Number() !in Passed(ps, i) && InWindow(ps, i)
  }

  /** The numbers of those among the first n packets that are to be passed on. */
  ghost function Passed(ps: seq<Packet>, n: nat): set<(bool, nat)>
    requires n <= |ps|
    decreases n, 0
  {
    if n == 0 then {}
    else if Delivered(ps, n - 1) then Passed(ps, n - 1) + {ps[n - 1].Number()}
    else Passed(ps, n - 1)
  }

  ghost predicate InWindow(ps: seq<Packet>, i: nat)
    requires i < |ps|
  {
    forall j :: 0 <= j < i && Opened(ps, j, ps[i].Df()) ==> Window(ps[j].SeqNo()) <= Window(ps[i].SeqNo()) + 1
  }

  /** A packet that is new and less than 2^20 behind all others of its kind is passed on; one that is
      2^21 or more behind another is not. */
  lemma RecentIsDelivered(ps: seq<Packet>, i: nat)
    requires i < |ps| && ps[i].opens
    ensures (forall j :: 0 <= j < i && Opened(ps, j, ps[i].Df()) ==> ps[j].SeqNo() < ps[i].SeqNo() + 0x10_0000) ==>
              (Delivered(ps, i) <==> ps[i].Number() !in Passed(ps, i))
    ensures (exists j :: 0 <= j < i && Opened(ps, j, ps[i].Df()) && ps[j].SeqNo() >= ps[i].SeqNo() + 0x20_0000) ==>
              !Delivered(ps, i)
  {
    if j :| 0 <= j < i && Opened(ps, j, ps[i].Df()) && ps[j].SeqNo() >= ps[i].SeqNo() + 0x20_0000 {
      assert !InWindow(ps, i);
    }
  }

  /** highest is the highest window among the first n packets. */
  ghost predicate TracksHighest(highest: nat, ps: seq<Packet>, n: nat, df: bool)
    requires n <= |ps|
  {
    && (forall j :: 0 <= j < n && Opened(ps, j, df) ==> Window(ps[j].SeqNo()) <= highest)
    && (highest == 0 || exists j :: 0 <= j < n && Opened(ps, j, df) && Window(ps[j].SeqNo()) == highest)
  }

  lemma HighestStep(highest: nat, ps: seq<Packet>, n: nat, df: bool, highest': nat)
    requires n < |ps| && TracksHighest(highest, ps, n, df)
    requires highest' == if Opened(ps, n, df) then Max(highest, Window(ps[n].SeqNo())) else highest
    ensures TracksHighest(highest', ps, n + 1, df)
  {
    assert Opened(ps, n, df) ==> Window(ps[n].SeqNo()) <= highest';
    if highest != 0 {
      var j :| 0 <= j < n && Opened(ps, j, df) && Window(ps[j].SeqNo()) == highest;
      assert Opened(ps, j, df);
    }
  }

  lemma HighestIsWindow(highest: nat, ps: seq<Packet>, n: nat, df: bool)
    requires n < |ps| && TracksHighest(highest, ps, n, df) && Opened(ps, n, df)
    ensures InWindow(ps, n) <==> Window(ps[n].SeqNo()) + 1 >= highest
  {
    if InWindow(ps, n) && highest != 0 {
      var j :| 0 <= j < n && Opened(ps, j, df) && Window(ps[j].SeqNo()) == highest;
      assert Opened(ps, j, ps[n].Df());
    }
  }

  /** passed holds the numbers of one kind. */
  ghost predicate TracksPassed(passed: set<nat>, numbers: set<(bool, nat)>, df: bool) {
    forall s :: s in passed <==> (df, s) in numbers
  }

  /** What an instance holds after the first n packets. */
  ghost predicate Tracks(passed: set<nat>, highest: nat, ps: seq<Packet>, n: nat, df: bool)
    requires n <= |ps|
  {
    TracksPassed(passed, Passed(ps, n), df) && TracksHighest(highest, ps, n, df)
  }

  class Decryptor {
    const instance: Instance
    const instanceDF: Instance

    ghost function Sets(): set<BitSet?>
      reads instance, instanceDF
    {
      {instance.usedOffsets, instanceDF.usedOffsets, instance.previousUsedOffsets,
          instanceDF.previousUsedOffsets} - {null}
    }

    /** The two instances share no bit set. */
    ghost predicate Valid()
      reads instance, instanceDF, Sets()
    {
      && instance != instanceDF
      && instance.Valid() && instanceDF.Valid()
      && instance.usedOffsets != instanceDF.usedOffsets
      && instance.usedOffsets != instanceDF.previousUsedOffsets
      && instance.previousUsedOffsets != instanceDF.usedOffsets
      && (instance.previousUsedOffsets != null ==> instance.previousUsedOffsets != instanceDF.previousUsedOffsets)
    }

    constructor ()
      ensures Valid() && fresh(instance) && fresh(instanceDF) && fresh(Sets())
      ensures instance.passed == {} && instanceDF.passed == {} && instance.highest == 0 && instanceDF.highest == 0
    {
      instance := new Instance();
      instanceDF := new Instance();
    }

    /** Decrypts a packet; one that cannot be decrypted changes nothing. */
    method Decrypt(p: Packet) returns (delivered: bool)
      requires Valid()
      modifies instance, instanceDF, Sets()
      ensures Valid() && fresh(Sets() - old(Sets()))
      ensures delivered ==> p.opens
      ensures p.opens && !p.Df() ==>
              Stepped(old(instance.passed), old(instance.highest), p.SeqNo(), delivered, instance.passed,
                  instance.highest)
      ensures !(p.opens && !p.Df()) ==>
              instance.passed == old(instance.passed) && instance.highest == old(instance.highest)
      ensures p.opens && p.Df() ==>
              Stepped(old(instanceDF.passed), old(instanceDF.highest), p.SeqNo(), delivered, instanceDF.passed,
                  instanceDF.highest)
      ensures !(p.opens && p.Df()) ==>
              instanceDF.passed == old(instanceDF.passed) && instanceDF.highest == old(instanceDF.highest)
    {
      if !p.opens {
        return false;
      }
      if p.Df() {
        delivered := instanceDF.Accept(p.SeqNo());
      } else {
        delivered := instance.Accept(p.SeqNo());
      }
    }
  }

  ghost predicate Stepped(passed: set<nat>, highest: nat, s: nat, ok: bool, passed': set<nat>, highest': nat) {
    && (ok <==> s !in passed && Window(s) + 1 >= highest)
    && passed' == (if ok then passed + {s} else passed)
    && highest' == Max(highest, Window(s))
  }

  lemma TracksBoth(passed: set<nat>, highest: nat, ps: seq<Packet>, n: nat, df: bool, ok: bool, passed': set<nat>,
                   highest': nat)
    requires n < |ps| && Tracks(passed, highest, ps, n, df)
    requires if Opened(ps, n, df) then Stepped(passed, highest, ps[n].SeqNo(), ok, passed', highest')
             else passed' == passed && highest' == highest
    ensures Tracks(passed', highest', ps, n + 1, df)
    ensures Opened(ps, n, df) ==> (ok <==> Delivered(ps, n))
  {
    HighestStep(highest, ps, n, df, highest');
    if Opened(ps, n, df) { HighestIsWindow(highest, ps, n, df); }
  }

  /** The decryptor has seen the first n packets. */
  ghost predicate Following(nd: Decryptor, ps: seq<Packet>, n: nat)
    requires n <= |ps|
    reads nd.instance, nd.instanceDF
  {
    && Tracks(nd.instance.passed, nd.instance.highest, ps, n, false)
    && Tracks(nd.instanceDF.passed, nd.instanceDF.highest, ps, n, true)
  }

  method NewDecryptor(ps: seq<Packet>) returns (nd: Decryptor)
    ensures nd.Valid() && fresh(nd) && fresh(nd.instance) && fresh(nd.instanceDF) && fresh(nd.Sets())
    ensures Following(nd, ps, 0)
  {
    nd := new Decryptor();
  }

  lemma {:induction false} PassedGrows(ps: seq<Packet>, m: nat, n: nat)
    requires m <= n <= |ps|
    ensures Passed(ps, m) <= Passed(ps, n)
  {
    if m < n { PassedGrows(ps, m, n - 1); }
  }

  /** No packet is passed on twice. */
  lemma DeliveredOnce(ps: seq<Packet>, i: nat, j: nat)
    requires i < j < |ps| && Delivered(ps, i) && Delivered(ps, j)
    ensures ps[i].Number() != ps[j].Number()
  {
    PassedGrows(ps, i + 1, j);
  }

  ghost predicate Decides(out: seq<bool>, ps: seq<Packet>) {
    |out| <= |ps| && forall i {:trigger Delivered(ps, i)} :: 0 <= i < |out| ==> (out[i] <==> Delivered(ps, i))
  }

  lemma DecidesNext(out: seq<bool>, ps: seq<Packet>, ok: bool)
    requires Decides(out, ps) && |out| < |ps| && (ok <==> Delivered(ps, |out|))
    ensures Decides(out + [ok], ps)
  {
  }

  /** The decision on the next packet is put behind those already made. */
  method ReceiveOne(nd: Decryptor, ps: seq<Packet>, out: seq<bool>) returns (out': seq<bool>)
    requires nd.Valid() && |out| < |ps| && Following(nd, ps, |out|) && Decides(out, ps)
    modifies nd.instance, nd.instanceDF, nd.Sets()
    ensures nd.Valid() && fresh(nd.Sets() - old(nd.Sets()))
    ensures |out'| == |out| + 1 && Following(nd, ps, |out'|) && Decides(out', ps)
  {
    ghost var p, h, pDF, hDF := nd.instance.passed, nd.instance.highest, nd.instanceDF.passed, nd.instanceDF.highest;
    var delivered := nd.Decrypt(ps[|out|]);
    TracksBoth(p, h, ps, |out|, false, delivered, nd.instance.passed, nd.instance.highest);
    TracksBoth(pDF, hDF, ps, |out|, true, delivered, nd.instanceDF.passed, nd.instanceDF.highest);
    DecidesNext(out, ps, delivered);
    out' := out + [delivered];
  }

  /** Over any stream of packets a new decryptor passes on exactly those that are to be
      delivered. */
  method Receive(ps: seq<Packet>) returns (out: seq<bool>)
    ensures |out| == |ps| && Decides(out, ps)
  {
    var nd := NewDecryptor(ps);
    out := [];
    for n := 0 to |ps|
      invariant nd.Valid() && fresh(nd) && fresh(nd.instance) && fresh(nd.instanceDF) && fresh(nd.Sets())
      invariant Following(nd, ps, n) && |out| == n && Decides(out, ps)
    {
      out := ReceiveOne(nd, ps, out);
    }
  }
}
