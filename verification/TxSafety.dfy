/** What the transmit path guarantees in every state that any interleaving of
    bnx2_start_xmit, bnx2_tx_int and the device can reach, with the default ring
    size of MAX_TX_DESC_CNT. */
module TxSafety {
  import opened RingIndex
  import opened TxIndex
  import opened TxPackets
  import opened Wrappers
  import opened TxProtocol

  ghost predicate Reachable(size: nat, s: State) {
    exists run :: IsRun(size, run) && s == run[|run| - 1]
  }

  lemma NextKeepsInv(s: State, s': State)
    requires Inv(s) && Next(MAX_DESC_CNT, s, s')
    ensures Inv(s')
  {
    hide Inv, XmitStep, TxIntStep, XmitEnabled, TxIntEnabled, DeviceStep;
    if exists pkt, mapped :: XmitEnabled(s, pkt) && s' == XmitStep(MAX_DESC_CNT, s, pkt, mapped) {
      var pkt, mapped :| XmitEnabled(s, pkt) && s' == XmitStep(MAX_DESC_CNT, s, pkt, mapped);
      XmitKeepsInv(s, pkt, mapped);
    } else if exists budget :: TxIntEnabled(s) && s' == TxIntStep(MAX_DESC_CNT, s, budget) {
      var budget :| TxIntEnabled(s) && s' == TxIntStep(MAX_DESC_CNT, s, budget);
      TxIntKeepsInv(s, budget);
    } else {
      DeviceKeepsInv(s, s');
    }
  }

  lemma {:induction false} RunInv(run: seq<State>, i: nat)
    requires IsRun(MAX_DESC_CNT, run) && i < |run|
    ensures Inv(run[i])
  {
    hide Inv, Next, Init;
    if i == 0 {
      InitInv(run[0]);
    } else {
      RunInv(run, i - 1);
      NextKeepsInv(run[i - 1], run[i]);
    }
  }

  lemma ReachableInv(s: State)
    requires Reachable(MAX_DESC_CNT, s)
    ensures Inv(s)
  {
    hide Inv, Next, Init;
    var run :| IsRun(MAX_DESC_CNT, run) && s == run[|run| - 1];
    RunInv(run, |run| - 1);
  }

  /** The ring is never overfilled, bnx2_start_xmit never finds it full while the
      queue is awake, and bnx2_tx_int never dereferences an empty slot. */
  lemma NeverOverfull(s: State)
    requires Reachable(MAX_DESC_CNT, s)
    ensures s.published <= s.released <= |s.posted|
    ensures Total(s.posted) - Off(s.posted, s.published) <= MAX_DESC_CNT
    ensures !s.xpc.XFull? && !s.tpc.TFault?
  {
    ReachableInv(s);
  }

  /** A stopped queue with enough free space is about to be woken: bnx2_start_xmit
      is between its stop and the end of its recheck, or bnx2_tx_int is between
      publishing tx_cons and the end of its wake check. */
  lemma NoLostWakeup(s: State)
    requires Reachable(MAX_DESC_CNT, s) && s.stopped
    requires Avail(MAX_DESC_CNT, Idx(Total(s.posted)), s.txCons) > 127
    ensures || s.xpc.XRecheck? || s.xpc.XWake?
            || s.tpc.TCheckStopped? || s.tpc.TCheckAvail? || s.tpc.TLock?
            || s.tpc.TRecheckStopped? || s.tpc.TRecheckAvail? || s.tpc.TWake?
  {
    ReachableInv(s);
  }

  /** When neither routine is running, a stopped queue has at least 127
      descriptors outstanding, so a completion is still to come, and an awake
      queue has room for the largest packet. */
  lemma WhenQuiescent(s: State)
    requires Reachable(MAX_DESC_CNT, s) && s.xpc.XIdle? && s.tpc.TIdle?
    ensures s.released <= |s.posted|
    ensures s.stopped ==> Total(s.posted) - Off(s.posted, s.released) >= 127
    ensures !s.stopped ==> Total(s.posted) - Off(s.posted, s.released) + MAX_SKB_FRAGS + 1 <= MAX_DESC_CNT
  {
    ReachableInv(s);
    AvailSound(ConsCount(s), Total(s.posted));
  }

  /** The program points at which bnx2_tx_avail is evaluated. */
  predicate ReadsAvail(s: State) {
    s.xpc.XEnter? || s.xpc.XCheck? || s.xpc.XRecheck? || s.tpc.TCheckAvail? || s.tpc.TRecheckAvail?
  }

  /** tx_cons accounts for a packet that tx_prod does not exactly when bnx2_tx_int has
      reclaimed everything while bnx2_start_xmit is between the doorbell and the
      store of tx_prod. */
  lemma OvertakesIff(s: State)
    requires Reachable(MAX_DESC_CNT, s)
    ensures s.published <= |s.posted|
    ensures ConsCount(s) > ProdCount(s) <==> s.xpc.XPublish? && s.published == |s.posted|
  {
    hide Reachable, XmitOk, TxIntOk, WakeCheckOk, WakePending, Owned, Off, InSlots, RestsLegally, Idx, Normalize;
    ReachableInv(s);
    OffMonotone(s.posted, s.published, |s.posted|);
    if s.xpc.XPublish? {
      OffStep(s.posted, |s.posted| - 1);
      if s.published < |s.posted| { OffMonotone(s.posted, s.published, |s.posted| - 1); }
    }
  }

  /** Descriptors that the device has been given and tx_prod does not show yet. */
  function Unpublished(s: State): nat {
    if s.xpc.XPublish? && |s.posted| > 0 then |s.posted[|s.posted| - 1].maps| else 0
  }

  lemma UnpublishedIs(s: State)
    ensures Total(s.posted) == ProdCount(s) + Unpublished(s)
  {
    if |s.posted| > 0 { OffStep(s.posted, |s.posted| - 1); }
  }

  /** An evaluation of bnx2_tx_avail yields the true free space or one less, unless
      it falls between doorbell and store: then it is too high by the packet in
      question, or by one less. The only evaluation that can fall there is the
      unlocked one of bnx2_tx_int. */
  lemma AvailReadIs(s: State)
    requires Reachable(MAX_DESC_CNT, s) && ReadsAvail(s)
    ensures s.published <= |s.posted| && (s.xpc.XPublish? ==> s.tpc.TCheckAvail?)
    ensures var free := MAX_DESC_CNT - (Total(s.posted) - ConsCount(s));
            && 0 <= free <= MAX_DESC_CNT
            && free + Unpublished(s) - 1 <= Avail(MAX_DESC_CNT, s.txProd, s.txCons) <= free + Unpublished(s)
  {
    ReachableInv(s);
    hide Reachable, Off;
    UnpublishedIs(s);
    OffMonotone(s.posted, s.published, s.released);
    AvailSound(ConsCount(s), ProdCount(s));
  }

  /** Exactly when an evaluation is sound. */
  lemma AvailReadIsSoundIff(s: State)
    requires Reachable(MAX_DESC_CNT, s) && ReadsAvail(s)
    ensures s.published <= |s.posted|
    ensures var free := MAX_DESC_CNT - (Total(s.posted) - ConsCount(s));
            free - 1 <= Avail(MAX_DESC_CNT, s.txProd, s.txCons) <= free <==>
              || !s.xpc.XPublish?
              || (Unpublished(s) == 1 && ProdCount(s) / MAX_DESC_CNT != ConsCount(s) / MAX_DESC_CNT)
  {
    ReachableInv(s);
    hide Reachable, Off, Slots;
    UnpublishedIs(s);
    UnpublishedSome(s);
    OffMonotone(s.posted, s.published, s.released);
    AvailSound(ConsCount(s), ProdCount(s));
  }

  lemma UnpublishedSome(s: State)
    requires Reachable(MAX_DESC_CNT, s)
    ensures s.xpc.XPublish? ==> Unpublished(s) >= 1
    ensures !s.xpc.XPublish? ==> Unpublished(s) == 0
  {
    hide Reachable, XmitOk, TxIntOk, WakeCheckOk, WakePending, Owned, Off, InSlots, RestsLegally, Idx, Normalize;
    ReachableInv(s);
  }

  /** The unsound evaluation does no harm: the queue is awake then, nothing but the
      program counter changes, and where it stays without waking, the true free
      space would not have justified waking either. */
  lemma StaleReadIsHarmless(s: State, budget: nat)
    requires Reachable(MAX_DESC_CNT, s) && s.tpc.TCheckAvail? && s.xpc.XPublish?
    ensures !s.stopped
    ensures var s' := TxIntStep(MAX_DESC_CNT, s, budget);
            && s' == s.(tpc := s'.tpc) && (s'.tpc.TLock? || s'.tpc.TIdle?)
            && (s'.tpc.TIdle? ==>
                  Avail(MAX_DESC_CNT, Idx(Total(s.posted)), s.txCons) <= 127)
  {
    ReachableInv(s);
    hide Reachable, Off, Avail, Idx;
    UnpublishedIs(s);
    OffMonotone(s.posted, s.published, s.released);
    AvailMonotone(ConsCount(s), ConsCount(s), ProdCount(s), Total(s.posted));
  }

  /** Either side wakes a queue only when it is stopped and more than tx_wake_thresh
      descriptors are truly free. */
  lemma EveryWakeIsRight(s: State)
    requires Reachable(MAX_DESC_CNT, s) && (s.tpc.TWake? || s.xpc.XWake?)
    ensures s.stopped && s.published <= |s.posted|
    ensures MAX_DESC_CNT - (Total(s.posted) - ConsCount(s)) > 127
  {
    hide Reachable, Off, Avail, Idx, Slots, Owned, TxIntOk, WakePending, RestsLegally, Normalize, MapsInSlots, InSlots;
    ReachableInv(s);
    OffMonotone(s.posted, s.published, s.released);
    AvailSound(ConsCount(s), Total(s.posted));
  }

  // ----- Exactly-once release -----

  /** The buffers freed, and the mappings undone, in a list of events. */
  function Freed(log: seq<Event>): seq<int> {
    if |log| == 0 then [] else
    var e, rest := log[|log| - 1], Freed(log[..|log| - 1]);
    if e.Free? then rest + [e.skb] else rest
  }

  function Unmapped(log: seq<Event>): seq<int> {
    if |log| == 0 then [] else
    var e, rest := log[|log| - 1], Unmapped(log[..|log| - 1]);
    if e.Unmap? then rest + [e.mapping] else rest
  }

  /** The buffers, and the mappings, of the first j packets in posting order. */
  function SkbsOf(ps: seq<Packet>, j: nat): seq<int>
    requires j <= |ps|
  {
    if j == 0 then [] else SkbsOf(ps, j - 1) + [ps[j - 1].skb]
  }

  function MapsOf(ps: seq<Packet>, j: nat): seq<int>
    requires j <= |ps|
  {
    if j == 0 then [] else MapsOf(ps, j - 1) + ps[j - 1].maps
  }

  lemma {:induction false} FreedAppend(a: seq<Event>, b: seq<Event>)
    ensures Freed(a + b) == Freed(a) + Freed(b) && Unmapped(a + b) == Unmapped(a) + Unmapped(b)
  {
    if |b| == 0 {
      assert a + b == a;
    } else {
      var b' := b[..|b| - 1];
      assert (a + b)[..|a + b| - 1] == a + b';
      FreedAppend(a, b');
    }
  }

  lemma NothingInNothing()
    ensures Freed([]) == [] && Unmapped([]) == []
  {
  }

  lemma {:induction false} UnmapsOnly(maps: seq<int>)
    ensures Freed(Unmaps(maps)) == [] && Unmapped(Unmaps(maps)) == maps
  {
    if |maps| > 0 {
      var m := maps[..|maps| - 1];
      UnmapsOnly(m);
      FreedAppend(Unmaps(m), [Unmap(maps[|maps| - 1])]);
      assert maps == m + [maps[|maps| - 1]];
    }
  }

  lemma ReleaseInOrder(p: Packet)
    ensures Freed(Release(p)) == [p.skb] && Unmapped(Release(p)) == p.maps
  {
    hide Unmaps;
    UnmapsOnly(p.maps);
    FreedAppend(Unmaps(p.maps), [Free(p.skb)]);
    assert [Free(p.skb)][..0] == [];
  }

  lemma {:induction false} ReleasesInOrder(ps: seq<Packet>, j: nat)
    requires j <= |ps|
    ensures Freed(Releases(ps, j)) == SkbsOf(ps, j)
    ensures Unmapped(Releases(ps, j)) == MapsOf(ps, j)
  {
    hide Freed, Unmapped, Release;
    if j == 0 {
      NothingInNothing();
    } else {
      ReleasesInOrder(ps, j - 1);
      ReleaseInOrder(ps[j - 1]);
      FreedAppend(Releases(ps, j - 1), Release(ps[j - 1]));
    }
  }

  /** Whatever the interleaving, bnx2_tx_int has freed exactly the buffers of the
      first `released` packets, once each and in posting order, and undone exactly
      their mappings plus the leading ones of the packet it is working on. */
  lemma ReleasedExactlyOnceInOrder(s: State)
    requires Reachable(MAX_DESC_CNT, s)
    ensures s.released <= |s.posted|
    ensures Freed(s.log) == SkbsOf(s.posted, s.released)
    ensures Unmapped(s.log) ==
            MapsOf(s.posted, s.released) +
            if s.tpc.TFrag? && s.released < |s.posted| && s.tpc.i < |s.posted[s.released].maps|
            then s.posted[s.released].maps[..s.tpc.i + 1] else []
  {
    hide Slots, XmitOk, WakeCheckOk, WakePending, Releases, Unmaps, SkbsOf, MapsOf, Freed, Unmapped, Avail, Idx, Off,
      MapsFrom, SkbsFrom, TxIntMaps, XmitMaps, XmitSkbs, RestsLegally, TxIntOk, Reachable;
    ReachableInv(s);
    ReleasesInOrder(s.posted, s.released);
    NothingInNothing();
    var partial := PartialRelease(s.tpc, s.posted, s.released);
    FreedAppend(Releases(s.posted, s.released), partial);
    if s.tpc.TFrag? && s.tpc.i < |s.posted[s.released].maps| { UnmapsOnly(s.posted[s.released].maps[..s.tpc.i + 1]); }
  }

  /** No packet is released before the device has completed all of it, and
      tx_cons always rests on a packet boundary. */
  lemma ReleasedOnlyWhenCompleted(s: State)
    requires Reachable(MAX_DESC_CNT, s)
    ensures s.published <= s.released <= |s.posted|
    ensures Off(s.posted, s.released) <= s.completed
    ensures s.tpc.TFrag? ==> s.released < |s.posted| && Off(s.posted, s.released + 1) <= s.completed
    ensures s.txCons == Idx(Off(s.posted, s.published))
  {
    ReachableInv(s);
    if s.tpc.TFrag? { OffStep(s.posted, s.released); }
  }

  /** The buffers and DMA mappings that the driver holds between calls are those
      of the packets it has posted and not released: refused and failed packets
      leave nothing behind. */
  lemma NothingLeaks(s: State)
    requires Reachable(MAX_DESC_CNT, s) && s.xpc.XIdle? && s.tpc.TIdle?
    ensures s.released <= |s.posted|
    ensures s.live == MapsFrom(s.posted, s.released)
    ensures s.skbs == SkbsFrom(s.posted, s.released)
  {
    ReachableInv(s);
  }

  // ----- tx_cons may overtake tx_prod -----

  lemma ReachableInit(size: nat, s: State)
    requires Init(s)
    ensures Reachable(size, s)
  {
    hide Init, Next;
    assert IsRun(size, [s]) && s == [s][|[s]| - 1];
  }

  lemma ReachableNext(size: nat, s: State, s': State)
    requires Reachable(size, s) && Next(size, s, s')
    ensures Reachable(size, s')
  {
    hide Init, Next;
    var run :| IsRun(size, run) && s == run[|run| - 1];
    var run' := run + [s'];
    assert IsRun(size, run') && s' == run'[|run'| - 1];
  }

  lemma ReachableXmit(size: nat, s: State, pkt: Packet)
    requires Reachable(size, s) && XmitEnabled(s, pkt)
    ensures Reachable(size, XmitStep(size, s, pkt, true))
  {
    hide XmitStep, Reachable, XmitEnabled;
    ReachableNext(size, s, XmitStep(size, s, pkt, true));
  }

  lemma ReachableTxInt(size: nat, s: State)
    requires Reachable(size, s) && TxIntEnabled(s)
    ensures Reachable(size, TxIntStep(size, s, 0))
  {
    hide TxIntStep, Reachable, TxIntEnabled;
    ReachableNext(size, s, TxIntStep(size, s, 0));
  }

  /** A one-descriptor packet up to and including the doorbell. */
  lemma PostOne(s0: State, p: Packet) returns (s: State)
    requires Init(s0) && p == Packet(7, false, [9])
    ensures Reachable(MAX_DESC_CNT, s) && s.posted == [p] && s.xpc.XPublish? && s.tpc.TIdle?
    ensures s.txProd == s.txCons == 0 && s.completed == s.released == 0 && !s.stopped
    ensures s.slots[0] == SwTxBd(Some(7), 9, false, 0)
  {
    hide Avail;
    ReachableInit(MAX_DESC_CNT, s0);
    AvailSound(0, 0);
    ReachableXmit(MAX_DESC_CNT, s0, p);
    var s1 := XmitStep(MAX_DESC_CNT, s0, p, true);
    assert s1.xpc == XEnter(p);
    ReachableXmit(MAX_DESC_CNT, s1, p);
    var s2 := XmitStep(MAX_DESC_CNT, s1, p, true);
    assert s2.xpc == XMap(p, 0, 0);
    ReachableXmit(MAX_DESC_CNT, s2, p);
    var s3 := XmitStep(MAX_DESC_CNT, s2, p, true);
    assert s3.xpc == XMap(p, 1, 1);
    ReachableXmit(MAX_DESC_CNT, s3, p);
    var s4 := XmitStep(MAX_DESC_CNT, s3, p, true);
    assert s4.xpc == XDoorbell(p, 1);
    ReachableXmit(MAX_DESC_CNT, s4, p);
    s := XmitStep(MAX_DESC_CNT, s4, p, true);
  }

  lemma ReachableTxIntTo(size: nat, s: State, s': State)
    requires Reachable(size, s) && TxIntEnabled(s) && s' == TxIntStep(size, s, 0)
    ensures Reachable(size, s')
  {
    hide TxIntStep, Reachable, TxIntEnabled;
    ReachableTxInt(size, s);
  }

  lemma TotalOfOne(p: Packet)
    requires p == Packet(7, false, [9])
    ensures Off([p], 0) == 0 && Off([p], 1) == 1 == Total([p])
  {
  }

  /** The completion and release of that packet. */
  lemma ReleaseOne(s5: State, p: Packet) returns (s: State)
    requires p == Packet(7, false, [9]) && Reachable(MAX_DESC_CNT, s5) && s5.posted == [p]
    requires s5.tpc.TIdle? && s5.completed == s5.released == 0 && s5.txCons == 0
    requires s5.slots[0] == SwTxBd(Some(7), 9, false, 0)
    ensures Reachable(MAX_DESC_CNT, s) && s.posted == [p] && s.released == 1 && s.tpc == TLoop(0, 1, 1, 1)
    ensures s.xpc == s5.xpc && s.txProd == s5.txProd
  {
    hide Reachable, NotYetPassed, Avail;
    TotalOfOne(p);
    var s6 := s5.(completed := 1, hw := 1);
    assert DeviceStep(s5, s6);
    ReachableNext(MAX_DESC_CNT, s5, s6);
    var s7 := s6.(tpc := TLoop(0, 0, 1, 0), seen := 1);
    ReachableTxIntTo(MAX_DESC_CNT, s6, s7);
    var s8 := TxIntStep(MAX_DESC_CNT, s7, 0);
    ReachableTxIntTo(MAX_DESC_CNT, s7, s8);
    assert s8.tpc == TFrag(0, 0, 1, 0, 7, 0, 0);
    s := TxIntStep(MAX_DESC_CNT, s8, 0);
    ReachableTxIntTo(MAX_DESC_CNT, s8, s);
  }

  /** The doorbell is rung before tx_prod is stored, so the device may complete,
      and bnx2_tx_int release, a packet that tx_prod does not cover yet; the free
      space computed then would be absurd. By OvertakesIff this is so only between
      doorbell and store, and AvailReadIs says that what is computed then is never
      that. */
  lemma TxConsMayOvertakeTxProd(s0: State) returns (s: State)
    requires Init(s0)
    ensures Reachable(MAX_DESC_CNT, s) && s.published <= |s.posted| && ConsCount(s) > ProdCount(s)
    ensures Avail(MAX_DESC_CNT, s.txProd, s.txCons) > 0xFFFE_0000
  {
    hide Reachable, NotYetPassed, Init;
    var p := Packet(7, false, [9]);
    var s5 := PostOne(s0, p);
    var s9 := ReleaseOne(s5, p);
    var s10 := s9.(tpc := TPublishHw(1, 1));
    ReachableTxIntTo(MAX_DESC_CNT, s9, s10);
    var s11 := s10.(hwTxCons := 1, tpc := TPublish(1));
    ReachableTxIntTo(MAX_DESC_CNT, s10, s11);
    s := s11.(txCons := 1, published := 1, tpc := TCheckStopped);
    ReachableTxIntTo(MAX_DESC_CNT, s11, s);
    TotalOfOne(p);
  }
}
