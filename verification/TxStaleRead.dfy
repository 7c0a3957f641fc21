/** A run in which bnx2_tx_int evaluates the free space between the doorbell of a
    packet and the store of tx_prod, and gets it wrong. */
module TxStaleRead {
  import opened RingIndex
  import opened TxIndex
  import opened TxPackets
  import opened TxProtocol
  import opened TxSafety
  import opened TxRingSize

  const PARTS := MAX_SKB_FRAGS + 1
  const LARGEST := Packet(0, false, seq(PARTS, _ => 0))

  /** n packets of the largest size are in flight. */
  lemma {:induction false} Stuffed(s0: State, n: nat) returns (s: State)
    requires Init(s0) && n <= 12
    ensures Quiet(MAX_DESC_CNT, s, 0, PARTS * n) && s.released == 0
  {
    hide Reachable, Avail, Idx;
    if n == 0 {
      ReachableInit(MAX_DESC_CNT, s0);
      s := s0;
      InitIsQuiet(MAX_DESC_CNT, s);
    } else {
      var t := Stuffed(s0, n - 1);
      AvailSound(0, PARTS * (n - 1));
      AvailSound(0, PARTS * n);
      s := Post(MAX_DESC_CNT, t, 0, PARTS * (n - 1), LARGEST);
    }
  }

  lemma ReachableXmitTo(s: State, pkt: Packet, s': State)
    requires Reachable(MAX_DESC_CNT, s) && XmitEnabled(s, pkt) && s' == XmitStep(MAX_DESC_CNT, s, pkt, true)
    ensures Reachable(MAX_DESC_CNT, s')
  {
    hide Reachable, XmitStep, XmitEnabled;
    ReachableXmit(MAX_DESC_CNT, s, pkt);
  }

  /** A thirteenth packet fills the ring so far that the queue is about to stop. */
  lemma AboutToStop(s0: State) returns (s: State)
    requires Init(s0)
    ensures Reachable(MAX_DESC_CNT, s) && s.xpc.XStop? && s.tpc.TIdle? && !s.stopped
    ensures Total(s.posted) == PARTS * 13 && s.released == s.published == 0 <= |s.posted|
    ensures s.txProd == Idx(PARTS * 13) && s.txCons == 0 && s.completed == 0
  {
    hide Reachable, Avail, Idx;
    var t := Stuffed(s0, 12);
    AvailSound(0, PARTS * 12);
    AvailSound(0, PARTS * 13);
    ZeroIdx();
    var s1 := PostUntilDoorbell(MAX_DESC_CNT, t, 0, PARTS * 12, LARGEST);
    TotalAppend(t.posted, LARGEST);
    var s2 := s1.(doorbell := Idx(PARTS * 13), posted := t.posted + [LARGEST], xpc := XPublish(Idx(PARTS * 13)));
    ReachableXmitTo(s1, LARGEST, s2);
    var s3 := s2.(txProd := Idx(PARTS * 13), xpc := XCheck);
    ReachableXmitTo(s2, LARGEST, s3);
    s := s3.(xpc := XStop);
    ReachableXmitTo(s3, LARGEST, s);
  }

  lemma ZeroIdx()
    ensures Idx(0) == 0
  {
  }

  /** bnx2_tx_int is in its loop and the device has completed everything. */
  ghost predicate Draining(s: State) {
    && (s.tpc.TLoop? || s.tpc.TFrag?) && s.tpc.budget == 0
    && s.seen == s.completed == Total(s.posted)
  }

  lemma DrainLoop(s: State)
    requires Reachable(MAX_DESC_CNT, s) && Draining(s) && s.tpc.TLoop? && s.tpc.sw != s.tpc.hw
    ensures s.released < |s.posted|
    ensures var t := TxIntStep(MAX_DESC_CNT, s, 0);
            && Reachable(MAX_DESC_CNT, t) && Draining(t) && t.tpc.TFrag? && t.tpc.last <= MAX_SKB_FRAGS
            && t == s.(slots := t.slots, live := t.live, log := t.log, tpc := t.tpc)
  {
    hide Reachable, Off, Idx, RingIdx, Slots, NotYetPassed, Owned, XmitOk, RestsLegally, WakeCheckOk, WakePending;
    ReachableInv(s);
    LoopSees(s);
    OffWithin(s.posted, s.released, s.released);
    TLoopStarts(s, 0);
    ReachableTxInt(MAX_DESC_CNT, s);
  }

  lemma DrainDone(s: State)
    requires Reachable(MAX_DESC_CNT, s) && Draining(s) && s.tpc.TLoop? && s.tpc.sw == s.tpc.hw
    ensures s.released == |s.posted| && s.tpc.sw == Idx(Total(s.posted))
  {
    hide Reachable, Idx, RingIdx, NotYetPassed, Owned, XmitOk, RestsLegally, WakeCheckOk, WakePending, InSlots;
    ReachableInv(s);
    IdxInjective(Off(s.posted, s.released), Total(s.posted));
    if s.released < |s.posted| {
      OffMonotone(s.posted, s.released + 1, |s.posted|);
      OffStep(s.posted, s.released);
    }
  }

  lemma DrainFrag(s: State)
    requires Reachable(MAX_DESC_CNT, s) && Draining(s) && s.tpc.TFrag?
    ensures s.released < |s.posted|
    ensures var t := TxIntStep(MAX_DESC_CNT, s, 0);
            && Reachable(MAX_DESC_CNT, t) && Draining(t)
            && (if s.tpc.i < s.tpc.last then t.tpc.TFrag? && t.tpc.i == s.tpc.i + 1 && t.tpc.last == s.tpc.last &&
                                             t.released == s.released
                else t.tpc.TLoop? && t.released == s.released + 1)
            && t == s.(slots := t.slots, live := t.live, skbs := t.skbs, log := t.log, released := t.released,
                       tpc := t.tpc)
  {
    hide Reachable, Off, Idx, RingIdx, Slots, NotYetPassed, Owned, XmitOk, RestsLegally, WakeCheckOk, WakePending,
      NextBd, Normalize, MapsInSlots;
    ReachableInv(s);
    ReachableTxInt(MAX_DESC_CNT, s);
  }

  /** bnx2_tx_int then releases every packet that is left. */
  lemma {:induction false} Drain(s: State) returns (s': State)
    requires Reachable(MAX_DESC_CNT, s) && Draining(s) && (s.tpc.TFrag? ==> s.tpc.last <= MAX_SKB_FRAGS)
    ensures Reachable(MAX_DESC_CNT, s') && s'.tpc == TPublishHw(Idx(Total(s.posted)), Idx(Total(s.posted)))
    ensures s' == s.(slots := s'.slots, live := s'.live, skbs := s'.skbs, log := s'.log, released := |s.posted|,
                     tpc := s'.tpc)
    decreases |s.posted| - s.released, if s.tpc.TFrag? then s.tpc.last - s.tpc.i else PARTS
  {
    hide Reachable, Draining, TxIntStep, Idx;
    DrainKind(s);
    if s.tpc.TFrag? {
      DrainFrag(s);
      s' := Drain(TxIntStep(MAX_DESC_CNT, s, 0));
    } else if s.tpc.sw != s.tpc.hw {
      DrainLoop(s);
      s' := Drain(TxIntStep(MAX_DESC_CNT, s, 0));
    } else {
      DrainDone(s);
      LoopEnds(s);
      s' := TxIntStep(MAX_DESC_CNT, s, 0);
    }
  }

  lemma DrainKind(s: State)
    requires Draining(s)
    ensures s.tpc.TLoop? || s.tpc.TFrag?
  {
  }

  lemma LoopEnds(s: State)
    requires Reachable(MAX_DESC_CNT, s) && s.tpc.TLoop? && s.tpc.sw == s.tpc.hw
    ensures Reachable(MAX_DESC_CNT, TxIntStep(MAX_DESC_CNT, s, 0))
    ensures TxIntStep(MAX_DESC_CNT, s, 0) == s.(tpc := TPublishHw(s.tpc.hw, s.tpc.sw))
  {
    hide Reachable, RingIdx, NotYetPassed;
    ReachableTxInt(MAX_DESC_CNT, s);
  }

  /** The whole ring is reclaimed while bnx2_start_xmit is about to stop the queue. */
  lemma Reclaimed(s: State) returns (s': State)
    requires Reachable(MAX_DESC_CNT, s) && s.xpc.XStop? && s.tpc.TIdle? && !s.stopped
    ensures Reachable(MAX_DESC_CNT, s') && s'.tpc.TCheckStopped? && s'.xpc.XStop? && !s'.stopped
    ensures s'.posted == s.posted && s'.released == s'.published == |s.posted| && s'.txProd == s.txProd
    ensures s'.txCons == Idx(Total(s.posted))
  {
    hide Reachable, Idx, RestsLegally, Draining;
    var p := Total(s.posted);
    NormalizeIdx(p);
    AllCompleted(s.posted);
    var s1 := s.(completed := p, hw := Idx(p));
    CompletedAll(s, s1);
    var s2 := s1.(tpc := TLoop(0, 0, Idx(p), s.txCons), seen := p);
    assert Draining(s2) by { StartsDraining(s2); }
    ReachableTxIntTo(MAX_DESC_CNT, s1, s2);
    var s3 := Drain(s2);
    var s4 := s3.(hwTxCons := Idx(p), tpc := TPublish(Idx(p)));
    ReachableTxIntTo(MAX_DESC_CNT, s3, s4);
    s' := s4.(txCons := Idx(p), published := |s.posted|, tpc := TCheckStopped);
    ReachableTxIntTo(MAX_DESC_CNT, s4, s');
  }

  lemma StartsDraining(s: State)
    requires s.tpc.TLoop? && s.tpc.budget == 0 && s.seen == s.completed == Total(s.posted)
    ensures Draining(s)
  {
  }

  lemma CompletedAll(s: State, s': State)
    requires Reachable(MAX_DESC_CNT, s) && RestsLegally(s.posted, Total(s.posted))
    requires Normalize(Idx(Total(s.posted))) == Idx(Total(s.posted))
    requires s' == s.(completed := Total(s.posted), hw := Idx(Total(s.posted)))
    ensures Reachable(MAX_DESC_CNT, s')
  {
    ReachableInv(s);
    hide Reachable, RestsLegally, Normalize, Idx;
    assert DeviceStep(s, s');
    ReachableNext(MAX_DESC_CNT, s, s');
  }

  /** Stopping, being seen stopped, and waking again; p descriptors were posted and
      all are reclaimed. */
  lemma StopAndWake(s: State, p: nat) returns (s': State)
    requires Reachable(MAX_DESC_CNT, s) && s.xpc.XStop? && s.tpc.TCheckStopped?
    requires s.txProd == s.txCons == Idx(p)
    ensures Reachable(MAX_DESC_CNT, s') && s' == s.(xpc := XIdle, tpc := TCheckAvail, stopped := false)
  {
    hide Reachable, Avail, Idx;
    AvailSound(p, p);
    var s1 := s.(stopped := true, xpc := XRecheck);
    ReachableXmitTo(s, LARGEST, s1);
    var s2 := s1.(tpc := TCheckAvail);
    ReachableTxIntTo(MAX_DESC_CNT, s1, s2);
    var s3 := s2.(xpc := XWake);
    ReachableXmitTo(s2, LARGEST, s3);
    var s4 := s3.(stopped := false, xpc := XUnlock);
    ReachableXmitTo(s3, LARGEST, s4);
    s' := s4.(xpc := XIdle);
    ReachableXmitTo(s4, LARGEST, s');
  }

  /** The next packet up to its doorbell. */
  lemma NextDoorbell(s: State, p: nat) returns (s': State)
    requires Reachable(MAX_DESC_CNT, s) && s.xpc.XIdle? && s.tpc.TCheckAvail? && !s.stopped
    requires s.txProd == s.txCons == Idx(p)
    ensures Reachable(MAX_DESC_CNT, s') && s'.xpc.XPublish? && s'.tpc.TCheckAvail?
    ensures s'.posted == s.posted + [LARGEST] && s'.published == s.published
    ensures s'.txProd == s'.txCons == Idx(p)
  {
    hide Reachable, Avail, Idx, Advance;
    AvailSound(p, p);
    ReachableXmit(MAX_DESC_CNT, s, LARGEST);
    var s1 := XmitStep(MAX_DESC_CNT, s, LARGEST, true);
    ReachableXmit(MAX_DESC_CNT, s1, LARGEST);
    var s2 := XmitStep(MAX_DESC_CNT, s1, LARGEST, true);
    var s3 := MapAll(MAX_DESC_CNT, s2);
    ReachableXmit(MAX_DESC_CNT, s3, LARGEST);
    s' := XmitStep(MAX_DESC_CNT, s3, LARGEST, true);
  }

  /** bnx2_tx_int's unlocked test then finds the ring empty, although the device has
      a packet of the largest size to send. AvailReadIs says that it can be no
      worse, and StaleReadIsHarmless that nothing comes of it. */
  lemma StaleRead(s0: State) returns (s: State)
    requires Init(s0)
    ensures Reachable(MAX_DESC_CNT, s) && s.tpc.TCheckAvail? && s.xpc.XPublish? && s.published <= |s.posted|
    ensures Avail(MAX_DESC_CNT, s.txProd, s.txCons) == MAX_DESC_CNT
    ensures Total(s.posted) - ConsCount(s) == MAX_SKB_FRAGS + 1
  {
    hide Reachable, Avail, Idx;
    var s1 := AboutToStop(s0);
    var s2 := Reclaimed(s1);
    var p := Total(s1.posted);
    var s3 := StopAndWake(s2, p);
    s := NextDoorbell(s3, p);
    TotalAppend(s1.posted, LARGEST);
    AvailSound(p, p);
  }
}
