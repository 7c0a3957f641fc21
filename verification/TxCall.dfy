/** What one call comes to: how far bnx2_tx_int goes while bnx2_start_xmit and the
    device go on beside it, and why it stops there; and that bnx2_start_xmit posts
    its packet unless a mapping fails. */
module TxCall {
  import opened RingIndex
  import opened TxIndex
  import opened TxPackets
  import opened TxProtocol
  import opened TxSafety

  /** bnx2_tx_int is called between s and s'. */
  predicate Begins(s: State, s': State) {
    s.tpc.TIdle? && !s'.tpc.TIdle?
  }

  /** The number of packets that had been released when the latest call began. */
  ghost function Before(run: seq<State>, i: nat): nat
    requires i < |run|
  {
    if i == 0 then 0
    else if Begins(run[i - 1], run[i]) then run[i - 1].released
    else Before(run, i - 1)
  }

  /** The number of descriptors that the device had completed when the latest packet
      was released, or when the latest call began, whichever was later. */
  ghost function DoneThen(run: seq<State>, i: nat): nat
    requires i < |run|
  {
    if i == 0 then 0
    else if Begins(run[i - 1], run[i]) || run[i].released != run[i - 1].released then run[i - 1].completed
    else DoneThen(run, i - 1)
  }

  /** The call has released what it has counted, within its budget; it comes to the
      end of what it has read of only after a read behind its latest release; and
      hw_tx_cons gets what it has read last. */
  ghost predicate CallOk(s: State, before: nat, doneThen: nat) {
    match s.tpc
    case TLoop(b, done, hw, sw) =>
      s.released == before + done && (b > 0 ==> done < b) && (hw == sw ==> doneThen <= s.seen)
    case TFrag(b, done, _, _, _, _, _) => s.released == before + done && (b > 0 ==> done < b)
    case TPublishHw(hw, _) => hw == Idx(s.seen)
    case TFault => true
    case _ => s.hwTxCons == Idx(s.seen)
  }

  /** What the calls have of the status block. */
  ghost predicate HasRead(s: State) {
    && Normalize(s.hw) == Idx(s.completed)
    && (s.tpc.TLoop? ==> s.tpc.hw == Idx(s.seen)) && (s.tpc.TFrag? ==> s.tpc.hw == Idx(s.seen))
  }

  lemma InvHasRead(s: State)
    requires Inv(s)
    ensures HasRead(s)
  {
    hide Slots, Owned, XmitOk, WakeCheckOk, WakePending, Idx, Normalize, RestsLegally, Off;
  }

  lemma TxIntKeepsCall(s: State, budget: nat, before: nat, doneThen: nat)
    requires HasRead(s) && CallOk(s, before, doneThen)
    ensures var s' := TxIntStep(MAX_DESC_CNT, s, budget);
            CallOk(s', BeforeStep(s, s', before), DoneStep(s, s', doneThen))
  {
    hide CallOk, HasRead, TxIntStep;
    if s.tpc.TIdle? || s.tpc.TLoop? {
      LoopKeepsCall(s, budget, before, doneThen);
    } else if s.tpc.TFrag? {
      FragKeepsCall(s, budget, before, doneThen);
    } else {
      TailKeepsCall(s, budget, before, doneThen);
    }
  }

  lemma LoopKeepsCall(s: State, budget: nat, before: nat, doneThen: nat)
    requires HasRead(s) && CallOk(s, before, doneThen) && (s.tpc.TIdle? || s.tpc.TLoop?)
    ensures var s' := TxIntStep(MAX_DESC_CNT, s, budget);
            CallOk(s', BeforeStep(s, s', before), DoneStep(s, s', doneThen))
  {
    hide Avail, Idx, RingIdx, NextBd, Normalize, NotYetPassed, WakeThresh;
  }

  lemma FragKeepsCall(s: State, budget: nat, before: nat, doneThen: nat)
    requires HasRead(s) && CallOk(s, before, doneThen) && s.tpc.TFrag?
    ensures var s' := TxIntStep(MAX_DESC_CNT, s, budget);
            CallOk(s', BeforeStep(s, s', before), DoneStep(s, s', doneThen))
  {
    hide Avail, Idx, RingIdx, NextBd, Normalize, NotYetPassed, WakeThresh;
  }

  lemma TailKeepsCall(s: State, budget: nat, before: nat, doneThen: nat)
    requires HasRead(s) && CallOk(s, before, doneThen) && !s.tpc.TIdle? && !s.tpc.TLoop? && !s.tpc.TFrag?
    ensures var s' := TxIntStep(MAX_DESC_CNT, s, budget);
            CallOk(s', BeforeStep(s, s', before), DoneStep(s, s', doneThen))
  {
    hide Avail, Idx, RingIdx, NextBd, Normalize, NotYetPassed, WakeThresh;
  }

  lemma OthersKeepCall(s: State, s': State, before: nat, doneThen: nat)
    requires CallOk(s, before, doneThen) && s'.tpc == s.tpc && s'.released == s.released
    requires s'.seen == s.seen && s'.hwTxCons == s.hwTxCons
    ensures CallOk(s', before, doneThen)
  {
    hide Idx;
  }

  lemma XmitLeavesCall(s: State, pkt: Packet, mapped: bool)
    ensures var s' := XmitStep(MAX_DESC_CNT, s, pkt, mapped);
            s'.tpc == s.tpc && s'.released == s.released && s'.seen == s.seen && s'.hwTxCons == s.hwTxCons
  {
    hide Avail, RingIdx, NextBd, WakeThresh;
  }

  /** Before and DoneThen, after one more step. */
  ghost function BeforeStep(s: State, s': State, before: nat): nat {
    if Begins(s, s') then s.released else before
  }

  ghost function DoneStep(s: State, s': State, doneThen: nat): nat {
    if Begins(s, s') || s'.released != s.released then s.completed else doneThen
  }

  lemma NextKeepsCall(s: State, s': State, before: nat, doneThen: nat)
    requires Inv(s) && CallOk(s, before, doneThen) && Next(MAX_DESC_CNT, s, s')
    ensures CallOk(s', BeforeStep(s, s', before), DoneStep(s, s', doneThen))
  {
    hide Inv, XmitStep, TxIntStep, XmitEnabled, TxIntEnabled, CallOk, Behind;
    if exists pkt, mapped :: XmitEnabled(s, pkt) && s' == XmitStep(MAX_DESC_CNT, s, pkt, mapped) {
      var pkt, mapped :| XmitEnabled(s, pkt) && s' == XmitStep(MAX_DESC_CNT, s, pkt, mapped);
      XmitLeavesCall(s, pkt, mapped);
      OthersKeepCall(s, s', before, doneThen);
    } else if exists budget :: TxIntEnabled(s) && s' == TxIntStep(MAX_DESC_CNT, s, budget) {
      var budget :| TxIntEnabled(s) && s' == TxIntStep(MAX_DESC_CNT, s, budget);
      InvHasRead(s);
      TxIntKeepsCall(s, budget, before, doneThen);
    } else {
      OthersKeepCall(s, s', before, doneThen);
    }
  }

  lemma InitCall(s: State)
    requires Init(s)
    ensures CallOk(s, 0, 0)
  {
  }

  lemma {:induction false} RunCall(run: seq<State>, i: nat)
    requires IsRun(MAX_DESC_CNT, run) && i < |run|
    ensures CallOk(run[i], Before(run, i), DoneThen(run, i))
  {
    hide Inv, Init, Next, CallOk;
    if i == 0 {
      InitCall(run[0]);
    } else {
      RunCall(run, i - 1);
      RunInv(run, i - 1);
      NextKeepsCall(run[i - 1], run[i], Before(run, i - 1), DoneThen(run, i - 1));
    }
  }

  /** With equal indices, or the partial-completion test true, the packet at hand, if
      there is one, is not completed as far as bnx2_tx_int has read. */
  lemma NotComplete(s: State, budget: nat)
    requires Inv(s) && s.tpc.TLoop? && TxIntStep(MAX_DESC_CNT, s, budget).tpc.TPublishHw?
    ensures s.released < |s.posted| ==> s.seen < Off(s.posted, s.released + 1)
    ensures s.tpc.hw == s.tpc.sw <==> s.seen == Off(s.posted, s.released)
  {
    hide Owned, XmitOk, WakeCheckOk, WakePending, Avail, Idx, RingIdx, NextBd, Normalize, RestsLegally, Slots,
      NotYetPassed, MapsInSlots, Off;
    OffMonotone(s.posted, s.released, |s.posted|);
    OffMonotone(s.posted, s.published, s.released);
    IdxInjective(Off(s.posted, s.released), s.seen);
    if s.released < |s.posted| {
      OldestPacket(s.slots, s.posted, s.released);
      OffStep(s.posted, s.released);
      if s.tpc.hw != s.tpc.sw { NextToRelease(s.slots, s.posted, s.released, s.seen); }
    }
  }

  /** Under every interleaving, a call of bnx2_tx_int releases no more packets than its
      budget, unless that is 0. It stops before that only at a packet that the device
      had not completed when it last read of it; when nothing of that packet was
      completed either, it has read after its latest release and released everything
      that was completed then. */
  lemma StopsOnlyWhen(run: seq<State>, i: nat)
    requires IsRun(MAX_DESC_CNT, run) && i + 1 < |run|
    requires (run[i].tpc.TLoop? || run[i].tpc.TFrag?) && run[i + 1].tpc.TPublishHw?
    ensures var s, b := run[i + 1], run[i].tpc.budget;
            && s.released <= |s.posted| && s.tpc.hw == Idx(s.seen)
            && (b > 0 ==> s.released <= Before(run, i + 1) + b)
            && (s.released == Before(run, i + 1) + b > Before(run, i + 1)
                || (&& (s.released < |s.posted| ==> s.seen < Off(s.posted, s.released + 1))
                    && (s.seen == Off(s.posted, s.released) ==> DoneThen(run, i + 1) <= s.seen)))
  {
    hide Inv, Init, XmitStep, TxIntStep, XmitEnabled, Idx, Off;
    var s, s' := run[i], run[i + 1];
    RunCall(run, i);
    RunInv(run, i);
    assert Next(MAX_DESC_CNT, s, s');
    if pkt, mapped :| XmitEnabled(s, pkt) && s' == XmitStep(MAX_DESC_CNT, s, pkt, mapped) {
      XmitLeavesCall(s, pkt, mapped);
    } else if budget :| TxIntEnabled(s) && s' == TxIntStep(MAX_DESC_CNT, s, budget) {
      Stopping(s, budget, Before(run, i), DoneThen(run, i));
    }
  }

  /** Outside of a call, hw_tx_cons is what was read last. */
  lemma HwTxConsIsRead(run: seq<State>, i: nat)
    requires IsRun(MAX_DESC_CNT, run) && i < |run| && run[i].tpc.TIdle?
    ensures run[i].hwTxCons == Idx(run[i].seen)
  {
    hide Next, Init, Idx;
    RunCall(run, i);
  }

  lemma Stopping(s: State, budget: nat, before: nat, doneThen: nat)
    requires Inv(s) && CallOk(s, before, doneThen) && (s.tpc.TLoop? || s.tpc.TFrag?)
    requires TxIntStep(MAX_DESC_CNT, s, budget).tpc.TPublishHw?
    ensures var s', b := TxIntStep(MAX_DESC_CNT, s, budget), s.tpc.budget;
            && s'.seen == s.seen && s'.posted == s.posted && s'.tpc.hw == Idx(s'.seen)
            && s'.released <= |s.posted| && (b > 0 ==> s'.released <= before + b)
            && if s.tpc.TFrag? then s'.released == before + b && b > 0
               else
                 && s'.released == s.released
                 && (s.released < |s.posted| ==> s.seen < Off(s.posted, s.released + 1))
                 && (s.seen == Off(s.posted, s.released) ==> doneThen <= s.seen)
  {
    hide Inv, TxIntStep, CallOk, Off;
    InvHasRead(s);
    if s.tpc.TLoop? { NotComplete(s, budget); }
    Leaving(s, budget, before, doneThen);
    NoMoreThanPosted(s);
  }

  lemma NoMoreThanPosted(s: State)
    requires Inv(s)
    ensures Whole(s.tpc, s.released) <= |s.posted|
  {
    hide Slots, Owned, XmitOk, TxIntOk, WakeCheckOk, WakePending, Idx, Normalize, RestsLegally, Off;
  }

  lemma Leaving(s: State, budget: nat, before: nat, doneThen: nat)
    requires HasRead(s) && CallOk(s, before, doneThen) && (s.tpc.TLoop? || s.tpc.TFrag?)
    requires TxIntStep(MAX_DESC_CNT, s, budget).tpc.TPublishHw?
    ensures var s', b := TxIntStep(MAX_DESC_CNT, s, budget), s.tpc.budget;
            && s'.seen == s.seen && s'.posted == s.posted && s'.tpc.hw == Idx(s'.seen)
            && (b > 0 ==> s'.released <= before + b)
            && if s.tpc.TFrag? then s'.released == s.released + 1 == before + b && b > 0
               else s'.released == s.released && (s.tpc.hw == s.tpc.sw ==> doneThen <= s.seen)
  {
    hide Avail, Idx, RingIdx, NextBd, Normalize, NotYetPassed, WakeThresh;
  }

  // ----- bnx2_start_xmit -----

  /** What a step takes that does not begin a call. */
  const NONE := Packet(0, false, [])

  /** n steps of bnx2_start_xmit, all mappings succeeding. */
  ghost function Xmits(s: State, n: nat): State {
    if n == 0 then s else XmitStep(MAX_DESC_CNT, Xmits(s, n - 1), NONE, true)
  }

  lemma {:induction false} MapsAll(s: State, p: Packet, k: nat)
    requires s.xpc.XMap? && s.xpc.pkt == p && s.xpc.i == 0 && k <= |p.maps|
    ensures var s' := Xmits(s, k);
            s'.xpc.XMap? && s'.xpc.pkt == p && s'.xpc.i == k && s'.posted == s.posted && s'.stopped == s.stopped
  {
    hide XmitStep;
    if k > 0 {
      MapsAll(s, p, k - 1);
      MapOne(Xmits(s, k - 1));
    }
  }

  lemma MapOne(s: State)
    requires s.xpc.XMap? && s.xpc.i < |s.xpc.pkt.maps|
    ensures var s' := XmitStep(MAX_DESC_CNT, s, NONE, true);
            && s'.xpc.XMap? && s'.xpc.pkt == s.xpc.pkt && s'.xpc.i == s.xpc.i + 1
            && s'.posted == s.posted && s'.stopped == s.stopped
  {
    hide RingIdx, NextBd;
  }

  lemma RoomAtEntry(s: State)
    requires Inv(s) && s.xpc.XEnter?
    ensures Avail(MAX_DESC_CNT, s.txProd, s.txCons) >= |s.xpc.pkt.maps| > 0
  {
    hide Slots, Owned, TxIntOk, WakeCheckOk, WakePending, Idx, Normalize, RestsLegally, Off, Avail;
  }

  /** A packet whose mappings all succeed is posted and rung for, as the last one, with
      none of the queue's state changed before. */
  lemma MappedIsPosted(s: State)
    requires Reachable(MAX_DESC_CNT, s) && s.xpc.XEnter?
    ensures var p, s' := s.xpc.pkt, Xmits(s, |s.xpc.pkt.maps| + 3);
            s'.xpc.XPublish? && s'.posted == s.posted + [p] && s'.stopped == s.stopped
  {
    hide Reachable, Inv, Avail, RingIdx, NextBd;
    ReachableInv(s);
    var p, s1 := s.xpc.pkt, Xmits(s, 1);
    RoomAtEntry(s);
    assert s1 == XmitStep(MAX_DESC_CNT, Xmits(s, 0), NONE, true);
    MapsAll(s1, p, |p.maps|);
    XmitsPlus(s, |p.maps|);
    var s2 := Xmits(s, |p.maps| + 1);
    assert Xmits(s, |p.maps| + 2) == XmitStep(MAX_DESC_CNT, s2, NONE, true);
  }

  lemma {:induction false} XmitsPlus(s: State, n: nat)
    ensures Xmits(Xmits(s, 1), n) == Xmits(s, n + 1)
  {
    hide XmitStep;
    if n > 0 { XmitsPlus(s, n - 1); }
  }

  /** The device has always been told of exactly the packets posted. */
  lemma DoorbellIsPosted(s: State)
    requires Reachable(MAX_DESC_CNT, s)
    ensures s.doorbell == Idx(Total(s.posted))
  {
    hide Reachable;
    ReachableInv(s);
  }
}
