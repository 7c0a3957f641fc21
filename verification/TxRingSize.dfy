/** Which transmit ring sizes the driver's free-space accounting supports.

    bnx2_set_ringparam accepts every size in (MAX_SKB_FRAGS, MAX_TX_DESC_CNT],
    but only the largest keeps the descriptors in flight within the configured
    size: the straddle over-count of bnx2_tx_avail makes a full smaller ring look
    almost infinitely empty. */
module TxRingSize {
  import opened RingIndex
  import opened TxIndex
  import opened TxPackets
  import opened Wrappers
  import opened TxProtocol
  import opened TxSafety

  /** No more descriptors in flight than bp->tx_ring_size, over every run. */
  ghost predicate RespectsRingSize(size: nat) {
    forall s :: Reachable(size, s) && s.published <= |s.posted| ==> Total(s.posted) - ConsCount(s) <= size
  }

  /** No more than the slots there are, over every run. */
  ghost predicate RespectsSlots(size: nat) {
    forall s :: Reachable(size, s) && s.published <= |s.posted| ==> Total(s.posted) - ConsCount(s) <= MAX_DESC_CNT
  }

  /** The software ring holds every packet that bnx2_tx_int has not begun to
      release, over every run. */
  ghost predicate KeepsPackets(size: nat) {
    forall s :: Reachable(size, s) ==> Slots(s.slots, s.posted, Whole(s.tpc, s.released))
  }

  /** Nothing is running and the queue is awake, with c descriptors reclaimed
      and p posted. */
  ghost predicate Quiet(size: nat, s: State, c: nat, p: nat) {
    && Reachable(size, s)
    && s.xpc.XIdle? && s.tpc.TIdle? && !s.stopped
    && s.published == s.released <= |s.posted|
    && s.completed == Off(s.posted, s.released) == c
    && Total(s.posted) == p
    && s.txProd == Idx(p) && s.txCons == Idx(c)
  }

  /** Whether the queue stays awake after posting up to p. */
  predicate StaysAwake(size: nat, c: nat, p: nat) {
    var a := Avail(size, Idx(p), Idx(c));
    a > MAX_SKB_FRAGS || a > WakeThresh(size)
  }

  /** Mapping every part of a packet. */
  lemma {:induction false} MapAll(size: nat, s: State) returns (s': State)
    requires Reachable(size, s) && s.xpc.XMap? && s.xpc.i <= |s.xpc.pkt.maps|
    ensures Reachable(size, s')
    ensures var XMap(pkt, i, prod) := s.xpc;
            && s'.xpc == XDoorbell(pkt, Advance(prod, |pkt.maps| - i))
            && s' == s.(slots := s'.slots, live := s'.live, xpc := s'.xpc)
            && (i == |pkt.maps| ==> s'.slots == s.slots)
            && (i == 0 && |pkt.maps| == 1 ==>
                  s'.slots == s.slots[RingIdx(prod) := SwTxBd(Some(pkt.skb), pkt.maps[0], pkt.isGso, 0)])
            && (RingIdx(prod) < MAX_DESC_CNT ==> s'.slots[MAX_DESC_CNT] == s.slots[MAX_DESC_CNT])
    decreases |s.xpc.pkt.maps| - s.xpc.i
  {
    hide Reachable;
    var XMap(pkt, i, prod) := s.xpc;
    ReachableXmit(size, s, pkt);
    var t := XmitStep(size, s, pkt, true);
    if i == |pkt.maps| {
      s' := t;
    } else {
      s' := MapAll(size, t);
      AdvanceShift(prod, |pkt.maps| - i);
      NextIsNoLink(prod);
    }
  }

  lemma NextIsNoLink(x: U16)
    ensures RingIdx(NextBd(x)) < MAX_DESC_CNT
  {
  }

  lemma {:induction false} AdvanceShift(x: U16, k: nat)
    requires k > 0
    ensures Advance(NextBd(x), k - 1) == Advance(x, k)
  {
    if k > 1 { AdvanceShift(x, k - 1); }
  }

  /** bnx2_start_xmit from its entry to the doorbell. */
  lemma PostUntilDoorbell(size: nat, s: State, c: nat, p: nat, pkt: Packet) returns (s': State)
    requires Quiet(size, s, c, p) && WellFormed(pkt) && Avail(size, Idx(p), Idx(c)) >= |pkt.maps|
    ensures Reachable(size, s')
    ensures s'.xpc == XDoorbell(pkt, Idx(p + |pkt.maps|))
    ensures s' == s.(slots := s'.slots, live := s'.live, skbs := s'.skbs, xpc := s'.xpc)
    ensures |pkt.maps| == 1 ==>
            s'.slots == s.slots[RingIdx(Idx(p)) := SwTxBd(Some(pkt.skb), pkt.maps[0], pkt.isGso, 0)]
    ensures s'.slots[MAX_DESC_CNT] == s.slots[MAX_DESC_CNT]
  {
    hide Reachable, Avail, Idx, RingIdx, Advance;
    ReachableXmit(size, s, pkt);
    var s1 := XmitStep(size, s, pkt, true);
    ReachableXmit(size, s1, pkt);
    var s2 := XmitStep(size, s1, pkt, true);
    RingIdxOfIdx(p);
    s' := MapAll(size, s2);
    AdvanceIdx(p, |pkt.maps|);
  }

  /** A whole call of bnx2_start_xmit that leaves the queue awake. */
  lemma Post(size: nat, s: State, c: nat, p: nat, pkt: Packet) returns (s': State)
    requires Quiet(size, s, c, p) && WellFormed(pkt) && Avail(size, Idx(p), Idx(c)) >= |pkt.maps|
    requires StaysAwake(size, c, p + |pkt.maps|)
    ensures Quiet(size, s', c, p + |pkt.maps|)
    ensures s'.posted == s.posted + [pkt] && s'.released == s.released
    ensures |pkt.maps| == 1 ==> s'.slots[RingIdx(Idx(p))] == SwTxBd(Some(pkt.skb), pkt.maps[0], pkt.isGso, 0)
    ensures s'.slots[MAX_DESC_CNT] == s.slots[MAX_DESC_CNT]
  {
    hide Reachable, Avail, Idx, RingIdx, Off, WellFormed;
    var s1 := PostUntilDoorbell(size, s, c, p, pkt);
    TotalAppend(s.posted, pkt);
    ReachableXmit(size, s1, pkt);
    var s2 := XmitStep(size, s1, pkt, true);
    ReachableXmit(size, s2, pkt);
    var s3 := XmitStep(size, s2, pkt, true);
    ReachableXmit(size, s3, pkt);
    var s4 := XmitStep(size, s3, pkt, true);
    s' := FinishPost(size, s4, pkt);
  }

  /** From the test of the free space to the end of bnx2_start_xmit. */
  lemma FinishPost(size: nat, s: State, pkt: Packet) returns (s': State)
    requires Reachable(size, s) && !s.stopped
    requires s.xpc.XUnlock? || (s.xpc.XStop? && Avail(size, s.txProd, s.txCons) > WakeThresh(size))
    ensures Reachable(size, s') && s' == s.(xpc := XIdle)
  {
    hide Reachable, Avail;
    var t := s;
    if s.xpc.XStop? {
      ReachableXmit(size, s, pkt);
      var s1 := XmitStep(size, s, pkt, true);
      ReachableXmit(size, s1, pkt);
      var s2 := XmitStep(size, s1, pkt, true);
      ReachableXmit(size, s2, pkt);
      t := XmitStep(size, s2, pkt, true);
    }
    ReachableXmit(size, t, pkt);
    s' := XmitStep(size, t, pkt, true);
  }

  /** The device completes a one-descriptor packet and bnx2_tx_int reclaims it. */
  lemma CompleteSingle(size: nat, s: State, n: nat, pkt: Packet) returns (s': State)
    requires Quiet(size, s, n, n + 1) && s.released + 1 == |s.posted| && s.posted[s.released] == pkt
    requires |pkt.maps| == 1 && s.slots[RingIdx(Idx(n))] == SwTxBd(Some(pkt.skb), pkt.maps[0], pkt.isGso, 0)
    ensures Quiet(size, s', n + 1, n + 1) && s'.released == |s'.posted| && s'.posted == s.posted
  {
    hide Reachable, Avail, Idx, RingIdx, NextBd, NotYetPassed, Normalize, RestsLegally;
    var raw := Idx(n + 1);
    NormalizeIdx(n + 1);
    OffStep(s.posted, s.released);
    AllCompleted(s.posted);
    var s0 := s.(completed := n + 1, hw := raw);
    assert DeviceStep(s, s0);
    ReachableNext(size, s, s0);
    ReachableTxInt(size, s0);
    var s1 := TxIntStep(size, s0, 0);
    assert s1.tpc == TLoop(0, 0, raw, Idx(n));
    IdxInjective(n, n + 1);
    NotYetPassedIff(n, 0, n + 1);
    ReachableTxInt(size, s1);
    var s2 := TxIntStep(size, s1, 0);
    assert s2.tpc == TFrag(0, 0, raw, Idx(n), pkt.skb, 0, 0);
    NextIdx(n);
    ReachableTxInt(size, s2);
    var s3 := TxIntStep(size, s2, 0);
    assert s3.tpc == TLoop(0, 1, raw, raw);
    s' := FinishTxInt(size, s3);
  }

  /** From the top of the loop, caught up with the device and with the queue awake,
      to the end of bnx2_tx_int. */
  lemma FinishTxInt(size: nat, s: State) returns (s': State)
    requires Reachable(size, s) && s.tpc.TLoop? && s.tpc.sw == s.tpc.hw && !s.stopped
    ensures Reachable(size, s')
    ensures s' == s.(hwTxCons := s.tpc.hw, txCons := s.tpc.sw, published := s.released, tpc := TIdle)
  {
    hide Reachable, NotYetPassed;
    ReachableTxInt(size, s);
    var s1 := TxIntStep(size, s, 0);
    ReachableTxInt(size, s1);
    var s2 := TxIntStep(size, s1, 0);
    ReachableTxInt(size, s2);
    var s3 := TxIntStep(size, s2, 0);
    ReachableTxInt(size, s3);
    s' := TxIntStep(size, s3, 0);
  }

  lemma NormalizeIdx(n: nat)
    ensures Normalize(Idx(n)) == Idx(n)
  {
    RingIdxOfIdx(n);
  }

  lemma AllCompleted(ps: seq<Packet>)
    ensures RestsLegally(ps, Total(ps))
  {
    forall j | 0 <= j < |ps| ensures !(Off(ps, j) < Total(ps) < Off(ps, j + 1)) {
      OffMonotone(ps, j + 1, |ps|);
    }
  }

  const SINGLE := Packet(0, false, [0])

  /** The driver's view while a smaller ring fills up before the link slot, and
      once it is full across it. */
  lemma AvailBelowLink(size: nat, c: nat, p: nat)
    requires size <= MAX_DESC_CNT && c <= p < MAX_DESC_CNT && p - c <= size
    ensures Avail(size, Idx(p), Idx(c)) == size - (p - c)
  {
    hide Avail, Idx;
    AvailIsSizeMinusUsed(size, c, p);
  }

  /** From then on the ring looks almost infinitely empty. */
  lemma AvailPastFull(size: nat, c: nat, p: nat)
    requires MAX_SKB_FRAGS < size < MAX_DESC_CNT && c == MAX_DESC_CNT - size
    requires MAX_DESC_CNT <= p <= c + WINDOW
    ensures Avail(size, Idx(p), Idx(c)) > MAX_SKB_FRAGS
  {
    hide Avail, Idx;
    AvailWrapsIff(size, c, p);
  }

  /** All these packets carry buffer 0. */
  predicate Plain(ps: seq<Packet>) {
    forall j :: 0 <= j < |ps| ==> ps[j].skb == 0
  }

  /** n packets of one descriptor, each posted and reclaimed before the next. */
  lemma {:induction false} Cycle(size: nat, s0: State, n: nat) returns (s: State)
    requires MAX_SKB_FRAGS < size <= MAX_DESC_CNT && Init(s0) && n < MAX_DESC_CNT
    ensures Quiet(size, s, n, n) && s.released == |s.posted| && Plain(s.posted)
  {
    hide Reachable, Avail, Idx, RingIdx;
    if n == 0 {
      ReachableInit(size, s0);
      s := s0;
      InitIsQuiet(size, s);
    } else {
      var s1 := Cycle(size, s0, n - 1);
      AvailBelowLink(size, n - 1, n - 1);
      AvailBelowLink(size, n - 1, n);
      var s2 := Post(size, s1, n - 1, n - 1, SINGLE);
      s := CompleteSingle(size, s2, n - 1, SINGLE);
    }
  }

  lemma InitIsQuiet(size: nat, s: State)
    requires Init(s) && Reachable(size, s)
    ensures Quiet(size, s, 0, 0)
  {
  }

  /** k more packets of one descriptor, none of them reclaimed. */
  lemma {:induction false} Fill(size: nat, s: State, c: nat, k: nat) returns (s': State)
    requires size < MAX_DESC_CNT && c == MAX_DESC_CNT - size && Quiet(size, s, c, c)
    requires k + MAX_SKB_FRAGS < size && Plain(s.posted)
    ensures Quiet(size, s', c, c + k) && s'.released == s.released && Plain(s'.posted)
  {
    hide Reachable, Avail, Idx, RingIdx, Quiet;
    if k == 0 {
      s' := s;
    } else {
      var t := Fill(size, s, c, k - 1);
      AvailBelowLink(size, c, c + k - 1);
      AvailBelowLink(size, c, c + k);
      s' := Post(size, t, c, c + k - 1, SINGLE);
    }
  }

  /** The ring filled exactly, up to the link slot, the last packet being one of the
      largest size. */
  lemma FillExactly(size: nat, s0: State) returns (s: State)
    requires MAX_SKB_FRAGS < size < MAX_DESC_CNT && Init(s0)
    ensures Quiet(size, s, MAX_DESC_CNT - size, MAX_DESC_CNT) && Plain(s.posted)
  {
    hide Reachable, Avail, Idx, RingIdx;
    var c := MAX_DESC_CNT - size;
    var largest := Packet(0, false, seq(MAX_SKB_FRAGS + 1, _ => 0));
    var s1 := Cycle(size, s0, c);
    var s2 := Fill(size, s1, c, size - MAX_SKB_FRAGS - 1);
    AvailBelowLink(size, c, c + size - MAX_SKB_FRAGS - 1);
    AvailPastFull(size, c, MAX_DESC_CNT);
    s := Post(size, s2, c, c + size - MAX_SKB_FRAGS - 1, largest);
  }

  /** After that the queue is never stopped: n descriptors are in flight. */
  lemma {:induction false} Overfill(size: nat, s0: State, n: nat) returns (s: State)
    requires MAX_SKB_FRAGS < size < MAX_DESC_CNT && Init(s0) && size <= n <= WINDOW
    ensures Quiet(size, s, MAX_DESC_CNT - size, MAX_DESC_CNT - size + n) && Plain(s.posted)
  {
    hide Reachable, Avail, Idx, RingIdx;
    var c := MAX_DESC_CNT - size;
    if n == size {
      s := FillExactly(size, s0);
    } else {
      var t := Overfill(size, s0, n - 1);
      AvailPastFull(size, c, c + n - 1);
      AvailPastFull(size, c, c + n);
      s := Post(size, t, c, c + n - 1, SINGLE);
    }
  }

  /** One lap later the slot of the oldest packet is another packet's: bnx2_tx_int
      would free that one's buffer. */
  lemma Overwrites(size: nat, s0: State) returns (s: State)
    requires MAX_SKB_FRAGS < size < MAX_DESC_CNT && Init(s0)
    ensures Reachable(size, s) && s.tpc.TIdle? && s.released < |s.posted|
    ensures var bd := s.slots[Slot(Off(s.posted, s.released))];
            bd.skb.Some? && bd.skb.value != s.posted[s.released].skb
    ensures s.published <= |s.posted| && Total(s.posted) - ConsCount(s) == MAX_DESC_CNT + 1
  {
    hide Reachable, Avail, Idx, RingIdx;
    var c := MAX_DESC_CNT - size;
    var t := Overfill(size, s0, MAX_DESC_CNT);
    AvailPastFull(size, c, c + MAX_DESC_CNT);
    AvailPastFull(size, c, c + MAX_DESC_CNT + 1);
    var other := Packet(1, false, [1]);
    s := Post(size, t, c, c + MAX_DESC_CNT, other);
    RingIdxOfIdx(c + MAX_DESC_CNT);
  }

  /** Of the sizes that bnx2_set_ringparam accepts, exactly the default one is
      respected over every run, bounds the descriptors in flight by the slots, and
      keeps the packets in flight from being overwritten. */
  lemma RespectedIffDefault(size: nat)
    requires MAX_SKB_FRAGS < size <= MAX_DESC_CNT
    ensures RespectsRingSize(size) <==> size == MAX_DESC_CNT
    ensures RespectsSlots(size) <==> size == MAX_DESC_CNT
    ensures KeepsPackets(size) <==> size == MAX_DESC_CNT
  {
    hide Reachable, Avail, Idx, Slots, ConsCount, Whole;
    if size == MAX_DESC_CNT {
      forall s | Reachable(size, s) && s.published <= |s.posted| ensures Total(s.posted) - ConsCount(s) <= size {
        NeverOverfull(s);
        ConsCountIs(s);
      }
      forall s | Reachable(size, s) ensures Slots(s.slots, s.posted, Whole(s.tpc, s.released)) {
        PacketsKept(s);
      }
    } else {
      var s := Overwrites(size, InitialState());
      PacketLost(s);
    }
  }

  lemma ConsCountIs(s: State)
    requires s.published <= |s.posted|
    ensures ConsCount(s) == Off(s.posted, s.published)
  {
  }

  lemma PacketsKept(s: State)
    requires Reachable(MAX_DESC_CNT, s)
    ensures Slots(s.slots, s.posted, Whole(s.tpc, s.released))
  {
    hide Reachable, Slots;
    ReachableInv(s);
  }

  lemma PacketLost(s: State)
    requires s.tpc.TIdle? && s.released < |s.posted|
    requires s.slots[Slot(Off(s.posted, s.released))].skb != Some(s.posted[s.released].skb)
    ensures !Slots(s.slots, s.posted, Whole(s.tpc, s.released))
  {
    hide Off, Slot;
  }

  function InitialState(): (s: State)
    ensures Init(s)
  {
    State(seq(DESC_CNT, _ => EMPTY_BD), 0, 0, 0, false, 0, 0, XIdle, TIdle,
          multiset{}, multiset{}, [], [], 0, 0, 0, 0)
  }
}
