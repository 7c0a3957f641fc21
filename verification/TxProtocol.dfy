/** The bnx2 transmit path under every interleaving.

    bnx2_start_xmit runs under the queue lock; bnx2_tx_int runs beside it and
    takes the lock only to wake the queue; the device completes descriptors at
    any moment. Each step below performs at most one access to memory that
    another party writes, and memory is sequentially consistent (the source has
    smp_mb where its hardware is not). */
module TxProtocol {
  import opened RingIndex
  import opened TxIndex
  import opened TxPackets
  import opened Wrappers

  /** Program points of bnx2_start_xmit, with its locals. */
  datatype XmitPc =
    | XIdle
    | XEnter(pkt: Packet)                               // lock held, about to test tx_avail
    | XFull(pkt: Packet)                                // "ring full when queue awake": about to stop
    | XMap(pkt: Packet, i: nat, prod: U16)              // about to map part i into the slot of prod
    | XUndo(pkt: Packet, n: nat, i: nat, prod: U16)     // mapping part n failed, parts [0, i) unmapped
    | XDoorbell(pkt: Packet, prod: U16)                 // about to tell the device
    | XPublish(prod: U16)                               // about to store tx_prod
    | XCheck                                            // about to test tx_avail <= MAX_SKB_FRAGS
    | XStop
    | XRecheck
    | XWake
    | XUnlock

  /** Program points of bnx2_tx_int, with its locals. */
  datatype TxIntPc =
    | TIdle
    | TLoop(budget: nat, done: nat, hw: U16, sw: U16)
    | TFrag(budget: nat, done: nat, hw: U16, sw: U16, skb: int, last: nat, i: nat)  // head and i fragments unmapped
    | TFault                                            // NULL skb dereferenced
    | TPublishHw(hw: U16, sw: U16)
    | TPublish(sw: U16)
    | TCheckStopped
    | TCheckAvail
    | TLock
    | TRecheckStopped
    | TRecheckAvail
    | TWake
    | TUnlock

  datatype State = State(
    // shared memory
    slots: TxBufRing,
    txProd: U16,
    txCons: U16,
    hwTxCons: U16,
    stopped: bool,
    hw: U16,                 // the consumer index in the status block
    doorbell: U16,           // the producer index given to the device
    // control
    xpc: XmitPc,
    tpc: TxIntPc,
    // what the kernel sees
    live: multiset<int>,     // DMA mappings in force
    skbs: multiset<int>,     // socket buffers the driver owns
    log: seq<Event>,         // what bnx2_tx_int has released
    // history
    posted: seq<Packet>,     // packets given to the device
    completed: nat,          // descriptors the device has completed
    seen: nat,               // of these, how many bnx2_tx_int has read of
    released: nat,           // packets bnx2_tx_int has released
    published: nat           // packets that tx_cons accounts for
  )

  ghost predicate Init(s: State) {
    && s.txProd == s.txCons == s.hwTxCons == s.hw == s.doorbell == 0
    && !s.stopped && s.xpc == XIdle && s.tpc == TIdle
    && s.live == multiset{} && s.skbs == multiset{} && s.log == [] && s.posted == []
    && s.completed == s.seen == s.released == s.published == 0
    && forall x :: 0 <= x < DESC_CNT ==> s.slots[x].skb == None
  }

  predicate TxIntHasLock(s: State) {
    s.tpc.TRecheckStopped? || s.tpc.TRecheckAvail? || s.tpc.TWake? || s.tpc.TUnlock?
  }

  /** tx_wake_thresh. */
  function WakeThresh(size: nat): nat {
    size / 2
  }

  /** The stack calls bnx2_start_xmit with the lock held and the queue awake. */
  predicate XmitEnabled(s: State, pkt: Packet) {
    s.xpc.XIdle? ==> !s.stopped && !TxIntHasLock(s) && WellFormed(pkt)
  }

  /** One step of bnx2_start_xmit; `mapped` is the outcome of a DMA mapping. */
  function XmitStep(size: nat, s: State, pkt: Packet, mapped: bool): State {
    match s.xpc
    case XIdle =>
      s.(xpc := XEnter(pkt), skbs := s.skbs + multiset{pkt.skb})
    case XEnter(p) =>
      if Avail(size, s.txProd, s.txCons) < |p.maps| then s.(xpc := XFull(p))
      else s.(xpc := XMap(p, 0, s.txProd))
    case XFull(p) =>
      s.(stopped := true, skbs := s.skbs - multiset{p.skb}, xpc := XUnlock)
    case XMap(p, i, prod) =>
      if i >= |p.maps| then s.(xpc := XDoorbell(p, prod))
      else if mapped then
        var bd := if i == 0 then SwTxBd(Some(p.skb), p.maps[0], p.isGso, |p.maps| - 1)
                  else s.slots[RingIdx(prod)].(mapping := p.maps[i]);
        s.(slots := s.slots[RingIdx(prod) := bd],
           live := s.live + multiset{p.maps[i]},
           xpc := XMap(p, i + 1, NextBd(prod)))
      else if i == 0 then s.(skbs := s.skbs - multiset{p.skb}, xpc := XUnlock)
      else s.(xpc := XUndo(p, i, 0, s.txProd))
    case XUndo(p, n, i, prod) =>
      if i < n then
        var bd := s.slots[RingIdx(prod)];
        s.(slots := s.slots[RingIdx(prod) := if i == 0 then bd.(skb := None) else bd],
           live := s.live - multiset{bd.mapping},
           xpc := XUndo(p, n, i + 1, NextBd(prod)))
      else s.(skbs := s.skbs - multiset{p.skb}, xpc := XUnlock)
    case XDoorbell(p, prod) =>
      s.(doorbell := prod, posted := s.posted + [p], xpc := XPublish(prod))
    case XPublish(prod) =>
      s.(txProd := prod, xpc := XCheck)
    case XCheck =>
      s.(xpc := if Avail(size, s.txProd, s.txCons) <= MAX_SKB_FRAGS then XStop else XUnlock)
    case XStop =>
      s.(stopped := true, xpc := XRecheck)
    case XRecheck =>
      s.(xpc := if Avail(size, s.txProd, s.txCons) > WakeThresh(size) then XWake else XUnlock)
    case XWake =>
      s.(stopped := false, xpc := XUnlock)
    case XUnlock =>
      s.(xpc := XIdle)
  }

  predicate TxIntEnabled(s: State) {
    s.tpc.TLock? ==> s.xpc.XIdle?
  }

  /** One step of bnx2_tx_int; `budget` matters when it starts. */
  function TxIntStep(size: nat, s: State, budget: nat): State {
    match s.tpc
    case TIdle =>
      s.(tpc := TLoop(budget, 0, Normalize(s.hw), s.txCons), seen := s.completed)
    case TLoop(b, done, hw, sw) =>
      var bd := s.slots[RingIdx(sw)];
      if sw == hw || (bd.isGso && NotYetPassed(sw, bd.nrFrags, hw)) then s.(tpc := TPublishHw(hw, sw))
      else if bd.skb == None then s.(tpc := TFault)
      else s.(slots := s.slots[RingIdx(sw) := bd.(skb := None)],
              live := s.live - multiset{bd.mapping},
              log := s.log + [Unmap(bd.mapping)],
              tpc := TFrag(b, done, hw, sw, bd.skb.value, bd.nrFrags, 0))
    case TFrag(b, done, hw, sw, skb, last, i) =>
      if i < last then
        var m := s.slots[RingIdx(NextBd(sw))].mapping;
        s.(live := s.live - multiset{m},
           log := s.log + [Unmap(m)],
           tpc := TFrag(b, done, hw, NextBd(sw), skb, last, i + 1))
      else
        var t := s.(skbs := s.skbs - multiset{skb}, log := s.log + [Free(skb)], released := s.released + 1);
        if done + 1 == b then t.(tpc := TPublishHw(hw, NextBd(sw)))
        else if hw == NextBd(sw) then
          t.(tpc := TLoop(b, done + 1, Normalize(s.hw), NextBd(sw)), seen := s.completed)
        else t.(tpc := TLoop(b, done + 1, hw, NextBd(sw)))
    case TFault => s
    case TPublishHw(hw, sw) =>
      s.(hwTxCons := hw, tpc := TPublish(sw))
    case TPublish(sw) =>
      s.(txCons := sw, published := s.released, tpc := TCheckStopped)
    case TCheckStopped =>
      s.(tpc := if s.stopped then TCheckAvail else TIdle)
    case TCheckAvail =>
      s.(tpc := if Avail(size, s.txProd, s.txCons) > WakeThresh(size) then TLock else TIdle)
    case TLock =>
      s.(tpc := TRecheckStopped)
    case TRecheckStopped =>
      s.(tpc := if s.stopped then TRecheckAvail else TUnlock)
    case TRecheckAvail =>
      s.(tpc := if Avail(size, s.txProd, s.txCons) > WakeThresh(size) then TWake else TUnlock)
    case TWake =>
      s.(stopped := false, tpc := TUnlock)
    case TUnlock =>
      s.(tpc := TIdle)
  }

  /** The device completes descriptors it was given, in order; its index may rest
      on the link slot. */
  ghost predicate DeviceStep(s: State, s': State) {
    && s.completed <= s'.completed
    && RestsLegally(s.posted, s'.completed)
    && Behind(s'.hw, s'.completed)
    && s' == s.(completed := s'.completed, hw := s'.hw)
  }

  ghost predicate Next(size: nat, s: State, s': State) {
    || (exists pkt, mapped :: XmitEnabled(s, pkt) && s' == XmitStep(size, s, pkt, mapped))
    || (exists budget :: TxIntEnabled(s) && s' == TxIntStep(size, s, budget))
    || DeviceStep(s, s')
  }

  ghost predicate IsRun(size: nat, run: seq<State>) {
    && |run| > 0
    && Init(run[0])
    && forall i :: 0 < i < |run| ==> Next(size, run[i - 1], run[i])
  }

  // ----- The inductive invariant, for the default ring size -----

  /** Descriptors that tx_cons, and tx_prod, account for. */
  function ConsCount(s: State): nat
    requires s.published <= |s.posted|
  {
    Off(s.posted, s.published)
  }

  function ProdCount(s: State): nat {
    if s.xpc.XPublish? && |s.posted| > 0 then Off(s.posted, |s.posted| - 1) else Total(s.posted)
  }

  /** The driver's view of the free space when the counts are c and p. */
  function Space(c: nat, p: nat): nat {
    Avail(MAX_DESC_CNT, Idx(p), Idx(c))
  }

  ghost predicate Counts(s: State) {
    && s.published <= s.released <= Whole(s.tpc, s.released) <= |s.posted|
    && Off(s.posted, s.released) <= s.seen <= s.completed <= Total(s.posted) <= ConsCount(s) + MAX_DESC_CNT
    && ConsCount(s) <= Off(s.posted, s.released)
    && RestsLegally(s.posted, s.completed) && RestsLegally(s.posted, s.seen)
    && (s.xpc.XPublish? ==> |s.posted| > 0)
    && s.txProd == Idx(ProdCount(s))
    && s.txCons == Idx(ConsCount(s))
    && Normalize(s.hw) == Idx(s.completed)
    && s.doorbell == Idx(Total(s.posted))
  }

  /** Packets from this number on are untouched by bnx2_tx_int. */
  function Whole(t: TxIntPc, released: nat): nat {
    if t.TFrag? then released + 1 else released
  }

  /** A packet that is being posted behind `total` descriptors fits. */
  ghost predicate Fits(p: Packet, c: nat, total: nat) {
    WellFormed(p) && total + |p.maps| <= c + MAX_DESC_CNT
  }

  ghost predicate XmitOk(x: XmitPc, slots: TxBufRing, c: nat, total: nat, stopped: bool) {
    var roomy := !stopped && Space(c, total) > MAX_SKB_FRAGS;
    match x
    case XIdle => stopped || roomy
    case XEnter(p) => WellFormed(p) && roomy
    case XFull(_) => false
    case XMap(p, i, prod) =>
      && Fits(p, c, total) && roomy && i <= |p.maps| && prod == Idx(total + i)
      && MapsInSlots(slots, total, p, i) && (i > 0 ==> HeadInSlot(slots, total, p))
    case XUndo(p, n, i, prod) =>
      Fits(p, c, total) && roomy && i <= n < |p.maps| && prod == Idx(total + i) && MapsInSlots(slots, total, p, n)
    case XDoorbell(p, prod) =>
      Fits(p, c, total) && !stopped && prod == Idx(total + |p.maps|) && InSlots(slots, total, p)
    case XPublish(prod) => !stopped && prod == Idx(total)
    case XCheck => !stopped
    case XStop => !stopped
    case XRecheck => stopped
    case XWake => stopped && Space(c, total) > WakeThresh(MAX_DESC_CNT)
    case XUnlock => stopped || roomy
  }

  /** `at` is where packet number `released` begins. */
  ghost predicate TxIntOk(t: TxIntPc, slots: TxBufRing, ps: seq<Packet>, released: nat, at: nat, seen: nat) {
    match t
    case TLoop(_, _, hw, sw) => hw == Idx(seen) && sw == Idx(at)
    case TFrag(_, _, hw, sw, skb, last, i) =>
      && hw == Idx(seen) && released < |ps| && i <= last && sw == Idx(at + i)
      && var p := ps[released];
         && at + |p.maps| <= seen && skb == p.skb && last == |p.maps| - 1
         && MapsInSlots(slots, at, p, |p.maps|)
    case TFault => false
    case TPublishHw(_, sw) => sw == Idx(at)
    case TPublish(sw) => sw == Idx(at)
    case _ => true
  }

  predicate Reclaiming(t: TxIntPc) {
    t.TLoop? || t.TFrag? || t.TPublishHw? || t.TPublish?
  }

  /** What bnx2_tx_int relies on in its wake check; p is what tx_prod accounts for. */
  ghost predicate WakeCheckOk(t: TxIntPc, x: XmitPc, stopped: bool, c: nat, p: nat) {
    && (t.TRecheckStopped? || t.TRecheckAvail? || t.TWake? || t.TUnlock? ==> x.XIdle?)
    && (t.TCheckAvail? ==> c <= p)
    && (t.TRecheckAvail? || t.TWake? ==> stopped)
    && (t.TWake? ==> Space(c, p) > WakeThresh(MAX_DESC_CNT))
  }

  /** The DMA mappings, the buffers and the releases that bnx2_start_xmit and
      bnx2_tx_int are in the middle of. */
  ghost function XmitMaps(x: XmitPc): multiset<int> {
    match x
    case XMap(p, i, _) => if i <= |p.maps| then multiset(p.maps[..i]) else multiset{}
    case XUndo(p, n, i, _) => if i <= n <= |p.maps| then multiset(p.maps[i..n]) else multiset{}
    case XDoorbell(p, _) => multiset(p.maps)
    case _ => multiset{}
  }

  ghost function XmitSkbs(x: XmitPc): multiset<int> {
    match x
    case XEnter(p) => multiset{p.skb}
    case XFull(p) => multiset{p.skb}
    case XMap(p, _, _) => multiset{p.skb}
    case XUndo(p, _, _, _) => multiset{p.skb}
    case XDoorbell(p, _) => multiset{p.skb}
    case _ => multiset{}
  }

  ghost function TxIntMaps(t: TxIntPc, ps: seq<Packet>, released: nat): multiset<int> {
    if t.TFrag? && released < |ps| && t.i < |ps[released].maps|
    then multiset(ps[released].maps[t.i + 1..]) else multiset{}
  }

  function PartialRelease(t: TxIntPc, ps: seq<Packet>, released: nat): seq<Event> {
    if t.TFrag? && released < |ps| && t.i < |ps[released].maps|
    then Unmaps(ps[released].maps[..t.i + 1]) else []
  }

  /** xMaps and xSkbs are what bnx2_start_xmit holds. */
  ghost predicate Owned(live: multiset<int>, skbs: multiset<int>, log: seq<Event>, ps: seq<Packet>, t: TxIntPc,
                        released: nat, xMaps: multiset<int>, xSkbs: multiset<int>)
    requires Whole(t, released) <= |ps|
  {
    && live == MapsFrom(ps, Whole(t, released)) + TxIntMaps(t, ps, released) + xMaps
    && skbs == SkbsFrom(ps, released) + xSkbs
    && log == Releases(ps, released) + PartialRelease(t, ps, released)
  }

  /** No wake-up is lost: a queue that should be awake is about to be woken. */
  ghost predicate WakePending(x: XmitPc, t: TxIntPc, stopped: bool, c: nat, total: nat) {
    stopped && Space(c, total) > WakeThresh(MAX_DESC_CNT) ==>
      || x.XRecheck? || x.XWake?
      || t.TCheckStopped? || t.TCheckAvail? || t.TLock? || t.TRecheckStopped? || t.TRecheckAvail? || t.TWake?
  }

  ghost predicate Inv(s: State) {
    && Counts(s)
    && Slots(s.slots, s.posted, Whole(s.tpc, s.released))
    && XmitOk(s.xpc, s.slots, ConsCount(s), Total(s.posted), s.stopped)
    && TxIntOk(s.tpc, s.slots, s.posted, s.released, Off(s.posted, s.released), s.seen)
    && WakeCheckOk(s.tpc, s.xpc, s.stopped, ConsCount(s), ProdCount(s))
    && (!Reclaiming(s.tpc) ==> s.published == s.released)
    && Owned(s.live, s.skbs, s.log, s.posted, s.tpc, s.released, XmitMaps(s.xpc), XmitSkbs(s.xpc))
    && WakePending(s.xpc, s.tpc, s.stopped, ConsCount(s), Total(s.posted))
  }

  lemma InitInv(s: State)
    requires Init(s)
    ensures Inv(s)
  {
  }

  lemma DeviceKeepsInv(s: State, s': State)
    requires Inv(s) && DeviceStep(s, s')
    ensures Inv(s')
  {
    hide XmitOk, TxIntOk, WakeCheckOk, WakePending, Slots, Space, Idx, Normalize, Behind, Off, MapsFrom, SkbsFrom,
      Releases;
    NormalizeIs(s'.hw, s'.completed);
  }

  // ----- Steps of bnx2_start_xmit -----

  lemma XmitEnterKeepsInv(s: State, pkt: Packet, mapped: bool)
    requires Inv(s) && XmitEnabled(s, pkt) && (s.xpc.XIdle? || s.xpc.XEnter?)
    ensures Inv(XmitStep(MAX_DESC_CNT, s, pkt, mapped))
  {
    hide TxIntOk, Slots, Avail, Idx, Normalize, Off, MapsFrom, SkbsFrom, Releases, HeadInSlot, RestsLegally,
      TxIntMaps,
      PartialRelease;
    AvailSound(ConsCount(s), Total(s.posted));
  }

  lemma XmitPublishKeepsInv(s: State, pkt: Packet, mapped: bool)
    requires Inv(s) && (s.xpc.XPublish? || s.xpc.XCheck? || s.xpc.XStop?)
    ensures Inv(XmitStep(MAX_DESC_CNT, s, pkt, mapped))
  {
    hide TxIntOk, Slots, Avail, Idx, Normalize, Off, Owned, MapsInSlots, HeadInSlot, RestsLegally;
    OffMonotone(s.posted, s.published, s.released);
  }

  lemma XmitLeaveKeepsInv(s: State, pkt: Packet, mapped: bool)
    requires Inv(s) && (s.xpc.XRecheck? || s.xpc.XWake? || s.xpc.XUnlock?)
    ensures Inv(XmitStep(MAX_DESC_CNT, s, pkt, mapped))
  {
    hide TxIntOk, Slots, Avail, Idx, Normalize, Off, Owned, MapsInSlots, HeadInSlot, RestsLegally;
  }

  /** A slot that bnx2_start_xmit writes is one that nobody else relies on. */
  lemma ProducerSlotFrame(s: State, n: nat, bd: SwTxBd)
    requires Inv(s) && Total(s.posted) <= n < ConsCount(s) + MAX_DESC_CNT
    ensures Slots(s.slots[Slot(n) := bd], s.posted, Whole(s.tpc, s.released))
    ensures TxIntOk(s.tpc, s.slots[Slot(n) := bd], s.posted, s.released, Off(s.posted, s.released), s.seen)
  {
    hide Slots, Idx, Normalize, Off, Owned, RestsLegally, WakeCheckOk, WakePending, XmitOk, MapsInSlots;
    OffMonotone(s.posted, s.released, Whole(s.tpc, s.released));
    SlotsFrame(s.slots, s.posted, Whole(s.tpc, s.released), n, bd);
    if s.tpc.TFrag? {
      var p := s.posted[s.released];
      MapsInSlotsFrame(s.slots, Off(s.posted, s.released), p, |p.maps|, n, bd);
    }
  }

  lemma MapPart(slots: TxBufRing, c: nat, total: nat, p: Packet, i: nat, prod: U16, bd: SwTxBd)
    requires XmitOk(XMap(p, i, prod), slots, c, total, false) && i < |p.maps|
    requires bd.mapping == p.maps[i]
    requires i == 0 ==> bd == SwTxBd(Some(p.skb), p.maps[0], p.isGso, |p.maps| - 1)
    ensures RingIdx(prod) == Slot(total + i)
    ensures XmitOk(XMap(p, i + 1, NextBd(prod)), slots[Slot(total + i) := bd], c, total, false)
    ensures XmitMaps(XMap(p, i + 1, NextBd(prod))) == XmitMaps(XMap(p, i, prod)) + multiset{p.maps[i]}
  {
    hide Idx, NextBd, RingIdx, Space;
    NextIdx(total + i);
    RingIdxOfIdx(total + i);
    MapsInSlotsFrame(slots, total, p, i, total + i, bd);
    if i > 0 { SlotsDiffer(total, total + i); }
    assert p.maps[..i + 1] == p.maps[..i] + [p.maps[i]];
  }

  /** What holds while a packet is being posted. */
  lemma WhilePosting(s: State)
    requires Inv(s) && (s.xpc.XMap? || s.xpc.XUndo? || s.xpc.XDoorbell?)
    ensures Fits(s.xpc.pkt, ConsCount(s), Total(s.posted)) && !s.stopped
    ensures s.xpc.XMap? ==> s.xpc.i <= |s.xpc.pkt.maps|
    ensures s.xpc.XUndo? ==> s.xpc.n < |s.xpc.pkt.maps|
    ensures s.xpc.XDoorbell? ==> InSlots(s.slots, Total(s.posted), s.xpc.pkt)
  {
    hide TxIntOk, Slots, Space, Idx, Normalize, Off, MapsInSlots, HeadInSlot, RestsLegally, Owned;
  }

  lemma XmitMapKeepsInv(s: State, pkt: Packet)
    requires Inv(s) && s.xpc.XMap? && s.xpc.i < |s.xpc.pkt.maps|
    ensures Inv(XmitStep(MAX_DESC_CNT, s, pkt, true))
  {
    hide XmitOk, TxIntOk, Slots, Idx, Normalize, Off, MapsFrom, SkbsFrom, Releases, RestsLegally, NextBd, RingIdx,
      XmitMaps, TxIntMaps, PartialRelease, Space;
    WhilePosting(s);
    var XMap(p, i, prod) := s.xpc;
    var s' := XmitStep(MAX_DESC_CNT, s, pkt, true);
    MapPart(s.slots, ConsCount(s), Total(s.posted), p, i, prod, s'.slots[RingIdx(prod)]);
    ProducerSlotFrame(s, Total(s.posted) + i, s'.slots[RingIdx(prod)]);
  }

  lemma FitsHasParts(p: Packet, c: nat, total: nat)
    requires Fits(p, c, total)
    ensures WellFormed(p) && |p.maps| > 0
  {
  }

  lemma XmitMappedKeepsInv(s: State, pkt: Packet, mapped: bool)
    requires Inv(s) && s.xpc.XMap? && s.xpc.i >= |s.xpc.pkt.maps|
    ensures Inv(XmitStep(MAX_DESC_CNT, s, pkt, mapped))
  {
    hide TxIntOk, Slots, Space, Idx, Normalize, Off, MapsFrom, SkbsFrom, Releases, RestsLegally, NextBd, RingIdx,
      TxIntMaps, PartialRelease, Fits, WellFormed;
    WhilePosting(s);
    FitsHasParts(s.xpc.pkt, ConsCount(s), Total(s.posted));
    var XMap(p, i, prod) := s.xpc;
    assert p.maps[..|p.maps|] == p.maps;
  }

  lemma XmitMapFailsKeepsInv(s: State, pkt: Packet)
    requires Inv(s) && s.xpc.XMap? && s.xpc.i < |s.xpc.pkt.maps|
    ensures Inv(XmitStep(MAX_DESC_CNT, s, pkt, false))
  {
    hide TxIntOk, Slots, Space, Idx, Normalize, Off, MapsFrom, SkbsFrom, Releases, RestsLegally, NextBd, RingIdx,
      TxIntMaps, PartialRelease, HeadInSlot, MapsInSlots, Fits;
    WhilePosting(s);
    var XMap(p, i, prod) := s.xpc;
    assert p.maps[..i] == p.maps[0..i];
  }

  lemma UndoPart(slots: TxBufRing, c: nat, total: nat, p: Packet, n: nat, i: nat, prod: U16, bd: SwTxBd)
    requires XmitOk(XUndo(p, n, i, prod), slots, c, total, false) && i < n
    requires bd.mapping == slots[RingIdx(prod)].mapping
    ensures RingIdx(prod) == Slot(total + i) && bd.mapping == p.maps[i]
    ensures XmitOk(XUndo(p, n, i + 1, NextBd(prod)), slots[Slot(total + i) := bd], c, total, false)
    ensures XmitMaps(XUndo(p, n, i, prod)) == XmitMaps(XUndo(p, n, i + 1, NextBd(prod))) + multiset{p.maps[i]}
  {
    hide Idx, NextBd, RingIdx, Space;
    NextIdx(total + i);
    RingIdxOfIdx(total + i);
    assert p.maps[i..n] == [p.maps[i]] + p.maps[i + 1..n];
  }

  lemma XmitUndoKeepsInv(s: State, pkt: Packet, mapped: bool)
    requires Inv(s) && s.xpc.XUndo? && s.xpc.i < s.xpc.n
    ensures Inv(XmitStep(MAX_DESC_CNT, s, pkt, mapped))
  {
    hide XmitOk, TxIntOk, Slots, Idx, Normalize, Off, MapsFrom, SkbsFrom, Releases, RestsLegally, NextBd, RingIdx,
      TxIntMaps, PartialRelease, XmitMaps, Space;
    WhilePosting(s);
    var XUndo(p, n, i, prod) := s.xpc;
    var s' := XmitStep(MAX_DESC_CNT, s, pkt, mapped);
    UndoPart(s.slots, ConsCount(s), Total(s.posted), p, n, i, prod, s'.slots[RingIdx(prod)]);
    ProducerSlotFrame(s, Total(s.posted) + i, s'.slots[RingIdx(prod)]);
  }

  lemma XmitUndoneKeepsInv(s: State, pkt: Packet, mapped: bool)
    requires Inv(s) && s.xpc.XUndo? && s.xpc.i >= s.xpc.n
    ensures Inv(XmitStep(MAX_DESC_CNT, s, pkt, mapped))
  {
    hide TxIntOk, Slots, Space, Idx, Normalize, Off, MapsFrom, SkbsFrom, Releases, RestsLegally, NextBd, RingIdx;
  }

  lemma MoveTerm(a: multiset<int>, b: multiset<int>, c: multiset<int>)
    ensures a + b + c == a + c + b + multiset{}
  {
  }

  lemma InProgressAppend(ps: seq<Packet>, p: Packet, t: TxIntPc, released: nat)
    requires Whole(t, released) <= |ps|
    ensures TxIntMaps(t, ps + [p], released) == TxIntMaps(t, ps, released)
    ensures PartialRelease(t, ps + [p], released) == PartialRelease(t, ps, released)
  {
    hide Unmaps;
  }

  lemma OwnedAppend(live: multiset<int>, skbs: multiset<int>, log: seq<Event>, ps: seq<Packet>, t: TxIntPc,
                    released: nat, p: Packet)
    requires released <= Whole(t, released) <= |ps|
    requires Owned(live, skbs, log, ps, t, released, multiset(p.maps), multiset{p.skb})
    ensures Owned(live, skbs, log, ps + [p], t, released, multiset{}, multiset{})
  {
    hide MapsFrom, SkbsFrom, Releases, PartialRelease, TxIntMaps, Whole;
    InProgressAppend(ps, p, t, released);
    FromAppend(ps, p, released);
    FromAppend(ps, p, Whole(t, released));
    ReleasesAppend(ps, p, released);
    MoveTerm(MapsFrom(ps, Whole(t, released)), TxIntMaps(t, ps, released), multiset(p.maps));
  }

  lemma XmitDoorbellKeepsInv(s: State, pkt: Packet, mapped: bool)
    requires Inv(s) && s.xpc.XDoorbell?
    ensures Inv(XmitStep(MAX_DESC_CNT, s, pkt, mapped))
  {
    hide Idx, Normalize, Off, MapsInSlots, RestsLegally, Space, WellFormed, Slots, InSlots, Owned;
    WhilePosting(s);
    var XDoorbell(p, prod) := s.xpc;
    TotalAppend(s.posted, p);
    SlotsAppend(s.slots, s.posted, Whole(s.tpc, s.released), p);
    RestsLegallyAppend(s.posted, p, s.completed);
    RestsLegallyAppend(s.posted, p, s.seen);
    OwnedAppend(s.live, s.skbs, s.log, s.posted, s.tpc, s.released, p);
  }

  lemma XmitKeepsInv(s: State, pkt: Packet, mapped: bool)
    requires Inv(s) && XmitEnabled(s, pkt)
    ensures Inv(XmitStep(MAX_DESC_CNT, s, pkt, mapped))
  {
    hide Inv, XmitStep, WellFormed;
    match s.xpc
    case XIdle => XmitEnterKeepsInv(s, pkt, mapped);
    case XEnter(_) => XmitEnterKeepsInv(s, pkt, mapped);
    case XFull(_) => XmitNeverFull(s);
    case XMap(p, i, _) =>
      if i >= |p.maps| { XmitMappedKeepsInv(s, pkt, mapped); }
      else if mapped { XmitMapKeepsInv(s, pkt); }
      else { XmitMapFailsKeepsInv(s, pkt); }
    case XUndo(_, n, i, _) =>
      if i < n { XmitUndoKeepsInv(s, pkt, mapped); } else { XmitUndoneKeepsInv(s, pkt, mapped); }
    case XDoorbell(_, _) => XmitDoorbellKeepsInv(s, pkt, mapped);
    case XPublish(_) => XmitPublishKeepsInv(s, pkt, mapped);
    case XCheck => XmitPublishKeepsInv(s, pkt, mapped);
    case XStop => XmitPublishKeepsInv(s, pkt, mapped);
    case XRecheck => XmitLeaveKeepsInv(s, pkt, mapped);
    case XWake => XmitLeaveKeepsInv(s, pkt, mapped);
    case XUnlock => XmitLeaveKeepsInv(s, pkt, mapped);
  }

  /** "Tx ring full when queue awake" cannot happen. */
  lemma XmitNeverFull(s: State)
    requires Inv(s)
    ensures !s.xpc.XFull?
  {
  }

  // ----- Steps of bnx2_tx_int -----

  /** The packet that bnx2_tx_int looks at when its indices differ: its slots are
      intact, and the two ways of seeing that the device is past it are right. */
  lemma LoopSees(s: State)
    requires Inv(s) && s.tpc.TLoop? && s.tpc.sw != s.tpc.hw
    ensures s.released < |s.posted|
    ensures var p, at := s.posted[s.released], Off(s.posted, s.released);
            && RingIdx(s.tpc.sw) == Slot(at) && InSlots(s.slots, at, p)
            && (p.isGso && NotYetPassed(s.tpc.sw, |p.maps| - 1, s.tpc.hw) <==> s.seen < at + |p.maps|)
  {
    hide NotYetPassed, RingIdx, Idx, Normalize, Owned, WakeCheckOk, WakePending, XmitOk, Slots, Slot, RestsLegally,
      Off,
      InSlots, MapsInSlots;
    var at := Off(s.posted, s.released);
    IdxInjective(at, s.seen);
    NextToRelease(s.slots, s.posted, s.released, s.seen);
    OldestPacket(s.slots, s.posted, s.released);
    OffStep(s.posted, s.released);
  }

  lemma XmitSlotFrame(x: XmitPc, slots: TxBufRing, c: nat, total: nat, stopped: bool, at: nat, bd: SwTxBd)
    requires XmitOk(x, slots, c, total, stopped) && c <= at < total
    ensures XmitOk(x, slots[Slot(at) := bd], c, total, stopped)
  {
    hide Space, Idx, WellFormed;
    match x
    case XMap(p, i, _) => MapsInSlotsFrame(slots, total, p, i, at, bd); if i > 0 { SlotsDiffer(at, total); }
    case XUndo(p, n, _, _) => MapsInSlotsFrame(slots, total, p, n, at, bd);
    case XDoorbell(p, _) => InSlotsFrame(slots, total, p, at, bd);
    case _ =>
  }

  /** The slot that bnx2_tx_int clears is the head of the oldest packet only. */
  lemma ConsumerSlotFrame(s: State, bd: SwTxBd)
    requires Inv(s) && s.tpc.TLoop? && s.released < |s.posted|
    requires bd.mapping == s.slots[Slot(Off(s.posted, s.released))].mapping
    ensures var slots, at := s.slots[Slot(Off(s.posted, s.released)) := bd], Off(s.posted, s.released);
            && Slots(slots, s.posted, s.released + 1)
            && MapsInSlots(slots, at, s.posted[s.released], |s.posted[s.released].maps|)
            && XmitOk(s.xpc, slots, ConsCount(s), Total(s.posted), s.stopped)
  {
    hide Idx, Normalize, Owned, WakeCheckOk, WakePending, TxIntOk, XmitOk, MapsInSlots, HeadInSlot, RestsLegally, Off;
    OffStep(s.posted, s.released);
    OffMonotone(s.posted, s.released + 1, |s.posted|);
    var at, p := Off(s.posted, s.released), s.posted[s.released];
    assert InSlots(s.slots, at, p);
    MapsInSlotsSameMapping(s.slots, at, p, |p.maps|, bd);
    SlotsFrame(s.slots, s.posted, s.released + 1, at, bd);
    XmitSlotFrame(s.xpc, s.slots, ConsCount(s), Total(s.posted), s.stopped, at, bd);
  }

  /** Unmapping part i of the oldest packet, where t is at part i - 1 or at the
      top of the loop, and t' is at part i. */
  predicate UnmapsPart(ps: seq<Packet>, released: nat, t: TxIntPc, t': TxIntPc) {
    && released < |ps| && t'.TFrag? && t'.i < |ps[released].maps|
    && if t.TFrag? then t.i + 1 == t'.i else t'.i == 0
  }

  lemma InProgressMaps(ps: seq<Packet>, released: nat, t: TxIntPc, t': TxIntPc)
    requires UnmapsPart(ps, released, t, t')
    ensures var maps := ps[released].maps;
            && TxIntMaps(t', ps, released) == Range(maps, t'.i + 1, |maps|)
            && (t.TFrag? ==> TxIntMaps(t, ps, released) == Range(maps, t'.i, |maps|))
            && (!t.TFrag? ==> MapsFrom(ps, released) == Range(maps, 0, |maps|) + MapsFrom(ps, released + 1) &&
                              TxIntMaps(t, ps, released) == multiset{})
  {
    var maps := ps[released].maps;
    assert maps[0..|maps|] == maps && maps[t'.i + 1..|maps|] == maps[t'.i + 1..] && maps[t'.i..|maps|] == maps[t'.i..];
  }

  lemma MoveHead(a: multiset<int>, b: multiset<int>, c: multiset<int>, x: int)
    requires b == multiset{x} + c
    ensures a + b == a + c + multiset{x} && b + a == a + c + multiset{x}
  {
  }

  lemma MapsUnmap(ps: seq<Packet>, released: nat, t: TxIntPc, t': TxIntPc)
    requires UnmapsPart(ps, released, t, t')
    ensures MapsFrom(ps, Whole(t, released)) + TxIntMaps(t, ps, released) ==
            MapsFrom(ps, Whole(t', released)) + TxIntMaps(t', ps, released) + multiset{ps[released].maps[t'.i]}
  {
    hide Range, TxIntMaps, MapsFrom;
    var maps, i := ps[released].maps, t'.i;
    RangeHead(maps, i, |maps|);
    InProgressMaps(ps, released, t, t');
    MoveHead(MapsFrom(ps, released + 1), Range(maps, i, |maps|), Range(maps, i + 1, |maps|), maps[i]);
  }

  lemma LogUnmap(ps: seq<Packet>, released: nat, t: TxIntPc, t': TxIntPc)
    requires UnmapsPart(ps, released, t, t')
    ensures PartialRelease(t', ps, released) == PartialRelease(t, ps, released) + [Unmap(ps[released].maps[t'.i])]
  {
    UnmapsStep(ps[released].maps, t'.i);
  }

  lemma OwnedUnmap(live: multiset<int>, skbs: multiset<int>, log: seq<Event>, ps: seq<Packet>, t: TxIntPc,
                   t': TxIntPc, released: nat, xMaps: multiset<int>, xSkbs: multiset<int>)
    requires UnmapsPart(ps, released, t, t')
    requires Owned(live, skbs, log, ps, t, released, xMaps, xSkbs)
    ensures var m := ps[released].maps[t'.i];
            m in live && Owned(live - multiset{m}, skbs, log + [Unmap(m)], ps, t', released, xMaps, xSkbs)
  {
    hide TxIntMaps, PartialRelease, SkbsFrom, Releases, MapsFrom, Unmaps;
    MapsUnmap(ps, released, t, t');
    LogUnmap(ps, released, t, t');
    RemoveOne(MapsFrom(ps, Whole(t, released)) + TxIntMaps(t, ps, released),
              MapsFrom(ps, Whole(t', released)) + TxIntMaps(t', ps, released), xMaps, ps[released].maps[t'.i]);
  }

  lemma RemoveOne(sum: multiset<int>, rest: multiset<int>, x: multiset<int>, m: int)
    requires sum == rest + multiset{m}
    ensures m in sum + x && sum + x - multiset{m} == rest + x
  {
  }

  lemma TLoopStopKeepsInv(s: State, budget: nat)
    requires Inv(s) && s.tpc.TLoop? && TxIntStep(MAX_DESC_CNT, s, budget).tpc.TPublishHw?
    ensures Inv(TxIntStep(MAX_DESC_CNT, s, budget))
  {
    hide Idx, Normalize, Off, MapsFrom, SkbsFrom, Releases, RestsLegally, Slots, XmitOk, Space, NotYetPassed,
      RingIdx, NextBd, MapsInSlots, XmitMaps, XmitSkbs, Unmaps;
  }

  /** The step that begins releasing a packet. */
  lemma TLoopStarts(s: State, budget: nat)
    requires Inv(s) && s.tpc.TLoop? && !TxIntStep(MAX_DESC_CNT, s, budget).tpc.TPublishHw?
    ensures s.released < |s.posted|
    ensures var p, at := s.posted[s.released], Off(s.posted, s.released);
            && |p.maps| > 0 && at + |p.maps| <= s.seen
            && var bd := s.slots[Slot(at)].(skb := None);
               var t := TFrag(s.tpc.budget, s.tpc.done, s.tpc.hw, s.tpc.sw, p.skb, |p.maps| - 1, 0);
               TxIntStep(MAX_DESC_CNT, s, budget) ==
               s.(slots := s.slots[Slot(at) := bd], live := s.live - multiset{p.maps[0]},
                  log := s.log + [Unmap(p.maps[0])], tpc := t)
  {
    hide Idx, Normalize, Off, Owned, RestsLegally, Slots, XmitOk, TxIntOk, Space, NotYetPassed, RingIdx, WakeCheckOk;
    LoopSees(s);
    var p := s.posted[s.released];
    assert s.slots[Slot(Off(s.posted, s.released) + 0)].mapping == p.maps[0];
  }

  lemma TLoopStartKeepsInv(s: State, budget: nat)
    requires Inv(s) && s.tpc.TLoop? && !TxIntStep(MAX_DESC_CNT, s, budget).tpc.TPublishHw?
    ensures Inv(TxIntStep(MAX_DESC_CNT, s, budget))
  {
    hide Idx, Normalize, Off, Owned, RestsLegally, Slots, XmitOk, Space, TxIntStep, MapsInSlots, XmitMaps, XmitSkbs;
    TLoopStarts(s, budget);
    var s' := TxIntStep(MAX_DESC_CNT, s, budget);
    ConsumerSlotFrame(s, s.slots[Slot(Off(s.posted, s.released))].(skb := None));
    OwnedUnmap(s.live, s.skbs, s.log, s.posted, s.tpc, s'.tpc, s.released, XmitMaps(s.xpc), XmitSkbs(s.xpc));
  }

  /** While bnx2_tx_int reclaims, its wake check is not concerned. */
  lemma WakeReclaiming(t: TxIntPc, t': TxIntPc, x: XmitPc, stopped: bool, c: nat, p: nat, total: nat)
    requires Reclaiming(t) && Reclaiming(t')
    requires WakeCheckOk(t, x, stopped, c, p) && WakePending(x, t, stopped, c, total)
    ensures WakeCheckOk(t', x, stopped, c, p) && WakePending(x, t', stopped, c, total)
  {
    hide Space;
  }

  /** The next fragment is where NEXT_TX_BD leads. */
  lemma FragNext(t: TxIntPc, slots: TxBufRing, ps: seq<Packet>, released: nat, at: nat, seen: nat)
    requires t.TFrag? && t.i < t.last && TxIntOk(t, slots, ps, released, at, seen)
    ensures var t' := t.(sw := NextBd(t.sw), i := t.i + 1);
            && TxIntOk(t', slots, ps, released, at, seen) && UnmapsPart(ps, released, t, t')
            && slots[RingIdx(NextBd(t.sw))].mapping == ps[released].maps[t'.i]
  {
    hide Idx, NextBd, RingIdx;
    NextIdx(at + t.i);
    RingIdxOfIdx(at + t.i + 1);
    assert slots[Slot(at + (t.i + 1))].mapping == ps[released].maps[t.i + 1];
  }

  lemma FragLast(t: TxIntPc, slots: TxBufRing, ps: seq<Packet>, released: nat, at: nat, seen: nat)
    requires t.TFrag? && t.i >= t.last && TxIntOk(t, slots, ps, released, at, seen)
    ensures released < |ps| && t.hw == Idx(seen) && NextBd(t.sw) == Idx(at + |ps[released].maps|)
    ensures t.skb == ps[released].skb && t.i + 1 == |ps[released].maps| && at + |ps[released].maps| <= seen
  {
    hide Idx, NextBd, MapsInSlots;
    NextIdx(at + t.i);
  }

  lemma TFragStepKeepsInv(s: State, budget: nat)
    requires Inv(s) && s.tpc.TFrag? && s.tpc.i < s.tpc.last
    ensures Inv(TxIntStep(MAX_DESC_CNT, s, budget))
  {
    hide Idx, Normalize, Off, Owned, RestsLegally, Slots, XmitOk, Space, RingIdx, NextBd, TxIntOk, WakeCheckOk,
      WakePending, XmitMaps, XmitSkbs;
    var s' := TxIntStep(MAX_DESC_CNT, s, budget);
    FragNext(s.tpc, s.slots, s.posted, s.released, Off(s.posted, s.released), s.seen);
    OwnedUnmap(s.live, s.skbs, s.log, s.posted, s.tpc, s'.tpc, s.released, XmitMaps(s.xpc), XmitSkbs(s.xpc));
    WakeReclaiming(s.tpc, s'.tpc, s.xpc, s.stopped, ConsCount(s), ProdCount(s), Total(s.posted));
  }

  /** After the last part the buffer is freed and the packet is fully released. */
  lemma OwnedFree(live: multiset<int>, skbs: multiset<int>, log: seq<Event>, ps: seq<Packet>, t: TxIntPc,
                  t': TxIntPc, released: nat, xMaps: multiset<int>, xSkbs: multiset<int>)
    requires released < |ps| && t.TFrag? && t.i + 1 == |ps[released].maps| && !t'.TFrag?
    requires Owned(live, skbs, log, ps, t, released, xMaps, xSkbs)
    ensures var skb := ps[released].skb;
            skb in skbs && Owned(live, skbs - multiset{skb}, log + [Free(skb)], ps, t', released + 1, xMaps, xSkbs)
  {
    var p := ps[released];
    assert p.maps[..t.i + 1] == p.maps;
    assert SkbsFrom(ps, released) == multiset{p.skb} + SkbsFrom(ps, released + 1);
    assert Releases(ps, released + 1) == Releases(ps, released) + Unmaps(p.maps) + [Free(p.skb)];
    hide Unmaps, MapsFrom, Releases, SkbsFrom;
  }

  lemma TFragFreeKeepsInv(s: State, budget: nat)
    requires Inv(s) && s.tpc.TFrag? && s.tpc.i >= s.tpc.last
    ensures Inv(TxIntStep(MAX_DESC_CNT, s, budget))
  {
    hide Idx, Normalize, Off, Owned, RestsLegally, Slots, XmitOk, Space, NextBd, MapsInSlots, XmitMaps, XmitSkbs,
      WakeCheckOk, WakePending;
    var s' := TxIntStep(MAX_DESC_CNT, s, budget);
    FragLast(s.tpc, s.slots, s.posted, s.released, Off(s.posted, s.released), s.seen);
    OffStep(s.posted, s.released);
    OwnedFree(s.live, s.skbs, s.log, s.posted, s.tpc, s'.tpc, s.released, XmitMaps(s.xpc), XmitSkbs(s.xpc));
    WakeReclaiming(s.tpc, s'.tpc, s.xpc, s.stopped, ConsCount(s), ProdCount(s), Total(s.posted));
  }

  lemma TIdleKeepsInv(s: State, budget: nat)
    requires Inv(s) && (s.tpc.TIdle? || s.tpc.TPublishHw?)
    ensures Inv(TxIntStep(MAX_DESC_CNT, s, budget))
  {
    hide Idx, Normalize, Off, MapsFrom, SkbsFrom, Releases, RestsLegally, Slots, XmitOk, Space, NotYetPassed,
      RingIdx, NextBd, MapsInSlots, XmitMaps, XmitSkbs, Unmaps;
  }

  lemma MoreSpace(x: XmitPc, slots: TxBufRing, c: nat, c': nat, total: nat, stopped: bool)
    requires c <= c' <= total <= c + MAX_DESC_CNT
    requires XmitOk(x, slots, c, total, stopped)
    ensures XmitOk(x, slots, c', total, stopped)
  {
    AvailMonotone(c, c', total, total);
    hide Avail, Idx, MapsInSlots, HeadInSlot, WellFormed;
  }

  lemma TPublishKeepsInv(s: State, budget: nat)
    requires Inv(s) && s.tpc.TPublish?
    ensures Inv(TxIntStep(MAX_DESC_CNT, s, budget))
  {
    hide Idx, Normalize, Off, MapsFrom, SkbsFrom, Releases, RestsLegally, Slots, XmitOk, Space, NotYetPassed,
      RingIdx, NextBd, MapsInSlots, XmitMaps, XmitSkbs, Unmaps;
    MoreSpace(s.xpc, s.slots, ConsCount(s), Off(s.posted, s.released), Total(s.posted), s.stopped);
  }

  lemma TWakeCheckKeepsInv(s: State, budget: nat)
    requires Inv(s) && TxIntEnabled(s)
    requires s.tpc.TCheckStopped? || s.tpc.TCheckAvail? || s.tpc.TLock? || s.tpc.TRecheckStopped?
    ensures Inv(TxIntStep(MAX_DESC_CNT, s, budget))
  {
    hide Idx, Normalize, Off, MapsFrom, SkbsFrom, Releases, RestsLegally, Slots, Avail, NotYetPassed,
      RingIdx, NextBd, MapsInSlots, XmitMaps, XmitSkbs, Unmaps, HeadInSlot;
  }

  lemma TWakeKeepsInv(s: State, budget: nat)
    requires Inv(s) && (s.tpc.TRecheckAvail? || s.tpc.TWake? || s.tpc.TUnlock?)
    ensures Inv(TxIntStep(MAX_DESC_CNT, s, budget))
  {
    hide Idx, Normalize, Off, MapsFrom, SkbsFrom, Releases, RestsLegally, Slots, Avail, NotYetPassed,
      RingIdx, NextBd, MapsInSlots, XmitMaps, XmitSkbs, Unmaps, HeadInSlot;
  }

  lemma TxIntKeepsInv(s: State, budget: nat)
    requires Inv(s) && TxIntEnabled(s)
    ensures Inv(TxIntStep(MAX_DESC_CNT, s, budget))
  {
    TxIntNeverFaults(s);
    hide Inv, TxIntEnabled;
    match s.tpc
    case TIdle => TIdleKeepsInv(s, budget);
    case TLoop(_, _, _, _) =>
      if TxIntStep(MAX_DESC_CNT, s, budget).tpc.TPublishHw? { TLoopStopKeepsInv(s, budget); }
      else { TLoopStartKeepsInv(s, budget); }
    case TFrag(_, _, _, _, _, last, i) =>
      if i < last { TFragStepKeepsInv(s, budget); } else { TFragFreeKeepsInv(s, budget); }
    case TFault =>
    case TPublishHw(_, _) => TIdleKeepsInv(s, budget);
    case TPublish(_) => TPublishKeepsInv(s, budget);
    case TCheckStopped => TWakeCheckKeepsInv(s, budget);
    case TCheckAvail => TWakeCheckKeepsInv(s, budget);
    case TLock => TWakeCheckKeepsInv(s, budget);
    case TRecheckStopped => TWakeCheckKeepsInv(s, budget);
    case TRecheckAvail => TWakeKeepsInv(s, budget);
    case TWake => TWakeKeepsInv(s, budget);
    case TUnlock => TWakeKeepsInv(s, budget);
  }

  /** bnx2_tx_int never meets an empty slot where a packet should begin. */
  lemma TxIntNeverFaults(s: State)
    requires Inv(s)
    ensures !s.tpc.TFault?
  {
  }
}
