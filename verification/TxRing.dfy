/** The bnx2 transmit ring as the driver's own routines work on it: arrays written
    in place, indices stepped slot by slot.

    Each routine here runs to completion; TxProtocol interleaves their steps. */
module TxRing {
  import opened RingIndex
  import opened TxIndex
  import opened TxPackets
  import opened Wrappers

  /** struct tx_bd: the bus address and the packet-boundary flags. */
  datatype TxBd = TxBd(addr: int, start: bool, end: bool)

  type TxDescRing = s: seq<TxBd> | |s| == DESC_CNT witness seq(DESC_CNT, i => TxBd(0, false, false))

  /** Descriptors from `start` on describe the first k parts of p; the last part of
      the packet is flagged when `ended`. */
  ghost predicate DescsOf(desc: TxDescRing, start: nat, p: Packet, k: nat, ended: bool)
    requires k <= |p.maps|
  {
    forall i :: 0 <= i < k ==> desc[Slot(start + i)] == TxBd(p.maps[i], i == 0, ended && i == |p.maps| - 1)
  }

  ghost predicate Descs(desc: TxDescRing, ps: seq<Packet>, from: nat) {
    forall j :: from <= j < |ps| ==> DescsOf(desc, Off(ps, j), ps[j], |ps[j].maps|, true)
  }

  lemma DescsOfFrame(desc: TxDescRing, start: nat, p: Packet, k: nat, ended: bool, n: nat, bd: TxBd)
    requires k <= |p.maps| && DescsOf(desc, start, p, k, ended) && Outside(n, start, k)
    ensures DescsOf(desc[Slot(n) := bd], start, p, k, ended)
  {
    forall i | 0 <= i < k
      ensures desc[Slot(n) := bd][Slot(start + i)] == TxBd(p.maps[i], i == 0, ended && i == |p.maps| - 1)
    {
      if n < start { SlotsDiffer(n, start + i); } else { SlotsDiffer(start + i, n); }
    }
  }

  lemma DescsFrame(desc: TxDescRing, ps: seq<Packet>, from: nat, n: nat, bd: TxBd)
    requires from <= |ps| && Descs(desc, ps, from) && Total(ps) <= n < Off(ps, from) + MAX_DESC_CNT
    ensures Descs(desc[Slot(n) := bd], ps, from)
  {
    hide Off, Total, DescsOf;
    forall j | from <= j < |ps| ensures DescsOf(desc[Slot(n) := bd], Off(ps, j), ps[j], |ps[j].maps|, true) {
      OffWithin(ps, from, j);
      DescsOfFrame(desc, Off(ps, j), ps[j], |ps[j].maps|, true, n, bd);
    }
  }

  lemma DescsLater(desc: TxDescRing, ps: seq<Packet>, from: nat)
    requires Descs(desc, ps, from)
    ensures Descs(desc, ps, from + 1)
  {
  }

  lemma DescsAppend(desc: TxDescRing, ps: seq<Packet>, from: nat, p: Packet)
    requires Descs(desc, ps, from) && DescsOf(desc, Total(ps), p, |p.maps|, true)
    ensures Descs(desc, ps + [p], from)
  {
    hide Off;
    TotalAppend(ps, p);
  }

  /** Closing the last descriptor completes the packet. */
  lemma DescsEnd(desc: TxDescRing, start: nat, p: Packet)
    requires 0 < |p.maps| <= MAX_DESC_CNT && DescsOf(desc, start, p, |p.maps|, false)
    ensures var last := Slot(start + |p.maps| - 1);
            DescsOf(desc[last := desc[last].(end := true)], start, p, |p.maps|, true)
  {
    var n := start + |p.maps| - 1;
    forall i | 0 <= i < |p.maps|
      ensures desc[Slot(n) := desc[Slot(n)].(end := true)][Slot(start + i)] ==
              TxBd(p.maps[i], i == 0, i == |p.maps| - 1)
    {
      if i < |p.maps| - 1 { SlotsDiffer(start + i, n); }
    }
  }

  /** The arrays while a packet is being written behind the posted ones: k of its
      parts are in place. */
  ghost predicate Filling(buf: TxBufRing, desc: TxDescRing, ps: seq<Packet>, released: nat, p: Packet, k: nat) {
    && released <= |ps| && WellFormed(p) && Total(ps) + |p.maps| <= Off(ps, released) + MAX_DESC_CNT
    && k <= |p.maps|
    && Slots(buf, ps, released) && Descs(desc, ps, released) && Heads(buf, ps, released, k > 0)
    && MapsInSlots(buf, Total(ps), p, k) && (k > 0 ==> HeadInSlot(buf, Total(ps), p))
    && DescsOf(desc, Total(ps), p, k, false)
  }

  lemma FillStart(buf: TxBufRing, desc: TxDescRing, ps: seq<Packet>, released: nat, p: Packet)
    requires released <= |ps| && WellFormed(p) && Total(ps) + |p.maps| <= Off(ps, released) + MAX_DESC_CNT
    requires Slots(buf, ps, released) && Descs(desc, ps, released) && Heads(buf, ps, released, false)
    ensures Filling(buf, desc, ps, released, p, 0)
  {
  }

  lemma FillPart(buf: TxBufRing, desc: TxDescRing, ps: seq<Packet>, released: nat, p: Packet, k: nat, bd: SwTxBd)
    requires Filling(buf, desc, ps, released, p, k) && k < |p.maps|
    requires bd.mapping == p.maps[k] && (k > 0 ==> bd.skb == buf[Slot(Total(ps) + k)].skb)
    requires k == 0 ==> bd == SwTxBd(Some(p.skb), p.maps[0], p.isGso, |p.maps| - 1)
    ensures var n := Slot(Total(ps) + k);
            Filling(buf[n := bd], desc[n := TxBd(p.maps[k], k == 0, false)], ps, released, p, k + 1)
  {
    hide Off, WellFormed, Heads;
    var start := Total(ps);
    if k == 0 {
      HeadsBegin(buf, ps, released, bd);
    } else {
      HeadsSame(buf, ps, released, true, Slot(start + k), bd);
    }
    WellFormedHasParts(p);
    SlotsFrame(buf, ps, released, start + k, bd);
    DescsFrame(desc, ps, released, start + k, TxBd(p.maps[k], k == 0, false));
    MapsInSlotsFrame(buf, start, p, k, start + k, bd);
    DescsOfFrame(desc, start, p, k, false, start + k, TxBd(p.maps[k], k == 0, false));
    if k > 0 { SlotsDiffer(start, start + k); }
  }

  /** A packet whose parts are all in place becomes the last posted one. */
  lemma FillDone(buf: TxBufRing, desc: TxDescRing, ps: seq<Packet>, released: nat, p: Packet)
    requires Filling(buf, desc, ps, released, p, |p.maps|)
    ensures var n := Slot(Total(ps) + |p.maps| - 1);
            && Slots(buf, ps + [p], released)
            && Descs(desc[n := desc[n].(end := true)], ps + [p], released)
            && Heads(buf, ps + [p], released, false)
  {
    hide Off, WellFormed, MapsInSlots, HeadInSlot, Heads;
    WellFormedHasParts(p);
    var n := Total(ps) + |p.maps| - 1;
    var bd := desc[Slot(n)].(end := true);
    SlotsAppend(buf, ps, released, p);
    HeadsPost(buf, ps, released, p);
    DescsFrame(desc, ps, released, n, bd);
    DescsEnd(desc, Total(ps), p);
    DescsAppend(desc[Slot(n) := bd], ps, released, p);
  }

  /** Clearing the buffer of its first slot undoes a packet of which i + 1 parts are in
      place, as far as the ring is concerned. */
  lemma UndoHead(buf: TxBufRing, desc: TxDescRing, ps: seq<Packet>, released: nat, p: Packet, i: nat)
    requires i < |p.maps| && Filling(buf, desc, ps, released, p, i + 1)
    ensures var n := Slot(Total(ps));
            var buf' := buf[n := buf[n].(skb := None)];
            && buf[n].mapping == p.maps[0] && MapsInSlots(buf', Total(ps), p, i + 1)
            && Slots(buf', ps, released) && Heads(buf', ps, released, false) && Descs(desc, ps, released)
  {
    hide Heads, Off, Descs, DescsOf, WellFormed, Total, Slots, HeadInSlot, MapsInSlots, Idx, RingIdx, Slot;
    WellFormedHasParts(p);
    RingIdxOfIdx(Total(ps));
    ReadMapping(buf, Total(ps), p, i + 1, 0);
    var bd := buf[Slot(Total(ps))].(skb := None);
    SlotsFrame(buf, ps, released, Total(ps), bd);
    MapsInSlotsSameMapping(buf, Total(ps), p, i + 1, bd);
    HeadsUndo(buf, ps, released, bd);
  }

  /** The mappings in force once k parts of a packet are mapped. */
  ghost function Mapped(live0: multiset<int>, maps: seq<int>, k: nat): multiset<int>
    requires k <= |maps|
  {
    live0 + Range(maps, 0, k)
  }

  lemma MapMore(live0: multiset<int>, maps: seq<int>, k: nat)
    requires k < |maps|
    ensures Mapped(live0, maps, k + 1) == Mapped(live0, maps, k) + multiset{maps[k]}
    ensures Mapped(live0, maps, 0) == live0
  {
    RangeExtend(maps, 0, k);
    RangeNone(maps, 0);
  }

  lemma MappedAll(live0: multiset<int>, maps: seq<int>)
    ensures Mapped(live0, maps, |maps|) == live0 + multiset(maps)
  {
    RangeAll(maps);
  }

  lemma AllUndone(live0: multiset<int>, maps: seq<int>, k: nat)
    requires 0 < k <= |maps|
    ensures Mapped(live0, maps, k) - multiset{maps[0]} - Range(maps, 1, k) == live0
  {
    hide Range;
    RangeHead(maps, 0, k);
    MinusBoth(live0, multiset{maps[0]}, Range(maps, 1, k));
  }

  lemma MinusBoth(a: multiset<int>, b: multiset<int>, c: multiset<int>)
    ensures a + (b + c) - b - c == a
  {
  }

  lemma MinusMinus(a: multiset<int>, b: multiset<int>, x: int)
    ensures a - b - multiset{x} == a - (b + multiset{x})
  {
  }

  lemma WellFormedHasParts(p: Packet)
    requires WellFormed(p)
    ensures 0 < |p.maps| <= MAX_DESC_CNT
  {
  }

  class Ring {
    const txBufRing: array<SwTxBd>
    const txDescRing: array<TxBd>
    const txRingSize: nat
    var txProd: U16
    var txCons: U16
    var hwTxCons: U16
    var stopped: bool
    /** DMA mappings in force, and the releases made by TxInt. */
    ghost var live: multiset<int>
    ghost var log: seq<Event>
    /** The packets posted so far, and how many of them TxInt has released. */
    ghost var posted: seq<Packet>
    ghost var released: nat

    /** The packets in flight are in their slots, and no other slot has a buffer. */
    ghost predicate Valid()
      reads this, txBufRing, txDescRing
    {
      && txBufRing.Length == txDescRing.Length == DESC_CNT
      && txRingSize == MAX_DESC_CNT
      && released <= |posted|
      && Total(posted) <= Off(posted, released) + MAX_DESC_CNT
      && txProd == Idx(Total(posted)) && txCons == Idx(Off(posted, released))
      && Slots(txBufRing[..], posted, released) && Heads(txBufRing[..], posted, released, false)
      && Descs(txDescRing[..], posted, released)
      && live == MapsFrom(posted, released)
      && log == Releases(posted, released)
      && (!stopped ==> Avail(txRingSize, txProd, txCons) > MAX_SKB_FRAGS)
    }

    /** bnx2_alloc_mem, bnx2_clear_ring_states and bnx2_init_tx_ring. */
    constructor ()
      ensures Valid() && posted == [] && released == 0 && !stopped
      ensures fresh(txBufRing) && fresh(txDescRing)
    {
      txBufRing := new SwTxBd[DESC_CNT](_ => EMPTY_BD);
      txDescRing := new TxBd[DESC_CNT](_ => TxBd(0, false, false));
      txRingSize := MAX_DESC_CNT;
      txProd, txCons, hwTxCons, stopped := 0, 0, 0, false;
      live, log, posted, released := multiset{}, [], [], 0;
      new;
      AvailSound(0, 0);
    }

    /** bnx2_start_xmit. `mapped` tells how many DMA mappings succeed before one
        fails. The result is true for NETDEV_TX_BUSY, which an awake queue never
        answers.

        A packet that is taken is posted whole, or, when a mapping fails, dropped
        with every mapping undone and nothing changed that the device or TxInt
        could see. */
    method StartXmit(pkt: Packet, mapped: nat) returns (busy: bool)
      requires Valid() && WellFormed(pkt)
      modifies this`txProd, this`stopped, this`live, this`posted, txBufRing, txDescRing
      ensures Valid()
      ensures busy <==> old(Avail(txRingSize, txProd, txCons)) < |pkt.maps|
      ensures !old(stopped) ==> !busy
      ensures posted == if busy || mapped < |pkt.maps| then old(posted) else old(posted) + [pkt]
      ensures stopped <==> old(stopped) || Avail(txRingSize, txProd, txCons) <= MAX_SKB_FRAGS
    {
      hide Avail, Idx, Off, MapsFrom, Releases, Slots, Descs, Heads;
      OffMonotone(posted, released, |posted|);
      AvailSound(Off(posted, released), Total(posted));
      if Avail(txRingSize, txProd, txCons) < |pkt.maps| {
        stopped := true;
        return true;
      }
      var all, prod := MapParts(pkt, mapped);
      if all {
        Publish(pkt, prod);
      }
      busy := false;
    }

    /** Maps the parts of a packet and writes their descriptors. */
    method MapParts(pkt: Packet, mapped: nat) returns (all: bool, prod: U16)
      requires txBufRing.Length == txDescRing.Length == DESC_CNT
      requires released <= |posted| && WellFormed(pkt)
      requires Total(posted) + |pkt.maps| <= Off(posted, released) + MAX_DESC_CNT
      requires Slots(txBufRing[..], posted, released) && Descs(txDescRing[..], posted, released)
      requires txProd == Idx(Total(posted)) && Heads(txBufRing[..], posted, released, false)
      modifies this`live, txBufRing, txDescRing
      ensures all <==> mapped >= |pkt.maps|
      ensures var posted' := if all then posted + [pkt] else posted;
              && Slots(txBufRing[..], posted', released) && Descs(txDescRing[..], posted', released)
              && Heads(txBufRing[..], posted', released, false)
      ensures live == if all then old(live) + multiset(pkt.maps) else old(live)
      ensures all ==> prod == Idx(Total(posted) + |pkt.maps|)
    {
      hide Idx, Off, Slots, Descs, NextBd, RingIdx, Total, Filling, WellFormed, Slot, Mapped, Heads;
      ghost var total, live0 := Total(posted), live;
      WellFormedHasParts(pkt);
      prod := txProd;
      if mapped == 0 {
        return false, prod;
      }
      var ringProd := RingIdx(prod);
      RingIdxOfIdx(total);
      FillStart(txBufRing[..], txDescRing[..], posted, released, pkt);
      MapMore(live0, pkt.maps, 0);
      MapPart(live0, pkt, 0, ringProd, SwTxBd(Some(pkt.skb), pkt.maps[0], pkt.isGso, |pkt.maps| - 1));
      var i := 0;
      while i < |pkt.maps| - 1
        invariant 0 <= i < |pkt.maps| && i < mapped
        invariant prod == Idx(total + i) && ringProd == Slot(total + i)
        invariant Filling(txBufRing[..], txDescRing[..], posted, released, pkt, i + 1)
        invariant live == Mapped(live0, pkt.maps, i + 1)
        modifies this`live, txBufRing, txDescRing
      {
        NextIdx(total + i);
        RingIdxOfIdx(total + i + 1);
        prod := NextBd(prod);
        ringProd := RingIdx(prod);
        if mapped == i + 1 {
          Unwind(live0, pkt, i);
          return false, prod;
        }
        MapPart(live0, pkt, i + 1, ringProd, txBufRing[ringProd].(mapping := pkt.maps[i + 1]));
        i := i + 1;
      }
      MappedAll(live0, pkt.maps);
      EndPacket(pkt, ringProd);
      NextIdx(total + i);
      prod := NextBd(prod);
      all := true;
    }

    /** Flags the last descriptor of a packet. */
    method EndPacket(pkt: Packet, ringProd: nat)
      requires txBufRing.Length == txDescRing.Length == DESC_CNT
      requires Filling(txBufRing[..], txDescRing[..], posted, released, pkt, |pkt.maps|) && |pkt.maps| > 0
      requires ringProd == Slot(Total(posted) + |pkt.maps| - 1)
      modifies txDescRing
      ensures Slots(txBufRing[..], posted + [pkt], released) && Descs(txDescRing[..], posted + [pkt], released)
      ensures Heads(txBufRing[..], posted + [pkt], released, false)
    {
      hide Off, Slots, Descs, Total, Filling, Slot, Heads;
      FillDone(txBufRing[..], txDescRing[..], posted, released, pkt);
      txDescRing[ringProd] := txDescRing[ringProd].(end := true);
    }

    /** Writes the software and the hardware descriptor of part k. */
    method MapPart(ghost live0: multiset<int>, pkt: Packet, k: nat, ringProd: nat, bd: SwTxBd)
      requires txBufRing.Length == txDescRing.Length == DESC_CNT
      requires Filling(txBufRing[..], txDescRing[..], posted, released, pkt, k) && k < |pkt.maps|
      requires ringProd == Slot(Total(posted) + k) && bd.mapping == pkt.maps[k]
      requires k > 0 ==> bd.skb == txBufRing[ringProd].skb
      requires k == 0 ==> bd == SwTxBd(Some(pkt.skb), pkt.maps[0], pkt.isGso, |pkt.maps| - 1)
      requires live == Mapped(live0, pkt.maps, k)
      modifies this`live, txBufRing, txDescRing
      ensures Filling(txBufRing[..], txDescRing[..], posted, released, pkt, k + 1)
      ensures live == Mapped(live0, pkt.maps, k + 1)
    {
      hide Filling, Mapped;
      FillPart(txBufRing[..], txDescRing[..], posted, released, pkt, k, bd);
      MapMore(live0, pkt.maps, k);
      live := live + multiset{pkt.maps[k]};
      txBufRing[ringProd] := bd;
      txDescRing[ringProd] := TxBd(pkt.maps[k], k == 0, false);
    }

    /** The end of bnx2_start_xmit: the packet is the device's, and the queue is
        stopped when another one of the largest size might not fit. */
    method Publish(pkt: Packet, prod: U16)
      requires txBufRing.Length == txDescRing.Length == DESC_CNT && txRingSize == MAX_DESC_CNT
      requires released <= |posted| && txCons == Idx(Off(posted, released)) && log == Releases(posted, released)
      requires Total(posted) + |pkt.maps| <= Off(posted, released) + MAX_DESC_CNT
      requires prod == Idx(Total(posted) + |pkt.maps|)
      requires Slots(txBufRing[..], posted + [pkt], released) && Descs(txDescRing[..], posted + [pkt], released)
      requires Heads(txBufRing[..], posted + [pkt], released, false)
      requires live == MapsFrom(posted, released) + multiset(pkt.maps)
      modifies this`txProd, this`stopped, this`posted
      ensures Valid() && posted == old(posted) + [pkt]
      ensures stopped <==> old(stopped) || Avail(txRingSize, txProd, txCons) <= MAX_SKB_FRAGS
    {
      hide Avail, Idx, Off, MapsFrom, Releases, Slots, Descs, Heads;
      TotalAppend(posted, pkt);
      FromAppend(posted, pkt, released);
      ReleasesAppend(posted, pkt, released);
      posted := posted + [pkt];
      txProd := prod;
      if Avail(txRingSize, txProd, txCons) <= MAX_SKB_FRAGS {
        stopped := Avail(txRingSize, txProd, txCons) <= txRingSize / 2;
      }
    }

    /** The dma_error path: mapping fragment i failed. */
    method Unwind(ghost live0: multiset<int>, pkt: Packet, i: nat)
      requires txBufRing.Length == txDescRing.Length == DESC_CNT
      requires i < |pkt.maps| && Filling(txBufRing[..], txDescRing[..], posted, released, pkt, i + 1)
      requires txProd == Idx(Total(posted)) && live == Mapped(live0, pkt.maps, i + 1)
      modifies this`live, txBufRing
      ensures Slots(txBufRing[..], posted, released) && Descs(txDescRing[..], posted, released)
      ensures Heads(txBufRing[..], posted, released, false) && live == live0
    {
      hide Heads, Off, Descs, Filling, Total, Idx, Slots, NextBd, MapsInSlots, RingIdx, Slot, Range, WellFormed, Mapped;
      ghost var total, buf := Total(posted), txBufRing[..];
      var prod := txProd;
      RingIdxOfIdx(total);
      UndoHead(buf, txDescRing[..], posted, released, pkt, i);
      var bd := txBufRing[RingIdx(prod)];
      txBufRing[RingIdx(prod)] := bd.(skb := None);
      assert txBufRing[..] == buf[Slot(total) := bd.(skb := None)];
      live := live - multiset{bd.mapping};
      UnmapFrags(pkt, i);
      AllUndone(live0, pkt.maps, i + 1);
    }

    /** Unmaps the first i fragments behind the head at tx_prod. */
    method UnmapFrags(pkt: Packet, i: nat)
      requires txBufRing.Length == DESC_CNT && i < |pkt.maps|
      requires MapsInSlots(txBufRing[..], Total(posted), pkt, i + 1) && txProd == Idx(Total(posted))
      modifies this`live
      ensures live == old(live) - Range(pkt.maps, 1, i + 1)
    {
      hide Total, Idx, NextBd, RingIdx, Slot, MapsInSlots, Range;
      ghost var total := Total(posted);
      ghost var was := live;
      RangeNone(pkt.maps, 1);
      var prod := txProd;
      var j := 0;
      while j < i
        invariant 0 <= j <= i && prod == Idx(total + j)
        invariant live == was - Range(pkt.maps, 1, j + 1)
      {
        NextIdx(total + j);
        RingIdxOfIdx(total + j + 1);
        prod := NextBd(prod);
        ReadMapping(txBufRing[..], total, pkt, i + 1, j + 1);
        RangeExtend(pkt.maps, 1, j + 1);
        MinusMinus(was, Range(pkt.maps, 1, j + 1), pkt.maps[j + 1]);
        assert txBufRing[RingIdx(prod)].mapping == pkt.maps[j + 1];
        live := live - multiset{txBufRing[RingIdx(prod)].mapping};
        j := j + 1;
      }
    }

    /** Releases the oldest packet, which begins at swCons. */
    method ReleasePacket(swCons: U16) returns (next: U16)
      requires txBufRing.Length == DESC_CNT && released < |posted|
      requires Total(posted) <= Off(posted, released) + MAX_DESC_CNT
      requires Slots(txBufRing[..], posted, released) && swCons == Idx(Off(posted, released))
      requires live == MapsFrom(posted, released) && log == Releases(posted, released)
      requires Heads(txBufRing[..], posted, released, false)
      modifies this`live, this`log, this`released, txBufRing
      ensures released == old(released) + 1 && next == Idx(Off(posted, released))
      ensures Slots(txBufRing[..], posted, released) && Heads(txBufRing[..], posted, released, false)
      ensures live == MapsFrom(posted, released) && log == Releases(posted, released)
    {
      hide Off, Slots, NextBd, Idx, RingIdx, MapsInSlots, MapsFrom, Releases, UnmapsTo, WellFormed, Slot, Range,
        HeadInSlot, Heads;
      ghost var at, p := Off(posted, released), posted[released];
      OldestPacket(txBufRing[..], posted, released);
      ReadMapping(txBufRing[..], at, p, |p.maps|, 0);
      ReleaseFrame(txBufRing[..], posted, released);
      HeadsTake(txBufRing[..], posted, released, false, txBufRing[Slot(at)].(skb := None));
      ReleaseDone(posted, released);
      var txBuf := txBufRing[RingIdx(swCons)];
      ghost var buf := txBufRing[..][Slot(at) := txBuf.(skb := None)];
      txBufRing[RingIdx(swCons)] := txBuf.(skb := None);
      assert txBufRing[..] == buf;
      next := UnmapParts(p, at, swCons, txBuf.nrFrags);
      log := log + [Free(txBuf.skb.value)];
      released := released + 1;
    }

    /** Unmaps the head at swCons and the fragments behind it. */
    method UnmapParts(ghost p: Packet, ghost at: nat, swCons: U16, last: nat) returns (next: U16)
      requires txBufRing.Length == DESC_CNT && |p.maps| == last + 1
      requires MapsInSlots(txBufRing[..], at, p, last + 1) && swCons == Idx(at)
      modifies this`live, this`log
      ensures next == Idx(at + |p.maps|)
      ensures live == LiveAt(old(live), p.maps, |p.maps|)
      ensures log == LogAt(old(log), p.maps, |p.maps|)
    {
      hide Idx, NextBd, RingIdx, MapsInSlots, LogAt, LiveAt, Slot, Unmaps, UnmapsTo, Range;
      ghost var live0, log0 := live, log;
      UnmapMore(live0, log0, p.maps, 0);
      next := swCons;
      UnmapPart(live0, log0, p, at, 0, next);
      var i := 0;
      while i < last
        invariant 0 <= i <= last && next == Idx(at + i)
        invariant log == LogAt(log0, p.maps, i + 1) && live == LiveAt(live0, p.maps, i + 1)
        modifies this`live, this`log
      {
        NextIdx(at + i);
        next := NextBd(next);
        UnmapPart(live0, log0, p, at, i + 1, next);
        i := i + 1;
      }
      NextIdx(at + i);
      next := NextBd(next);
    }

    /** Unmaps part i, whose slot is that of index x. */
    method UnmapPart(ghost live0: multiset<int>, ghost log0: seq<Event>, ghost p: Packet, ghost at: nat,
                     ghost i: nat, x: U16)
      requires txBufRing.Length == DESC_CNT && i < |p.maps|
      requires live == LiveAt(live0, p.maps, i) && log == LogAt(log0, p.maps, i)
      requires MapsInSlots(txBufRing[..], at, p, |p.maps|) && x == Idx(at + i)
      modifies this`live, this`log
      ensures live == LiveAt(live0, p.maps, i + 1) && log == LogAt(log0, p.maps, i + 1)
      ensures MapsInSlots(txBufRing[..], at, p, |p.maps|)
    {
      hide MapsInSlots, Idx, RingIdx, LogAt, LiveAt;
      UnmapMore(live0, log0, p.maps, i);
      ReadMapping(txBufRing[..], at, p, |p.maps|, i);
      var mapping := txBufRing[RingIdx(x)].mapping;
      log := log + [Unmap(mapping)];
      live := live - multiset{mapping};
    }

    /** bnx2_tx_int. `hwReads` gives the values of the status block's consumer index
        at successive reads and `done` the numbers of descriptors that they stand
        for; `last` is the last read.

        Exactly the packets that the device had completed by the last read are
        released, unless the budget runs out first; unless a packet is complete in
        part, that read found nothing new. The queue wakes when enough space is
        free. */
    method TxInt(budget: nat, hwReads: nat -> U16, ghost done: nat -> nat) returns (pkts: nat, ghost last: nat)
      requires Valid() && Off(posted, released) <= done(0)
      requires forall k :: Behind(hwReads(k), done(k)) && RestsLegally(posted, done(k))
      requires forall j, k :: j <= k ==> done(j) <= done(k)
      modifies this`txCons, this`hwTxCons, this`stopped, this`live, this`log, this`released, txBufRing
      ensures Valid() && released == old(released) + pkts
      ensures budget > 0 ==> pkts <= budget
      ensures hwTxCons == Idx(done(last)) && Off(posted, released) <= done(last)
      ensures released == |posted| || done(last) < Off(posted, released + 1) || pkts == budget > 0
      ensures done(last) > Off(posted, released) || pkts == budget > 0 ||
              if last == 0 then pkts == 0 else done(last - 1) == done(last)
      ensures stopped <==> old(stopped) && Avail(txRingSize, txProd, txCons) <= txRingSize / 2
    {
      hide Avail, Off, Idx, Normalize, Behind, RestsLegally, Total, Midway, Valid;
      Begin();
      ghost var c0, was := Off(posted, released), released;
      var read := 0;
      NormalizeIs(hwReads(read), done(read));
      var hwCons := Normalize(hwReads(read));
      var swCons := txCons;
      pkts := 0;
      while swCons != hwCons
        invariant released <= |posted| && Midway(c0) && hwCons == Idx(done(read))
        invariant swCons == Idx(Off(posted, released)) && Off(posted, released) <= done(read)
        invariant released == was + pkts && (budget > 0 ==> pkts < budget)
        invariant Off(posted, released) == done(read) ==> if read == 0 then pkts == 0 else done(read - 1) == done(read)
        modifies this`live, this`log, this`released, txBufRing
        decreases |posted| - released
      {
        var waits;
        waits, swCons := NextPacket(swCons, hwCons, c0, done(read));
        if waits {
          break;
        }
        pkts := pkts + 1;
        if pkts == budget {
          break;
        }
        if hwCons == swCons {
          read := read + 1;
          NormalizeIs(hwReads(read), done(read));
          hwCons := Normalize(hwReads(read));
        }
      }
      if swCons == hwCons {
        Stops(c0, done(read));
      }
      Reclaim(hwCons, swCons, c0);
      last := read;
    }

    /** The ring inside bnx2_tx_int, which began at descriptor c0: everything is in
        order except that tx_cons does not show the packets released since. */
    ghost predicate Midway(c0: nat)
      reads this, txBufRing, txDescRing
    {
      && txBufRing.Length == txDescRing.Length == DESC_CNT && txRingSize == MAX_DESC_CNT
      && released <= |posted| && c0 <= Off(posted, released) && Total(posted) <= c0 + MAX_DESC_CNT
      && txProd == Idx(Total(posted)) && txCons == Idx(c0)
      && Slots(txBufRing[..], posted, released) && Descs(txDescRing[..], posted, released)
      && Heads(txBufRing[..], posted, released, false)
      && live == MapsFrom(posted, released) && log == Releases(posted, released)
      && (!stopped ==> Avail(txRingSize, txProd, txCons) > MAX_SKB_FRAGS)
    }

    lemma Begin()
      requires Valid()
      ensures released <= |posted| && Midway(Off(posted, released)) && txCons == Idx(Off(posted, released))
    {
      hide Avail, Off, Slots, Idx, MapsFrom, Releases, Descs, Heads, Total;
    }

    /** With equal indices the packet at hand, if any, is not completed. */
    lemma Stops(c0: nat, d: nat)
      requires Midway(c0) && Off(posted, released) <= d && RestsLegally(posted, d)
      requires Idx(Off(posted, released)) == Idx(d)
      ensures released < |posted| ==> d < Off(posted, released + 1)
    {
      hide Avail, Off, Slots, Idx, MapsFrom, Releases, Descs, Heads, RestsLegally, Total;
      RestsWithin(posted, d);
      OffMonotone(posted, released, |posted|);
      IdxInjective(Off(posted, released), d);
      if released < |posted| {
        OldestPacket(txBufRing[..], posted, released);
        OffStep(posted, released);
      }
    }

    /** One round of bnx2_tx_int's loop, where the device has completed d
        descriptors: the oldest packet is released unless part of it is not. */
    method NextPacket(swCons: U16, hwCons: U16, ghost c0: nat, ghost d: nat) returns (waits: bool, next: U16)
      requires Midway(c0) && swCons == Idx(Off(posted, released)) && hwCons == Idx(d) && swCons != hwCons
      requires Off(posted, released) <= d && RestsLegally(posted, d)
      modifies this`live, this`log, this`released, txBufRing
      ensures Midway(c0) && released <= |posted| && next == Idx(Off(posted, released)) && Off(posted, released) <= d
      ensures released == old(released) + if waits then 0 else 1
      ensures waits ==> released < |posted| && d < Off(posted, released + 1)
    {
      hide Avail, Off, Slots, Idx, RestsLegally, MapsFrom, Releases, Descs, Heads, NotYetPassed, RingIdx, Total,
        MapsInSlots, WellFormed, Slot;
      RestsWithin(posted, d);
      OffMonotone(posted, released, |posted|);
      IdxInjective(Off(posted, released), d);
      NextToRelease(txBufRing[..], posted, released, d);
      var txBuf := txBufRing[RingIdx(swCons)];
      if txBuf.isGso && NotYetPassed(swCons, txBuf.nrFrags, hwCons) {
        return true, swCons;
      }
      DescsLater(txDescRing[..], posted, released);
      next := ReleasePacket(swCons);
      waits := false;
    }

    /** The end of bnx2_tx_int: publish what was reclaimed, and wake a stopped
        queue that has room again. */
    method Reclaim(hwCons: U16, swCons: U16, ghost c0: nat)
      requires Midway(c0) && swCons == Idx(Off(posted, released))
      modifies this`txCons, this`hwTxCons, this`stopped
      ensures Valid() && hwTxCons == hwCons
      ensures stopped <==> old(stopped) && Avail(txRingSize, txProd, txCons) <= txRingSize / 2
    {
      hide Avail, Off, Slots, Idx, MapsFrom, Releases, Descs, Heads, Total;
      OffMonotone(posted, released, |posted|);
      TotalIs(posted);
      AvailMonotone(c0, Off(posted, released), Total(posted), Total(posted));
      hwTxCons := hwCons;
      txCons := swCons;
      if stopped && Avail(txRingSize, txProd, txCons) > txRingSize / 2 {
        stopped := false;
      }
    }
  }

  /** Clearing its skb keeps its mappings and the younger packets. */
  lemma ReleaseFrame(buf: TxBufRing, ps: seq<Packet>, released: nat)
    requires released < |ps| && Slots(buf, ps, released)
    requires Total(ps) <= Off(ps, released) + MAX_DESC_CNT
    ensures var p, at := ps[released], Off(ps, released);
            var buf' := buf[Slot(at) := buf[Slot(at)].(skb := None)];
            MapsInSlots(buf', at, p, |p.maps|) && Slots(buf', ps, released + 1)
  {
    hide Off, Idx, RingIdx, MapsInSlots, HeadInSlot, Slot;
    var p, at := ps[released], Off(ps, released);
    var bd := buf[Slot(at)].(skb := None);
    OldestPacket(buf, ps, released);
    OffStep(ps, released);
    OffMonotone(ps, released + 1, |ps|);
    MapsInSlotsSameMapping(buf, at, p, |p.maps|, bd);
    SlotsFrame(buf, ps, released + 1, at, bd);
  }

  lemma ReleaseDone(ps: seq<Packet>, released: nat)
    requires released < |ps|
    ensures var p := ps[released];
            && Off(ps, released + 1) == Off(ps, released) + |p.maps|
            && MapsFrom(ps, released) - Range(p.maps, 0, |p.maps|) == MapsFrom(ps, released + 1)
            && Releases(ps, released + 1) == Releases(ps, released) + UnmapsTo(p.maps, |p.maps|) + [Free(p.skb)]
  {
    hide Unmaps;
    var maps := ps[released].maps;
    RangeAll(maps);
    assert maps[..|maps|] == maps;
  }

  function UnmapsTo(maps: seq<int>, i: nat): seq<Event>
    requires i <= |maps|
  {
    Unmaps(maps[..i])
  }

  /** The log, and the mappings in force, once i parts of a packet are unmapped. */
  function LogAt(log: seq<Event>, maps: seq<int>, i: nat): seq<Event>
    requires i <= |maps|
  {
    log + UnmapsTo(maps, i)
  }

  ghost function LiveAt(live: multiset<int>, maps: seq<int>, i: nat): multiset<int>
    requires i <= |maps|
  {
    live - Range(maps, 0, i)
  }

  lemma UnmapMore(live: multiset<int>, log: seq<Event>, maps: seq<int>, i: nat)
    requires i < |maps|
    ensures LogAt(log, maps, i + 1) == LogAt(log, maps, i) + [Unmap(maps[i])]
    ensures LogAt(log, maps, 0) == log
    ensures LiveAt(live, maps, i + 1) == LiveAt(live, maps, i) - multiset{maps[i]}
    ensures LiveAt(live, maps, 0) == live
  {
    UnmapsStep(maps, i);
    RangeExtend(maps, 0, i);
    RangeNone(maps, 0);
    hide Unmaps, Range;
    MinusMinus(live, Range(maps, 0, i), maps[i]);
  }
}
