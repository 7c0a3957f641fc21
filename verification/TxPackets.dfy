/** Packets on the bnx2 transmit ring: where their descriptors lie, what the
    software ring must hold for them, and what releasing them means. */
module TxPackets {
  import opened RingIndex
  import opened TxIndex
  import opened Wrappers

  /** Pages in a maximal socket buffer: a kernel constant, with 4 kB pages. */
  const MAX_SKB_FRAGS := 18

  /** A socket buffer handed to bnx2_start_xmit, with the bus addresses that
      mapping its head and then each of its fragments yields. */
  datatype Packet = Packet(skb: int, isGso: bool, maps: seq<int>)

  predicate WellFormed(p: Packet) {
    1 <= |p.maps| <= MAX_SKB_FRAGS + 1
  }

  /** struct sw_tx_bd. */
  datatype SwTxBd = SwTxBd(skb: Option<int>, mapping: int, isGso: bool, nrFrags: nat)

  const EMPTY_BD := SwTxBd(None, 0, false, 0)

  type TxBufRing = s: seq<SwTxBd> | |s| == DESC_CNT witness seq(DESC_CNT, i => EMPTY_BD)

  datatype Event = Unmap(mapping: int) | Free(skb: int)

  /** The descriptors before packet j. */
  function Off(ps: seq<Packet>, j: nat): nat
    requires j <= |ps|
  {
    if j == 0 then 0 else Off(ps, j - 1) + |ps[j - 1].maps|
  }

  lemma OffStep(ps: seq<Packet>, j: nat)
    requires j < |ps|
    ensures Off(ps, j + 1) == Off(ps, j) + |ps[j].maps|
  {
  }

  function Total(ps: seq<Packet>): nat {
    Off(ps, |ps|)
  }

  lemma TotalIs(ps: seq<Packet>)
    ensures Total(ps) == Off(ps, |ps|)
  {
  }

  lemma {:induction false} OffMonotone(ps: seq<Packet>, i: nat, j: nat)
    requires i <= j <= |ps|
    ensures Off(ps, i) <= Off(ps, j)
  {
    if i < j { OffMonotone(ps, i, j - 1); }
  }

  /** Packet j lies between the start of packet i and the end. */
  lemma OffWithin(ps: seq<Packet>, i: nat, j: nat)
    requires i <= j < |ps|
    ensures Off(ps, i) <= Off(ps, j) && Off(ps, j) + |ps[j].maps| <= Total(ps)
  {
    OffMonotone(ps, i, j);
    OffMonotone(ps, j + 1, |ps|);
  }

  lemma {:induction false} OffAppend(ps: seq<Packet>, p: Packet, j: nat)
    requires j <= |ps|
    ensures Off(ps + [p], j) == Off(ps, j)
  {
    if j > 0 { OffAppend(ps, p, j - 1); }
  }

  lemma TotalAppend(ps: seq<Packet>, p: Packet)
    ensures Total(ps + [p]) == Total(ps) + |p.maps|
    ensures forall j :: 0 <= j <= |ps| ==> Off(ps + [p], j) == Off(ps, j)
  {
    forall j | 0 <= j <= |ps| ensures Off(ps + [p], j) == Off(ps, j) {
      OffAppend(ps, p, j);
    }
  }

  /** The device stops inside a packet only when the packet is a TSO packet. */
  ghost predicate RestsLegally(ps: seq<Packet>, d: nat) {
    && d <= Total(ps)
    && forall j :: 0 <= j < |ps| && Off(ps, j) < d < Off(ps, j + 1) ==> ps[j].isGso
  }

  lemma RestsPast(ps: seq<Packet>, j: nat, d: nat)
    requires j < |ps| && RestsLegally(ps, d) && Off(ps, j) < d && !ps[j].isGso
    ensures Off(ps, j + 1) <= d
  {
  }

  lemma RestsLegallyAppend(ps: seq<Packet>, p: Packet, d: nat)
    requires RestsLegally(ps, d)
    ensures RestsLegally(ps + [p], d)
  {
    TotalAppend(ps, p);
  }

  lemma SlotsDiffer(m: nat, n: nat)
    requires m < n < m + MAX_DESC_CNT
    ensures Slot(m) != Slot(n)
  {
  }

  /** Slots from `start` on hold the first k mappings of p. */
  ghost predicate MapsInSlots(slots: TxBufRing, start: nat, p: Packet, k: nat)
    requires k <= |p.maps|
  {
    forall i :: 0 <= i < k ==> slots[Slot(start + i)].mapping == p.maps[i]
  }

  ghost predicate HeadInSlot(slots: TxBufRing, start: nat, p: Packet)
    requires |p.maps| > 0
  {
    var bd := slots[Slot(start)];
    bd.skb == Some(p.skb) && bd.isGso == p.isGso && bd.nrFrags == |p.maps| - 1
  }

  ghost predicate InSlots(slots: TxBufRing, start: nat, p: Packet) {
    WellFormed(p) && HeadInSlot(slots, start, p) && MapsInSlots(slots, start, p, |p.maps|)
  }

  /** Descriptor n lies within one lap of, but outside, the k from `start` on. */
  predicate Outside(n: nat, start: nat, k: nat) {
    (n < start && start + k <= n + MAX_DESC_CNT) || (start + k <= n < start + MAX_DESC_CNT)
  }

  lemma MapsInSlotsFrame(slots: TxBufRing, start: nat, p: Packet, k: nat, n: nat, bd: SwTxBd)
    requires k <= |p.maps| && MapsInSlots(slots, start, p, k) && Outside(n, start, k)
    ensures MapsInSlots(slots[Slot(n) := bd], start, p, k)
  {
    forall i | 0 <= i < k ensures slots[Slot(n) := bd][Slot(start + i)].mapping == p.maps[i] {
      if n < start { SlotsDiffer(n, start + i); } else { SlotsDiffer(start + i, n); }
    }
  }

  lemma MapsInSlotsSameMapping(slots: TxBufRing, start: nat, p: Packet, k: nat, bd: SwTxBd)
    requires k <= |p.maps| && MapsInSlots(slots, start, p, k) && bd.mapping == slots[Slot(start)].mapping
    ensures MapsInSlots(slots[Slot(start) := bd], start, p, k)
  {
  }

  /** Writing the slot of a descriptor outside a packet leaves the packet alone. */
  lemma InSlotsFrame(slots: TxBufRing, start: nat, p: Packet, n: nat, bd: SwTxBd)
    requires InSlots(slots, start, p) && Outside(n, start, |p.maps|)
    ensures InSlots(slots[Slot(n) := bd], start, p)
  {
    MapsInSlotsFrame(slots, start, p, |p.maps|, n, bd);
    if n < start { SlotsDiffer(n, start); } else { SlotsDiffer(start, n); }
  }

  /** The software ring holds every packet from number `whole` on. */
  ghost predicate Slots(slots: TxBufRing, ps: seq<Packet>, whole: nat) {
    && (forall j :: 0 <= j < |ps| ==> WellFormed(ps[j]))
    && (forall j :: whole <= j < |ps| ==> InSlots(slots, Off(ps, j), ps[j]))
  }

  lemma SlotsAppend(slots: TxBufRing, ps: seq<Packet>, whole: nat, p: Packet)
    requires Slots(slots, ps, whole) && InSlots(slots, Total(ps), p)
    ensures Slots(slots, ps + [p], whole)
  {
    hide Off;
    TotalAppend(ps, p);
  }

  /** The producer writes behind, and the consumer before, the packets in flight. */
  lemma SlotsFrame(slots: TxBufRing, ps: seq<Packet>, whole: nat, n: nat, bd: SwTxBd)
    requires whole <= |ps| && Slots(slots, ps, whole)
    requires Total(ps) <= n < Off(ps, whole) + MAX_DESC_CNT || n < Off(ps, whole) <= Total(ps) <= n + MAX_DESC_CNT
    ensures Slots(slots[Slot(n) := bd], ps, whole)
  {
    hide Off, Total, HeadInSlot, MapsInSlots;
    forall j | whole <= j < |ps| ensures InSlots(slots[Slot(n) := bd], Off(ps, j), ps[j]) {
      OffWithin(ps, whole, j);
      InSlotsFrame(slots, Off(ps, j), ps[j], n, bd);
    }
  }

  /** The mappings, and the buffers, of the packets from number j on. */
  ghost function MapsFrom(ps: seq<Packet>, j: nat): multiset<int>
    requires j <= |ps|
    decreases |ps| - j
  {
    if j == |ps| then multiset{} else multiset(ps[j].maps) + MapsFrom(ps, j + 1)
  }

  ghost function SkbsFrom(ps: seq<Packet>, j: nat): multiset<int>
    requires j <= |ps|
    decreases |ps| - j
  {
    if j == |ps| then multiset{} else multiset{ps[j].skb} + SkbsFrom(ps, j + 1)
  }

  lemma {:induction false} FromAppend(ps: seq<Packet>, p: Packet, j: nat)
    requires j <= |ps|
    ensures MapsFrom(ps + [p], j) == MapsFrom(ps, j) + multiset(p.maps)
    ensures SkbsFrom(ps + [p], j) == SkbsFrom(ps, j) + multiset{p.skb}
    decreases |ps| - j
  {
    if j < |ps| { FromAppend(ps, p, j + 1); }
  }

  /** The mappings of a range of parts. */
  ghost function Range(maps: seq<int>, from: nat, to: nat): multiset<int>
    requires from <= to <= |maps|
  {
    multiset(maps[from..to])
  }

  lemma RangeNone(maps: seq<int>, i: nat)
    requires i <= |maps|
    ensures Range(maps, i, i) == multiset{}
  {
  }

  lemma RangeExtend(maps: seq<int>, from: nat, i: nat)
    requires from <= i < |maps|
    ensures Range(maps, from, i + 1) == Range(maps, from, i) + multiset{maps[i]}
  {
    assert maps[from..i + 1] == maps[from..i] + [maps[i]];
  }

  lemma RangeHead(maps: seq<int>, i: nat, to: nat)
    requires i < to <= |maps|
    ensures Range(maps, i, to) == multiset{maps[i]} + Range(maps, i + 1, to)
  {
    assert maps[i..to] == [maps[i]] + maps[i + 1..to];
  }

  lemma RangeAll(maps: seq<int>)
    ensures Range(maps, 0, |maps|) == multiset(maps)
  {
    assert maps[0..|maps|] == maps;
  }

  /** Releasing a packet: each of its mappings, in order, and then its buffer. */
  function Unmaps(maps: seq<int>): seq<Event> {
    if |maps| == 0 then [] else Unmaps(maps[..|maps| - 1]) + [Unmap(maps[|maps| - 1])]
  }

  function Release(p: Packet): seq<Event> {
    Unmaps(p.maps) + [Free(p.skb)]
  }

  /** Releasing the first j packets, one after the other. */
  function Releases(ps: seq<Packet>, j: nat): seq<Event>
    requires j <= |ps|
  {
    if j == 0 then [] else Releases(ps, j - 1) + Release(ps[j - 1])
  }

  lemma {:induction false} ReleasesAppend(ps: seq<Packet>, p: Packet, j: nat)
    requires j <= |ps|
    ensures Releases(ps + [p], j) == Releases(ps, j)
  {
    if j > 0 { ReleasesAppend(ps, p, j - 1); }
  }

  lemma UnmapsStep(maps: seq<int>, i: nat)
    requires i < |maps|
    ensures Unmaps(maps[..i + 1]) == Unmaps(maps[..i]) + [Unmap(maps[i])]
  {
    assert maps[..i + 1][..i] == maps[..i];
  }

  lemma ReadMapping(slots: TxBufRing, start: nat, p: Packet, k: nat, i: nat)
    requires i < k <= |p.maps| && MapsInSlots(slots, start, p, k)
    ensures RingIdx(Idx(start + i)) < DESC_CNT && slots[RingIdx(Idx(start + i))].mapping == p.maps[i]
  {
    RingIdxOfIdx(start + i);
  }

  /** What the oldest packet's head slot says. */
  lemma OldestPacket(buf: TxBufRing, ps: seq<Packet>, released: nat)
    requires released < |ps| && Slots(buf, ps, released)
    ensures var p, at := ps[released], Off(ps, released);
            && RingIdx(Idx(at)) == Slot(at) && 0 < |p.maps| <= MAX_DESC_CNT && InSlots(buf, at, p)
            && MapsInSlots(buf, at, p, |p.maps|)
            && buf[Slot(at)] == SwTxBd(Some(p.skb), buf[Slot(at)].mapping, p.isGso, |p.maps| - 1)
  {
    hide Off, Idx, RingIdx, MapsInSlots;
    RingIdxOfIdx(Off(ps, released));
    assert InSlots(buf, Off(ps, released), ps[released]);
  }

  /** When the indices differ there is a packet to look at, and the two ways of
      seeing that the device is past it are right. */
  lemma NextToRelease(buf: TxBufRing, ps: seq<Packet>, released: nat, d: nat)
    requires released <= |ps| && Slots(buf, ps, released) && RestsLegally(ps, d)
    requires Off(ps, released) < d && Total(ps) <= Off(ps, released) + MAX_DESC_CNT
    ensures released < |ps| && Off(ps, released) < Off(ps, released + 1)
    ensures var at, bd := Off(ps, released), buf[RingIdx(Idx(Off(ps, released)))];
            bd.isGso && NotYetPassed(Idx(at), bd.nrFrags, Idx(d)) <==> d < Off(ps, released + 1)
  {
    hide NotYetPassed, RingIdx, Idx, Slot, MapsInSlots, Slots, RestsLegally, Off;
    RestsWithin(ps, d);
    OldestPacket(buf, ps, released);
    OffStep(ps, released);
    if !ps[released].isGso { RestsPast(ps, released, d); }
    NotYetPassedIff(Off(ps, released), |ps[released].maps| - 1, d);
  }

  lemma RestsWithin(ps: seq<Packet>, d: nat)
    requires RestsLegally(ps, d)
    ensures d <= Total(ps)
  {
  }

  // ----- Slots without a packet -----

  /** Only the first slot of a packet from number r on has a buffer, and that of a
      packet which is being posted. */
  ghost predicate Heads(slots: TxBufRing, ps: seq<Packet>, r: nat, posting: bool) {
    forall x: nat :: x < DESC_CNT && slots[x].skb != None ==>
      HeadSlot(ps, r, x) || (posting && x == Slot(Total(ps)))
  }

  ghost predicate HeadSlot(ps: seq<Packet>, r: nat, x: nat) {
    exists j: nat :: r <= j < |ps| && x == Slot(Off(ps, j))
  }

  lemma HeadsSame(slots: TxBufRing, ps: seq<Packet>, r: nat, posting: bool, n: nat, bd: SwTxBd)
    requires Heads(slots, ps, r, posting) && n < DESC_CNT && bd.skb == slots[n].skb
    ensures Heads(slots[n := bd], ps, r, posting)
  {
  }

  lemma HeadsBegin(slots: TxBufRing, ps: seq<Packet>, r: nat, bd: SwTxBd)
    requires Heads(slots, ps, r, false)
    ensures Heads(slots[Slot(Total(ps)) := bd], ps, r, true)
  {
    hide Slot;
  }

  lemma HeadsUndo(slots: TxBufRing, ps: seq<Packet>, r: nat, bd: SwTxBd)
    requires Heads(slots, ps, r, true) && bd.skb == None
    ensures Heads(slots[Slot(Total(ps)) := bd], ps, r, false)
  {
    hide Slot;
  }

  lemma HeadsPost(slots: TxBufRing, ps: seq<Packet>, r: nat, p: Packet)
    requires Heads(slots, ps, r, true) && r <= |ps|
    ensures Heads(slots, ps + [p], r, false)
  {
    hide Slot, Off;
    TotalAppend(ps, p);
    TotalIs(ps);
    forall x: nat | x < DESC_CNT && slots[x].skb != None ensures HeadSlot(ps + [p], r, x) {
      if HeadSlot(ps, r, x) {
        var j: nat :| r <= j < |ps| && x == Slot(Off(ps, j));
        assert x == Slot(Off(ps + [p], j));
      } else {
        assert x == Slot(Off(ps + [p], |ps|));
      }
    }
  }

  lemma HeadsTake(slots: TxBufRing, ps: seq<Packet>, r: nat, posting: bool, bd: SwTxBd)
    requires Heads(slots, ps, r, posting) && r < |ps| && bd.skb == None
    ensures Heads(slots[Slot(Off(ps, r)) := bd], ps, r + 1, posting)
  {
    hide Slot, Off;
    var n := Slot(Off(ps, r));
    forall x: nat | x < DESC_CNT && x != n && HeadSlot(ps, r, x) ensures HeadSlot(ps, r + 1, x) {
      var j: nat :| r <= j < |ps| && x == Slot(Off(ps, j));
      assert j != r;
    }
  }
}
