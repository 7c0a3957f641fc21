/** bnx2_free_tx_skbs: what taking the interface down, or resetting it, frees and
    unmaps of the packets that are still in flight. */
module TxTeardown {
  import opened RingIndex
  import opened TxIndex
  import opened TxPackets
  import opened TxProtocol
  import opened TxSafety
  import opened TxRingSize
  import opened Wrappers

  /** Unmapping n slots from slot j on, as TX_RING_IDX gives them for consecutive
      numbers. */
  function UnmapRun(slots: TxBufRing, j: nat, n: nat): seq<Event> {
    if n == 0 then [] else UnmapRun(slots, j, n - 1) + [Unmap(slots[(j + n - 1) % DESC_CNT].mapping)]
  }

  /** What the loop does at slot j, and where it looks next. */
  function FreeAt(slots: TxBufRing, j: nat): seq<Event>
    requires j < DESC_CNT
  {
    match slots[j].skb
    case None => []
    case Some(skb) => UnmapRun(slots, j, slots[j].nrFrags + 1) + [Free(skb)]
  }

  function NextPos(slots: TxBufRing, j: nat): nat
    requires j < DESC_CNT
  {
    if slots[j].skb == None then j + 1 else j + 1 + slots[j].nrFrags
  }

  /** What it does from slot j on, and what it leaves of the ring. */
  function FreeFrom(slots: TxBufRing, j: nat): seq<Event>
    decreases DESC_CNT - j
  {
    if j >= DESC_CNT then [] else FreeAt(slots, j) + FreeFrom(slots, NextPos(slots, j))
  }

  function ClearFrom(slots: TxBufRing, j: nat): TxBufRing
    decreases DESC_CNT - j
  {
    if j >= DESC_CNT then slots else ClearFrom(slots, NextPos(slots, j))[j := slots[j].(skb := None)]
  }

  lemma {:induction false} ClearBelow(slots: TxBufRing, j: nat)
    ensures forall x :: 0 <= x < j && x < DESC_CNT ==> ClearFrom(slots, j)[x] == slots[x]
    decreases DESC_CNT - j
  {
    if j < DESC_CNT { ClearBelow(slots, NextPos(slots, j)); }
  }

  /** One step of the loop: x < j are as they will stay. */
  lemma ClearStep(slots: TxBufRing, j: nat)
    requires j < DESC_CNT
    ensures var k := NextPos(slots, j);
            forall x :: 0 <= x < DESC_CNT ==>
              ClearFrom(slots, j)[x] == if x == j then slots[j].(skb := None)
                                        else if x < k then slots[x] else ClearFrom(slots, k)[x]
  {
    ClearBelow(slots, NextPos(slots, j));
  }

  /** The ring when the loop has come to slot j. */
  ghost predicate Partly(now: TxBufRing, was: TxBufRing, j: nat) {
    forall x :: 0 <= x < DESC_CNT ==>
      && now[x] == (if x < j then ClearFrom(was, 0)[x] else was[x])
      && (x >= j ==> ClearFrom(was, 0)[x] == ClearFrom(was, j)[x])
  }

  lemma PartlyMore(now: TxBufRing, was: TxBufRing, j: nat)
    requires Partly(now, was, j) && j < DESC_CNT
    ensures Partly(now[j := was[j].(skb := None)], was, NextPos(was, j)) && now[j] == was[j]
  {
    ClearStep(was, j);
  }

  lemma {:induction false} ClearKeepsMapping(slots: TxBufRing, j: nat, x: nat)
    requires x < DESC_CNT
    ensures ClearFrom(slots, j)[x].mapping == slots[x].mapping
    decreases DESC_CNT - j
  {
    if j < DESC_CNT { ClearKeepsMapping(slots, NextPos(slots, j), x); }
  }

  /** bnx2_free_tx_skbs for one ring. */
  method FreeTxSkbs(bds: array<SwTxBd>) returns (ghost log: seq<Event>)
    requires bds.Length == DESC_CNT
    modifies bds
    ensures log == FreeFrom(old(bds[..]), 0) && bds[..] == ClearFrom(old(bds[..]), 0)
  {
    hide ClearFrom, Partly, FreeAt, NextPos;
    ghost var was: TxBufRing := bds[..];
    PartlyStart(was);
    var j := 0;
    log := [];
    while j < DESC_CNT
      invariant 0 <= j && log + FreeFrom(was, j) == FreeFrom(was, 0) && Partly(bds[..], was, j)
      decreases DESC_CNT - j
    {
      NextIsLater(was, j);
      Reassociate(log, FreeAt(was, j), FreeFrom(was, NextPos(was, j)));
      j, log := FreeSlot(bds, was, j, log);
    }
    assert log + [] == log;
    PartlyDone(bds[..], was, j);
  }

  lemma NextIsLater(slots: TxBufRing, j: nat)
    requires j < DESC_CNT
    ensures NextPos(slots, j) > j
  {
  }

  lemma Reassociate(a: seq<Event>, b: seq<Event>, c: seq<Event>)
    ensures a + (b + c) == a + b + c
  {
  }

  /** One round of the loop. */
  method FreeSlot(bds: array<SwTxBd>, ghost was: TxBufRing, at: nat, ghost log0: seq<Event>)
    returns (j: nat, ghost log: seq<Event>)
    requires bds.Length == DESC_CNT && Partly(bds[..], was, at) && at < DESC_CNT
    modifies bds
    ensures j == NextPos(was, at) && Partly(bds[..], was, j) && log == log0 + FreeAt(was, at)
  {
    hide ClearFrom, Partly, UnmapRun;
    ghost var now: TxBufRing := bds[..];
    PartlyMore(now, was, at);
    var bd := bds[at];
    if bd.skb == None {
      assert now[at := was[at].(skb := None)] == now;
      return at + 1, log0 + [];
    }
    log := log0 + [Unmap(bd.mapping)];
    bds[at] := bd.(skb := None);
    assert bds[..] == now[at := was[at].(skb := None)];
    SameMappings(bds[..], was, at + 1 + bd.nrFrags);
    RunOfOne(was, at);
    j, log := UnmapFrags(bds, was, at, bd.nrFrags, log0, log);
    Reassociate(log0, UnmapRun(was, at, bd.nrFrags + 1), [Free(bd.skb.value)]);
    log := log + [Free(bd.skb.value)];
  }

  lemma RunOfOne(slots: TxBufRing, j: nat)
    requires j < DESC_CNT
    ensures UnmapRun(slots, j, 1) == [Unmap(slots[j].mapping)]
  {
    assert j % DESC_CNT == j;
  }

  lemma SameMappings(now: TxBufRing, was: TxBufRing, j: nat)
    requires Partly(now, was, j)
    ensures forall x :: 0 <= x < DESC_CNT ==> now[x].mapping == was[x].mapping
  {
    forall x | 0 <= x < DESC_CNT ensures now[x].mapping == was[x].mapping {
      ClearKeepsMapping(was, 0, x);
    }
  }

  /** Its inner loop. */
  method UnmapFrags(bds: array<SwTxBd>, ghost was: TxBufRing, at: nat, last: nat, ghost log0: seq<Event>,
                    ghost log1: seq<Event>)
    returns (j: nat, ghost log: seq<Event>)
    requires bds.Length == DESC_CNT && forall x :: 0 <= x < DESC_CNT ==> bds[x].mapping == was[x].mapping
    requires log1 == log0 + UnmapRun(was, at, 1)
    ensures j == at + 1 + last && log == log0 + UnmapRun(was, at, last + 1)
  {
    j, log := at + 1, log1;
    var k := 0;
    while k < last
      invariant 0 <= k <= last && j == at + 1 + k && log == log0 + UnmapRun(was, at, k + 1)
    {
      log := log + [Unmap(bds[j % DESC_CNT].mapping)];
      k, j := k + 1, j + 1;
    }
  }

  lemma PartlyStart(was: TxBufRing)
    ensures Partly(was, was, 0)
  {
  }

  lemma PartlyDone(now: TxBufRing, was: TxBufRing, j: nat)
    requires Partly(now, was, j) && j >= DESC_CNT
    ensures now == ClearFrom(was, 0)
  {
  }

  // ----- What that amounts to -----

  /** The loop, from slot a on, leaves no buffer at slot x. */
  ghost predicate Clears(slots: TxBufRing, a: nat, x: nat)
    requires x < DESC_CNT
  {
    ClearFrom(slots, a)[x].skb == None
  }

  lemma ClearsMore(slots: TxBufRing, a: nat, x: nat)
    requires a < DESC_CNT && x < DESC_CNT && (Clears(slots, NextPos(slots, a), x) || x == a)
    ensures Clears(slots, a, x)
  {
  }

  lemma {:induction false} ClearsEmpty(slots: TxBufRing, a: nat, x: nat)
    requires x < DESC_CNT && slots[x].skb == None
    ensures Clears(slots, a, x)
    decreases DESC_CNT - a
  {
    if a < DESC_CNT { ClearsEmpty(slots, NextPos(slots, a), x); }
  }

  /** The loop does the same from a as from b. */
  ghost predicate Skipped(slots: TxBufRing, a: nat, b: nat) {
    && FreeFrom(slots, a) == FreeFrom(slots, b)
    && forall x: nat :: x < DESC_CNT && Clears(slots, b, x) ==> Clears(slots, a, x)
  }

  /** Empty slots are passed over. */
  lemma {:induction false} SkipTo(slots: TxBufRing, a: nat, b: nat)
    requires a <= b <= DESC_CNT && forall x :: a <= x < b ==> slots[x].skb == None
    ensures Skipped(slots, a, b)
    decreases b - a
  {
    if a < b { SkipTo(slots, a + 1, b); }
  }

  /** Packet i lies in consecutive slots when the lap that begins at `base` is the
      one that it begins on. */
  lemma SlotOnLap(base: nat, n: nat)
    requires base % MAX_DESC_CNT == 0 && base <= n < base + MAX_DESC_CNT
    ensures Slot(n) == n - base
  {
    var q := base / MAX_DESC_CNT;
    assert n == 255 * q + (n - base);
  }

  lemma {:induction false} RunIsUnmaps(slots: TxBufRing, j: nat, maps: seq<int>, k: nat)
    requires k <= |maps| && forall i :: 0 <= i < k ==> slots[(j + i) % DESC_CNT].mapping == maps[i]
    ensures UnmapRun(slots, j, k) == Unmaps(maps[..k])
  {
    if k > 0 {
      RunIsUnmaps(slots, j, maps, k - 1);
      UnmapsStep(maps, k - 1);
    } else {
      assert maps[..0] == [];
    }
  }

  /** A packet that does not lie across the link is released as bnx2_tx_int would. */
  lemma FreeWhole(slots: TxBufRing, at: nat, p: Packet, base: nat)
    requires InSlots(slots, at, p) && base % MAX_DESC_CNT == 0
    requires base <= at && at + |p.maps| <= base + MAX_DESC_CNT
    ensures FreeAt(slots, at - base) == Release(p) && NextPos(slots, at - base) == at - base + |p.maps|
    ensures slots[at - base].skb != None
  {
    hide Slot;
    SlotOnLap(base, at);
    forall i | 0 <= i < |p.maps| ensures slots[(at - base + i) % DESC_CNT].mapping == p.maps[i] {
      SlotOnLap(base, at + i);
      InSlot(slots, at, p, i);
    }
    RunIsUnmaps(slots, at - base, p.maps, |p.maps|);
    assert p.maps[..|p.maps|] == p.maps;
  }

  lemma InSlot(slots: TxBufRing, at: nat, p: Packet, i: nat)
    requires InSlots(slots, at, p) && i < |p.maps|
    ensures slots[Slot(at + i)].mapping == p.maps[i]
  {
  }

  /** The mappings that are undone for a packet across the link with h descriptors
      before it: that of the link slot as well, but not the last one. */
  function TornMaps(maps: seq<int>, h: nat, link: int): seq<int>
    requires h < |maps|
  {
    maps[..h] + [link] + maps[h..|maps| - 1]
  }

  /** What is done for a packet across the link. */
  function TornRelease(slots: TxBufRing, p: Packet, h: nat): seq<Event>
    requires h < |p.maps|
  {
    Unmaps(TornMaps(p.maps, h, slots[MAX_DESC_CNT].mapping)) + [Free(p.skb)]
  }

  lemma Wrap(x: nat)
    requires x < 2 * DESC_CNT
    ensures x % DESC_CNT == if x < DESC_CNT then x else x - DESC_CNT
  {
  }

  lemma TornSlot(slots: TxBufRing, at: nat, p: Packet, base: nat, i: nat)
    requires InSlots(slots, at, p) && base % MAX_DESC_CNT == 0 && i < |p.maps|
    requires base <= at < base + MAX_DESC_CNT < at + |p.maps|
    ensures var a, h := at - base, base + MAX_DESC_CNT - at;
            slots[(a + i) % DESC_CNT].mapping == TornMaps(p.maps, h, slots[MAX_DESC_CNT].mapping)[i]
  {
    hide Slot, InSlots;
    var a, h := at - base, base + MAX_DESC_CNT - at;
    AtMost(slots, at, p);
    Wrap(a + i);
    if i < h {
      SlotOnLap(base, at + i);
      InSlot(slots, at, p, i);
    } else if i > h {
      SlotOnLap(base + MAX_DESC_CNT, at + i - 1);
      InSlot(slots, at, p, i - 1);
    }
  }

  lemma AtMost(slots: TxBufRing, at: nat, p: Packet)
    requires InSlots(slots, at, p)
    ensures 0 < |p.maps| <= MAX_DESC_CNT
    ensures slots[Slot(at)].skb == Some(p.skb) && slots[Slot(at)].nrFrags == |p.maps| - 1
  {
  }

  lemma FreeTorn(slots: TxBufRing, at: nat, p: Packet, base: nat)
    requires InSlots(slots, at, p) && base % MAX_DESC_CNT == 0
    requires base <= at < base + MAX_DESC_CNT < at + |p.maps|
    ensures FreeAt(slots, at - base) == TornRelease(slots, p, base + MAX_DESC_CNT - at)
    ensures NextPos(slots, at - base) >= DESC_CNT && slots[at - base].skb != None
  {
    hide Slot, InSlots, TornMaps;
    SlotOnLap(base, at);
    AtMost(slots, at, p);
    TornLength(p.maps, base + MAX_DESC_CNT - at, slots[MAX_DESC_CNT].mapping);
    var torn := TornMaps(p.maps, base + MAX_DESC_CNT - at, slots[MAX_DESC_CNT].mapping);
    forall i | 0 <= i < |torn| ensures slots[(at - base + i) % DESC_CNT].mapping == torn[i] {
      TornSlot(slots, at, p, base, i);
    }
    RunIsUnmaps(slots, at - base, torn, |torn|);
    assert torn[..|torn|] == torn;
  }

  lemma TornLength(maps: seq<int>, h: nat, link: int)
    requires h < |maps|
    ensures |TornMaps(maps, h, link)| == |maps|
  {
  }

  /** Releasing the packets from number i up to k. */
  function Rels(ps: seq<Packet>, i: nat, k: nat): seq<Event>
    requires k <= |ps|
    decreases k - i
  {
    if i >= k then [] else Release(ps[i]) + Rels(ps, i + 1, k)
  }

  /** These packets are on the lap that begins at `base`. */
  ghost predicate OnLap(slots: TxBufRing, ps: seq<Packet>, i: nat, k: nat, base: nat) {
    && i <= k <= |ps| && base % MAX_DESC_CNT == 0 && base <= Off(ps, i) && Off(ps, k) <= base + MAX_DESC_CNT
    && forall j :: i <= j < k ==> InSlots(slots, Off(ps, j), ps[j])
  }

  lemma LapStep(slots: TxBufRing, ps: seq<Packet>, i: nat, k: nat, base: nat)
    requires OnLap(slots, ps, i, k, base) && i < k
    ensures i < k <= |ps| && base % MAX_DESC_CNT == 0
    ensures InSlots(slots, Off(ps, i), ps[i]) && base <= Off(ps, i) < Off(ps, i + 1) <= base + MAX_DESC_CNT
    ensures OnLap(slots, ps, i + 1, k, base) && Off(ps, i + 1) == Off(ps, i) + |ps[i].maps|
  {
    hide MapsInSlots, HeadInSlot;
    OffStep(ps, i);
    OffMonotone(ps, i + 1, k);
  }

  /** The loop comes to each of them, and releases it. */
  lemma {:induction false} FreeRun(slots: TxBufRing, ps: seq<Packet>, i: nat, k: nat, base: nat)
    requires OnLap(slots, ps, i, k, base)
    ensures i <= k <= |ps| && Off(ps, k) >= base
    ensures FreeFrom(slots, Off(ps, i) - base) == Rels(ps, i, k) + FreeFrom(slots, Off(ps, k) - base)
    decreases k - i
  {
    hide OnLap, FreeAt, NextPos, FreeFrom, Off, InSlots, Release;
    if i < k {
      LapStep(slots, ps, i, k, base);
      FreeStep(slots, Off(ps, i) - base);
      FreeRun(slots, ps, i + 1, k, base);
      FreeWhole(slots, Off(ps, i), ps[i], base);
      Reassociate(Release(ps[i]), Rels(ps, i + 1, k), FreeFrom(slots, Off(ps, k) - base));
    } else {
      LapEmpty(slots, ps, i, k, base);
      assert [] + FreeFrom(slots, Off(ps, k) - base) == FreeFrom(slots, Off(ps, k) - base);
    }
  }

  lemma FreeStep(slots: TxBufRing, j: nat)
    requires j < DESC_CNT
    ensures FreeFrom(slots, j) == FreeAt(slots, j) + FreeFrom(slots, NextPos(slots, j))
  {
  }

  lemma LapEmpty(slots: TxBufRing, ps: seq<Packet>, i: nat, k: nat, base: nat)
    requires OnLap(slots, ps, i, k, base) && i >= k
    ensures i == k <= |ps| && Off(ps, k) >= base && Rels(ps, i, k) == []
  {
  }

  lemma {:induction false} ClearRun(slots: TxBufRing, ps: seq<Packet>, i: nat, k: nat, base: nat, j: nat, x: nat)
    requires OnLap(slots, ps, i, k, base) && k <= |ps| && x < DESC_CNT && Off(ps, k) >= base
    requires Clears(slots, Off(ps, k) - base, x) || (i <= j < k && x == Off(ps, j) - base)
    ensures Clears(slots, Off(ps, i) - base, x)
    decreases k - i
  {
    hide OnLap, FreeAt, NextPos, Clears, Off, InSlots;
    if i < k {
      LapStep(slots, ps, i, k, base);
      FreeWhole(slots, Off(ps, i), ps[i], base);
      if j != i || Clears(slots, Off(ps, k) - base, x) { ClearRun(slots, ps, i + 1, k, base, j, x); }
      ClearsMore(slots, Off(ps, i) - base, x);
    } else {
      LapEmpty(slots, ps, i, k, base);
    }
  }

  // ----- A ring with packets in flight -----

  /** The ring holds the packets from number r on and nothing else. */
  ghost predicate Loaded(slots: TxBufRing, ps: seq<Packet>, r: nat) {
    r <= |ps| && Slots(slots, ps, r) && Heads(slots, ps, r, false) && Total(ps) <= Off(ps, r) + MAX_DESC_CNT
  }

  /** The first and the last descriptor of packet j are on different laps. */
  predicate Straddles(ps: seq<Packet>, j: nat)
    requires j < |ps|
  {
    Off(ps, j) / MAX_DESC_CNT < (Off(ps, j) + |ps[j].maps| - 1) / MAX_DESC_CNT
  }

  ghost predicate AcrossLink(ps: seq<Packet>, r: nat) {
    exists j: nat :: r <= j < |ps| && Straddles(ps, j)
  }

  /** Where the lap begins that packet r begins on. */
  function Base(ps: seq<Packet>, r: nat): (b: nat)
    requires r <= |ps|
    ensures b % MAX_DESC_CNT == 0 && b <= Off(ps, r) < b + MAX_DESC_CNT
  {
    Off(ps, r) / MAX_DESC_CNT * MAX_DESC_CNT
  }

  /** Packets from number m on begin on the next lap. */
  ghost predicate Parted(ps: seq<Packet>, r: nat, m: nat) {
    && r <= m <= |ps| && (m == r ==> r == |ps|)
    && (m > r ==> Off(ps, m - 1) < Base(ps, r) + MAX_DESC_CNT)
    && (m < |ps| ==> Base(ps, r) + MAX_DESC_CNT <= Off(ps, m))
  }

  lemma Part(ps: seq<Packet>, r: nat) returns (m: nat)
    requires r <= |ps|
    ensures Parted(ps, r, m)
  {
    m := r;
    while m < |ps| && Off(ps, m) < Base(ps, r) + MAX_DESC_CNT
      invariant r <= m <= |ps| && (m > r ==> Off(ps, m - 1) < Base(ps, r) + MAX_DESC_CNT)
    {
      m := m + 1;
    }
  }

  /** The packet before number m lies across the link. */
  predicate Torn(ps: seq<Packet>, r: nat, m: nat)
    requires r <= m <= |ps|
  {
    m > r && Off(ps, m) > Base(ps, r) + MAX_DESC_CNT
  }

  /** On which lap each packet lies. */
  lemma LapOf(slots: TxBufRing, ps: seq<Packet>, r: nat, m: nat, j: nat)
    requires Loaded(slots, ps, r) && Parted(ps, r, m) && r <= j < |ps|
    ensures InSlots(slots, Off(ps, j), ps[j])
    ensures var b := Base(ps, r);
            && Off(ps, r) <= Off(ps, j) < Off(ps, j) + |ps[j].maps| == Off(ps, j + 1) <= Total(ps)
            && Total(ps) <= Off(ps, r) + MAX_DESC_CNT
            && (j < m ==> Off(ps, j) < b + MAX_DESC_CNT)
            && (j + 1 < m || (j + 1 == m && !Torn(ps, r, m)) ==> Off(ps, j + 1) <= b + MAX_DESC_CNT)
            && (j >= m ==> b + MAX_DESC_CNT <= Off(ps, m) <= Off(ps, j))
            && Slot(Off(ps, j)) == if j < m then Off(ps, j) - b else Off(ps, j) - b - MAX_DESC_CNT
  {
    hide Slot, InSlots, Base, Heads, Off;
    var b := Base(ps, r);
    assert InSlots(slots, Off(ps, j), ps[j]);
    OffStep(ps, j);
    OffMonotone(ps, r, j);
    OffMonotone(ps, j + 1, |ps|);
    if j < m {
      OffMonotone(ps, j, m - 1);
      if j + 1 < m { OffMonotone(ps, j + 1, m - 1); }
      SlotOnLap(b, Off(ps, j));
    } else {
      OffMonotone(ps, m, j);
      SlotOnLap(b + MAX_DESC_CNT, Off(ps, j));
    }
  }

  /** Outside the two stretches that the packets take up. */
  ghost predicate Apart(ps: seq<Packet>, r: nat, m: nat, x: nat)
    requires r <= m <= |ps|
  {
    && (m > r ==> x + Base(ps, r) < Off(ps, r) || Off(ps, m) <= x + Base(ps, r))
    && var b := Base(ps, r) + MAX_DESC_CNT; m < |ps| ==> x + b < Off(ps, m) || Total(ps) <= x + b
  }

  lemma NotHead(slots: TxBufRing, ps: seq<Packet>, r: nat, m: nat, x: nat, j: nat)
    requires Loaded(slots, ps, r) && Parted(ps, r, m) && Apart(ps, r, m, x) && r <= j < |ps|
    ensures x != Slot(Off(ps, j))
  {
    hide InSlots, Base, Slot, Loaded, Straddles;
    if j < m { OffMonotone(ps, j + 1, m); }
    LapOf(slots, ps, r, m, j);
  }

  /** Slots there are empty. */
  lemma Vacant(slots: TxBufRing, ps: seq<Packet>, r: nat, m: nat, x: nat)
    requires Loaded(slots, ps, r) && Parted(ps, r, m) && x < DESC_CNT && Apart(ps, r, m, x)
    ensures slots[x].skb == None
  {
    hide Apart, Slot, Slots;
    forall j: nat | r <= j < |ps| ensures x != Slot(Off(ps, j)) {
      NotHead(slots, ps, r, m, x, j);
    }
    assert !HeadSlot(ps, r, x);
  }

  /** The packets of either lap, but for one across the link. */
  lemma Laps(slots: TxBufRing, ps: seq<Packet>, r: nat, m: nat)
    requires Loaded(slots, ps, r) && Parted(ps, r, m)
    ensures var k := if Torn(ps, r, m) then m - 1 else m;
            OnLap(slots, ps, r, k, Base(ps, r))
    ensures var b := Base(ps, r) + MAX_DESC_CNT;
            && Total(ps) <= Off(ps, r) + MAX_DESC_CNT && Off(ps, r) <= Off(ps, m) <= Total(ps) == Off(ps, |ps|)
            && (Off(ps, m) >= b ==> OnLap(slots, ps, m, |ps|, b))
            && (Off(ps, m) < b ==> m == |ps|)
  {
    hide InSlots, Base, Heads;
    OffMonotone(ps, r, m);
    OffMonotone(ps, m, |ps|);
  }

  lemma FreeLast(slots: TxBufRing, ps: seq<Packet>, r: nat, m: nat)
    requires Loaded(slots, ps, r) && Parted(ps, r, m) && Torn(ps, r, m)
    ensures var a, h := Off(ps, m - 1) - Base(ps, r), Base(ps, r) + MAX_DESC_CNT - Off(ps, m - 1);
            && 0 <= a < DESC_CNT && 0 < h < |ps[m - 1].maps| && slots[a].skb != None && NextPos(slots, a) >= DESC_CNT
            && FreeFrom(slots, a) == TornRelease(slots, ps[m - 1], h)
  {
    hide InSlots, Base, Loaded, FreeAt, NextPos, FreeFrom, TornRelease;
    LapOf(slots, ps, r, m, m - 1);
    var b := Base(ps, r);
    FreeTorn(slots, Off(ps, m - 1), ps[m - 1], b);
    FreeStep(slots, Off(ps, m - 1) - b);
    FreeEnd(slots, NextPos(slots, Off(ps, m - 1) - b));
  }

  lemma FreeNoMore(slots: TxBufRing, ps: seq<Packet>, r: nat, m: nat)
    requires Loaded(slots, ps, r) && Parted(ps, r, m) && !Torn(ps, r, m)
    ensures var a := Off(ps, m) - Base(ps, r); 0 <= a < DESC_CNT && FreeFrom(slots, a) == []
  {
    hide InSlots, Base, Loaded, FreeFrom;
    Laps(slots, ps, r, m);
    var a := Off(ps, m) - Base(ps, r);
    if m == r { assert Off(ps, m) == Off(ps, r); }
    forall x | a <= x < DESC_CNT ensures slots[x].skb == None {
      Vacant(slots, ps, r, m, x);
    }
    SkipTo(slots, a, DESC_CNT);
    FreeEnd(slots, DESC_CNT);
  }

  /** The end of the loop: the packets of the first lap. */
  lemma FreeFirst(slots: TxBufRing, ps: seq<Packet>, r: nat, m: nat)
    requires Loaded(slots, ps, r) && Parted(ps, r, m)
    ensures var a, h := Off(ps, r) - Base(ps, r), Base(ps, r) + MAX_DESC_CNT - if m > r then Off(ps, m - 1) else 0;
            if Torn(ps, r, m) then
              0 < h < |ps[m - 1].maps| &&
              FreeFrom(slots, a) == Rels(ps, r, m - 1) + TornRelease(slots, ps[m - 1], h)
            else FreeFrom(slots, a) == Rels(ps, r, m)
  {
    hide InSlots, Base, Loaded, Parted, OnLap, FreeFrom, Rels, TornRelease, Off;
    PartedBounds(ps, r, m);
    Laps(slots, ps, r, m);
    var b := Base(ps, r);
    if Torn(ps, r, m) {
      FreeRun(slots, ps, r, m - 1, b);
      FreeLast(slots, ps, r, m);
    } else {
      FreeRun(slots, ps, r, m, b);
      FreeNoMore(slots, ps, r, m);
      assert Rels(ps, r, m) + [] == Rels(ps, r, m);
    }
  }

  lemma PartedBounds(ps: seq<Packet>, r: nat, m: nat)
    requires Parted(ps, r, m)
    ensures r <= m <= |ps|
  {
  }

  lemma FreeEnd(slots: TxBufRing, j: nat)
    requires j >= DESC_CNT
    ensures FreeFrom(slots, j) == [] && forall log: seq<Event> :: log + FreeFrom(slots, j) == log
  {
  }

  /** Where the loop meets nothing. */
  lemma Skips(slots: TxBufRing, ps: seq<Packet>, r: nat, m: nat)
    requires Loaded(slots, ps, r) && Parted(ps, r, m)
    ensures var a, b1 := Off(ps, r) - Base(ps, r), Base(ps, r) + MAX_DESC_CNT;
            if Off(ps, m) >= b1 then
              && Total(ps) >= b1 && Skipped(slots, 0, Off(ps, m) - b1) && Skipped(slots, Total(ps) - b1, a)
            else m == |ps| && Skipped(slots, 0, a)
  {
    hide InSlots, Base, Loaded, OnLap, Skipped, Torn;
    Laps(slots, ps, r, m);
    var b := Base(ps, r);
    if Off(ps, m) >= b + MAX_DESC_CNT {
      var b1 := b + MAX_DESC_CNT;
      forall x | 0 <= x < Off(ps, m) - b1 ensures slots[x].skb == None {
        Vacant(slots, ps, r, m, x);
      }
      SkipTo(slots, 0, Off(ps, m) - b1);
      forall x | Total(ps) - b1 <= x < Off(ps, r) - b ensures slots[x].skb == None {
        Vacant(slots, ps, r, m, x);
      }
      SkipTo(slots, Total(ps) - b1, Off(ps, r) - b);
    } else {
      forall x | 0 <= x < Off(ps, r) - b ensures slots[x].skb == None {
        Vacant(slots, ps, r, m, x);
      }
      SkipTo(slots, 0, Off(ps, r) - b);
    }
  }

  /** What bnx2_free_tx_skbs does to a ring: first the packets behind the link, then
      those before it. */
  lemma FreeAll(slots: TxBufRing, ps: seq<Packet>, r: nat, m: nat)
    requires Loaded(slots, ps, r) && Parted(ps, r, m)
    ensures FreeFrom(slots, 0) == Rels(ps, m, |ps|) + FreeFrom(slots, Off(ps, r) - Base(ps, r))
  {
    hide InSlots, Base, Loaded, OnLap, FreeFrom, Rels, Torn, Parted, Clears;
    PartedBounds(ps, r, m);
    Laps(slots, ps, r, m);
    Skips(slots, ps, r, m);
    if Off(ps, m) >= Base(ps, r) + MAX_DESC_CNT {
      FreeRun(slots, ps, m, |ps|, Base(ps, r) + MAX_DESC_CNT);
    } else {
      RelsNone(ps, m);
    }
  }

  lemma RelsNone(ps: seq<Packet>, i: nat)
    requires i <= |ps|
    ensures Rels(ps, i, i) == [] && forall log: seq<Event> :: Rels(ps, i, i) + log == log
  {
  }

  // ----- Everything is emptied -----

  lemma ClearFirst(slots: TxBufRing, ps: seq<Packet>, r: nat, m: nat, j: nat)
    requires Loaded(slots, ps, r) && Parted(ps, r, m) && r <= j < m
    ensures 0 <= Off(ps, j) - Base(ps, r) < DESC_CNT
    ensures Clears(slots, Off(ps, r) - Base(ps, r), Off(ps, j) - Base(ps, r))
  {
    hide InSlots, Base, Loaded, OnLap, Clears;
    Laps(slots, ps, r, m);
    LapOf(slots, ps, r, m, j);
    var b, x := Base(ps, r), Off(ps, j) - Base(ps, r);
    if Torn(ps, r, m) {
      FreeLast(slots, ps, r, m);
      if j == m - 1 { ClearsMore(slots, x, x); }
      ClearRun(slots, ps, r, m - 1, b, j, x);
    } else {
      ClearRun(slots, ps, r, m, b, j, x);
    }
  }

  lemma ClearSecond(slots: TxBufRing, ps: seq<Packet>, r: nat, m: nat, j: nat, x: nat)
    requires Loaded(slots, ps, r) && Parted(ps, r, m) && j < |ps| && x < DESC_CNT
    requires Clears(slots, Off(ps, r) - Base(ps, r), x) ||
             (m <= j && x == Off(ps, j) - Base(ps, r) - MAX_DESC_CNT)
    ensures Clears(slots, 0, x)
  {
    hide InSlots, Base, Loaded, OnLap, Clears, Torn, FreeFrom, Parted;
    PartedBounds(ps, r, m);
    Laps(slots, ps, r, m);
    Skips(slots, ps, r, m);
    var b1 := Base(ps, r) + MAX_DESC_CNT;
    if Off(ps, m) >= b1 {
      ClearRun(slots, ps, m, |ps|, b1, j, x);
    }
  }

  /** bnx2_free_tx_skbs leaves a ring without buffers. */
  lemma Emptied(slots: TxBufRing, ps: seq<Packet>, r: nat)
    requires Loaded(slots, ps, r)
    ensures forall x: nat :: x < DESC_CNT ==> Clears(slots, 0, x)
  {
    hide InSlots, Base, Parted, Clears;
    var m := Part(ps, r);
    PartedBounds(ps, r, m);
    forall x: nat | x < DESC_CNT ensures Clears(slots, 0, x) {
      if slots[x].skb == None {
        ClearsEmpty(slots, 0, x);
      } else {
        assert HeadSlot(ps, r, x);
        var j: nat :| r <= j < |ps| && x == Slot(Off(ps, j));
        LapOf(slots, ps, r, m, j);
        if j < m { ClearFirst(slots, ps, r, m, j); }
        ClearSecond(slots, ps, r, m, j, x);
      }
    }
  }

  // ----- What is freed and unmapped in all -----

  ghost function MapsIn(log: seq<Event>): multiset<int> { multiset(Unmapped(log)) }
  ghost function SkbsIn(log: seq<Event>): multiset<int> { multiset(Freed(log)) }

  lemma InAppend(a: seq<Event>, b: seq<Event>)
    ensures MapsIn(a + b) == MapsIn(a) + MapsIn(b) && SkbsIn(a + b) == SkbsIn(a) + SkbsIn(b)
  {
    FreedAppend(a, b);
  }

  lemma InRelease(maps: seq<int>, skb: int)
    ensures MapsIn(Unmaps(maps) + [Free(skb)]) == multiset(maps)
    ensures SkbsIn(Unmaps(maps) + [Free(skb)]) == multiset{skb}
  {
    ReleaseInOrder(Packet(skb, false, maps));
  }

  lemma {:induction false} InRels(ps: seq<Packet>, i: nat, k: nat)
    requires i <= k <= |ps|
    ensures MapsIn(Rels(ps, i, k)) + MapsFrom(ps, k) == MapsFrom(ps, i)
    ensures SkbsIn(Rels(ps, i, k)) + SkbsFrom(ps, k) == SkbsFrom(ps, i)
    decreases k - i
  {
    hide MapsIn, SkbsIn, Unmaps, MapsFrom, SkbsFrom;
    if i < k {
      var log := Rels(ps, i + 1, k);
      InRels(ps, i + 1, k);
      InRelease(ps[i].maps, ps[i].skb);
      InAppend(Release(ps[i]), log);
      FromStep(ps, i);
      Regrouped(multiset(ps[i].maps), MapsIn(log), MapsFrom(ps, k));
      Regrouped(multiset{ps[i].skb}, SkbsIn(log), SkbsFrom(ps, k));
    } else {
      InNothing();
    }
  }

  lemma Regrouped(a: multiset<int>, b: multiset<int>, c: multiset<int>)
    ensures a + b + c == a + (b + c)
  {
  }

  lemma InNothing()
    ensures MapsIn([]) == multiset{} == SkbsIn([])
  {
    NothingInNothing();
  }

  lemma TornTotal(maps: seq<int>, h: nat, link: int)
    requires h < |maps|
    ensures multiset(TornMaps(maps, h, link)) + multiset{maps[|maps| - 1]} == multiset(maps) + multiset{link}
  {
    var a, b := maps[..h], maps[h..|maps| - 1];
    assert maps == a + b + [maps[|maps| - 1]];
    assert TornMaps(maps, h, link) == a + [link] + b;
  }

  lemma SameLap(b: nat, x: nat, y: nat)
    requires b % MAX_DESC_CNT == 0 && b <= x <= y
    ensures x < b + MAX_DESC_CNT ==> (x / MAX_DESC_CNT < y / MAX_DESC_CNT <==> y >= b + MAX_DESC_CNT)
  {
    var q := b / MAX_DESC_CNT;
    assert b == 255 * q;
  }

  lemma StraddlesIff(slots: TxBufRing, ps: seq<Packet>, r: nat, m: nat, j: nat)
    requires Loaded(slots, ps, r) && Parted(ps, r, m) && r <= j < |ps|
    ensures Straddles(ps, j) <==> j + 1 == m && Torn(ps, r, m)
  {
    hide InSlots, Base, Loaded, Slot;
    LapOf(slots, ps, r, m, j);
    var b := Base(ps, r);
    if j < m {
      SameLap(b, Off(ps, j), Off(ps, j + 1) - 1);
    } else {
      SameLap(b + MAX_DESC_CNT, Off(ps, j), Off(ps, j + 1) - 1);
    }
  }

  lemma TeardownWhole(slots: TxBufRing, ps: seq<Packet>, r: nat, m: nat)
    requires Loaded(slots, ps, r) && Parted(ps, r, m) && !Torn(ps, r, m)
    ensures SkbsIn(FreeFrom(slots, 0)) == SkbsFrom(ps, r) && MapsIn(FreeFrom(slots, 0)) == MapsFrom(ps, r)
  {
    hide InSlots, Base, Loaded, FreeFrom, Rels, MapsIn, SkbsIn, MapsFrom, SkbsFrom, Parted, Torn;
    PartedBounds(ps, r, m);
    FreeAll(slots, ps, r, m);
    FreeFirst(slots, ps, r, m);
    InAppend(Rels(ps, m, |ps|), Rels(ps, r, m));
    InRels(ps, m, |ps|);
    InRels(ps, r, m);
    FromEnd(ps);
  }

  lemma TeardownTorn(slots: TxBufRing, ps: seq<Packet>, r: nat, m: nat)
    requires Loaded(slots, ps, r) && Parted(ps, r, m) && Torn(ps, r, m) && |ps[m - 1].maps| > 0
    ensures SkbsIn(FreeFrom(slots, 0)) == SkbsFrom(ps, r)
    ensures var last, link := ps[m - 1].maps[|ps[m - 1].maps| - 1], slots[MAX_DESC_CNT].mapping;
            && MapsIn(FreeFrom(slots, 0)) + multiset{last} == MapsFrom(ps, r) + multiset{link}
            && (MapsIn(FreeFrom(slots, 0)) == MapsFrom(ps, r) <==> last == link)
  {
    hide InSlots, Base, Loaded, FreeFrom, Rels, TornRelease, MapsIn, SkbsIn, MapsFrom, SkbsFrom, Parted;
    PartedBounds(ps, r, m);
    FreeAll(slots, ps, r, m);
    FreeFirst(slots, ps, r, m);
    var h := Base(ps, r) + MAX_DESC_CNT - Off(ps, m - 1);
    var log := Rels(ps, r, m - 1) + TornRelease(slots, ps[m - 1], h);
    InAppend(Rels(ps, m, |ps|), log);
    InRels(ps, m, |ps|);
    FromEnd(ps);
    FreeTornTotals(slots, ps, r, m - 1, h);
    TornSum(MapsFrom(ps, r), MapsFrom(ps, m), MapsIn(log), ps[m - 1].maps[|ps[m - 1].maps| - 1],
            slots[MAX_DESC_CNT].mapping);
  }

  /** Every buffer in flight is freed once. Every mapping in force is undone once if
      and only if no packet in flight lies across the link, or by chance the mapping
      in the link slot is the one that is left out, the last one of that packet. */
  lemma Teardown(slots: TxBufRing, ps: seq<Packet>, r: nat) returns (j: nat)
    requires Loaded(slots, ps, r)
    ensures SkbsIn(FreeFrom(slots, 0)) == SkbsFrom(ps, r)
    ensures AcrossLink(ps, r) <==> j < |ps|
    ensures j >= |ps| ==> MapsIn(FreeFrom(slots, 0)) == MapsFrom(ps, r)
    ensures j < |ps| ==>
              && r <= j && Straddles(ps, j) && |ps[j].maps| > 0
              && var last, link := ps[j].maps[|ps[j].maps| - 1], slots[MAX_DESC_CNT].mapping;
                 && MapsIn(FreeFrom(slots, 0)) + multiset{last} == MapsFrom(ps, r) + multiset{link}
                 && (MapsIn(FreeFrom(slots, 0)) == MapsFrom(ps, r) <==> last == link)
  {
    hide InSlots, Base, Loaded, FreeFrom, MapsIn, SkbsIn, MapsFrom, SkbsFrom, Straddles, Parted;
    LoadedBounds(slots, ps, r);
    var m := Part(ps, r);
    PartedBounds(ps, r, m);
    forall i: nat | r <= i < |ps| ensures Straddles(ps, i) <==> i + 1 == m && Torn(ps, r, m) {
      StraddlesIff(slots, ps, r, m, i);
    }
    if Torn(ps, r, m) {
      j := m - 1;
      LapOf(slots, ps, r, m, j);
      assert Straddles(ps, j);
      TeardownTorn(slots, ps, r, m);
    } else {
      j := |ps|;
      TeardownWhole(slots, ps, r, m);
    }
  }

  lemma LoadedBounds(slots: TxBufRing, ps: seq<Packet>, r: nat)
    requires Loaded(slots, ps, r)
    ensures r <= |ps|
  {
  }

  lemma FromEnd(ps: seq<Packet>)
    ensures MapsFrom(ps, |ps|) == multiset{} == SkbsFrom(ps, |ps|)
  {
  }

  lemma TornSum(all: multiset<int>, behind: multiset<int>, before: multiset<int>, last: int, link: int)
    requires before + multiset{last} + behind == all + multiset{link}
    ensures behind + before + multiset{last} == all + multiset{link}
    ensures behind + before == all <==> last == link
  {
    if last != link {
      assert (behind + before)[last] + 1 == (before + multiset{last} + behind)[last] == all[last];
    } else {
      forall x ensures (behind + before)[x] == all[x] {
        assert (before + multiset{last} + behind)[x] == (all + multiset{link})[x];
      }
    }
  }

  lemma FreeTornTotals(slots: TxBufRing, ps: seq<Packet>, r: nat, j: nat, h: nat)
    requires r <= j < |ps| && h < |ps[j].maps|
    ensures var log := Rels(ps, r, j) + TornRelease(slots, ps[j], h);
            && SkbsIn(log) + SkbsFrom(ps, j + 1) == SkbsFrom(ps, r)
            && MapsIn(log) + multiset{ps[j].maps[|ps[j].maps| - 1]} + MapsFrom(ps, j + 1) ==
               MapsFrom(ps, r) + multiset{slots[MAX_DESC_CNT].mapping}
  {
    hide MapsIn, SkbsIn, Rels, TornMaps, Unmaps, MapsFrom, SkbsFrom;
    var p, link := ps[j], slots[MAX_DESC_CNT].mapping;
    InRels(ps, r, j);
    InRelease(TornMaps(p.maps, h, link), p.skb);
    InAppend(Rels(ps, r, j), TornRelease(slots, p, h));
    TornTotal(p.maps, h, link);
    FromStep(ps, j);
    Exchanged(MapsIn(Rels(ps, r, j)), multiset(TornMaps(p.maps, h, link)), multiset(p.maps), MapsFrom(ps, j + 1),
              multiset{p.maps[|p.maps| - 1]}, multiset{link});
  }

  lemma FromStep(ps: seq<Packet>, j: nat)
    requires j < |ps|
    ensures MapsFrom(ps, j) == multiset(ps[j].maps) + MapsFrom(ps, j + 1)
    ensures SkbsFrom(ps, j) == multiset{ps[j].skb} + SkbsFrom(ps, j + 1)
  {
  }

  lemma Exchanged(before: multiset<int>, torn: multiset<int>, maps: multiset<int>, behind: multiset<int>,
                  last: multiset<int>, link: multiset<int>)
    requires torn + last == maps + link
    ensures before + torn + last + behind == before + (maps + behind) + link
  {
    assert before + torn + last + behind == before + (torn + last) + behind;
  }

  // ----- Over every run -----

  /** The first slot of a packet that is not posted yet has its buffer. */
  predicate Posting(x: XmitPc) {
    (x.XMap? && x.i > 0) || (x.XUndo? && x.i == 0 < x.n) || x.XDoorbell?
  }

  ghost predicate HeadsOnly(s: State) {
    Heads(s.slots, s.posted, Whole(s.tpc, s.released), Posting(s.xpc))
  }

  /** What prod stands for. */
  lemma ProdAt(s: State)
    requires Inv(s)
    ensures s.xpc.XMap? ==> RingIdx(s.xpc.prod) == Slot(Total(s.posted) + s.xpc.i)
    ensures s.xpc.XUndo? ==> RingIdx(s.xpc.prod) == Slot(Total(s.posted) + s.xpc.i)
    ensures Whole(s.tpc, s.released) <= |s.posted|
  {
    hide Slots, Owned, TxIntOk, WakeCheckOk, WakePending, Space, Idx, RingIdx, Normalize, RestsLegally, InSlots,
      MapsInSlots, HeadInSlot, Slot, Off;
    if s.xpc.XMap? || s.xpc.XUndo? { RingIdxOfIdx(Total(s.posted) + s.xpc.i); }
  }

  lemma MapKeepsHeads(s: State, pkt: Packet, mapped: bool)
    requires HeadsOnly(s) && s.xpc.XMap? && RingIdx(s.xpc.prod) == Slot(Total(s.posted) + s.xpc.i)
    ensures HeadsOnly(XmitStep(MAX_DESC_CNT, s, pkt, mapped))
  {
    hide Heads, RingIdx, NextBd, Slot, Total;
    var XMap(p, i, prod) := s.xpc;
    var w := Whole(s.tpc, s.released);
    if i < |p.maps| && mapped {
      if i == 0 {
        HeadsBegin(s.slots, s.posted, w, SwTxBd(Some(p.skb), p.maps[0], p.isGso, |p.maps| - 1));
      } else {
        HeadsSame(s.slots, s.posted, w, true, RingIdx(prod), s.slots[RingIdx(prod)].(mapping := p.maps[i]));
      }
    } else if i >= |p.maps| {
      HeadsWider(s.slots, s.posted, w, i > 0);
    }
  }

  lemma HeadsWider(slots: TxBufRing, ps: seq<Packet>, r: nat, posting: bool)
    requires Heads(slots, ps, r, posting)
    ensures Heads(slots, ps, r, true)
  {
  }

  lemma UndoKeepsHeads(s: State, pkt: Packet, mapped: bool)
    requires HeadsOnly(s) && s.xpc.XUndo? && RingIdx(s.xpc.prod) == Slot(Total(s.posted) + s.xpc.i)
    ensures HeadsOnly(XmitStep(MAX_DESC_CNT, s, pkt, mapped))
  {
    hide Heads, RingIdx, NextBd, Slot, Total;
    var XUndo(p, n, i, prod) := s.xpc;
    var w, bd := Whole(s.tpc, s.released), s.slots[RingIdx(prod)];
    if i < n {
      if i == 0 {
        HeadsUndo(s.slots, s.posted, w, bd.(skb := None));
      } else {
        HeadsSame(s.slots, s.posted, w, false, RingIdx(prod), bd);
      }
    }
  }

  lemma DoorbellKeepsHeads(s: State, pkt: Packet, mapped: bool)
    requires HeadsOnly(s) && s.xpc.XDoorbell? && Whole(s.tpc, s.released) <= |s.posted|
    ensures HeadsOnly(XmitStep(MAX_DESC_CNT, s, pkt, mapped))
  {
    hide Heads;
    HeadsPost(s.slots, s.posted, Whole(s.tpc, s.released), s.xpc.pkt);
  }

  lemma XmitKeepsHeads(s: State, pkt: Packet, mapped: bool)
    requires Inv(s) && HeadsOnly(s)
    ensures HeadsOnly(XmitStep(MAX_DESC_CNT, s, pkt, mapped))
  {
    hide Inv, Heads, Avail, RingIdx, NextBd, Slot, Total;
    ProdAt(s);
    if s.xpc.XMap? {
      MapKeepsHeads(s, pkt, mapped);
    } else if s.xpc.XUndo? {
      UndoKeepsHeads(s, pkt, mapped);
    } else if s.xpc.XDoorbell? {
      DoorbellKeepsHeads(s, pkt, mapped);
    }
  }

  lemma TxIntKeepsHeads(s: State, budget: nat)
    requires Inv(s) && HeadsOnly(s)
    ensures HeadsOnly(TxIntStep(MAX_DESC_CNT, s, budget))
  {
    hide Heads, Slots, Owned, XmitOk, WakeCheckOk, WakePending, Avail, Idx, RingIdx, NextBd, Normalize, RestsLegally,
      InSlots, MapsInSlots, HeadInSlot, Slot, Off, NotYetPassed, TxIntStep, Inv;
    if s.tpc.TLoop? && !TxIntStep(MAX_DESC_CNT, s, budget).tpc.TPublishHw? {
      TLoopStarts(s, budget);
      var n := Slot(Off(s.posted, s.released));
      HeadsTake(s.slots, s.posted, s.released, Posting(s.xpc), s.slots[n].(skb := None));
    } else {
      SlotsStay(s, budget);
    }
  }

  lemma SlotsStay(s: State, budget: nat)
    requires !s.tpc.TLoop? || TxIntStep(MAX_DESC_CNT, s, budget).tpc.TPublishHw?
    ensures var t := TxIntStep(MAX_DESC_CNT, s, budget);
            && t.slots == s.slots && t.posted == s.posted && t.xpc == s.xpc
            && Whole(t.tpc, t.released) == Whole(s.tpc, s.released)
  {
    hide TxIntStep, Whole;
    if s.tpc.TLoop? || s.tpc.TFrag? {
      SlotsStayInLoop(s, budget);
    } else {
      SlotsStayOutside(s, budget);
    }
  }

  lemma SlotsStayInLoop(s: State, budget: nat)
    requires s.tpc.TFrag? || (s.tpc.TLoop? && TxIntStep(MAX_DESC_CNT, s, budget).tpc.TPublishHw?)
    ensures var t := TxIntStep(MAX_DESC_CNT, s, budget);
            && t.slots == s.slots && t.posted == s.posted && t.xpc == s.xpc
            && Whole(t.tpc, t.released) == Whole(s.tpc, s.released)
  {
    hide Avail, RingIdx, NextBd, Normalize, NotYetPassed, WakeThresh;
  }

  lemma SlotsStayOutside(s: State, budget: nat)
    requires !s.tpc.TLoop? && !s.tpc.TFrag?
    ensures var t := TxIntStep(MAX_DESC_CNT, s, budget);
            && t.slots == s.slots && t.posted == s.posted && t.xpc == s.xpc
            && Whole(t.tpc, t.released) == Whole(s.tpc, s.released)
  {
    hide Avail, RingIdx, NextBd, Normalize, NotYetPassed, WakeThresh;
  }

  lemma NextKeepsHeads(s: State, s': State)
    requires Inv(s) && HeadsOnly(s) && Next(MAX_DESC_CNT, s, s')
    ensures HeadsOnly(s')
  {
    hide Inv, HeadsOnly, XmitStep, TxIntStep, XmitEnabled, TxIntEnabled;
    if exists pkt, mapped :: XmitEnabled(s, pkt) && s' == XmitStep(MAX_DESC_CNT, s, pkt, mapped) {
      var pkt, mapped :| XmitEnabled(s, pkt) && s' == XmitStep(MAX_DESC_CNT, s, pkt, mapped);
      XmitKeepsHeads(s, pkt, mapped);
    } else if exists budget :: TxIntEnabled(s) && s' == TxIntStep(MAX_DESC_CNT, s, budget) {
      var budget :| TxIntEnabled(s) && s' == TxIntStep(MAX_DESC_CNT, s, budget);
      TxIntKeepsHeads(s, budget);
    } else {
      SameHeads(s, s');
    }
  }

  lemma SameHeads(s: State, s': State)
    requires HeadsOnly(s) && DeviceStep(s, s')
    ensures HeadsOnly(s')
  {
    hide Heads, RestsLegally, Normalize;
  }

  lemma InitHeads(s: State)
    requires Init(s)
    ensures HeadsOnly(s)
  {
  }

  lemma {:induction false} RunHeads(run: seq<State>, i: nat)
    requires IsRun(MAX_DESC_CNT, run) && i < |run|
    ensures HeadsOnly(run[i])
  {
    hide Inv, Next, Init, HeadsOnly;
    if i == 0 {
      InitHeads(run[0]);
    } else {
      RunHeads(run, i - 1);
      RunInv(run, i - 1);
      NextKeepsHeads(run[i - 1], run[i]);
    }
  }

  /** Between two calls the ring holds exactly the packets in flight. */
  lemma LoadedAtRest(s: State)
    requires Reachable(MAX_DESC_CNT, s) && s.xpc.XIdle? && s.tpc.TIdle?
    ensures Loaded(s.slots, s.posted, s.released)
  {
    hide Inv, Next, Init, HeadsOnly, Loaded;
    var run :| IsRun(MAX_DESC_CNT, run) && s == run[|run| - 1];
    RunHeads(run, |run| - 1);
    ReachableInv(s);
    RestIsLoaded(s);
  }

  lemma RestIsLoaded(s: State)
    requires Inv(s) && HeadsOnly(s) && s.xpc.XIdle? && s.tpc.TIdle?
    ensures Loaded(s.slots, s.posted, s.released)
  {
    hide Heads, Slots, Owned, XmitOk, WakeCheckOk, WakePending, Idx, Normalize, RestsLegally;
  }

  /** After any run, once nothing is running any more: bnx2_free_tx_skbs frees exactly
      the buffers that the driver owns, once each, and leaves a ring without
      buffers. It undoes exactly the mappings in force if and only if no packet in
      flight lies across the link, or the last mapping of that packet happens to be
      the one in the link slot; otherwise that last mapping stays in force and the
      one in the link slot is undone. */
  lemma FreesAtRest(s: State) returns (j: nat)
    requires Reachable(MAX_DESC_CNT, s) && s.xpc.XIdle? && s.tpc.TIdle?
    ensures s.released <= |s.posted|
    ensures SkbsIn(FreeFrom(s.slots, 0)) == s.skbs
    ensures forall x: nat :: x < DESC_CNT ==> Clears(s.slots, 0, x)
    ensures AcrossLink(s.posted, s.released) <==> j < |s.posted|
    ensures !AcrossLink(s.posted, s.released) ==> MapsIn(FreeFrom(s.slots, 0)) == s.live
    ensures AcrossLink(s.posted, s.released) ==>
              && s.released <= j && Straddles(s.posted, j) && |s.posted[j].maps| > 0
              && var last, link := s.posted[j].maps[|s.posted[j].maps| - 1], s.slots[MAX_DESC_CNT].mapping;
                 && MapsIn(FreeFrom(s.slots, 0)) + multiset{last} == s.live + multiset{link}
                 && (MapsIn(FreeFrom(s.slots, 0)) == s.live <==> last == link)
  {
    hide Reachable, Loaded, Clears, FreeFrom, MapsIn, SkbsIn, AcrossLink, Straddles;
    LoadedAtRest(s);
    NothingLeaks(s);
    Emptied(s.slots, s.posted, s.released);
    j := Teardown(s.slots, s.posted, s.released);
  }

  /** A run after which it fails to: 254 packets of one descriptor, posted and
      reclaimed, and then one of two. */
  lemma MappingLeft(s0: State) returns (s: State)
    requires Init(s0)
    ensures Reachable(MAX_DESC_CNT, s) && s.xpc.XIdle? && s.tpc.TIdle?
    ensures MapsIn(FreeFrom(s.slots, 0)) != s.live
  {
    hide Reachable, Avail, Idx, MapsIn, FreeFrom;
    var t := Cycle(MAX_DESC_CNT, s0, 254);
    AvailSound(254, 254);
    AvailSound(254, 256);
    var pkt := Packet(0, false, [0, t.slots[MAX_DESC_CNT].mapping + 1]);
    s := Post(MAX_DESC_CNT, t, 254, 254, pkt);
    var k := |t.posted|;
    TotalAppend(t.posted, pkt);
    assert Off(s.posted, k) == 254 && Straddles(s.posted, k);
    var j := FreesAtRest(s);
  }
}
