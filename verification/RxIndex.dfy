/** Indices of the bnx2 receive rings, which chain up to 16 pages of 256 slots,
    and the walk that the device makes over the same pages. */
module RxIndex {
  import opened RingIndex
  import opened Modulo

  /** rx_max_ring and the like: the pages of a ring. */
  type Pages = p: nat | p == 1 || p == 2 || p == 4 || p == 8 || p == 16 witness 1

  /** Descriptors in a ring. */
  function Capacity(pages: Pages): nat {
    MAX_DESC_CNT * pages
  }

  /** RX_RING_IDX and RX_PG_RING_IDX: masking with 256 * pages - 1. */
  function Mask(pages: Pages, x: nat): (r: nat)
    ensures r < DESC_CNT * pages
  {
    x % (DESC_CNT * pages)
  }

  /** The page of the ring that the q-th page of the walk is. */
  function PageMod(pages: Pages, q: nat): (r: nat)
    ensures r < pages
  {
    q % pages
  }

  /** The ring slot of descriptor number n. */
  function RxSlot(pages: Pages, n: nat): (r: nat)
    ensures r < DESC_CNT * pages
  {
    Mask(pages, Idx(n))
  }

  /** RX_RING and RX_IDX of a ring slot. */
  function PageOf(x: nat): nat { x / DESC_CNT }
  function WithinPage(x: nat): nat { x % DESC_CNT }

  lemma MaskIsTheBitMask(x: bv16)
    ensures x & 255 == x % 256 && x & 511 == x % 512 && x & 1023 == x % 1024
    ensures x & 2047 == x % 2048 && x & 4095 == x % 4096
  {
  }

  /** Masking forgets the wrap at 2^16, because the number of slots divides it. */
  lemma MaskMod(pages: Pages, x: nat)
    ensures Mask(pages, x % 0x1_0000) == Mask(pages, x)
  {
    var m, e := DESC_CNT * pages, 256 / pages;
    var k, y := x / 0x1_0000, x % 0x1_0000;
    assert m * e == 0x1_0000 && x == 0x1_0000 * k + y;
    Associate(m, e, k);
    Distribute(m, e * k, y / m);
    ModIs(x, m, e * k + y / m, y % m);
  }

  lemma Columns(pages: Pages, q: nat, r: nat)
    requires r < MAX_DESC_CNT + 1
    ensures Mask(pages, DESC_CNT * q + r) == DESC_CNT * PageMod(pages, q) + r
  {
    var m, p, t := DESC_CNT * pages, q % pages, q / pages;
    Associate(DESC_CNT, pages, t);
    ModIs(DESC_CNT * q + r, m, t, DESC_CNT * p + r);
  }

  /** Page and position of descriptor n. */
  lemma SlotParts(pages: Pages, n: nat)
    ensures RxSlot(pages, n) == DESC_CNT * PageMod(pages, n / MAX_DESC_CNT) + n % MAX_DESC_CNT
    ensures PageOf(RxSlot(pages, n)) == PageMod(pages, n / MAX_DESC_CNT)
    ensures WithinPage(RxSlot(pages, n)) == n % MAX_DESC_CNT
  {
    hide Mask, PageMod;
    var q, r := n / MAX_DESC_CNT, n % MAX_DESC_CNT;
    MaskMod(pages, n + q);
    Columns(pages, q, r);
    assert n + q == DESC_CNT * q + r;
  }

  lemma PageModPlus(pages: Pages, q: nat, d: nat)
    requires d <= pages
    ensures PageMod(pages, q + d) == if PageMod(pages, q) + d < pages then PageMod(pages, q) + d
                                     else PageMod(pages, q) + d - pages
  {
    var a, t := q % pages, q / pages;
    Distribute(pages, t, 1);
    if a + d < pages { ModIs(q + d, pages, t, a + d); } else { ModIs(q + d, pages, t + 1, a + d - pages); }
  }

  /** Descriptors less than one lap apart have different slots, none of them a
      link; one lap apart they have the same. */
  lemma SlotsDiffer(pages: Pages, m: nat, n: nat)
    requires m <= n <= m + Capacity(pages)
    ensures RxSlot(pages, m) == RxSlot(pages, n) <==> m == n || n == m + Capacity(pages)
    ensures WithinPage(RxSlot(pages, n)) < MAX_DESC_CNT
  {
    hide RxSlot, PageMod;
    SlotParts(pages, m);
    SlotParts(pages, n);
    if m % 255 == n % 255 {
      assert n - m == 255 * (n / 255 - m / 255);
      PageModPlus(pages, m / 255, n / 255 - m / 255);
    }
  }

  /** Stepping a masked index and masking again is stepping the free-running one. */
  lemma NextSlot(pages: Pages, n: nat)
    ensures RxSlot(pages, n) < 0x1_0000
    ensures Mask(pages, NextBd(RxSlot(pages, n))) == RxSlot(pages, n + 1)
  {
    hide PageMod, RxSlot, Mask;
    SlotParts(pages, n);
    SlotParts(pages, n + 1);
    Step255(n);
    var x, p, r := RxSlot(pages, n), PageMod(pages, n / MAX_DESC_CNT), n % MAX_DESC_CNT;
    PageModPlus(pages, n / MAX_DESC_CNT, 1);
    StepOnPage(pages, p, r);
    assert x == DESC_CNT * p + r;
  }

  lemma Step255(n: nat)
    ensures (n + 1) / MAX_DESC_CNT == if n % MAX_DESC_CNT == 254 then n / MAX_DESC_CNT + 1 else n / MAX_DESC_CNT
    ensures (n + 1) % MAX_DESC_CNT == if n % MAX_DESC_CNT == 254 then 0 else n % MAX_DESC_CNT + 1
  {
  }

  /** The step from slot r of page p. */
  lemma StepOnPage(pages: Pages, p: nat, r: nat)
    requires p < pages && r < MAX_DESC_CNT
    ensures DESC_CNT * p + r < 0x1_0000
    ensures Mask(pages, NextBd(DESC_CNT * p + r)) ==
            if r < 254 then DESC_CNT * p + r + 1 else if p + 1 == pages then 0 else DESC_CNT * (p + 1)
  {
    hide Mask, PageMod;
    var x := DESC_CNT * p + r;
    assert x % DESC_CNT == r;
    if r < 254 { SmallMask(pages, x + 1); } else { StepToPage(pages, p); MaskMod(pages, x + 2); }
  }

  lemma SmallMask(pages: Pages, x: nat)
    requires x < DESC_CNT * pages
    ensures Mask(pages, x) == x && x < 0x1_0000
  {
  }

  lemma StepToPage(pages: Pages, p: nat)
    requires p < pages
    ensures Mask(pages, DESC_CNT * p + 256) == if p + 1 == pages then 0 else DESC_CNT * (p + 1)
  {
    Columns(pages, p + 1, 0);
    PageModPlus(pages, p, 1);
    PageModSmall(pages, p);
  }

  lemma PageModSmall(pages: Pages, p: nat)
    requires p < pages
    ensures PageMod(pages, p) == p
  {
  }

  /** Within a lap of the largest ring the index identifies the descriptor. */
  lemma RxIdxInjective(m: nat, n: nat)
    requires m <= n <= m + MAX_DESC_CNT * 16
    ensures Idx(m) == Idx(n) <==> m == n
  {
    var a, b := m + m / 255, n + n / 255;
    assert 0 <= n / 255 - m / 255 <= 16;
    SubMod(a, b);
  }

  // ----- The device's walk -----

  /** struct rx_bd. */
  datatype RxBd = RxBd(addr: int, len: nat, flags: nat)

  /** RX_BD_FLAGS_START | RX_BD_FLAGS_END. */
  const START_END := 12

  /** Where the device is: the bus address of a ring page and a slot in it. */
  datatype Position = Position(base: int, slot: nat)

  predicate Distinct(dma: seq<int>) {
    forall i, j :: 0 <= i < j < |dma| ==> dma[i] != dma[j]
  }

  /** The slot number, counted over all pages, of the link descriptor that ends the
      page at this bus address. */
  ghost function LinkAt(dma: seq<int>, base: int): nat
    requires base in dma
  {
    var i :| 0 <= i < |dma| && dma[i] == base;
    DESC_CNT * i + MAX_DESC_CNT
  }

  /** The page that follows page i. */
  function After(i: nat, pages: nat): nat {
    if i + 1 == pages then 0 else i + 1
  }

  /** The last descriptor of page i leads to the next page, that of the last page to
      the first. */
  ghost predicate Chained(desc: seq<RxBd>, dma: seq<int>) {
    && |desc| == DESC_CNT * |dma|
    && forall i :: 0 <= i < |dma| ==> desc[DESC_CNT * i + MAX_DESC_CNT].addr == dma[After(i, |dma|)]
  }

  /** Consuming one descriptor: when the next one is a link, it is followed. */
  ghost function DeviceNext(desc: seq<RxBd>, dma: seq<int>, at: Position): Position
    requires Chained(desc, dma)
  {
    if at.slot + 1 < MAX_DESC_CNT || at.base !in dma then at.(slot := at.slot + 1)
    else LinkInRange(dma, at.base); Position(desc[LinkAt(dma, at.base)].addr, 0)
  }

  lemma LinkInRange(dma: seq<int>, base: int)
    requires base in dma
    ensures LinkAt(dma, base) < DESC_CNT * |dma|
  {
  }

  /** The device starts at the first page's address, NX_BDHADDR. */
  ghost function DeviceWalk(desc: seq<RxBd>, dma: seq<int>, n: nat): Position
    requires Chained(desc, dma) && |dma| > 0
  {
    if n == 0 then Position(dma[0], 0) else DeviceNext(desc, dma, DeviceWalk(desc, dma, n - 1))
  }

  /** After n descriptors the device is on the page and at the slot that the driver
      computes from NEXT_RX_BD applied n times. */
  lemma {:induction false} WalksAgree(pages: Pages, desc: seq<RxBd>, dma: seq<int>, n: nat)
    requires |dma| == pages && Distinct(dma) && Chained(desc, dma)
    ensures var x := Mask(pages, Advance(0, n));
            PageOf(x) < pages && DeviceWalk(desc, dma, n) == Position(dma[PageOf(x)], WithinPage(x))
  {
    hide RxSlot, LinkAt, PageMod, Mask, Chained, DeviceNext, Advance, PageOf, WithinPage;
    AdvanceIdx(0, n);
    SlotIs(pages, n);
    SlotParts(pages, n);
    if n > 0 {
      WalksAgree(pages, desc, dma, n - 1);
      AdvanceIdx(0, n - 1);
      SlotIs(pages, n - 1);
      SlotParts(pages, n - 1);
      Step255(n - 1);
      PageModPlus(pages, (n - 1) / MAX_DESC_CNT, 1);
      DeviceStep(desc, dma, PageMod(pages, (n - 1) / MAX_DESC_CNT), (n - 1) % MAX_DESC_CNT);
    } else {
      PageModSmall(pages, 0);
    }
  }

  lemma DeviceStep(desc: seq<RxBd>, dma: seq<int>, p: nat, r: nat)
    requires Distinct(dma) && Chained(desc, dma) && p < |dma| && r < MAX_DESC_CNT
    ensures DeviceNext(desc, dma, Position(dma[p], r)) ==
            if r < 254 then Position(dma[p], r + 1) else Position(dma[if p + 1 == |dma| then 0 else p + 1], 0)
  {
    hide LinkAt;
    LinkIs(dma, p);
    assert After(p, |dma|) < |dma|;
  }

  lemma SlotIs(pages: Pages, n: nat)
    ensures RxSlot(pages, n) == Mask(pages, Idx(n)) && Idx(0) == 0
  {
  }

  lemma LinkIs(dma: seq<int>, i: nat)
    requires Distinct(dma) && i < |dma|
    ensures LinkAt(dma, dma[i]) == DESC_CNT * i + MAX_DESC_CNT
  {
  }

  /** Every descriptor that is not a link is for a buffer of this size, and a packet of
      its own. */
  predicate Sized(desc: seq<RxBd>, size: nat) {
    forall k :: 0 <= k < |desc| && WithinPage(k) < MAX_DESC_CNT ==> desc[k].len == size && desc[k].flags == START_END
  }

  lemma SizedKeep(desc: seq<RxBd>, size: nat, n: nat, bd: RxBd)
    requires Sized(desc, size) && n < |desc| && bd.len == desc[n].len && bd.flags == desc[n].flags
    ensures Sized(desc[n := bd], size)
  {
  }

  /** bnx2_init_rxbd_rings over one array of all pages. */
  method InitRxbdRings(desc: array<RxBd>, dma: seq<int>, bufSize: nat)
    requires desc.Length == DESC_CNT * |dma|
    modifies desc
    ensures Chained(desc[..], dma)
    ensures forall k :: 0 <= k < desc.Length && WithinPage(k) < MAX_DESC_CNT ==>
              desc[k] == RxBd(old(desc[k]).addr, bufSize, START_END)
    ensures forall k :: 0 <= k < desc.Length && WithinPage(k) == MAX_DESC_CNT ==>
              desc[k] == old(desc[k]).(addr := desc[k].addr)
  {
    var i := 0;
    while i < |dma|
      invariant 0 <= i <= |dma|
      invariant forall k :: 0 <= k < i ==> desc[DESC_CNT * k + MAX_DESC_CNT].addr == dma[After(k, |dma|)]
      invariant forall k :: 0 <= k < desc.Length && WithinPage(k) == MAX_DESC_CNT ==>
                  desc[k] == old(desc[k]).(addr := desc[k].addr)
      invariant forall k :: 0 <= k < DESC_CNT * i && WithinPage(k) < MAX_DESC_CNT ==>
                  desc[k] == RxBd(old(desc[k]).addr, bufSize, START_END)
      invariant forall k :: DESC_CNT * i <= k < desc.Length ==> desc[k] == old(desc[k])
    {
      var j := 0;
      while j < MAX_DESC_CNT
        invariant 0 <= j <= MAX_DESC_CNT
        invariant forall k :: 0 <= k < i ==> desc[DESC_CNT * k + MAX_DESC_CNT].addr == dma[After(k, |dma|)]
        invariant forall k :: 0 <= k < desc.Length && WithinPage(k) == MAX_DESC_CNT ==>
                    desc[k] == old(desc[k]).(addr := desc[k].addr)
        invariant forall k :: 0 <= k < DESC_CNT * i + j && WithinPage(k) < MAX_DESC_CNT ==>
                    desc[k] == RxBd(old(desc[k]).addr, bufSize, START_END)
        invariant forall k :: DESC_CNT * i + j <= k < desc.Length ==> desc[k] == old(desc[k])
      {
        desc[DESC_CNT * i + j] := desc[DESC_CNT * i + j].(len := bufSize, flags := START_END);
        j := j + 1;
      }
      j := if i == |dma| - 1 then 0 else i + 1;
      desc[DESC_CNT * i + MAX_DESC_CNT] := desc[DESC_CNT * i + MAX_DESC_CNT].(addr := dma[j]);
      i := i + 1;
    }
  }
}
