/** How bnx2_set_rx_ring_size chooses the receive rings: the pages of a ring are
    rounded up to a power of two so that an index can be masked. */
module RxSizing {
  import opened RingIndex
  import opened RxIndex
  import opened Modulo

  const PAGE_SIZE := 4096
  const MAX_RX_RINGS: nat := 4
  const MAX_RX_PG_RINGS: nat := 16
  const ETH_HLEN := 14
  const BNX2_RX_OFFSET := 18
  const BNX2_RX_ALIGN := 16
  const BNX2_RX_COPY_THRESH := 128

  predicate PowerOfTwo(n: nat) {
    n == 1 || (n > 0 && n % 2 == 0 && PowerOfTwo(n / 2))
  }

  /** (max & n) != 0 for a power of two max. */
  predicate HasBit(n: nat, max: nat)
    requires max > 0
  {
    n / max % 2 == 1
  }

  lemma HasBitIsTheMask(n: bv32)
    ensures (16 & n != 0 <==> n / 16 % 2 == 1) && (8 & n != 0 <==> n / 8 % 2 == 1) && (4 & n != 0 <==> n / 4 % 2 == 1)
    ensures (2 & n != 0 <==> n / 2 % 2 == 1) && (1 & n != 0 <==> n % 2 == 1)
  {
  }

  lemma {:induction false} PowerGap(a: nat, b: nat)
    requires PowerOfTwo(a) && PowerOfTwo(b) && a < b
    ensures 2 * a <= b
  {
    if a > 1 { PowerGap(a / 2, b / 2); }
  }

  lemma HighBit(n: nat, max: nat)
    requires 0 < n < 2 * max
    ensures HasBit(n, max) <==> n >= max
  {
    if n >= max { assert n / max == 1; } else { assert n / max == 0; }
  }

  /** The smallest power of two of ring pages that holds the descriptors. */
  predicate Least(pages: nat, ringSize: nat) {
    && PowerOfTwo(pages) && ringSize <= MAX_DESC_CNT * pages
    && forall p: nat :: PowerOfTwo(p) && ringSize <= MAX_DESC_CNT * p ==> pages <= p
  }

  lemma LeastIsPower(pages: nat, ringSize: nat)
    requires Least(pages, ringSize)
    ensures PowerOfTwo(pages)
  {
  }

  /** bnx2_find_max_ring. */
  method FindMaxRing(size: nat, maxSize: nat) returns (max: nat)
    requires PowerOfTwo(maxSize) && size <= MAX_DESC_CNT * maxSize
    ensures Least(max, size) && max <= maxSize
  {
    hide HasBit, PowerOfTwo;
    var ringSize, numRings := size, 1;
    while ringSize > MAX_DESC_CNT
      invariant ringSize >= 0 && size == ringSize + MAX_DESC_CNT * (numRings - 1)
      invariant numRings == 1 || ringSize > 0
      invariant numRings >= 1
    {
      ringSize := ringSize - MAX_DESC_CNT;
      numRings := numRings + 1;
    }
    max := maxSize;
    Half(maxSize);
    while !HasBit(numRings, max)
      invariant 0 < max <= maxSize && PowerOfTwo(max) && numRings < 2 * max
      decreases max
    {
      HighBit(numRings, max);
      Half(max);
      max := max / 2;
    }
    HighBit(numRings, max);
    Rounded(numRings, max, maxSize);
    if numRings != max {
      max := max * 2;
    }
    forall p: nat | PowerOfTwo(p) && size <= MAX_DESC_CNT * p ensures max <= p {
      Half(p);
    }
  }

  lemma Half(n: nat)
    requires PowerOfTwo(n)
    ensures n > 0 && (n > 1 ==> PowerOfTwo(n / 2) && n == 2 * (n / 2))
  {
  }

  lemma Rounded(n: nat, max: nat, maxSize: nat)
    requires PowerOfTwo(max) && PowerOfTwo(maxSize) && max <= n < 2 * max && n <= maxSize
    ensures PowerOfTwo(2 * max) && (n != max ==> 2 * max <= maxSize)
    ensures forall p: nat :: PowerOfTwo(p) && p >= n ==> p >= if n != max then 2 * max else max
  {
    assert 2 * max % 2 == 0 && 2 * max / 2 == max;
    if n != max { PowerGap(max, maxSize); }
    forall p: nat | PowerOfTwo(p) && p >= n ensures p >= if n != max then 2 * max else max {
      if n != max { PowerGap(max, p); }
    }
  }

  lemma PowersAreCounts(n: nat)
    requires PowerOfTwo(n) && n <= 16
    ensures n == 1 || n == 2 || n == 4 || n == 8 || n == 16
  {
    assert n / 2 <= 8 && n / 2 / 2 <= 4;
  }

  /** PAGE_ALIGN(n) >> PAGE_SHIFT. */
  function PagesFor(n: nat): nat {
    (n + PAGE_SIZE - 1) / PAGE_SIZE
  }

  /** What the kernel is built with: the alignment of SKB_DATA_ALIGN, NET_SKB_PAD and
      sizeof(struct skb_shared_info). */
  datatype Kernel = Kernel(cacheBytes: Positive, netSkbPad: nat, sharedInfo: nat)

  type Positive = n: nat | n > 0 witness 1

  function RoundUp(n: nat, a: Positive): nat {
    (n + a - 1) / a * a
  }

  /** As many pages as hold n bytes, and no more. */
  lemma PagesForIs(n: nat)
    ensures 4096 * PagesFor(n) >= n && (n > 0 ==> 4096 * (PagesFor(n) - 1) < n)
  {
  }

  /** A buffer for a whole frame: 8 for CRC and VLAN. */
  function RxSize(mtu: nat): nat {
    mtu + ETH_HLEN + BNX2_RX_OFFSET + 8
  }

  /** Frames are split between a buffer and pages when a buffer for a whole frame
      would take more than a page, and the chip can do it. */
  predicate Splits(mtu: nat, k: Kernel, jumboBroken: bool) {
    RoundUp(RxSize(mtu) + BNX2_RX_ALIGN, k.cacheBytes) + k.netSkbPad + k.sharedInfo > PAGE_SIZE && !jumboBroken
  }

  /** There is one MTU from which on they are. */
  lemma SplitsFrom(mtu: nat, k: Kernel)
    requires k.netSkbPad + k.sharedInfo <= PAGE_SIZE
    ensures Splits(mtu, k, false) <==>
            mtu + 56 > (4096 - k.netSkbPad - k.sharedInfo) / k.cacheBytes * k.cacheBytes
  {
    RoundedFits(RxSize(mtu) + BNX2_RX_ALIGN, k.cacheBytes, PAGE_SIZE - k.netSkbPad - k.sharedInfo);
  }

  lemma RoundedFits(n: nat, a: Positive, b: nat)
    ensures RoundUp(n, a) <= b <==> n <= b / a * a
  {
    var x := n + a - 1;
    Parts(x, x / a, x % a, b, b / a, b % a, a);
  }

  lemma Parts(x: nat, i: nat, r: nat, b: nat, j: nat, s: nat, a: Positive)
    requires x == i * a + r && r < a && b == j * a + s && s < a
    ensures i * a <= b <==> x - (a - 1) <= j * a
  {
    if i <= j { Distribute(a, i, j - i); } else { Distribute(a, j, i - j); AtLeast(a, i - j); }
  }

  function Smaller(a: nat, b: nat): nat {
    if a < b then a else b
  }

  datatype Config = Config(
    bufUseSize: nat, copyThresh: nat, jumboThresh: nat,
    ringSize: nat, maxRing: Pages, pgRingSize: nat, maxPgRing: nat)

  /** Both rings can hold what will be posted to them, with the fewest pages that can:
      `size` buffers and, if frames are split, the pages for that many of them, as
      far as the chip's largest page ring goes. Without splitting there is no page
      ring. */
  ghost predicate Chosen(c: Config, mtu: nat, size: nat, split: bool)
    requires mtu >= 46
  {
    && c.ringSize == size && Least(c.maxRing, size) && c.maxRing <= MAX_RX_RINGS
    && c.jumboThresh + BNX2_RX_OFFSET == c.bufUseSize
    && if split then
         && c.pgRingSize == Smaller(size * PagesFor(mtu - 40), MAX_DESC_CNT * MAX_RX_PG_RINGS)
         && Least(c.maxPgRing, c.pgRingSize) && c.maxPgRing <= MAX_RX_PG_RINGS
         && c.copyThresh == 0 && c.jumboThresh == BNX2_RX_COPY_THRESH
       else
         c.pgRingSize == c.maxPgRing == 0 && c.copyThresh == BNX2_RX_COPY_THRESH && c.bufUseSize == RxSize(mtu)
  }

  /** bnx2_set_rx_ring_size. */
  method SetRxRingSize(mtu: nat, size: nat, k: Kernel, jumboBroken: bool) returns (c: Config)
    requires size <= MAX_DESC_CNT * MAX_RX_RINGS && mtu >= 46
    ensures Chosen(c, mtu, size, Splits(mtu, k, jumboBroken))
  {
    hide PowerOfTwo, Least, RoundUp, PagesFor;
    Sixteen();
    var rxSize := RxSize(mtu);
    var rxSpace := RoundUp(rxSize + BNX2_RX_ALIGN, k.cacheBytes) + k.netSkbPad + k.sharedInfo;
    var copyThresh, pgRingSize, maxPgRing := BNX2_RX_COPY_THRESH, 0, 0;
    if rxSpace > PAGE_SIZE && !jumboBroken {
      var jumboSize := size * PagesFor(mtu - 40);
      if jumboSize > MAX_DESC_CNT * MAX_RX_PG_RINGS {
        jumboSize := MAX_DESC_CNT * MAX_RX_PG_RINGS;
      }
      pgRingSize := jumboSize;
      maxPgRing := FindMaxRing(jumboSize, MAX_RX_PG_RINGS);
      rxSize := BNX2_RX_COPY_THRESH + BNX2_RX_OFFSET;
      copyThresh := 0;
    }
    var maxRing := FindMaxRing(size, MAX_RX_RINGS);
    LeastIsPower(maxRing, size);
    PowersAreCounts(maxRing);
    c := Config(rxSize, copyThresh, rxSize - BNX2_RX_OFFSET, size, maxRing, pgRingSize, maxPgRing);
  }

  lemma Sixteen()
    ensures PowerOfTwo(4) && PowerOfTwo(16)
  {
    assert PowerOfTwo(2);
  }

  /** The page counts chosen are ones that an index can be masked for, and what will
      be posted fits. */
  lemma ChosenFits(c: Config, mtu: nat, size: nat, split: bool) returns (pg: Pages)
    requires mtu >= 46 && Chosen(c, mtu, size, split)
    ensures c.ringSize <= Capacity(c.maxRing) && c.pgRingSize <= Capacity(pg)
    ensures pg == if c.maxPgRing == 0 then 1 else c.maxPgRing
  {
    if split {
      Half(c.maxPgRing);
      PowersAreCounts(c.maxPgRing);
      pg := c.maxPgRing;
    } else {
      pg := 1;
    }
  }

  /** Unless frames are split, the buffer has room, behind the 18 bytes for the
      device's report, for exactly a tagged frame of the full MTU: 14 bytes of header,
      4 of tag and 4 of CRC. No such frame is taken for one that goes on in pages.
      Otherwise it has room for 128 bytes. */
  lemma RoomForFrame(c: Config, mtu: nat, size: nat, split: bool)
    requires mtu >= 46 && Chosen(c, mtu, size, split)
    ensures c.jumboThresh == if split then 128 else mtu + 14 + 4 + 4
    ensures c.bufUseSize == 18 + c.jumboThresh && c.copyThresh == if split then 0 else 128
  {
    hide Least, PagesFor;
  }

  /** One page of descriptors holds 255 of them, two 510, and more take four. */
  lemma RingPages(c: Config, mtu: nat, size: nat, split: bool)
    requires mtu >= 46 && Chosen(c, mtu, size, split)
    ensures c.ringSize == size <= 4 * 255
    ensures c.maxRing == if size <= 255 then 1 else if size <= 2 * 255 then 2 else 4
  {
    hide PagesFor;
    assert PowerOfTwo(1) && PowerOfTwo(2) && PowerOfTwo(4) && !PowerOfTwo(3);
  }
}
