/** Descriptor-ring indices of the bnx2 driver.

    A ring page has 256 slots, of which the last one is the link to the next
    page, so an index that runs freely over 16 bits skips one value in 256.
    `Idx(n)` is the index after n descriptors; everything the driver computes
    with indices is related to these descriptor counts. */
module RingIndex {
  import opened Modulo

  const DESC_CNT := 256
  const MAX_DESC_CNT := 255

  /** Descriptors that 16-bit indices can tell apart, with a margin. */
  const WINDOW := 0xFE00

  type U16 = x: int | 0 <= x < 0x1_0000

  /** NEXT_TX_BD and NEXT_RX_BD, stored back into a u16. */
  function NextBd(x: U16): U16 {
    if x % DESC_CNT >= MAX_DESC_CNT - 1 then (x + 2) % 0x1_0000 else (x + 1) % 0x1_0000
  }

  /** The guard of NextBd is the bit test that the macros make, and masking with
      MAX_DESC_CNT is the remainder. */
  lemma NextBdGuardIsTheMask(x: bv16)
    ensures x & 254 == 254 <==> x % 256 >= 254
    ensures x & 255 == x % 256
  {
  }

  /** bnx2_get_hw_tx_cons and bnx2_get_hw_rx_cons: a consumer index that rests on
      a link slot is moved past it. */
  function Normalize(raw: U16): U16 {
    if raw % DESC_CNT == MAX_DESC_CNT then (raw + 1) % 0x1_0000 else raw
  }

  /** The index reached after n descriptors. */
  function Idx(n: nat): U16 {
    (n + n / MAX_DESC_CNT) % 0x1_0000
  }

  /** TX_RING_IDX and, for a one-page ring, RX_RING_IDX. */
  function RingIdx(x: U16): (r: nat)
    ensures r < DESC_CNT
  {
    x % DESC_CNT
  }

  /** The slot of descriptor number n in a one-page ring. */
  function Slot(n: nat): (r: nat)
    ensures r < MAX_DESC_CNT
  {
    n % MAX_DESC_CNT
  }

  /** What the device may write as its consumer index after n descriptors: the slot
      behind the last of them, even when that is a link, or the index of the next. */
  predicate Behind(raw: U16, n: nat) {
    raw == Idx(n) || (n > 0 && raw == (Idx(n - 1) + 1) % 0x1_0000)
  }

  /** NextBd applied k times. */
  function Advance(x: U16, k: nat): U16 {
    if k == 0 then x else NextBd(Advance(x, k - 1))
  }

  /** Either way the driver reads the index of the next descriptor; it is the link slot
      that the device has written just when they differ. */
  lemma NormalizeIs(raw: U16, n: nat)
    requires Behind(raw, n)
    ensures Normalize(raw) == Idx(n)
    ensures raw != Idx(n) <==> n > 0 && n % MAX_DESC_CNT == 0 && raw % DESC_CNT == MAX_DESC_CNT
  {
    hide Idx;
    IdxParts(n);
    if n > 0 {
      IdxParts(n - 1);
      if n % MAX_DESC_CNT == 0 { LastSlot(Idx(n - 1), n); }
    }
  }

  /** The descriptor before a link. */
  lemma LastSlot(x: U16, n: nat)
    requires n > 0 && n % MAX_DESC_CNT == 0 && x % DESC_CNT == (n - 1) % MAX_DESC_CNT
    ensures (x + 1) % 0x1_0000 == x + 1 && (x + 1) % DESC_CNT == MAX_DESC_CNT
  {
    assert (n - 1) % 255 == 254;
  }

  lemma IdxParts(n: nat)
    ensures Idx(n) % DESC_CNT == n % MAX_DESC_CNT
    ensures n > 0 ==> Idx(n) == (Idx(n - 1) + if n % MAX_DESC_CNT == 0 then 2 else 1) % 0x1_0000
  {
    RingIdxOfIdx(n);
    if n > 0 { StepMod(n - 1 + (n - 1) / 255, n + n / 255); }
  }

  lemma StepMod(a: nat, b: nat)
    requires a <= b <= a + 2
    ensures b % 0x1_0000 == (a % 0x1_0000 + (b - a)) % 0x1_0000
  {
  }

  lemma RingIdxOfIdx(n: nat)
    ensures RingIdx(Idx(n)) == Slot(n)
  {
    var q, r := n / 255, n % 255;
    assert n + q == 256 * q + r;
    ModMod(n + q);
    Remainder(q, r);
  }

  lemma Remainder(q: nat, r: nat)
    requires r < 256
    ensures (256 * q + r) % 256 == r
  {
  }

  lemma ModMod(x: nat)
    ensures x % 0x1_0000 % 256 == x % 256
  {
    var k := x / 0x1_0000;
    assert x == 256 * (256 * k) + x % 0x1_0000;
  }

  /** One driver step is one descriptor. */
  lemma NextIdx(n: nat)
    ensures NextBd(Idx(n)) == Idx(n + 1)
  {
    RingIdxOfIdx(n);
    var a := n + n / 255;
    if n % 255 == 254 {
      assert n + 1 == 255 * (n / 255 + 1);
      ModAdd(a, 2, 0x1_0000);
    } else {
      assert (n + 1) / 255 == n / 255;
      ModAdd(a, 1, 0x1_0000);
    }
  }

  lemma {:induction false} AdvanceIdx(n: nat, k: nat)
    ensures Advance(Idx(n), k) == Idx(n + k)
  {
    if k > 0 {
      AdvanceIdx(n, k - 1);
      NextIdx(n + k - 1);
    }
  }

  /** Within a window of one lap the index identifies the descriptor. */
  lemma IdxInjective(m: nat, n: nat)
    requires m <= n <= m + MAX_DESC_CNT
    ensures Idx(m) == Idx(n) <==> m == n
  {
    IdxDiff(m, n);
  }

  /** The index distance of a window is its length, plus one when the window
      crosses the link slot. */
  lemma IdxDiff(m: nat, n: nat)
    requires m <= n <= m + MAX_DESC_CNT
    ensures var s := n / MAX_DESC_CNT - m / MAX_DESC_CNT;
            && 0 <= s <= 1
            && (n - m == MAX_DESC_CNT ==> s == 1)
            && (n == m ==> s == 0)
            && (Idx(n) - Idx(m)) % 0x1_0000 == n - m + s
  {
    var a, b := m + m / 255, n + n / 255;
    assert b - a == n - m + (n / 255 - m / 255);
    SubMod(a, b);
  }

  /** The same for any window short of the wrap at 2^16, each crossing counting. */
  lemma IdxDistance(m: nat, n: nat)
    requires m <= n <= m + WINDOW
    ensures var s := n / MAX_DESC_CNT - m / MAX_DESC_CNT;
            0 <= s <= 256 && (Idx(n) - Idx(m)) % 0x1_0000 == n - m + s
  {
    SubMod(m + m / 255, n + n / 255);
  }

  lemma SubMod(a: nat, b: nat)
    requires a <= b < a + 0x1_0000
    ensures (b % 0x1_0000 - a % 0x1_0000) % 0x1_0000 == b - a
  {
  }
}
