/** The two index computations of the bnx2 transmit path: the free-space
    estimate of bnx2_tx_avail and the partial-completion test of bnx2_tx_int. */
module TxIndex {
  import opened RingIndex
  import opened Modulo

  const U32 := 0x1_0000_0000

  /** bnx2_tx_avail. `size` is bp->tx_ring_size; the subtractions are unsigned
      and 32 bits wide. */
  function Avail(size: nat, prod: U16, cons: U16): nat {
    var diff := (prod - cons) % U32;
    var used := if diff < DESC_CNT then diff
                else if diff % 0x1_0000 == DESC_CNT then MAX_DESC_CNT
                else diff % 0x1_0000;
    (size - used) % U32
  }

  /** The number of descriptors the driver believes to be in flight. */
  function Used(cons: nat, prod: nat): nat
    requires cons <= prod
  {
    if prod - cons == MAX_DESC_CNT then MAX_DESC_CNT
    else prod - cons + (prod / MAX_DESC_CNT - cons / MAX_DESC_CNT)
  }

  lemma UsedBounds(cons: nat, prod: nat)
    requires cons <= prod <= cons + MAX_DESC_CNT
    ensures prod - cons <= Used(cons, prod) <= prod - cons + 1
    ensures Used(cons, prod) <= MAX_DESC_CNT
  {
    IdxDiff(cons, prod);
  }

  lemma AvailIsSizeMinusUsed(size: nat, cons: nat, prod: nat)
    requires cons <= prod <= cons + WINDOW
    ensures Avail(size, Idx(prod), Idx(cons)) == (size - Used(cons, prod)) % U32
  {
    hide Idx;
    IdxDistance(cons, prod);
    UsedRange(cons, prod);
    var d := Idx(prod) - Idx(cons);
    if d < 0 {
      assert d % U32 == d + U32;
      assert (d + U32) % 0x1_0000 == d + 0x1_0000;
    }
  }

  /** The over-count, which a full ring of the default size is spared. */
  lemma UsedRange(cons: nat, prod: nat)
    requires cons <= prod
    ensures var k, s := prod - cons, prod / MAX_DESC_CNT - cons / MAX_DESC_CNT;
            Used(cons, prod) >= k && (k < MAX_DESC_CNT ==> s <= 1) && (k == MAX_DESC_CNT ==> s == 1) &&
            (k > MAX_DESC_CNT ==> s >= 1)
  {
  }

  /** With the default ring size the estimate never wraps below zero, is at most
      one below the true free space, and is exact when the ring is full or the
      window does not cross the link slot. */
  lemma AvailSound(cons: nat, prod: nat)
    requires cons <= prod <= cons + MAX_DESC_CNT
    ensures var k := prod - cons;
            var a := Avail(MAX_DESC_CNT, Idx(prod), Idx(cons));
            && (a == MAX_DESC_CNT - k || a == MAX_DESC_CNT - k - 1)
            && a <= MAX_DESC_CNT
            && (a == MAX_DESC_CNT - k <==>
                k == MAX_DESC_CNT || prod / MAX_DESC_CNT == cons / MAX_DESC_CNT)
  {
    AvailIsSizeMinusUsed(MAX_DESC_CNT, cons, prod);
    UsedBounds(cons, prod);
    IdxDiff(cons, prod);
  }

  /** For any configured ring size, and however far it is overfilled, the estimate
      wraps to a huge value exactly when more descriptors are in flight than the
      size, or when a ring smaller than the default is just full and its window
      crosses the link slot. */
  lemma AvailWrapsIff(size: nat, cons: nat, prod: nat)
    requires size <= MAX_DESC_CNT && cons <= prod <= cons + WINDOW
    ensures Avail(size, Idx(prod), Idx(cons)) > size <==>
            || prod - cons > size
            || (prod - cons == size < MAX_DESC_CNT && prod / MAX_DESC_CNT != cons / MAX_DESC_CNT)
    ensures Avail(size, Idx(prod), Idx(cons)) > size ==> Avail(size, Idx(prod), Idx(cons)) > 0xFFFE_0000
  {
    hide Avail, Idx;
    AvailIsSizeMinusUsed(size, cons, prod);
    UsedRange(cons, prod);
    IdxDistance(cons, prod);
  }

  lemma AvailDefault(cons: nat, prod: nat)
    requires cons <= prod <= cons + MAX_DESC_CNT
    ensures Avail(MAX_DESC_CNT, Idx(prod), Idx(cons)) == MAX_DESC_CNT - Used(cons, prod)
  {
    AvailIsSizeMinusUsed(MAX_DESC_CNT, cons, prod);
    UsedBounds(cons, prod);
  }

  lemma UsedMonotone(cons: nat, cons': nat, prod: nat, prod': nat)
    requires cons <= cons' <= prod <= prod' <= cons + MAX_DESC_CNT
    ensures Used(cons', prod) <= Used(cons, prod')
  {
    UsedBounds(cons, prod');
    UsedBounds(cons', prod);
    DivMonotone(cons, cons');
    DivMonotone(prod, prod');
  }

  /** Completions only raise the estimate and postings only lower it. */
  lemma AvailMonotone(cons: nat, cons': nat, prod: nat, prod': nat)
    requires cons <= cons' <= prod <= prod' <= cons + MAX_DESC_CNT
    ensures Avail(MAX_DESC_CNT, Idx(prod), Idx(cons)) <= Avail(MAX_DESC_CNT, Idx(prod), Idx(cons'))
    ensures Avail(MAX_DESC_CNT, Idx(prod'), Idx(cons)) <= Avail(MAX_DESC_CNT, Idx(prod), Idx(cons))
  {
    AvailDefault(cons, prod);
    AvailDefault(cons', prod);
    AvailDefault(cons, prod');
    UsedMonotone(cons, cons', prod, prod);
    UsedMonotone(cons, cons, prod, prod');
  }

  lemma DivMonotone(m: nat, n: nat)
    requires m <= n
    ensures m / MAX_DESC_CNT <= n / MAX_DESC_CNT
  {
  }

  /** A (s16) cast. */
  function S16(x: int): int {
    var m := x % 0x1_0000;
    if m >= 0x8000 then m - 0x1_0000 else m
  }

  /** last_idx: the index just past a packet, computed without stepping. */
  function LastIdx(swCons: U16, nrFrags: nat): U16 {
    if RingIdx(swCons) + nrFrags + 1 >= MAX_DESC_CNT
    then (swCons + nrFrags + 2) % 0x1_0000
    else (swCons + nrFrags + 1) % 0x1_0000
  }

  /** The test that makes bnx2_tx_int wait for the rest of a TSO packet. */
  predicate NotYetPassed(swCons: U16, nrFrags: nat, hwCons: U16) {
    S16(S16(LastIdx(swCons, nrFrags)) - S16(hwCons)) > 0
  }

  lemma LastIdxIsAdvance(n: nat, nrFrags: nat)
    requires nrFrags < MAX_DESC_CNT
    ensures LastIdx(Idx(n), nrFrags) == Advance(Idx(n), nrFrags + 1) == Idx(n + nrFrags + 1)
  {
    hide Idx, RingIdx, Advance;
    AdvanceIdx(n, nrFrags + 1);
    RingIdxOfIdx(n);
    IdxIs(n);
    IdxIs(n + nrFrags + 1);
    Crossing(n, nrFrags + 1);
    ModAdd(n + n / MAX_DESC_CNT, nrFrags + 1, 0x1_0000);
    ModAdd(n + n / MAX_DESC_CNT, nrFrags + 2, 0x1_0000);
  }

  lemma IdxIs(n: nat)
    ensures Idx(n) == (n + n / MAX_DESC_CNT) % 0x1_0000
  {
  }

  /** A step of at most one lap crosses the link slot when it reaches it. */
  lemma Crossing(n: nat, f: nat)
    requires f <= MAX_DESC_CNT
    ensures (n + f) / MAX_DESC_CNT == n / MAX_DESC_CNT + if Slot(n) + f >= MAX_DESC_CNT then 1 else 0
  {
  }

  /** At every wrap position the signed comparison says whether the device,
      which has completed h descriptors, has yet to pass the packet. */
  lemma NotYetPassedIff(n: nat, nrFrags: nat, h: nat)
    requires nrFrags < MAX_DESC_CNT
    requires n <= h <= n + MAX_DESC_CNT
    ensures NotYetPassed(Idx(n), nrFrags, Idx(h)) <==> h < n + nrFrags + 1
  {
    LastIdxIsAdvance(n, nrFrags);
    var e := n + nrFrags + 1;
    if h <= e {
      IdxDiff(h, e);
      SignedDifference(Idx(e), Idx(h));
    } else {
      IdxDiff(e, h);
      SignedDifference(Idx(h), Idx(e));
    }
  }

  /** Truncating to 16 signed bits commutes with subtraction. */
  lemma SignedDifference(a: U16, b: U16)
    requires (a - b) % 0x1_0000 <= MAX_DESC_CNT + 1
    ensures S16(S16(a) - S16(b)) == (a - b) % 0x1_0000
    ensures S16(S16(b) - S16(a)) == -((a - b) % 0x1_0000)
  {
  }
}
