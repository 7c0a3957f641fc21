/** A receive ring as a queue: the slots from the consumer index to the producer
    index hold the posted items in order, and every other slot is empty. The items
    are socket buffers on one kind of ring and pages on the other. */
module RxQueue {
  import opened RingIndex
  import opened RxIndex
  import opened Wrappers

  /** struct sw_bd and struct sw_pg. */
  datatype SwBd = SwBd(item: Option<int>, mapping: int)

  const EMPTY := SwBd(None, 0)

  /** Slot s is that of one of the k descriptors from c on. */
  ghost predicate InWindow(pages: Pages, c: nat, k: nat, s: nat) {
    exists n: nat :: c <= n < c + k && s == RxSlot(pages, n)
  }

  /** The slot holds the item with the item's own DMA mapping, and the device is
      given that same address. */
  predicate Posted(sw: SwBd, bd: RxBd, maps: map<int, int>, item: int) {
    item in maps && sw == SwBd(Some(item), maps[item]) && bd.addr == maps[item]
  }

  ghost predicate Holds(pages: Pages, dma: seq<int>, sw: seq<SwBd>, desc: seq<RxBd>, maps: map<int, int>, c: nat,
                        q: seq<int>) {
    && |sw| == |desc| == DESC_CNT * pages && |q| <= Capacity(pages) && Linked(pages, dma, desc)
    && (forall n: nat :: c <= n < c + |q| ==> Posted(sw[RxSlot(pages, n)], desc[RxSlot(pages, n)], maps, q[n - c]))
    && (forall s: nat :: s < |sw| && sw[s].item != None ==> InWindow(pages, c, |q|, s))
    && Distinct(q)
  }

  /** The pages of the ring are linked in a circle, starting at dma[0]. */
  ghost predicate Linked(pages: Pages, dma: seq<int>, desc: seq<RxBd>) {
    |dma| == pages && Distinct(dma) && Chained(desc, dma)
  }

  /** Posting writes no link. */
  lemma LinksKept(pages: Pages, dma: seq<int>, desc: seq<RxBd>, n: nat, bd: RxBd)
    requires |desc| == DESC_CNT * pages && Linked(pages, dma, desc)
    ensures Linked(pages, dma, desc[RxSlot(pages, n) := bd])
  {
    hide RxSlot, Capacity;
    SlotsDiffer(pages, n, n);
    forall i | 0 <= i < |dma| ensures DESC_CNT * i + MAX_DESC_CNT != RxSlot(pages, n) {
      assert WithinPage(DESC_CNT * i + MAX_DESC_CNT) == MAX_DESC_CNT;
    }
  }

  /** What the device finds when it comes to descriptor n is the item that the
      driver posted n-th, at that item's own address. */
  lemma DeviceFindsPosted(pages: Pages, dma: seq<int>, sw: seq<SwBd>, desc: seq<RxBd>, maps: map<int, int>, c: nat,
                          q: seq<int>, n: nat)
    requires Holds(pages, dma, sw, desc, maps, c, q) && c <= n < c + |q|
    ensures Chained(desc, dma) && |dma| > 0
    ensures var x := RxSlot(pages, n);
            && x < |desc| && PageOf(x) < |dma|
            && DeviceWalk(desc, dma, n) == Position(dma[PageOf(x)], WithinPage(x))
            && q[n - c] in maps && desc[x].addr == maps[q[n - c]]
  {
    hide RxSlot, Capacity, Advance, DeviceWalk, Chained, Distinct, InWindow, Mask, Idx, PageOf;
    WalksAgree(pages, desc, dma, n);
    AdvanceIdx(0, n);
    SlotIs(pages, n);
    assert Posted(sw[RxSlot(pages, n)], desc[RxSlot(pages, n)], maps, q[n - c]);
  }

  ghost function Elems(q: seq<int>): set<int> {
    set x | x in q
  }

  /** Recycling the oldest item as the newest. */
  function Rotated(q: seq<int>): seq<int> {
    if q == [] then [] else q[1..] + [q[0]]
  }

  function RotatedBy(q: seq<int>, n: nat): seq<int> {
    if n == 0 then q else Rotated(RotatedBy(q, n - 1))
  }

  lemma RotatedKeeps(q: seq<int>)
    ensures |Rotated(q)| == |q| && Elems(Rotated(q)) == Elems(q)
    ensures Distinct(q) ==> Distinct(Rotated(q))
  {
    if q != [] {
      assert q == [q[0]] + q[1..];
      forall x ensures x in Rotated(q) <==> x in q {
        assert x in q <==> x == q[0] || x in q[1..];
      }
    }
  }

  lemma {:induction false} RotatedByKeeps(q: seq<int>, n: nat)
    ensures |RotatedBy(q, n)| == |q| && Elems(RotatedBy(q, n)) == Elems(q)
  {
    if n > 0 {
      RotatedByKeeps(q, n - 1);
      RotatedKeeps(RotatedBy(q, n - 1));
    }
  }

  /** Up to one lap, recycling n items moves the first n to the back. */
  lemma {:induction false} RotatedByIs(q: seq<int>, n: nat)
    requires n <= |q|
    ensures RotatedBy(q, n) == q[n..] + q[..n]
  {
    if n > 0 {
      RotatedByIs(q, n - 1);
      assert (q[n - 1..] + q[..n - 1])[0] == q[n - 1];
      assert (q[n - 1..] + q[..n - 1])[1..] == q[n..] + q[..n - 1];
      assert q[..n - 1] + [q[n - 1]] == q[..n];
    }
  }

  lemma {:induction false} RotatedByMore(q: seq<int>, m: nat, n: nat)
    ensures RotatedBy(RotatedBy(q, m), n) == RotatedBy(q, m + n)
  {
    if n > 0 { RotatedByMore(q, m, n - 1); }
  }

  // ----- Slots -----

  /** The slots of a window are distinct, and its end is outside unless it is a
      whole lap. */
  lemma WindowSlots(pages: Pages, c: nat, k: nat, m: nat)
    requires c <= m < c + k && k <= Capacity(pages)
    ensures forall n: nat :: c <= n < c + k && n != m ==> RxSlot(pages, n) != RxSlot(pages, m)
    ensures RxSlot(pages, m) == RxSlot(pages, c + k) <==> m == c && k == Capacity(pages)
  {
    hide RxSlot, WithinPage;
    forall n: nat | c <= n < c + k && n != m ensures RxSlot(pages, n) != RxSlot(pages, m) {
      if n < m { SlotsDiffer(pages, n, m); } else { SlotsDiffer(pages, m, n); }
    }
    SlotsDiffer(pages, m, c + k);
  }

  /** Taking the oldest item: its mapping stays readable in the slot. */
  lemma Taken(pages: Pages, dma: seq<int>, sw: seq<SwBd>, desc: seq<RxBd>, maps: map<int, int>, c: nat, q: seq<int>)
    requires Holds(pages, dma, sw, desc, maps, c, q) && |q| > 0
    ensures var s := RxSlot(pages, c);
            && Posted(sw[s], desc[s], maps, q[0])
            && Holds(pages, dma, sw[s := sw[s].(item := None)], desc, maps, c + 1, q[1..])
  {
    hide RxSlot, Posted, Capacity;
    var s := RxSlot(pages, c);
    var sw' := sw[s := sw[s].(item := None)];
    WindowSlots(pages, c, |q|, c);
    forall n: nat | c + 1 <= n < c + |q|
      ensures Posted(sw'[RxSlot(pages, n)], desc[RxSlot(pages, n)], maps, q[1..][n - (c + 1)])
    {
      assert q[1..][n - (c + 1)] == q[n - c];
    }
    forall t: nat | t < |sw'| && sw'[t].item != None ensures InWindow(pages, c + 1, |q| - 1, t) {
      assert InWindow(pages, c, |q|, t);
    }
  }

  /** Posting an item behind the newest. */
  lemma Appended(pages: Pages, dma: seq<int>, sw: seq<SwBd>, desc: seq<RxBd>, maps: map<int, int>, c: nat,
                 q: seq<int>, x: int, m: int, bd: RxBd)
    requires Holds(pages, dma, sw, desc, maps, c, q) && |q| < Capacity(pages) && x !in q && bd.addr == m
    ensures var s := RxSlot(pages, c + |q|);
            Holds(pages, dma, sw[s := SwBd(Some(x), m)], desc[s := bd], maps[x := m], c, q + [x])
  {
    hide RxSlot, Capacity, InWindow, Linked;
    var k := |q|;
    var s := RxSlot(pages, c + k);
    var sw', desc' := sw[s := SwBd(Some(x), m)], desc[s := bd];
    WindowSlots(pages, c, k + 1, c + k);
    LinksKept(pages, dma, desc, c + k, bd);
    forall t: nat | t < |sw'| && sw'[t].item != None ensures InWindow(pages, c, k + 1, t) {
      WindowGrows(pages, c, k, t);
    }
    assert forall n: nat :: c <= n < c + k ==> Posted(sw[RxSlot(pages, n)], desc[RxSlot(pages, n)], maps, q[n - c]);
  }

  lemma WindowGrows(pages: Pages, c: nat, k: nat, t: nat)
    requires InWindow(pages, c, k, t) || t == RxSlot(pages, c + k)
    ensures InWindow(pages, c, k + 1, t)
  {
    hide RxSlot;
  }

  /** Forgetting the mapping of an item that is not posted. */
  lemma Unmapped(pages: Pages, dma: seq<int>, sw: seq<SwBd>, desc: seq<RxBd>, maps: map<int, int>, c: nat,
                 q: seq<int>, x: int)
    requires Holds(pages, dma, sw, desc, maps, c, q) && x !in q
    ensures Holds(pages, dma, sw, desc, maps - {x}, c, q)
  {
    hide RxSlot, Capacity, InWindow;
  }

  /** One step of recycling: move the oldest item to the slot behind the newest,
      which is the same slot when the ring is full or empty. */
  lemma Recycled(pages: Pages, dma: seq<int>, sw: seq<SwBd>, desc: seq<RxBd>, maps: map<int, int>, c: nat,
                 q: seq<int>, bd: RxBd)
    requires Holds(pages, dma, sw, desc, maps, c, q)
    ensures var cons, prod := RxSlot(pages, c), RxSlot(pages, c + |q|);
            && (prod == cons ==> Holds(pages, dma, sw, desc, maps, c + 1, Rotated(q)))
            && (prod != cons && bd.addr == desc[cons].addr ==>
                  Holds(pages, dma, sw[prod := sw[cons]][cons := sw[cons].(item := None)], desc[prod := bd], maps,
                  c + 1, Rotated(q)))
  {
    hide RxSlot, Capacity, Holds, Posted;
    var cons, prod := RxSlot(pages, c), RxSlot(pages, c + |q|);
    if |q| > 0 {
      HoldsSizes(pages, dma, sw, desc, maps, c, q);
      var s1 := sw[cons := sw[cons].(item := None)];
      Taken(pages, dma, sw, desc, maps, c, q);
      PostedIs(sw[cons], desc[cons], maps, q[0]);
      var m := maps[q[0]];
      var b := if prod == cons then desc[cons] else bd;
      if b.addr == m {
        HeadIsOnce(q);
        Appended(pages, dma, s1, desc, maps, c + 1, q[1..], q[0], m, b);
        assert maps[q[0] := m] == maps;
        assert prod == RxSlot(pages, c + 1 + |q[1..]|);
        if prod == cons {
          assert s1[prod := SwBd(Some(q[0]), m)] == sw;
          assert desc[prod := b] == desc;
        } else {
          assert s1[prod := SwBd(Some(q[0]), m)] == sw[prod := sw[cons]][cons := sw[cons].(item := None)];
        }
      }
    } else {
      EmptyMoves(pages, dma, sw, desc, maps, c);
    }
  }

  lemma HoldsSizes(pages: Pages, dma: seq<int>, sw: seq<SwBd>, desc: seq<RxBd>, maps: map<int, int>, c: nat,
                   q: seq<int>)
    requires Holds(pages, dma, sw, desc, maps, c, q)
    ensures |sw| == |desc| == DESC_CNT * pages && |q| <= Capacity(pages) && Distinct(q)
  {
  }

  lemma PostedIs(sw: SwBd, bd: RxBd, maps: map<int, int>, item: int)
    requires Posted(sw, bd, maps, item)
    ensures item in maps && sw == SwBd(Some(item), maps[item]) && bd.addr == maps[item]
  {
  }

  lemma HeadIsOnce(q: seq<int>)
    requires Distinct(q) && |q| > 0
    ensures q[0] !in q[1..]
  {
  }

  lemma EmptyMoves(pages: Pages, dma: seq<int>, sw: seq<SwBd>, desc: seq<RxBd>, maps: map<int, int>, c: nat)
    requires Holds(pages, dma, sw, desc, maps, c, [])
    ensures Holds(pages, dma, sw, desc, maps, c + 1, [])
  {
    forall s: nat | s < |sw| ensures sw[s].item == None {
      assert !InWindow(pages, c, 0, s);
    }
  }
}
