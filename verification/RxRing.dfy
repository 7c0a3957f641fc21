/** The bnx2 receive rings as the driver works on them: one of socket buffers and
    one of pages, whose slots bnx2_rx_int refills or recycles frame by frame while
    any allocation may fail. */
module RxRing {
  import opened RingIndex
  import opened Modulo
  import opened RxIndex
  import opened RxSizing
  import opened RxFrames
  import opened RxDelivery
  import opened RxQueue
  import opened Wrappers

  type U32 = x: int | 0 <= x < 0x1_0000_0000

  const ENOMEM := -12
  const EIO := -5

  /** The driver accounts for each item that the kernel has handed out: it is posted
      and mapped, or has gone up the stack. */
  ghost predicate Owned(out: set<int>, q: seq<int>, maps: map<int, int>, gone: set<int>) {
    out == Elems(q) + gone && Elems(q) !! gone && maps.Keys == Elems(q)
  }

  /** rx_prod_bseq after n buffers. */
  function Bseq(useSize: nat, n: nat): U32 {
    useSize * n % 0x1_0000_0000
  }

  lemma BseqStep(useSize: nat, n: nat)
    ensures AddBseq(Bseq(useSize, n), useSize) == Bseq(useSize, n + 1)
  {
    var x := useSize * n;
    assert useSize * (n + 1) == x + useSize;
    ModAdd(x, useSize, 0x1_0000_0000);
  }

  function AddBseq(bseq: U32, useSize: nat): U32 {
    (bseq + useSize) % 0x1_0000_0000
  }

  lemma TakenIsOut(out: set<int>, q: seq<int>, x: int, maps: map<int, int>, gone: set<int>)
    requires Owned(out, [x] + q, maps, gone)
    ensures Elems(q) <= out && x in out && x !in gone
  {
    assert Elems([x] + q) == Elems(q) + {x};
  }

  /** The buffers, and the pages, of what was delivered. */
  ghost function SkbsOf(ds: seq<Skb>): set<int> {
    if ds == [] then {} else SkbsOf(ds[..|ds| - 1]) + {ds[|ds| - 1].skb}
  }

  ghost function PagesOf(ds: seq<Skb>): set<int> {
    if ds == [] then {} else PagesOf(ds[..|ds| - 1]) + Elems(FragPages(ds[|ds| - 1].frags))
  }

  lemma DeliveredMore(ds: seq<Skb>, d: Skb)
    ensures SkbsOf(ds + [d]) == SkbsOf(ds) + {d.skb}
    ensures PagesOf(ds + [d]) == PagesOf(ds) + Elems(FragPages(d.frags))
  {
    assert (ds + [d])[..|ds|] == ds;
  }

  lemma FromFirst(d: Skb, head: int, hist0: seq<int>, hist: seq<int>, pc: nat, pq: seq<int>, copied: bool)
    requires Recorded(hist0, pc, pq) && hist0 <= hist && (d.skb == head <==> !copied)
    requires |d.frags| <= |pq| && FragPages(d.frags) == pq[..|d.frags|]
    ensures From(d, head, hist, pc, copied)
  {
    hide FragPages;
    RecordedFirst(hist0, pc, pq, |d.frags|);
    assert hist[pc..pc + |d.frags|] == hist0[pc..pc + |d.frags|];
  }

  lemma LaidOutLen(s: Skb, hdrLen: nat, len: nat)
    requires LaidOut(s, hdrLen, len)
    ensures s.len == len
  {
  }

  lemma GoodPlacement(f: Fhdr, jumboThresh: nat, copyThresh: nat)
    requires Sane(f, jumboThresh, copyThresh) && !f.bad
    ensures var h, len := HdrLen(f, jumboThresh), f.pktLen - 4;
            && len >= 0 && h < len + 4 && (h > 0 ==> len > copyThresh && DevicePages(f) == PagesFor(len + 4 - h))
            && DriverPages(f, jumboThresh, copyThresh, false) == if h > 0 then PagesFor(len + 4 - h) else 0
  {
    hide PagesFor;
    HdrLenIsPlacement(f, jumboThresh, copyThresh);
  }

  lemma NoPages(data: Skb, len: nat, gone: set<int>, pq: seq<int>)
    requires data == Skb(data.skb, len, len, 0, [])
    ensures LaidOut(data, 0, len) && FragPages([]) == pq[..0] == [] && gone + Elems(FragPages([])) == gone
    ensures Elems(FragPages([])) == {}
  {
  }

  /** What the kernel answers to a request for a buffer or a page and its mapping. */
  datatype Grant = Granted | NoMemory | NoMapping

  /** Memory that is not in use. */
  method Unused(taken: set<int>) returns (x: int)
    ensures x !in taken
  {
    x := *;
    ghost var rest := taken;
    while x in taken
      invariant forall y :: y in taken && y >= x ==> y in rest
      decreases rest
    {
      rest := rest - {x};
      x := x + 1;
    }
  }

  datatype Told = Told(bidx: U16, bseq: U32, pgBidx: U16)

  /** hist is the page of every descriptor up to the posted ones, pq; none of them
      comes back while it is posted. */
  ghost predicate Recorded(hist: seq<int>, pc: nat, pq: seq<int>) {
    |hist| == pc + |pq| && hist[pc..] == pq && Unrepeated(hist, |pq|)
  }

  /** A first page is posted behind others. */
  lemma RecordedMore(hist: seq<int>, pq: seq<int>, x: int)
    requires Recorded(hist, 0, pq) && Distinct(pq + [x])
    ensures Recorded(hist + [x], 0, pq + [x])
  {
    assert hist == pq;
  }

  /** One is taken and one posted. */
  lemma RecordedNext(hist: seq<int>, pc: nat, pq: seq<int>, x: int)
    requires Recorded(hist, pc, pq) && (|pq| > 0 ==> Distinct(pq[1..] + [x]))
    ensures Recorded(hist + [x], pc + 1, if |pq| > 0 then pq[1..] + [x] else [])
  {
    if |pq| > 0 {
      assert hist[pc + 1..] == hist[pc..][1..];
      var h, next := hist + [x], pq[1..] + [x];
      forall i, j | 0 <= i < j < |h| && j - i < |pq| ensures h[i] != h[j] {
        if j == |hist| {
          assert h[i] == hist[pc..][i - pc] == next[i - pc - 1];
          assert next[|pq| - 1] == x;
        }
      }
    }
  }

  lemma RecordedFirst(hist: seq<int>, pc: nat, pq: seq<int>, n: nat)
    requires Recorded(hist, pc, pq) && n <= |pq|
    ensures pc + n <= |hist| && hist[pc..pc + n] == pq[..n]
  {
    assert hist[pc..pc + n] == hist[pc..][..n];
  }

  /** The pages that were posted when a poll began. */
  ghost predicate OnRecord(p: Poll, hist: seq<int>) {
    p.pc + |p.pages| <= |hist| && hist[p.pc..p.pc + |p.pages|] == p.pages && Distinct(p.pages)
  }

  lemma RecordStarts(p: Poll, hist: seq<int>)
    requires Recorded(hist, p.pc, p.pages) && Distinct(p.pages)
    ensures OnRecord(p, hist)
  {
    RecordedFirst(hist, p.pc, p.pages, |p.pages|);
  }

  lemma StaysOnRecord(p: Poll, hist: seq<int>, hist': seq<int>)
    requires OnRecord(p, hist) && hist <= hist'
    ensures OnRecord(p, hist')
  {
    assert hist'[p.pc..p.pc + |p.pages|] == hist[p.pc..p.pc + |p.pages|];
  }

  // ----- Ownership steps -----

  lemma OwnedOut(out: set<int>, q: seq<int>, maps: map<int, int>, gone: set<int>)
    requires Owned(out, q, maps, gone)
    ensures Elems(q) <= out
  {
  }

  /** The two arrays of an empty ring, the pages of the second one linked. */
  method NewRing(pages: Pages, dma: seq<int>, bufSize: nat) returns (sw: array<SwBd>, desc: array<RxBd>)
    requires |dma| == pages && Distinct(dma)
    ensures fresh(sw) && fresh(desc) && Holds(pages, dma, sw[..], desc[..], map[], 0, [])
    ensures Sized(desc[..], bufSize)
  {
    sw := new SwBd[DESC_CNT * pages](_ => EMPTY);
    desc := new RxBd[DESC_CNT * pages](_ => RxBd(0, 0, 0));
    InitRxbdRings(desc, dma, bufSize);
  }

  lemma NothingYet(pages: Pages, useSize: nat)
    ensures RxSlot(pages, 0) == 0 == Idx(0) == Bseq(useSize, 0) && Owned({}, [], map[], {})
    ensures SkbsOf([]) == {} && PagesOf([]) == {}
  {
    FirstSlot(pages);
  }

  lemma FirstSlot(pages: Pages)
    ensures RxSlot(pages, 0) == 0 == Idx(0)
  {
  }

  lemma OwnedExtra(out: set<int>, q: seq<int>, maps: map<int, int>, gone: set<int>, y: int)
    requires Owned(out, q, maps, gone) && y !in out
    ensures Owned(out + {y}, q, maps, gone + {y}) && y !in gone
  {
  }

  lemma OwnedRotated(out: set<int>, q: seq<int>, maps: map<int, int>, gone: set<int>, n: nat)
    requires Owned(out, q, maps, gone)
    ensures Owned(out, RotatedBy(q, n), maps, gone)
  {
    RotatedByKeeps(q, n);
  }

  lemma OwnedTail(out: set<int>, q: seq<int>, x: int, maps: map<int, int>, gone: set<int>)
    requires Owned(out, [x] + q, maps, gone)
    ensures Owned(out, q + [x], maps, gone)
  {
    assert Elems([x] + q) == Elems(q + [x]);
  }

  /** The item at hand is replaced by a new one and goes up. */
  lemma OwnedReplaced(out: set<int>, q: seq<int>, x: int, maps: map<int, int>, gone: set<int>, y: int, m: int)
    requires Owned(out, [x] + q, maps, gone) && x !in q && y !in out
    ensures Owned(out + {y}, q + [y], maps[y := m] - {x}, gone + {x})
  {
    assert Elems([x] + q) == Elems(q) + {x};
    assert Elems(q + [y]) == Elems(q) + {y};
    assert x in Elems([x] + q);
  }

  lemma OwnedAdded(out: set<int>, q: seq<int>, maps: map<int, int>, gone: set<int>, y: int, m: int)
    requires Owned(out, q, maps, gone) && y !in out
    ensures Owned(out + {y}, q + [y], maps[y := m], gone)
  {
    assert Elems(q + [y]) == Elems(q) + {y};
  }

  lemma OwnedFreed(out: set<int>, q: seq<int>, maps: map<int, int>, gone: set<int>, xs: set<int>)
    requires Owned(out, q, maps, gone) && xs <= gone
    ensures Owned(out - xs, q, maps, gone - xs)
  {
  }

  lemma TailIsNew(q: seq<int>, out: set<int>, y: int)
    requires Elems(q) <= out && y !in out
    ensures y !in q
  {
    assert y in q ==> y in Elems(q);
  }

  class RxRing {
    const pages: Pages                // rx_max_ring
    const pgPages: Pages              // rx_max_pg_ring
    const useSize: nat                // rx_buf_use_size
    const copyThresh: nat
    const jumboThresh: nat
    const mtu: nat
    const bufRing: array<SwBd>
    const desc: array<RxBd>
    const dma: seq<int>               // rx_desc_mapping
    const pgRing: array<SwBd>
    const pgDesc: array<RxBd>
    const pgDma: seq<int>             // rx_pg_desc_mapping
    var rxCons: U16
    var rxProd: U16
    var rxPgCons: U16
    var rxPgProd: U16
    var bseq: U32
    /** What the device was last told at rx_bidx_addr, rx_bseq_addr and
        rx_pg_bidx_addr. */
    var told: Told
    /** Socket buffers and pages that the kernel has handed out, and the DMA mappings
        in force for them. */
    var skbsOut: set<int>
    var pagesOut: set<int>
    var maps: map<int, int>
    var pgMaps: map<int, int>
    /** Descriptors consumed, and what is posted behind them. */
    ghost var c: nat
    ghost var q: seq<int>
    ghost var pc: nat
    ghost var pq: seq<int>
    /** The page of every page descriptor so far. */
    ghost var hist: seq<int>
    /** What has gone up the stack. */
    ghost var skbsGone: set<int>
    ghost var pagesGone: set<int>
    ghost var delivered: seq<Skb>
    /** The polls so far. */
    ghost var turns: seq<Turn>
    /** What the kernel answers to the n-th request for a buffer or a page, and how many
        there have been. */
    const grants: nat -> Grant
    var asked: nat

    /** How many of the first n requests were refused. */
    ghost function Refusals(n: nat): nat {
      if n == 0 then 0 else Refusals(n - 1) + if grants(n - 1).Granted? then 0 else 1
    }

    ghost function Refused(): nat
      reads this`asked
    {
      Refusals(asked)
    }

    lemma {:induction false} NoRefusals(n: nat)
      requires forall k: nat :: grants(k).Granted?
      ensures Refusals(n) == 0
    {
      if n > 0 { NoRefusals(n - 1); }
    }

    /** bnx2_alloc_mem, bnx2_clear_ring_states and bnx2_init_rxbd_rings. */
    constructor (pages: Pages, pgPages: Pages, useSize: nat, copyThresh: nat, jumboThresh: nat, mtu: nat,
                 dma: seq<int>, pgDma: seq<int>, grants: nat -> Grant)
      requires |dma| == pages && Distinct(dma) && |pgDma| == pgPages && Distinct(pgDma)
      ensures Valid() && c == pc == 0 && q == pq == [] && delivered == [] && turns == [] && asked == 0
      ensures fresh(bufRing) && fresh(desc) && fresh(pgRing) && fresh(pgDesc)
      ensures this.pages == pages && this.pgPages == pgPages && this.useSize == useSize
      ensures this.copyThresh == copyThresh && this.jumboThresh == jumboThresh && this.mtu == mtu
      ensures this.grants == grants && Sized(desc[..], useSize) && Sized(pgDesc[..], PAGE_SIZE)
    {
      hide Holds, Sized, RxSlot, Idx, Linked, Owned, Bseq, SkbsOf, PagesOf;
      this.pages, this.pgPages, this.useSize := pages, pgPages, useSize;
      this.copyThresh, this.jumboThresh, this.mtu := copyThresh, jumboThresh, mtu;
      this.dma, this.pgDma, this.grants := dma, pgDma, grants;
      var sw, bds := NewRing(pages, dma, useSize);
      var pgSw, pgBds := NewRing(pgPages, pgDma, PAGE_SIZE);
      bufRing, desc, pgRing, pgDesc := sw, bds, pgSw, pgBds;
      rxCons, rxProd, rxPgCons, rxPgProd, bseq, told := 0, 0, 0, 0, 0, Told(0, 0, 0);
      skbsOut, pagesOut, maps, pgMaps := {}, {}, map[], map[];
      c, q, pc, pq, hist, skbsGone, pagesGone, delivered := 0, [], 0, [], [], {}, {}, [];
      asked, turns := 0, [];
      new;
      NothingYet(pages, useSize);
      NothingYet(pgPages, useSize);
    }

    /** bnx2_init_rx_ring: posts as many pages and buffers as asked for, or as many
        as the kernel has. */
    method InitRxRing(ringSize: nat, pgRingSize: nat)
      requires Valid() && c == pc == 0 && q == pq == []
      requires ringSize <= Capacity(pages) && pgRingSize <= Capacity(pgPages)
      modifies this, bufRing, desc, pgRing, pgDesc
      ensures Valid() && c == pc == 0 && |q| <= ringSize && |pq| <= pgRingSize && delivered == old(delivered)
      ensures turns == old(turns)
      ensures Refused() == old(Refused()) ==> |q| == ringSize && |pq| == pgRingSize
    {
      hide BufsHeld, PagesHeld, PgIndices, Accounted, Idx, Capacity;
      SeparateRings();
      InitPages(pgRingSize);
      InitSkbs(ringSize);
      told := Told(rxProd, bseq, rxPgProd);
    }

    method InitPages(pgRingSize: nat)
      requires PagesHeld() && PgIndices() && pc == 0 && pq == [] && pgRingSize <= Capacity(pgPages)
      modifies this`asked, pgRing, pgDesc, this`pgMaps, this`pagesOut, this`pq, this`hist, this`rxPgProd
      ensures PagesHeld() && PgIndices() && |pq| <= pgRingSize
      ensures Refused() >= old(Refused()) && (Refused() == old(Refused()) ==> |pq| == pgRingSize)
    {
      hide Holds, Sized, Owned, RxSlot, Idx, Mask, Capacity, Elems, NextBd, Recorded;
      var ringProd: nat, prod := rxPgProd, rxPgProd;
      FirstSlot(pgPages);
      var i := 0;
      while i < pgRingSize
        invariant 0 <= i == |pq| <= pgRingSize && PagesHeld() && Refused() == old(Refused())
        invariant prod == Idx(|pq|) && ringProd == RxSlot(pgPages, |pq|)
        modifies this`asked, pgRing, pgDesc, this`pgMaps, this`pagesOut, this`pq, this`hist
      {
        OwnedOut(pagesOut, pq, pgMaps, pagesGone);
        ghost var page, out0, maps0 := 0, pagesOut, pgMaps;
        var rc;
        rc, page := AllocRxPage(ringProd, pc, pq);
        if rc < 0 {
          break;
        }
        OwnedAdded(out0, pq, maps0, pagesGone, page, if page in pgMaps then pgMaps[page] else 0);
        HoldsSizes(pgPages, pgDma, pgRing[..], pgDesc[..], pgMaps, pc, pq + [page]);
        RecordedMore(hist, pq, page);
        pq, hist := pq + [page], hist + [page];
        NextIdx(|pq| - 1);
        SlotOfIdx(pgPages, |pq|);
        prod := NextBd(prod);
        ringProd := Mask(pgPages, prod);
        i := i + 1;
      }
      rxPgProd := prod;
    }

    method InitSkbs(ringSize: nat)
      requires BufsHeld() && c == 0 && q == [] && rxProd == Idx(0) && ringSize <= Capacity(pages)
      modifies this`asked, bufRing, desc, this`maps, this`skbsOut, this`q, this`bseq, this`rxProd
      ensures BufsHeld() && rxProd == Idx(|q|) && |q| <= ringSize
      ensures Refused() >= old(Refused()) && (Refused() == old(Refused()) ==> |q| == ringSize)
    {
      hide Holds, Sized, Owned, RxSlot, Idx, Mask, Capacity, Elems, Bseq, NextBd;
      var ringProd: nat, prod := rxProd, rxProd;
      FirstSlot(pages);
      var i := 0;
      while i < ringSize
        invariant 0 <= i == |q| <= ringSize && BufsHeld() && Refused() == old(Refused())
        invariant prod == Idx(|q|) && ringProd == RxSlot(pages, |q|)
        modifies this`asked, bufRing, desc, this`maps, this`skbsOut, this`q, this`bseq
      {
        OwnedOut(skbsOut, q, maps, skbsGone);
        BseqStep(useSize, |q|);
        ghost var skb, out0, maps0, q0 := 0, skbsOut, maps, q;
        var rc;
        rc, skb := AllocRxSkb(ringProd);
        if rc < 0 {
          break;
        }
        OwnedAdded(out0, q0, maps0, skbsGone, skb, if skb in maps then maps[skb] else 0);
        NextIdx(|q| - 1);
        SlotOfIdx(pages, |q|);
        prod := NextBd(prod);
        ringProd := Mask(pages, prod);
        i := i + 1;
      }
      rxProd := prod;
    }

    /** The page ring between two calls, the consumer index being kept masked and
        the producer index not. */
    ghost predicate PagesHeld()
      reads this`pgMaps, this`pc, this`pq, this`hist, this`pagesOut, this`pagesGone, pgRing, pgDesc
    {
      && pgRing != bufRing && pgDesc != desc
      && Holds(pgPages, pgDma, pgRing[..], pgDesc[..], pgMaps, pc, pq) && Sized(pgDesc[..], PAGE_SIZE)
      && Owned(pagesOut, pq, pgMaps, pagesGone) && Recorded(hist, pc, pq)
    }

    ghost predicate PgIndices()
      reads this`rxPgCons, this`rxPgProd, this`pc, this`pq
    {
      rxPgCons == RxSlot(pgPages, pc) && rxPgProd == Idx(pc + |pq|)
    }

    /** alloc_page and dma_map_page into the slot behind the newest page:
        bnx2_alloc_rx_page. */
    method AllocRxPage(index: nat, ghost at: nat, ghost held: seq<int>) returns (rc: int, ghost page: int)
      requires Holds(pgPages, pgDma, pgRing[..], pgDesc[..], pgMaps, at, held) && |held| < Capacity(pgPages)
      requires index == RxSlot(pgPages, at + |held|) && Elems(held) <= pagesOut && Sized(pgDesc[..], PAGE_SIZE)
      modifies this`asked, pgRing, pgDesc, this`pgMaps, this`pagesOut
      ensures rc == match grants(old(asked)) case Granted => 0 case NoMemory => ENOMEM case NoMapping => EIO
      ensures asked == old(asked) + 1 && Refused() == old(Refused()) + if rc == 0 then 0 else 1
      ensures rc == 0 ==> Holds(pgPages, pgDma, pgRing[..], pgDesc[..], pgMaps, at, held + [page])
      ensures Sized(pgDesc[..], PAGE_SIZE)
      ensures rc == 0 ==> page !in old(pagesOut) && pagesOut == old(pagesOut) + {page} && page in pgMaps &&
                          pgMaps == old(pgMaps)[page := pgMaps[page]]
      ensures rc != 0 ==> pgRing[..] == old(pgRing[..]) && pgDesc[..] == old(pgDesc[..])
      ensures rc != 0 ==> pgMaps == old(pgMaps) && pagesOut == old(pagesOut)
    {
      hide Holds, Sized, RxSlot, Capacity;
      HoldsSizes(pgPages, pgDma, pgRing[..], pgDesc[..], pgMaps, at, held);
      page := 0;
      var answer := grants(asked);
      asked := asked + 1;
      if answer == NoMemory {
        return ENOMEM, 0;
      }
      var newPage := Unused(pagesOut);
      var mapping: int := *;
      if answer == NoMapping {
        return EIO, 0;
      }
      page := newPage;
      TailIsNew(held, pagesOut, newPage);
      ghost var bd := pgDesc[index].(addr := mapping);
      Appended(pgPages, pgDma, pgRing[..], pgDesc[..], pgMaps, at, held, newPage, mapping, bd);
      SizedKeep(pgDesc[..], PAGE_SIZE, index, bd);
      ghost var sw', desc' := pgRing[..][index := SwBd(Some(newPage), mapping)], pgDesc[..][index := bd];
      pagesOut := pagesOut + {newPage};
      pgMaps := pgMaps[newPage := mapping];
      pgRing[index] := SwBd(Some(newPage), mapping);
      pgDesc[index] := pgDesc[index].(addr := mapping);
      assert pgRing[..] == sw' && pgDesc[..] == desc';
      rc := 0;
    }

    /** Takes the page at the head of the ring and posts a new one behind the tail:
        the part of bnx2_rx_skb's loop that touches the ring. Without a new page the
        head slot is left without its page, but with its mapping. */
    method SwapPage(pgCons: nat, pgProd: U16) returns (rc: int, page: int)
      requires PagesHeld() && |pq| > 0 && pgCons == RxSlot(pgPages, pc) && pgProd == Idx(pc + |pq|)
      modifies this`asked, pgRing, pgDesc, this`pgMaps, this`pagesOut, this`pc, this`pq, this`hist, this`pagesGone
      ensures Refused() == old(Refused()) + if rc == 0 then 0 else 1
      ensures page == old(pq[0]) && page !in old(pagesGone)
      ensures rc == 0 ==> PagesHeld() && pc == old(pc) + 1 && |pq| == old(|pq|) && pq[..|pq| - 1] == old(pq)[1..]
      ensures rc == 0 ==> pagesGone == old(pagesGone) + {page}
      ensures old(hist) <= hist && (rc != 0 ==> hist == old(hist))
      ensures rc != 0 ==> pc == old(pc) && pq == old(pq) && pgMaps == old(pgMaps) && pagesOut == old(pagesOut)
      ensures rc != 0 ==> pagesGone == old(pagesGone) && pgDesc[..] == old(pgDesc[..])
      ensures rc != 0 ==> pgCons < pgRing.Length && GivenBack(pgRing[..], pgCons, page) == old(pgRing[..])
    {
      hide Holds, Sized, RxSlot, Capacity, Owned, Posted, Recorded;
      ghost var held, sw0 := pq[1..], pgRing[..];
      TakenHead(pgPages, pgDma, pgRing[..], pgDesc[..], pgMaps, pagesOut, pc, pq, pagesGone);
      page := pgRing[pgCons].item.value;
      pgRing[pgCons] := pgRing[pgCons].(item := None);
      assert pgRing[..] == sw0[pgCons := sw0[pgCons].(item := None)];
      ghost var newPage;
      SlotOfIdx(pgPages, pc + |pq|);
      rc, newPage := AllocRxPage(Mask(pgPages, pgProd), pc + 1, held);
      if rc != 0 {
        return;
      }
      OwnedReplaced(old(pagesOut), held, page, old(pgMaps), pagesGone, newPage, pgMaps[newPage]);
      AppendedFresh(held, page, newPage, old(pagesOut));
      Unmapped(pgPages, pgDma, pgRing[..], pgDesc[..], pgMaps, pc + 1, held + [newPage], page);
      pgMaps := pgMaps - {page};
      HoldsSizes(pgPages, pgDma, pgRing[..], pgDesc[..], pgMaps, pc + 1, held + [newPage]);
      RecordedNext(hist, pc, pq, newPage);
      pc, pq, hist := pc + 1, held + [newPage], hist + [newPage];
      pagesGone := pagesGone + {page};
    }

    /** As PagesHeld, except that the head slot lacks its page, which is the last
        fragment of s. */
    ghost predicate PagesHeldBut(s: Skb)
      reads this`pgMaps, this`pc, this`pq, this`hist, this`pagesOut, this`pagesGone, pgRing, pgDesc
    {
      && pgRing != bufRing && pgDesc != desc
      && |s.frags| > 0 && RxSlot(pgPages, pc) < pgRing.Length
      && Holds(pgPages, pgDma, GivenBack(pgRing[..], RxSlot(pgPages, pc), s.frags[|s.frags| - 1].page), pgDesc[..],
               pgMaps, pc, pq)
      && Sized(pgDesc[..], PAGE_SIZE)
      && Owned(pagesOut, pq, pgMaps, pagesGone) && Recorded(hist, pc, pq)
      && Elems(FragPages(s.frags[..|s.frags| - 1])) <= pagesGone
    }

    /** Freeing the pages of a buffer's fragments, as dev_kfree_skb does. */
    method FreePages(frags: seq<Frag>)
      requires PagesHeld() && Elems(FragPages(frags)) <= pagesGone
      modifies this`pagesOut, this`pagesGone
      ensures PagesHeld() && pagesGone == old(pagesGone) - Elems(FragPages(frags))
    {
      hide Holds, Sized, Owned;
      OwnedFreed(pagesOut, pq, pgMaps, pagesGone, Elems(FragPages(frags)));
      pagesOut := pagesOut - set x | x in FragPages(frags);
      pagesGone := pagesGone - Elems(FragPages(frags));
    }

    /** bnx2_reuse_rx_skb_pages: with a buffer, its last fragment is first put back
        and the rest of it freed. The oldest `count` pages become the newest, each
        with its mapping and bus address. */
    method ReuseRxSkbPages(skb: Option<Skb>, count: nat)
      requires PgIndices() && match skb case None => PagesHeld() case Some(s) => PagesHeldBut(s)
      modifies pgRing, pgDesc, this`pc, this`pq, this`hist, this`pagesOut, this`pagesGone, this`rxPgCons, this`rxPgProd
      ensures PagesHeld() && PgIndices() && pc == old(pc) + count
      ensures pq == RotatedBy(old(pq), count) && |pq| == old(|pq|) && old(hist) <= hist
      ensures pagesGone ==
              match skb case None => old(pagesGone)
                        case Some(s) => old(pagesGone) - Elems(FragPages(s.frags[..|s.frags| - 1]))
    {
      hide Holds, Sized, Owned, RxSlot, Idx, Rotated, FragPages, Mask, Elems, Recorded;
      RotatedByKeeps(pq, count);
      var cons := rxPgCons;
      if skb.Some? {
        var page := skb.value.frags[|skb.value.frags| - 1].page;
        ghost var sw := GivenBack(pgRing[..], cons, page);
        pgRing[cons] := pgRing[cons].(item := Some(page));
        assert pgRing[..] == sw;
        FreePages(skb.value.frags[..|skb.value.frags| - 1]);
      }
      var hwProd := rxPgProd;
      var i := 0;
      while i < count
        invariant 0 <= i <= count && PagesHeld() && pc == old(pc) + i && pq == RotatedBy(old(pq), i)
        invariant old(hist) <= hist
        invariant cons == RxSlot(pgPages, pc) && hwProd == Idx(pc + |pq|)
        modifies pgRing, pgDesc, this`pc, this`pq, this`hist
      {
        RecyclePage(cons, hwProd);
        NextSlot(pgPages, pc - 1);
        NextIdx(pc - 1 + |pq|);
        cons := Mask(pgPages, NextBd(cons));
        hwProd := NextBd(hwProd);
        i := i + 1;
      }
      rxPgProd := hwProd;
      rxPgCons := cons;
    }

    /** i pages of a frame are attached to a buffer; the ring was (pc0, pq0) before,
        and gone0 had gone up the stack. */
    ghost predicate Gathering(s: Skb, skb: int, hdrLen: nat, len: nat, i: nat, pc0: nat, pq0: seq<int>, gone0: set<int>)
      reads this`pgMaps, this`pc, this`pq, this`hist, this`pagesOut, this`pagesGone, pgRing, pgDesc
    {
      && PagesHeld() && pc == pc0 + i && Shifted(pq, pq0, i)
      && s.skb == skb && Gathered(s, hdrLen, len, i) && FragPages(s.frags) == pq0[..i]
      && pagesGone == gone0 + Elems(pq0[..i]) && Elems(pq0[..i]) !! gone0
    }

    /** The part of bnx2_rx_skb for a frame of len bytes of which hdrLen are in the
        buffer and the others, with the CRC, in pages.

        Whatever happens, both page indices move on by the number of those pages,
        and as many pages are posted as before. On success the buffer has exactly
        the frame, in the pages that were oldest. On failure no page is lost. A
        header that is the whole frame with its CRC always succeeds, and the CRC
        stays on. */
    method RxPages(skb: int, len: nat, hdrLen: nat) returns (rc: int, data: Skb)
      requires PagesHeld() && PgIndices() && 0 < hdrLen <= len + 4 && PagesFor(len + 4 - hdrLen) <= |pq|
      modifies this`asked, pgRing, pgDesc, this`pgMaps, this`pc, this`pq, this`hist, this`pagesOut, this`pagesGone,
        this`rxPgCons, this`rxPgProd
      ensures PagesHeld() && PgIndices()
      ensures Refused() == old(Refused()) + (if rc == 0 then 0 else 1) && (hdrLen == len + 4 ==> rc == 0)
      ensures |pq| == old(|pq|) && pc == old(pc) + PagesFor(len + 4 - hdrLen)
      ensures rc == 0 ==> data.skb == skb &&
                          if hdrLen < len + 4 then LaidOut(data, hdrLen, len) else data.len == len + 4
      ensures rc == 0 ==> |data.frags| <= old(|pq|) && FragPages(data.frags) == old(pq)[..|data.frags|]
      ensures old(hist) <= hist
      ensures rc == 0 ==> Elems(FragPages(data.frags)) !! old(pagesGone)
      ensures pagesGone == if rc == 0 then old(pagesGone) + Elems(FragPages(data.frags)) else old(pagesGone)
    {
      hide Holds, Sized, Owned, RxSlot, Idx, Rotated, FragPages, Mask, Elems, RotatedBy, PagesFor, LaidOut, PagesHeld,
        Shifted, Gathered;
      ghost var pq0, pc0, gone0 := pq, pc, pagesGone;
      rc := 0;
      var pgCons, pgProd := rxPgCons, rxPgProd;
      var fragSize := len + 4 - hdrLen;
      var pages := PagesFor(fragSize);
      data := Skb(skb, hdrLen, hdrLen, 0, []);
      GatherStart(data, gone0, pq0, hdrLen, len);
      var i := 0;
      while i < pages
        invariant Refused() == old(Refused()) && old(hist) <= hist
        invariant 0 <= i <= pages && Gathering(data, skb, hdrLen, len, i, pc0, pq0, gone0)
        invariant pgCons == RxSlot(pgPages, pc) && pgProd == Idx(pc + |pq|)
        invariant i < pages ==> fragSize == len + 4 - hdrLen - i * PAGE_SIZE
        modifies this`asked, pgRing, pgDesc, this`pgMaps, this`pc, this`pq, this`hist, this`pagesOut, this`pagesGone,
          this`rxPgCons, this`rxPgProd
      {
        ShiftedSize(pq, pq0, i);
        MorePages(len + 4 - hdrLen, i);
        var fragLen := if fragSize < PAGE_SIZE then fragSize else PAGE_SIZE;
        if fragLen <= 4 {
          GatherTail(data, hdrLen, len, i, 4 - fragLen);
          data := CutTail(data, i, 4 - fragLen);
          rxPgCons, rxPgProd := pgCons, pgProd;
          ReuseRxSkbPages(None, pages - i);
          return;
        }
        if i == pages - 1 {
          fragLen := fragLen - 4;
        }
        rc, data := AttachPage(data, hdrLen, len, i, fragLen, pgCons, pgProd, pc0, pq0, gone0);
        if rc != 0 {
          return;
        }
        fragSize := fragSize - fragLen;
        ShiftedSize(pq, pq0, i + 1);
        NextIdx(pc - 1 + |pq|);
        NextSlot(pgPages, pc - 1);
        pgProd := NextBd(pgProd);
        pgCons := Mask(pgPages, NextBd(pgCons));
        i := i + 1;
      }
      ShiftedSize(pq, pq0, i);
      GatherDone(data, hdrLen, len, i);
      rxPgProd := pgProd;
      rxPgCons := pgCons;
    }

    /** Attaches the oldest page and replaces it, or gives everything back. */
    method AttachPage(data: Skb, hdrLen: nat, len: nat, i: nat, fragLen: nat, pgCons: U16, pgProd: U16,
                      ghost pc0: nat, ghost pq0: seq<int>, ghost gone0: set<int>) returns (rc: int, data': Skb)
      requires Gathering(data, data.skb, hdrLen, len, i, pc0, pq0, gone0) && hdrLen <= len + 4
      requires i < PagesFor(len + 4 - hdrLen) <= |pq0|
      requires pgCons == RxSlot(pgPages, pc) && pgProd == Idx(pc + |pq|)
      requires LastPart(hdrLen, len, i, fragLen)
      modifies this`asked, pgRing, pgDesc, this`pgMaps, this`pc, this`pq, this`hist, this`pagesOut, this`pagesGone,
        this`rxPgCons, this`rxPgProd
      ensures Refused() == old(Refused()) + if rc == 0 then 0 else 1
      ensures rc == 0 ==> Gathering(data', data.skb, hdrLen, len, i + 1, pc0, pq0, gone0)
      ensures rc != 0 ==> PagesHeld() && PgIndices() && pc == pc0 + PagesFor(len + 4 - hdrLen) && |pq| == |pq0| &&
                          pagesGone == gone0
      ensures old(hist) <= hist
    {
      hide Holds, Sized, Owned, RxSlot, Idx, Rotated, FragPages, Mask, Elems, RotatedBy, PagesFor, LaidOut, Shifted,
        Gathered, LastPart;
      ghost var was, i' := pq, i;
      ShiftedSize(pq, pq0, i);
      GatheredSize(data, hdrLen, len, i);
      var page;
      rc, page := SwapPage(pgCons, pgProd);
      data' := data.(frags := data.frags + [Frag(page, fragLen)]);
      ShiftMore(was, pq, pq0, i, page, rc == 0);
      GatherOwned(data.frags, Frag(page, fragLen), pq0, i, gone0, page);
      if rc != 0 {
        rxPgCons, rxPgProd := pgCons, pgProd;
        ReuseRxSkbPages(Some(data'), PagesFor(len + 4 - hdrLen) - i);
        return;
      }
      GatherPage(data, hdrLen, len, i, page, fragLen);
      data' := data'.(dataLen := data.dataLen + fragLen, len := data.len + fragLen);
    }

    /** One round of its loop. */
    method RecyclePage(cons: nat, hwProd: U16)
      requires PagesHeld() && cons == RxSlot(pgPages, pc) && hwProd == Idx(pc + |pq|)
      modifies pgRing, pgDesc, this`pc, this`pq, this`hist
      ensures PagesHeld() && pc == old(pc) + 1 && pq == Rotated(old(pq)) && |pq| == old(|pq|)
      ensures old(hist) <= hist
    {
      hide Holds, Sized, Owned, RxSlot, Idx, Mask, Recorded;
      HoldsSizes(pgPages, pgDma, pgRing[..], pgDesc[..], pgMaps, pc, pq);
      SlotOfIdx(pgPages, pc + |pq|);
      RotatedOnce(pq);
      OwnedRotated(pagesOut, pq, pgMaps, pagesGone, 1);
      var prod := Mask(pgPages, hwProd);
      ghost var sw0, desc0 := pgRing[..], pgDesc[..];
      ghost var bd := desc0[prod].(addr := desc0[cons].addr);
      Recycled(pgPages, pgDma, sw0, desc0, pgMaps, pc, pq, bd);
      SizedKeep(desc0, PAGE_SIZE, prod, bd);
      if prod != cons {
        pgRing[prod] := SwBd(pgRing[cons].item, pgRing[prod].mapping);
        pgRing[cons] := pgRing[cons].(item := None);
        pgRing[prod] := pgRing[prod].(mapping := pgRing[cons].mapping);
        pgDesc[prod] := pgDesc[prod].(addr := pgDesc[cons].addr);
        assert pgRing[..] == sw0[prod := sw0[cons]][cons := sw0[cons].(item := None)];
        assert pgDesc[..] == desc0[prod := bd];
      }
      RotatedKeeps(pq);
      RecordedNext(hist, pc, pq, if pq == [] then 0 else pq[0]);
      pc, pq, hist := pc + 1, Rotated(pq), hist + [if pq == [] then 0 else pq[0]];
    }

    // ----- Socket buffers -----

    ghost predicate BufsHeld()
      reads this`maps, this`c, this`q, this`skbsOut, this`skbsGone, this`bseq, bufRing, desc
    {
      && pgRing != bufRing && pgDesc != desc
      && Holds(pages, dma, bufRing[..], desc[..], maps, c, q) && Sized(desc[..], useSize)
      && Owned(skbsOut, q, maps, skbsGone)
      && bseq == Bseq(useSize, c + |q|)
    }

    /** The head of the ring has been taken: its slot keeps the mapping and the
        descriptor the bus address. */
    ghost predicate BufTaken(skb: int, cons: nat)
      reads this`maps, this`c, this`q, this`skbsOut, this`skbsGone, this`bseq, bufRing, desc
    {
      && pgRing != bufRing && pgDesc != desc
      && Holds(pages, dma, bufRing[..], desc[..], maps, c, q) && |q| < Capacity(pages) && Sized(desc[..], useSize)
      && Owned(skbsOut, [skb] + q, maps, skbsGone)
      && bseq == Bseq(useSize, c + |q|)
      && skb !in q && skb in maps && cons < bufRing.Length == desc.Length
      && bufRing[cons].mapping == maps[skb] && desc[cons].addr == maps[skb]
    }

    /** bnx2_alloc_rx_skb into the slot behind the newest buffer. */
    method AllocRxSkb(index: nat) returns (rc: int, ghost skb: int)
      requires pgRing != bufRing && pgDesc != desc
      requires Holds(pages, dma, bufRing[..], desc[..], maps, c, q) && |q| < Capacity(pages)
      requires index == RxSlot(pages, c + |q|) && Elems(q) <= skbsOut && Sized(desc[..], useSize)
      modifies this`asked, bufRing, desc, this`maps, this`skbsOut, this`bseq, this`q
      ensures rc == match grants(old(asked)) case Granted => 0 case NoMemory => ENOMEM case NoMapping => EIO
      ensures asked == old(asked) + 1 && Refused() == old(Refused()) + if rc == 0 then 0 else 1
      ensures Holds(pages, dma, bufRing[..], desc[..], maps, c, q) && Sized(desc[..], useSize)
      ensures rc == 0 ==> skb !in old(skbsOut) && skbsOut == old(skbsOut) + {skb} && skb in maps &&
                          maps == old(maps)[skb := maps[skb]] && q == old(q) + [skb] &&
                          bseq == AddBseq(old(bseq), useSize)
      ensures rc != 0 ==> maps == old(maps) && skbsOut == old(skbsOut) && q == old(q) && bseq == old(bseq)
      ensures rc != 0 ==> bufRing[..] == old(bufRing[..]) && desc[..] == old(desc[..])
    {
      hide Holds, Sized, RxSlot, Capacity;
      HoldsSizes(pages, dma, bufRing[..], desc[..], maps, c, q);
      skb := 0;
      var answer := grants(asked);
      asked := asked + 1;
      if answer == NoMemory {
        return ENOMEM, 0;
      }
      var newSkb := Unused(skbsOut);
      var mapping: int := *;
      if answer == NoMapping {
        return EIO, 0;
      }
      skb := newSkb;
      TailIsNew(q, skbsOut, newSkb);
      ghost var bd := desc[index].(addr := mapping);
      Appended(pages, dma, bufRing[..], desc[..], maps, c, q, newSkb, mapping, bd);
      SizedKeep(desc[..], useSize, index, bd);
      ghost var sw', desc' := bufRing[..][index := SwBd(Some(newSkb), mapping)], desc[..][index := bd];
      skbsOut := skbsOut + {newSkb};
      maps := maps[newSkb := mapping];
      bufRing[index] := SwBd(Some(newSkb), mapping);
      desc[index] := desc[index].(addr := mapping);
      assert bufRing[..] == sw' && desc[..] == desc';
      bseq := AddBseq(bseq, useSize);
      q := q + [newSkb];
      rc := 0;
    }

    /** bnx2_reuse_rx_skb: the buffer taken from slot cons goes into slot prod, with
        its mapping and bus address. */
    method ReuseRxSkb(skb: int, cons: nat, prod: nat)
      requires BufTaken(skb, cons) && prod == RxSlot(pages, c + |q|)
      modifies bufRing, desc, this`bseq, this`q
      ensures BufsHeld() && q == old(q) + [skb]
    {
      hide Holds, Sized, RxSlot, Capacity, Owned, Bseq;
      HoldsSizes(pages, dma, bufRing[..], desc[..], maps, c, q);
      ghost var sw0, desc0 := bufRing[..], desc[..];
      ghost var bd := if cons == prod then desc0[prod] else desc0[prod].(addr := desc0[cons].addr);
      Appended(pages, dma, sw0, desc0, maps, c, q, skb, maps[skb], bd);
      SizedKeep(desc0, useSize, prod, bd);
      assert maps[skb := maps[skb]] == maps;
      OwnedTail(skbsOut, q, skb, maps, skbsGone);
      BseqStep(useSize, c + |q|);
      bseq := AddBseq(bseq, useSize);
      bufRing[prod] := bufRing[prod].(item := Some(skb));
      if cons != prod {
        bufRing[prod] := bufRing[prod].(mapping := bufRing[cons].mapping);
        desc[prod] := desc[prod].(addr := desc[cons].addr);
      }
      assert bufRing[..] == sw0[prod := SwBd(Some(skb), maps[skb])];
      assert desc[..] == desc0[prod := bd];
      q := q + [skb];
    }

    /** The first part of bnx2_rx_skb: a new buffer takes the place of the one that
        was taken, which is unmapped; or that one is posted again. */
    method SwapSkb(skb: int, cons: nat, prod: nat) returns (rc: int)
      requires BufTaken(skb, cons) && prod == RxSlot(pages, c + |q|)
      modifies this`asked, bufRing, desc, this`bseq, this`q, this`maps, this`skbsOut, this`skbsGone
      ensures BufsHeld() && |q| == old(|q|) + 1 && q[..|q| - 1] == old(q)
      ensures Refused() == old(Refused()) + if rc == 0 then 0 else 1
      ensures skbsGone == if rc == 0 then old(skbsGone) + {skb} else old(skbsGone)
    {
      hide Holds, Sized, RxSlot, Capacity, Owned, Bseq;
      ghost var newSkb, q0 := 0, q;
      TakenIsOut(skbsOut, q, skb, maps, skbsGone);
      rc, newSkb := AllocRxSkb(prod);
      if rc != 0 {
        ReuseRxSkb(skb, cons, prod);
        return;
      }
      OwnedReplaced(old(skbsOut), q0, skb, old(maps), skbsGone, newSkb, maps[newSkb]);
      AppendedFresh(q0, skb, newSkb, old(skbsOut));
      BseqStep(useSize, c + |q0|);
      Unmapped(pages, dma, bufRing[..], desc[..], maps, c, q, skb);
      maps := maps - {skb};
      skbsGone := skbsGone + {skb};
    }

    /** bnx2_rx_skb. */
    method RxSkb(skb: int, len: nat, hdrLen: nat, cons: nat, prod: nat) returns (rc: int, data: Skb)
      requires BufTaken(skb, cons) && prod == RxSlot(pages, c + |q|)
      requires PagesHeld() && PgIndices() && hdrLen <= len + 4 && (hdrLen > 0 ==> PagesFor(len + 4 - hdrLen) <= |pq|)
      modifies this`asked, bufRing, desc, this`bseq, this`q, this`maps, this`skbsOut, this`skbsGone
      modifies this`asked, pgRing, pgDesc, this`pgMaps, this`pc, this`pq, this`hist, this`pagesOut, this`pagesGone,
        this`rxPgCons, this`rxPgProd
      ensures BufsHeld() && |q| == old(|q|) + 1 && q[..|q| - 1] == old(q)
      ensures PagesHeld() && PgIndices() && |pq| == old(|pq|)
      ensures Refused() == old(Refused()) + if rc == 0 then 0 else 1
      ensures pc == old(pc) + if hdrLen > 0 then PagesFor(len + 4 - hdrLen) else 0
      ensures rc == 0 ==> data.skb == skb &&
                          if hdrLen < len + 4 then LaidOut(data, hdrLen, len) else data.len == len + 4
      ensures rc == 0 ==> |data.frags| <= old(|pq|) && FragPages(data.frags) == old(pq)[..|data.frags|]
      ensures skbsGone == if rc == 0 then old(skbsGone) + {skb} else old(skbsGone)
      ensures old(hist) <= hist
      ensures rc == 0 ==> Elems(FragPages(data.frags)) !! old(pagesGone)
      ensures pagesGone == if rc == 0 then old(pagesGone) + Elems(FragPages(data.frags)) else old(pagesGone)
    {
      hide Holds, Sized, RxSlot, Capacity, Owned, Bseq, Elems, FragPages, PagesFor, RotatedBy;
      data := Skb(skb, len, len, 0, []);
      NoPages(data, len, pagesGone, pq);
      TakenIsOut(skbsOut, q, skb, maps, skbsGone);
      rc := SwapSkb(skb, cons, prod);
      if rc != 0 {
        if hdrLen != 0 {
          ReuseRxSkbPages(None, PagesFor(len + 4 - hdrLen));
        }
        return;
      }
      if hdrLen == 0 {
        return;
      }
      rc, data := RxPages(skb, len, hdrLen);
      if rc != 0 {
        FreeSkb(skb);
      }
    }

    /** dev_kfree_skb. */
    method FreeSkb(skb: int)
      requires BufsHeld() && skb in skbsGone
      modifies this`skbsOut, this`skbsGone
      ensures BufsHeld() && skbsGone == old(skbsGone) - {skb}
    {
      hide Holds, Sized, Owned;
      OwnedFreed(skbsOut, q, maps, skbsGone, {skb});
      skbsOut := skbsOut - {skb};
      skbsGone := skbsGone - {skb};
    }

    /** Takes the buffer at the head of the ring. */
    method TakeSkb(cons: nat) returns (skb: int)
      requires BufsHeld() && |q| > 0 && cons == RxSlot(pages, c)
      modifies bufRing, this`c, this`q
      ensures BufTaken(skb, cons) && skb == old(q[0]) && c == old(c) + 1 && q == old(q)[1..]
    {
      hide Holds, Sized, Owned, RxSlot, Capacity, Bseq;
      TakenHead(pages, dma, bufRing[..], desc[..], maps, skbsOut, c, q, skbsGone);
      HoldsSizes(pages, dma, bufRing[..], desc[..], maps, c, q);
      ghost var sw0 := bufRing[..];
      skb := bufRing[cons].item.value;
      bufRing[cons] := bufRing[cons].(item := None);
      assert bufRing[..] == sw0[cons := sw0[cons].(item := None)];
      c, q := c + 1, q[1..];
    }

    /** netdev_alloc_skb for the copy of a short frame. */
    method CopySkb(skb: int, cons: nat, len: nat) returns (data: Option<Skb>)
      requires BufTaken(skb, cons)
      modifies this`asked, this`skbsOut, this`skbsGone
      ensures BufTaken(skb, cons) && asked == old(asked) + 1 && (data.Some? <==> grants(old(asked)).Granted?)
      ensures Refused() == old(Refused()) + if data.Some? then 0 else 1
      ensures match data
              case None => skbsGone == old(skbsGone)
              case Some(d) => d == Skb(d.skb, len, len, 0, []) && skbsGone == old(skbsGone) + {d.skb} &&
                              d.skb !in old(skbsGone) && d.skb != skb
    {
      hide Holds, Sized, Owned, RxSlot, Capacity, Bseq;
      var answer := grants(asked);
      asked := asked + 1;
      if !answer.Granted? {
        return None;
      }
      var newSkb := Unused(skbsOut);
      TakenIsOut(skbsOut, q, skb, maps, skbsGone);
      OwnedExtra(skbsOut, [skb] + q, maps, skbsGone, newSkb);
      skbsOut := skbsOut + {newSkb};
      skbsGone := skbsGone + {newSkb};
      data := Some(Skb(newSkb, len, len, 0, []));
    }

    /** What has gone up the stack is what was delivered. */
    ghost predicate Accounted()
      reads this`skbsGone, this`pagesGone, this`delivered
    {
      skbsGone == SkbsOf(delivered) && pagesGone == PagesOf(delivered)
    }

    /** Both rings and what became of their contents. */
    ghost predicate Rings()
      reads this`maps, this`c, this`q, this`skbsOut, this`skbsGone, this`bseq, bufRing, desc
      reads this`pgMaps, this`pc, this`pq, this`hist, this`pagesOut, this`pagesGone, this`rxPgCons, this`rxPgProd
      reads pgRing, pgDesc, this`delivered
    {
      BufsHeld() && PagesHeld() && PgIndices() && Accounted()
    }

    /** The body of bnx2_rx_int's loop for one frame. */
    method RxOne(f: Fhdr, swCons: U16, swProd: U16, used: bool) returns (counted: bool, pgRingUsed: bool)
      requires Rings() && |q| > 0 && swCons == Idx(c) && swProd == Idx(c + |q|)
      requires Sane(f, jumboThresh, copyThresh) && DevicePages(f) <= |pq|
      modifies bufRing, desc, this`bseq, this`c, this`q, this`maps, this`skbsOut, this`skbsGone, this`delivered
      modifies this`asked, pgRing, pgDesc, this`pgMaps, this`pc, this`pq, this`hist, this`pagesOut, this`pagesGone,
        this`rxPgCons, this`rxPgProd
      ensures Rings() && c == old(c) + 1 && |q| == old(|q|) && q[..|q| - 1] == old(q)[1..] && |pq| == old(|pq|)
      ensures pc == old(pc) + DriverPages(f, jumboThresh, copyThresh, used)
      ensures pc == old(pc) ==> rxPgProd == old(rxPgProd)
      ensures old(hist) <= hist && Refused() >= old(Refused())
      ensures !counted && Refused() == old(Refused()) ==> !Acceptable(f, mtu)
      ensures pgRingUsed <==> used || UsesPages(f, jumboThresh)
      ensures if counted then |delivered| == old(|delivered|) + 1 && delivered[..|delivered| - 1] == old(delivered) &&
                              Intact(delivered[|delivered| - 1], f) && Acceptable(f, mtu) &&
                              From(delivered[|delivered| - 1], old(q[0]), hist, old(pc), f.pktLen - 4 <= copyThresh)
              else delivered == old(delivered)
    {
      hide RxSlot, PagesFor, RotatedBy, Mask, Idx, LaidOut, From, BufsHeld, BufTaken, PagesHeld, Accounted, Intact,
        Sane, InPages, DevicePages;
      HdrLenIsPlacement(f, jumboThresh, copyThresh);
      SeparateRings();
      SlotOfIdx(pages, c);
      SlotOfIdx(pages, c + |q|);
      var ringCons, ringProd := Mask(pages, swCons), Mask(pages, swProd);
      var skb := TakeSkb(ringCons);
      counted, pgRingUsed := false, used;
      var hdrLen := 0;
      if f.split {
        hdrLen := f.ipXsum;
        pgRingUsed := true;
      } else if f.pktLen > jumboThresh {
        hdrLen := jumboThresh;
        pgRingUsed := true;
      }
      if f.bad {
        ReuseRxSkb(skb, ringCons, ringProd);
        if pgRingUsed {
          ReuseRxSkbPages(None, PagesFor(f.pktLen - hdrLen));
        }
        return;
      }
      GoodPlacement(f, jumboThresh, copyThresh);
      counted := RxGood(f.pktLen - 4, f.tagged, skb, hdrLen, ringCons, ringProd);
      if counted {
        IntactByHdrLen(delivered[|delivered| - 1], f, jumboThresh, copyThresh);
      }
    }

    /** The part of the body that is for good frames, up to next_rx. */
    method RxGood(len: nat, tagged: bool, skb: int, hdrLen: nat, ringCons: nat, ringProd: nat) returns (counted: bool)
      requires BufTaken(skb, ringCons) && ringProd == RxSlot(pages, c + |q|)
      requires PagesHeld() && PgIndices() && Accounted() && hdrLen < len + 4 && (hdrLen > 0 ==> len > copyThresh)
      requires hdrLen > 0 ==> PagesFor(len + 4 - hdrLen) <= |pq|
      modifies bufRing, desc, this`bseq, this`q, this`maps, this`skbsOut, this`skbsGone, this`delivered
      modifies this`asked, pgRing, pgDesc, this`pgMaps, this`pc, this`pq, this`hist, this`pagesOut, this`pagesGone,
        this`rxPgCons, this`rxPgProd
      ensures BufsHeld() && |q| == old(|q|) + 1 && q[..|q| - 1] == old(q)
      ensures PagesHeld() && PgIndices() && Accounted() && |pq| == old(|pq|)
      ensures old(hist) <= hist && Refused() >= old(Refused())
      ensures if counted then len <= mtu + ETH_HLEN || tagged
              else Refused() > old(Refused()) || (len > mtu + ETH_HLEN && !tagged)
      ensures pc == old(pc) + if hdrLen > 0 then PagesFor(len + 4 - hdrLen) else 0
      ensures if counted then |delivered| == old(|delivered|) + 1 && delivered[..|delivered| - 1] == old(delivered) &&
                              LaidOut(delivered[|delivered| - 1], hdrLen, len) &&
                              From(delivered[|delivered| - 1], skb, hist, old(pc), len <= copyThresh)
              else delivered == old(delivered)
    {
      hide Holds, Sized, RxSlot, Capacity, Owned, Bseq, Elems, FragPages, PagesFor, LaidOut, SkbsOf, PagesOf, From,
        Recorded, PgIndices, BufsHeld;
      ghost var before, pq0, pc0, hist0 := delivered, pq, pc, hist;
      counted := false;
      var data: Skb;
      if len <= copyThresh {
        var copy := CopySkb(skb, ringCons, len);
        ReuseRxSkb(skb, ringCons, ringProd);
        if copy.None? {
          return;
        }
        data := copy.value;
        NoPages(data, len, pagesGone, pq);
      } else {
        var rc;
        TakenIsOut(skbsOut, q, skb, maps, skbsGone);
        rc, data := RxSkb(skb, len, hdrLen, ringCons, ringProd);
        if rc != 0 {
          return;
        }
      }
      LaidOutLen(data, hdrLen, len);
      FromFirst(data, skb, hist0, hist, pc0, pq0, len <= copyThresh);
      counted := GoUp(data, tagged, before);
    }

    /** eth_type_trans and the length test: the frame is handed to the stack, or
        freed when it is too long and not tagged. */
    method GoUp(data: Skb, tagged: bool, ghost before: seq<Skb>) returns (counted: bool)
      requires BufsHeld() && PagesHeld() && delivered == before
      requires skbsGone == SkbsOf(before) + {data.skb} && data.skb !in SkbsOf(before)
      requires pagesGone == PagesOf(before) + Elems(FragPages(data.frags)) &&
        Elems(FragPages(data.frags)) !! PagesOf(before)
      modifies this`skbsOut, this`skbsGone, this`pagesOut, this`pagesGone, this`delivered
      ensures BufsHeld() && PagesHeld() && Accounted()
      ensures counted <==> data.len <= mtu + ETH_HLEN || tagged
      ensures delivered == if counted then before + [data] else before
    {
      hide Holds, Sized, Owned, Bseq, Elems, FragPages;
      if data.len > mtu + ETH_HLEN && !tagged {
        FreePages(data.frags);
        FreeSkb(data.skb);
        counted := false;
      } else {
        DeliveredMore(before, data);
        delivered := before + [data];
        counted := true;
      }
    }

    /** The state between two polls. */
    ghost predicate Valid()
      reads this, bufRing, desc, pgRing, pgDesc
    {
      && Rings() && rxCons == Idx(c) && rxProd == Idx(c + |q|)
      && told == Told(rxProd, bseq, rxPgProd) && Reckoned(pc, turns, jumboThresh, copyThresh)
    }

    /** What a poll begins with. */
    ghost function Start(frame: nat -> Fhdr): Poll
      reads this`c, this`q, this`pc, this`pq, this`turns
    {
      Poll(frame, jumboThresh, copyThresh, mtu, c, q, pc, pq, turns)
    }

    /** bnx2_rx_int. `frame(n)` is what the device wrote into the n-th buffer; `hwReads`
        gives the values of the status block's consumer index at successive reads
        and `done` the numbers of descriptors that they stand for; `last` is the
        last read.

        Every frame up to the last index read is taken care of, unless the budget
        runs out; that read found nothing new, unless there has been only one. What
        goes up are acceptable frames, in order and each once, frame n in the n-th
        buffer (unless copied) and in the pages of the page descriptors from Driven(n)
        on, with the lengths of the frame without its CRC. Whether those pages are the
        frame's own is what OwnPagesIff is about. As many buffers and pages are posted
        afterwards as before. */
    method RxInt(budget: nat, frame: nat -> Fhdr, hwReads: nat -> U16, ghost done: nat -> nat)
      returns (rxPkt: nat, ghost nums: seq<nat>, ghost last: nat)
      requires Valid() && Fits(Start(frame)) && HwReads(hwReads, done, c, c + |q|)
      modifies this, bufRing, desc, pgRing, pgDesc
      ensures Valid() && |q| == old(|q|) && |pq| == old(|pq|)
      ensures old(c) <= c && pc == old(pc) + Driven(old(Start(frame)), c - old(c))
      ensures c == done(last) || (c < done(last) && rxPkt == budget)
      ensures rxPkt != budget ==> if last == 0 then c == old(c) else c == done(last) == done(last - 1)
      ensures AcceptableCount(frame, c - old(c), mtu) <= rxPkt + Refused() - old(Refused())
      ensures budget > 0 ==> rxPkt <= budget
      ensures |nums| == rxPkt && InOrder(old(Start(frame)), old(delivered), delivered, nums, c - old(c), hist)
      ensures Follows(old(Start(frame))) && turns == old(turns) + [Turn(frame, c - old(c))]
      ensures OnRecord(old(Start(frame)), hist) && Unrepeated(hist, |pq|)
    {
      hide AcceptableCount, Valid, Idx, NextBd, Normalize, Fits, Driven, InOrder, HwReads, Rings, Polled, OnRecord,
        FlagSet, Acceptable, Distinct, Follows, Reckoned, Unrepeated, Refusals;
      ghost var p, d0, r0 := Start(frame), delivered, Refused();
      var read, n := 0, 0;
      var hwCons := Normalize(hwReads(read));
      var swCons, swProd, pgRingUsed := rxCons, rxProd, false;
      rxPkt, nums := 0, [];
      PollStarts(p);
      HwRead(hwReads, done, c, c + |q|, read);
      while swCons != hwCons
        invariant Polled(p, n, nums, pgRingUsed, d0, r0) && p.c + n <= done(read) <= p.c + |p.bufs|
        invariant hwCons == Idx(done(read)) && |nums| == rxPkt && (budget > 0 ==> rxPkt < budget)
        invariant p.c + n == done(read) ==> if read == 0 then n == 0 else done(read - 1) == p.c + n
        invariant swCons == Idx(p.c + n) && swProd == Idx(p.c + n + |p.bufs|)
        modifies bufRing, desc, this`bseq, this`c, this`q, this`maps, this`skbsOut, this`skbsGone, this`delivered
        modifies this`asked, pgRing, pgDesc, this`pgMaps, this`pc, this`pq, this`hist, this`pagesOut, this`pagesGone,
          this`rxPgCons, this`rxPgProd
        decreases |p.bufs| - n
      {
        RxIdxInjective(p.c + n, done(read));
        var counted;
        counted, pgRingUsed, swCons, swProd, nums :=
          PollOne(p, n, frame(n), swCons, swProd, pgRingUsed, nums, d0, r0);
        n := n + 1;
        if counted {
          rxPkt := rxPkt + 1;
        }
        if rxPkt == budget {
          break;
        }
        hwCons, read := Reread(hwReads, done, p.c, p.c + |p.bufs|, p.c + n, swCons, hwCons, read);
      }
      RxIdxInjective(p.c + n, done(read));
      last := read;
      Publish(p, n, nums, d0, r0, swCons, swProd, pgRingUsed);
    }

    /** Once everything up to the index read last is done, it is read again. */
    method Reread(hwReads: nat -> U16, ghost done: nat -> nat, ghost lo: nat, ghost hi: nat, ghost at: nat,
                  swCons: U16, hwCons: U16, read: nat)
      returns (hw: U16, now: nat)
      requires HwReads(hwReads, done, lo, hi) && at <= done(read) <= hi <= at + MAX_DESC_CNT * 16
      requires swCons == Idx(at) && hwCons == Idx(done(read))
      ensures hw == Idx(done(now)) && at <= done(now) <= hi
      ensures at == done(now) ==> now > 0 && done(now - 1) == at
    {
      hide Idx, Normalize, HwReads;
      RxIdxInjective(at, done(read));
      hw, now := hwCons, read;
      if swCons == hwCons {
        HwRead(hwReads, done, lo, hi, read + 1);
        now := read + 1;
        hw := Normalize(hwReads(now));
      }
    }

    /** After n frames of a poll that began at p, when d0 had been delivered and the
        kernel had refused r0 times. */
    ghost predicate Polled(p: Poll, n: nat, nums: seq<nat>, used: bool, d0: seq<Skb>, r0: nat)
      reads this, bufRing, desc, pgRing, pgDesc
    {
      && Rings() && p.jumboThresh == jumboThresh && p.copyThresh == copyThresh && p.mtu == mtu
      && Fits(p) && c == p.c + n && Shifted(q, p.bufs, n) && |pq| == |p.pages| && pc == p.pc + Driven(p, n)
      && (used <==> FlagSet(p, n)) && (used || told.pgBidx == rxPgProd)
      && InOrder(p, d0, delivered, nums, n, hist) && OnRecord(p, hist) && Follows(p) && turns == p.before
      && AcceptableCount(p.frame, n, mtu) + r0 <= |nums| + Refused()
    }

    lemma PollStarts(p: Poll)
      requires Valid() && Fits(p) && p == Start(p.frame)
      ensures Polled(p, 0, [], false, delivered, Refused())
      ensures rxCons == Idx(c) && rxProd == Idx(c + |q|) && |q| <= MAX_DESC_CNT * 16
    {
      hide Fits, Driven, FlagSet, InOrder, Idx, Holds, Owned;
      BufsFit();
      HoldsSizes(pgPages, pgDma, pgRing[..], pgDesc[..], pgMaps, pc, pq);
      NoneYet(p, delivered, hist);
      RecordStarts(p, hist);
    }

    lemma PollDone(p: Poll, n: nat, nums: seq<nat>, used: bool, d0: seq<Skb>, r0: nat)
      requires Polled(p, n, nums, used, d0, r0)
      ensures Rings() && c == p.c + n && |q| == |p.bufs| && |pq| == |p.pages| && (used || told.pgBidx == rxPgProd)
      ensures Fits(p) && pc == p.pc + Driven(p, n) && Follows(p) && turns == p.before && Unrepeated(hist, |pq|)
      ensures InOrder(p, d0, delivered, nums, n, hist) && OnRecord(p, hist)
      ensures AcceptableCount(p.frame, n, mtu) + r0 <= |nums| + Refused()
    {
      hide Fits, Driven, FlagSet, InOrder, OnRecord, Follows, BufsHeld, Accounted, PgIndices, Unrepeated, Holds, Owned;
    }

    /** One round of bnx2_rx_int's loop: frame n of the poll. */
    method PollOne(ghost p: Poll, ghost n: nat, f: Fhdr, swCons: U16, swProd: U16, used: bool, ghost nums: seq<nat>,
                   ghost d0: seq<Skb>, ghost r0: nat)
      returns (counted: bool, pgRingUsed: bool, nextCons: U16, nextProd: U16, ghost nums': seq<nat>)
      requires Polled(p, n, nums, used, d0, r0) && n < |p.bufs| && f == p.frame(n)
      requires swCons == Idx(p.c + n) && swProd == Idx(p.c + n + |p.bufs|)
      modifies bufRing, desc, this`bseq, this`c, this`q, this`maps, this`skbsOut, this`skbsGone, this`delivered
      modifies this`asked, pgRing, pgDesc, this`pgMaps, this`pc, this`pq, this`hist, this`pagesOut, this`pagesGone,
        this`rxPgCons, this`rxPgProd
      ensures Polled(p, n + 1, nums', pgRingUsed, d0, r0) && |nums'| == |nums| + if counted then 1 else 0
      ensures nextCons == Idx(p.c + n + 1) && nextProd == Idx(p.c + n + 1 + |p.bufs|)
    {
      hide Idx, NextBd, Fits, Driven, FlagSet, InOrder, DriverPages, UsesPages, Rings, Intact, From, Acceptable,
        OnRecord, Shifted;
      ghost var before, hist0, q0 := delivered, hist, q;
      FrameFits(p, n);
      ShiftedSize(q, p.bufs, n);
      counted, pgRingUsed := RxOne(f, swCons, swProd, used);
      DrivenStep(p, n);
      ShiftMore(q0, q, p.bufs, n, q0[0], true);
      OneMore(p, d0, before, delivered, counted, nums, n, hist0, hist);
      StaysOnRecord(p, hist0, hist);
      nums' := if counted then nums + [n] else nums;
      NextIdx(p.c + n);
      NextIdx(p.c + n + |p.bufs|);
      nextCons, nextProd := NextBd(swCons), NextBd(swProd);
    }

    /** The end of bnx2_rx_int: the indices are stored and the device is told. */
    method Publish(ghost p: Poll, ghost n: nat, ghost nums: seq<nat>, ghost d0: seq<Skb>, ghost r0: nat, swCons: U16,
                   swProd: U16, pgRingUsed: bool)
      requires Polled(p, n, nums, pgRingUsed, d0, r0)
      requires swCons == Idx(p.c + n) && swProd == Idx(p.c + n + |p.bufs|)
      modifies this`rxCons, this`rxProd, this`told, this`turns
      ensures Valid() && c == p.c + n && |q| == |p.bufs| && |pq| == |p.pages| && pc == p.pc + Driven(p, n)
      ensures Follows(p) && turns == p.before + [Turn(p.frame, n)]
      ensures InOrder(p, d0, delivered, nums, n, hist) && OnRecord(p, hist) && Unrepeated(hist, |pq|)
      ensures AcceptableCount(p.frame, n, mtu) + r0 <= |nums| + Refused()
    {
      hide Idx, Rings, Reckoned, Driven, Fits, InOrder, OnRecord, Unrepeated, AcceptableCount, Refusals;
      PollDone(p, n, nums, pgRingUsed, d0, r0);
      TurnReckoned(p, n);
      rxCons := swCons;
      rxProd := swProd;
      told := Told(swProd, bseq, if pgRingUsed then rxPgProd else told.pgBidx);
      turns := turns + [Turn(p.frame, n)];
    }

    lemma SeparateRings()
      requires BufsHeld()
      ensures pgRing != bufRing && pgDesc != desc
    {
    }

    lemma BufsFit()
      requires Rings()
      ensures |q| <= MAX_DESC_CNT * 16
    {
    }
  }

  // ----- Sizing and filling a ring -----

  lemma Parted(bus: seq<int>, a: nat, b: nat)
    requires Distinct(bus) && a + b <= |bus|
    ensures Distinct(bus[..a]) && Distinct(bus[a..a + b]) && Distinct([0])
  {
  }

  /** bnx2_set_rx_ring_size, then what bnx2_alloc_rx_mem, bnx2_clear_ring_states and
      bnx2_init_rx_ring do for one ring; `bus` has the addresses that
      dma_alloc_coherent hands out in order, as many as there are. A ring without
      pages has one idle page in the model that nothing is posted to. */
  method SetUp(mtu: nat, size: nat, k: Kernel, jumboBroken: bool, bus: seq<int>, grants: nat -> Grant)
    returns (rc: int, ring: RxRing?, conf: Config)
    requires size <= MAX_DESC_CNT * MAX_RX_RINGS && mtu >= 46 && Distinct(bus)
    ensures Chosen(conf, mtu, size, Splits(mtu, k, jumboBroken))
    ensures rc == (if conf.maxRing + conf.maxPgRing <= |bus| then 0 else ENOMEM)
    ensures rc == 0 ==>
              && ring != null && fresh(ring) && ring.Valid() && ring.c == ring.pc == 0 && ring.mtu == mtu
              && ring.useSize == conf.bufUseSize && ring.copyThresh == conf.copyThresh
              && ring.jumboThresh == conf.jumboThresh && ring.pages == conf.maxRing
              && |ring.q| <= conf.ringSize && |ring.pq| <= conf.pgRingSize
              && ring.grants == grants && ring.turns == []
              && (ring.Refused() == 0 ==> |ring.q| == conf.ringSize && |ring.pq| == conf.pgRingSize)
  {
    hide Chosen, Splits, Distinct;
    conf := SetRxRingSize(mtu, size, k, jumboBroken);
    ghost var pg := ChosenFits(conf, mtu, size, Splits(mtu, k, jumboBroken));
    rc, ring := ENOMEM, null;
    if conf.maxRing + conf.maxPgRing <= |bus| {
      Parted(bus, conf.maxRing, conf.maxPgRing);
      var pgPages: Pages := if conf.maxPgRing == 0 then 1 else conf.maxPgRing;
      ring := new RxRing(conf.maxRing, pgPages, conf.bufUseSize, conf.copyThresh, conf.jumboThresh, mtu,
        bus[..conf.maxRing],
        if conf.maxPgRing == 0 then [0] else bus[conf.maxRing..conf.maxRing + conf.maxPgRing], grants);
      ring.InitRxRing(conf.ringSize, conf.pgRingSize);
      rc := 0;
    }
  }

  // ----- A frame in the wrong page -----

  /** The poll of StickyFlag as bnx2_rx_int makes it, after polls without stray frames:
      when the device has completed three frames and the kernel grants everything, the
      third goes up in the page behind its own. */
  method StickyPoll(ring: RxRing, hwReads: nat -> U16, ghost done: nat -> nat) returns (rxPkt: nat)
    requires ring.Valid() && |ring.q| >= 3 && |ring.pq| >= 3 && forall k: nat :: ring.grants(k).Granted?
    requires ring.jumboThresh == 128 && ring.copyThresh == 0 && ring.mtu + ETH_HLEN >= 196
    requires HwReads(hwReads, done, ring.c, ring.c + |ring.q|) && forall k: nat :: done(k) == ring.c + 3
    requires NeverStray(ring.turns)
    modifies ring, ring.bufRing, ring.desc, ring.pgRing, ring.pgDesc
    ensures ring.Valid() && |ring.q| == old(|ring.q|) && |ring.pq| == old(|ring.pq|) && ring.c == old(ring.c) + 3
    ensures ring.turns == old(ring.turns) + [Turn(StickyFrames(), 3)]
    ensures rxPkt == 2 && |ring.delivered| == old(|ring.delivered|) + 2
    ensures var d, p := ring.delivered[old(|ring.delivered|) + 1], old(ring.Start(StickyFrames()));
            && Fits(p) && Follows(p) && GoneUp(p, 2, d, ring.hist)
            && |p.bufs| > 2 && d.skb == p.bufs[2] && d.linear == 128
            && DriverPlace(p, 2) == DevicePlace(p, 2) + 1 && |d.frags| == 1 && !OwnPages(p, 2, d, ring.hist)
  {
    hide Fits, InOrder, OnRecord, HwReads, Driven, AcceptableCount, OwnPages, FragPages, StickyFrames, Idx, Holds,
      Owned, Recorded, DevicePlace, DriverPlace, Follows, NeverStray, Unrepeated, GoneUp, Reckoned;
    ghost var p, d0, r0 := ring.Start(StickyFrames()), ring.delivered, ring.Refused();
    StickyFits(p);
    ghost var nums, last;
    rxPkt, nums, last := ring.RxInt(64, StickyFrames(), hwReads, done);
    ring.NoRefusals(old(ring.asked));
    ring.NoRefusals(ring.asked);
    StickyOutcome(p, d0, ring.delivered, nums, ring.c - p.c, ring.hist, rxPkt);
  }

  lemma StickyOutcome(p: Poll, d0: seq<Skb>, ds: seq<Skb>, nums: seq<nat>, n: nat, hist: seq<int>, answered: int)
    requires p.frame == StickyFrames() && p.jumboThresh == 128 && p.copyThresh == 0 && |p.pages| >= 3
    requires p.mtu + ETH_HLEN >= 196 && Fits(p) && InOrder(p, d0, ds, nums, n, hist)
    requires Follows(p) && NeverStray(p.before) && Unrepeated(hist, |p.pages|)
    requires n <= 3 && (|nums| < 64 ==> n == 3) && AcceptableCount(p.frame, n, p.mtu) <= answered == |nums|
    ensures |nums| == 2 && |ds| == |d0| + 2 && n == 3
    ensures var d := ds[|d0| + 1];
            && GoneUp(p, 2, d, hist) && DriverPlace(p, 2) == DevicePlace(p, 2) + 1
            && |p.bufs| > 2 && d.skb == p.bufs[2] && d.linear == 128 && |d.frags| == 1 && !OwnPages(p, 2, d, hist)
  {
    hide Driven, Fits, OwnPages, Intact, From, FragPages, Follows, NeverStray, Unrepeated, DevicePlace, DriverPlace;
    StickyCount(p, n, nums);
    WrongPage(p, ds[|d0| + 1], hist);
  }

  /** Good frames of 200 bytes. */
  function GoodFrames(): nat -> Fhdr {
    (n: nat) => Fhdr(200, false, 0, false, false, 128)
  }

  /** The lead stays: in the next poll every frame is good, and the first goes up in the
      page behind its own all the same. */
  method StickyTwice(ring: RxRing, hwReads: nat -> U16, ghost done: nat -> nat, hwReads': nat -> U16,
                     ghost done': nat -> nat)
    returns (rxPkt: nat, ghost p: Poll)
    requires ring.Valid() && |ring.q| >= 3 && |ring.pq| >= 3 && forall k: nat :: ring.grants(k).Granted?
    requires ring.jumboThresh == 128 && ring.copyThresh == 0 && ring.mtu + ETH_HLEN >= 196
    requires HwReads(hwReads, done, ring.c, ring.c + |ring.q|) && forall k: nat :: done(k) == ring.c + 3
    requires HwReads(hwReads', done', ring.c + 3, ring.c + 3 + |ring.q|) && forall k: nat :: done'(k) == ring.c + 4
    requires NeverStray(ring.turns)
    modifies ring, ring.bufRing, ring.desc, ring.pgRing, ring.pgDesc
    ensures ring.Valid() && rxPkt == 1 && |ring.delivered| == old(|ring.delivered|) + 3
    ensures p.frame == GoodFrames() && NoStray(p.frame, 1)
    ensures p.before == old(ring.turns) + [Turn(StickyFrames(), 3)] && Fits(p) && Follows(p)
    ensures var d := ring.delivered[old(|ring.delivered|) + 2];
            && GoneUp(p, 0, d, ring.hist) && |d.frags| == 1 && !OwnPages(p, 0, d, ring.hist)
  {
    hide Fits, InOrder, OnRecord, HwReads, Driven, AcceptableCount, OwnPages, FragPages, StickyFrames, GoodFrames, Idx,
      Holds, Owned, Recorded, DevicePlace, DriverPlace, Follows, NeverStray, NoStray, Unrepeated, GoneUp, Reckoned;
    var first := StickyPoll(ring, hwReads, done);
    p := ring.Start(GoodFrames());
    ghost var d0 := ring.delivered;
    GoodFits(p);
    ghost var nums, last;
    rxPkt, nums, last := ring.RxInt(64, GoodFrames(), hwReads', done');
    ring.NoRefusals(ring.asked);
    GoodOutcome(p, old(ring.turns), d0, ring.delivered, nums, ring.c - p.c, ring.hist);
  }

  lemma GoodFits(p: Poll)
    requires p.frame == GoodFrames() && p.jumboThresh == 128 && p.copyThresh == 0 && |p.pages| >= 1
    ensures Fits(p) && NoStray(p.frame, 1)
  {
    forall n: nat ensures DevicePages(p.frame(n)) <= 1 {
    }
  }

  lemma GoodOutcome(p: Poll, ts: seq<Turn>, d0: seq<Skb>, ds: seq<Skb>, nums: seq<nat>, n: nat, hist: seq<int>)
    requires p.frame == GoodFrames() && p.jumboThresh == 128 && p.copyThresh == 0 && |p.pages| >= 3
    requires p.mtu + ETH_HLEN >= 196 && Fits(p) && InOrder(p, d0, ds, nums, n, hist)
    requires Follows(p) && p.before == ts + [Turn(StickyFrames(), 3)] && NeverStray(ts)
    requires Unrepeated(hist, |p.pages|)
    requires n <= 1 && (|nums| < 64 ==> n == 1) && AcceptableCount(p.frame, n, p.mtu) <= |nums|
    ensures |nums| == 1 && |ds| == |d0| + 1
    ensures var d := ds[|d0|]; GoneUp(p, 0, d, hist) && |d.frags| == 1 && !OwnPages(p, 0, d, hist)
  {
    hide Driven, Filled, OwnPages, From, FragPages, Follows, NeverStray, Unrepeated, DevicePlace, DriverPlace, Fits;
    OneGood(p, n, nums);
    StrayThen(p, ts);
    OwnDescriptorsIff(p, 0);
    assert |ds[|d0|].frags| == PagesFor(196 - 128) == 1;
    OwnPagesIff(p, 0, ds[|d0|], hist);
  }

  lemma OneGood(p: Poll, n: nat, nums: seq<nat>)
    requires p.frame == GoodFrames() && n <= 1 && p.mtu + ETH_HLEN >= 196 && (|nums| < 64 ==> n == 1)
    requires forall i :: 0 <= i < |nums| ==> nums[i] < n
    requires forall i, j :: 0 <= i < j < |nums| ==> nums[i] < nums[j]
    requires AcceptableCount(p.frame, n, p.mtu) <= |nums|
    ensures n == 1 && |nums| == 1 && nums[0] == 0
  {
    assert AcceptableCount(p.frame, 0, p.mtu) == 0;
    if |nums| >= 2 { NotTwo(nums); }
  }

  lemma NotTwo(nums: seq<nat>)
    requires |nums| >= 2 && forall i, j :: 0 <= i < j < |nums| ==> nums[i] < nums[j]
    ensures nums[1] > 0
  {
    assert nums[0] < nums[1];
  }

  /** The lead after the poll of StickyFlag is one. */
  lemma StrayThen(p: Poll, ts: seq<Turn>)
    requires p.jumboThresh == 128 && p.copyThresh == 0 && Fits(p) && Follows(p)
    requires p.before == ts + [Turn(StickyFrames(), 3)] && NeverStray(ts)
    ensures !NeverStray(p.before) && DriverPlace(p, 0) == DevicePlace(p, 0) + 1
  {
    var t := Turn(StickyFrames(), 3);
    assert forall i :: 0 <= i < |ts| ==> ts[i] == p.before[i];
    StickyTotals();
    hide NeverStray, DriverTotal, DeviceTotal, StickyFrames, NoStray, AllSane, DriverAt, DeviceAt, Fits;
    TurnMore(ts, t, 128, 0);
    LeadIff(ts, 128, 0);
    OwnDescriptorsIff(p, 0);
    NoneDriven(p);
  }

  lemma NoneDriven(p: Poll)
    requires Fits(p)
    ensures Driven(p, 0) == Filled(p, 0) == 0 && NoStray(p.frame, 0)
  {
  }

  lemma StickyTotals()
    ensures AllSane(StickyFrames(), 128, 0)
    ensures DeviceTotal(StickyFrames(), 3) == 2 && DriverTotal(StickyFrames(), 3, 128, 0) == 3
  {
    StickyFlag();
  }

  lemma ThreeApart(nums: seq<nat>)
    requires |nums| >= 3 && nums[2] <= 2 && forall i, j :: 0 <= i < j < |nums| ==> nums[i] < nums[j]
    ensures nums[1] == 1
  {
    assert nums[0] < nums[1] < nums[2];
  }

  lemma StickyCount(p: Poll, n: nat, nums: seq<nat>)
    requires p.frame == StickyFrames() && n <= 3 && p.mtu + ETH_HLEN >= 196
    requires forall i :: 0 <= i < |nums| ==> nums[i] < n && Acceptable(p.frame(nums[i]), p.mtu)
    requires forall i, j :: 0 <= i < j < |nums| ==> nums[i] < nums[j]
    ensures |nums| <= 2 && AcceptableCount(p.frame, 3, p.mtu) == 2
    ensures |nums| == 2 ==> nums[1] == 2
  {
    assert AcceptableCount(p.frame, 2, p.mtu) == AcceptableCount(p.frame, 1, p.mtu) == 1;
    if |nums| >= 1 { assert nums[0] != 1; }
    if |nums| >= 2 { assert nums[0] < nums[1] != 1; }
    if |nums| >= 3 { ThreeApart(nums); }
  }

  // ----- Gathering the pages of a frame -----

  /** i pages have been taken from the queue q0, and as many appended. */
  ghost predicate Shifted(q: seq<int>, q0: seq<int>, i: nat) {
    i <= |q0| == |q| && q[..|q0| - i] == q0[i..]
  }

  lemma ShiftMore(was: seq<int>, q: seq<int>, q0: seq<int>, i: nat, page: int, swapped: bool)
    requires Shifted(was, q0, i) && i < |q0| && page == was[0]
    requires swapped ==> |q| == |was| && q[..|q| - 1] == was[1..]
    ensures page == q0[i] && (swapped ==> Shifted(q, q0, i + 1))
  {
    assert was[..|q0| - i][0] == q0[i..][0];
    if swapped {
      assert was[1..][..|q0| - i - 1] == was[..|q0| - i][1..];
      assert q0[i..][1..] == q0[i + 1..];
    }
  }

  /** The buffer once i pages of the frame with its CRC are attached: all full,
      except that the last page of the frame is short by the CRC. */
  predicate Gathered(s: Skb, hdrLen: nat, len: nat, i: nat) {
    var r := len + 4 - hdrLen;
    && |s.frags| == i && s.linear == hdrLen && s.len == hdrLen + s.dataLen
    && (forall j :: 0 <= j < i - 1 ==> s.frags[j].size == PAGE_SIZE)
    && if i == 0 then s.dataLen == 0
       else if i * PAGE_SIZE < r then s.dataLen == i * PAGE_SIZE && s.frags[i - 1].size == PAGE_SIZE
       else s.dataLen == r - 4 && s.frags[i - 1].size == r - 4 - (i - 1) * PAGE_SIZE > 0
  }

  lemma GatherStart(s: Skb, gone: set<int>, q: seq<int>, hdrLen: nat, len: nat)
    requires s == Skb(s.skb, hdrLen, hdrLen, 0, [])
    ensures FragPages([]) == q[..0] == [] && Elems(q[..0]) == {} && gone + {} == gone && Shifted(q, q, 0)
    ensures Gathered(s, hdrLen, len, 0) && PagesFor(0) == 0
  {
  }

  lemma ShiftedSize(q: seq<int>, q0: seq<int>, i: nat)
    requires Shifted(q, q0, i)
    ensures |q| == |q0| >= i
  {
  }

  lemma GatheredSize(s: Skb, hdrLen: nat, len: nat, i: nat)
    requires Gathered(s, hdrLen, len, i)
    ensures |s.frags| == i
  {
  }

  /** size is what the i-th page adds to the frame, of which more than 4 bytes are
      outstanding with the CRC. */
  predicate LastPart(hdrLen: nat, len: nat, i: nat, size: nat) {
    var rest := len + 4 - hdrLen - i * PAGE_SIZE;
    rest > 4 && size == (if rest < PAGE_SIZE then rest else PAGE_SIZE) -
                        if hdrLen <= len + 4 && i == PagesFor(len + 4 - hdrLen) - 1 then 4 else 0
  }

  lemma GatherPage(s: Skb, hdrLen: nat, len: nat, i: nat, page: int, size: nat)
    requires hdrLen <= len + 4 && Gathered(s, hdrLen, len, i) && i < PagesFor(len + 4 - hdrLen)
    requires LastPart(hdrLen, len, i, size)
    ensures Gathered(s.(frags := s.frags + [Frag(page, size)], dataLen := s.dataLen + size, len := s.len + size),
                     hdrLen, len, i + 1)
  {
  }

  lemma GatherOwned(frags: seq<Frag>, f: Frag, q0: seq<int>, i: nat, gone0: set<int>, page: int)
    requires i < |q0| && page == q0[i] == f.page && |frags| == i && FragPages(frags) == q0[..i]
    requires Elems(q0[..i]) !! gone0 && page !in gone0 + Elems(q0[..i])
    ensures FragPages(frags + [f]) == q0[..i + 1] && (frags + [f])[..i] == frags
    ensures Elems(q0[..i + 1]) == Elems(q0[..i]) + {page} && Elems(q0[..i + 1]) !! gone0
    ensures gone0 + Elems(q0[..i]) + {page} == gone0 + Elems(q0[..i + 1])
    ensures gone0 + Elems(q0[..i]) - Elems(q0[..i]) == gone0
  {
    assert FragPages(frags + [f]) == FragPages(frags) + [page];
    assert q0[..i + 1] == q0[..i] + [page];
  }

  /** Cutting `tail` bytes off the end of what i pages and the header hold. */
  function CutTail(s: Skb, i: nat, tail: nat): Skb
    requires i > 0 ==> |s.frags| == i && s.frags[i - 1].size >= tail
  {
    if i == 0 then s.(len := s.len - tail, linear := s.linear - tail)
    else
      var f := s.frags[i - 1];
      s.(len := s.len - tail, frags := s.frags[i - 1 := f.(size := f.size - tail)], dataLen := s.dataLen - tail)
  }

  /** When at most the CRC, or a part of it, is in the last page, that page is not
      attached and what of the CRC came before it is cut off. */
  lemma GatherTail(s: Skb, hdrLen: nat, len: nat, i: nat, tail: nat)
    requires 0 < hdrLen <= len + 4 && Gathered(s, hdrLen, len, i) && i < PagesFor(len + 4 - hdrLen)
    requires len + 4 - hdrLen - i * PAGE_SIZE == 4 - tail
    ensures PagesFor(len + 4 - hdrLen) == i + 1 && |s.frags| == i && (i > 0 ==> s.frags[i - 1].size >= tail)
    ensures var t := CutTail(s, i, tail);
            LaidOut(t, hdrLen, len) && FragPages(t.frags) == FragPages(s.frags) && |t.frags| == i && t.skb == s.skb
  {
    CrcSplit(len + 4 - hdrLen, i + 1);
    if i > 0 {
      var t := CutTail(s, i, tail);
      assert PagesFor(len - hdrLen) == i;
      assert FragPages(t.frags) == FragPages(s.frags);
    }
  }

  lemma GatherDone(s: Skb, hdrLen: nat, len: nat, i: nat)
    requires 0 < hdrLen <= len + 4 && Gathered(s, hdrLen, len, i) && i == PagesFor(len + 4 - hdrLen)
    ensures if hdrLen < len + 4 then LaidOut(s, hdrLen, len) else s.len == len + 4
    ensures |s.frags| == i
  {
    if hdrLen < len + 4 {
      CrcSplit(len + 4 - hdrLen, i);
    }
  }

  lemma MorePages(r: nat, i: nat)
    requires i < PagesFor(r)
    ensures r - i * PAGE_SIZE > 0 && (i + 1 < PagesFor(r) <==> r - i * PAGE_SIZE > PAGE_SIZE)
  {
  }

  /** Cutting the CRC off the last of i pages. */
  lemma CrcSplit(r: nat, i: nat)
    requires r > 0 && i == PagesFor(r)
    ensures i > 0 && (i - 1) * PAGE_SIZE < r <= i * PAGE_SIZE
    ensures r - 4 > (i - 1) * PAGE_SIZE ==> PagesFor(r - 4) == i
    ensures 4 <= r <= 4 + (i - 1) * PAGE_SIZE ==> PagesFor(r - 4) == i - 1
  {
  }

  /** A slot that has its item again. */
  function GivenBack(sw: seq<SwBd>, s: nat, item: int): seq<SwBd>
    requires s < |sw|
  {
    sw[s := sw[s].(item := Some(item))]
  }

  lemma RotatedOnce(q: seq<int>)
    ensures RotatedBy(q, 1) == Rotated(q) && |Rotated(q)| == |q| && RotatedBy(q, 0) == q
  {
    assert RotatedBy(q, 0) == q;
  }

  lemma SlotOfIdx(pages: Pages, n: nat)
    ensures Mask(pages, Idx(n)) == RxSlot(pages, n)
  {
  }

  /** What the head of a ring is, and what is left behind it. */
  lemma TakenHead(pages: Pages, dma: seq<int>, sw: seq<SwBd>, desc: seq<RxBd>, maps: map<int, int>, out: set<int>,
                  c: nat, q: seq<int>, gone: set<int>)
    requires Holds(pages, dma, sw, desc, maps, c, q) && |q| > 0 && Owned(out, q, maps, gone)
    ensures var s := RxSlot(pages, c);
            && s < |sw| == |desc| && q[0] in maps
            && sw[s] == SwBd(Some(q[0]), maps[q[0]]) && desc[s].addr == maps[q[0]]
            && Holds(pages, dma, sw[s := sw[s].(item := None)], desc, maps, c + 1, q[1..])
    ensures |q| <= Capacity(pages) && q == [q[0]] + q[1..] && q[0] !in q[1..] && Elems(q[1..]) <= out && q[0] in out
    ensures q[0] !in gone
  {
    hide RxSlot, Capacity, Holds;
    HoldsSizes(pages, dma, sw, desc, maps, c, q);
    Taken(pages, dma, sw, desc, maps, c, q);
    HeadIsOnce(q);
    assert q[0] in Elems(q);
    assert forall x :: x in Elems(q[1..]) ==> x in Elems(q);
  }

  lemma AppendedFresh(held: seq<int>, x: int, y: int, out: set<int>)
    requires x !in held && x in out && y !in out
    ensures x !in held + [y]
  {
  }
}
