/** What the device tells about a received frame, how many pages of the page ring
    the frame took, and how the frame is put together again. */
module RxFrames {
  import opened Modulo
  import opened RingIndex
  import opened RxSizing

  /** struct l2_fhdr, as far as bnx2_rx_int looks at it. `pktLen` counts the CRC;
      `tagged` says that the frame goes up with protocol 0x8100, be it that the tag
      is in the frame or that the driver puts it back. `inBuffer` is not reported:
      it is how many bytes of the frame the device has put in the buffer; the
      others are in pages. */
  datatype Fhdr = Fhdr(pktLen: nat, split: bool, ipXsum: nat, bad: bool, tagged: bool, inBuffer: nat)

  /** Bytes of the frame that the device has put in pages. */
  function InPages(f: Fhdr): nat {
    if f.inBuffer < f.pktLen then f.pktLen - f.inBuffer else 0
  }

  /** Pages that the device filled for a frame. */
  function DevicePages(f: Fhdr): nat {
    PagesFor(InPages(f))
  }

  /** What a device does and reports. A frame that is split has its header in the
      buffer, which ip_xsum reports, and something in pages; of any other frame the
      buffer, with room for `room` bytes, has as much as fits. Something is in the
      buffer in any case. At least the CRC arrived with a good frame, and one that
      goes on in pages is not so short that it would be copied. */
  predicate Sane(f: Fhdr, room: nat, copyThresh: nat) {
    && (if f.split then f.inBuffer == f.ipXsum < f.pktLen
        else f.inBuffer == if f.pktLen <= room then f.pktLen else room)
    && (InPages(f) > 0 ==> f.inBuffer > 0 && (f.bad || f.pktLen - 4 > copyThresh))
    && (!f.bad ==> f.pktLen >= 4)
  }

  /** What sets pg_ring_used: the driver takes the frame for one with pages. */
  predicate UsesPages(f: Fhdr, jumboThresh: nat) {
    f.split || f.pktLen > jumboThresh
  }

  /** hdr_len: what the driver takes to be in the buffer when the rest is in pages,
      or 0. */
  function HdrLen(f: Fhdr, jumboThresh: nat): nat {
    if f.split then f.ipXsum else if f.pktLen > jumboThresh then jumboThresh else 0
  }

  /** The driver has it right: it takes exactly the frames that go on in pages for
      such frames, and hdr_len is what the device put in the buffer. */
  lemma HdrLenIsPlacement(f: Fhdr, jumboThresh: nat, copyThresh: nat)
    requires Sane(f, jumboThresh, copyThresh)
    ensures UsesPages(f, jumboThresh) <==> InPages(f) > 0
    ensures HdrLen(f, jumboThresh) == (if InPages(f) > 0 then f.inBuffer else 0) <= f.pktLen
  {
  }

  /** Page descriptors that bnx2_rx_int moves on by for a frame; `used` is
      pg_ring_used as the frames before it have left it. */
  function DriverPages(f: Fhdr, jumboThresh: nat, copyThresh: nat, used: bool): nat
    requires HdrLen(f, jumboThresh) <= f.pktLen
  {
    if f.bad then
      if used || UsesPages(f, jumboThresh) then PagesFor(f.pktLen - HdrLen(f, jumboThresh)) else 0
    else if f.pktLen - 4 <= copyThresh || HdrLen(f, jumboThresh) == 0 then 0
    else PagesFor(f.pktLen - HdrLen(f, jumboThresh))
  }

  // ----- One poll over many frames -----

  /** pg_ring_used after the first k frames of a poll. */
  predicate Used(frame: nat -> Fhdr, k: nat, jumboThresh: nat) {
    exists j: nat :: j < k && UsesPages(frame(j), jumboThresh)
  }

  ghost predicate AllSane(frame: nat -> Fhdr, jumboThresh: nat, copyThresh: nat) {
    forall n: nat :: Sane(frame(n), jumboThresh, copyThresh)
  }

  /** Moreover no frame takes more pages than are posted. */
  ghost predicate Fitting(frame: nat -> Fhdr, jumboThresh: nat, copyThresh: nat, posted: nat) {
    AllSane(frame, jumboThresh, copyThresh) && forall n: nat :: DevicePages(frame(n)) <= posted
  }

  ghost function DeviceTotal(frame: nat -> Fhdr, k: nat): nat {
    if k == 0 then 0 else DeviceTotal(frame, k - 1) + DevicePages(frame(k - 1))
  }

  ghost function DriverTotal(frame: nat -> Fhdr, k: nat, jumboThresh: nat, copyThresh: nat): nat
    requires AllSane(frame, jumboThresh, copyThresh)
  {
    if k == 0 then 0
    else
      HdrLenIsPlacement(frame(k - 1), jumboThresh, copyThresh);
      DriverTotal(frame, k - 1, jumboThresh, copyThresh) +
      DriverPages(frame(k - 1), jumboThresh, copyThresh, Used(frame, k - 1, jumboThresh))
  }

  lemma {:induction false} PagesBound(frame: nat -> Fhdr, k: nat, most: nat)
    requires forall n: nat :: InPages(frame(n)) <= most
    ensures DeviceTotal(frame, k) <= k * PagesFor(most)
  {
    hide PagesFor, InPages;
    if k > 0 {
      PagesBound(frame, k - 1, most);
      PagesMonotone(InPages(frame(k - 1)), most);
      Distribute(PagesFor(most), k - 1, 1);
    }
  }

  lemma PagesChosen(c: Config, mtu: nat, size: nat)
    requires mtu >= 46 && Chosen(c, mtu, size, true)
    ensures c.pgRingSize == Smaller(size * PagesFor(mtu - 40), MAX_DESC_CNT * MAX_RX_PG_RINGS)
  {
    hide PagesFor, Least;
  }

  /** The pages set aside for the buffers of a split ring are enough for as many
      frames with no more than mtu - 40 bytes each outside of their headers, when
      the page ring could be made that large. Any one such frame fits in any
      case. */
  lemma PagesSuffice(c: Config, mtu: nat, size: nat, frame: nat -> Fhdr, k: nat)
    requires mtu >= 46 && Chosen(c, mtu, size, true) && AllSane(frame, c.jumboThresh, c.copyThresh)
    requires forall n: nat :: InPages(frame(n)) <= mtu - 40
    ensures k <= size && size * PagesFor(mtu - 40) <= MAX_DESC_CNT * MAX_RX_PG_RINGS ==>
              DeviceTotal(frame, k) <= c.pgRingSize
    ensures size > 0 && PagesFor(mtu - 40) <= MAX_DESC_CNT * MAX_RX_PG_RINGS ==>
              Fitting(frame, c.jumboThresh, c.copyThresh, c.pgRingSize)
  {
    hide Chosen, PagesFor, DeviceTotal, InPages, AllSane;
    var p := PagesFor(mtu - 40);
    PagesChosen(c, mtu, size);
    PagesBound(frame, k, mtu - 40);
    Scaled(size, p, k);
    forall n: nat ensures DevicePages(frame(n)) <= p {
      PagesMonotone(InPages(frame(n)), mtu - 40);
    }
  }

  lemma Scaled(size: nat, p: nat, k: nat)
    ensures (size > 0 ==> p <= size * p) && (k <= size ==> k * p <= size * p)
  {
    if size > 0 { AtLeast(p, size); }
    if k <= size { Distribute(p, k, size - k); }
  }

  lemma PagesMonotone(m: nat, n: nat)
    requires m <= n
    ensures PagesFor(m) <= PagesFor(n)
  {
  }

  /** A damaged frame without pages, behind a frame of the same poll with pages. */
  predicate Stray(frame: nat -> Fhdr, i: nat) {
    && frame(i).bad && frame(i).pktLen > 0 && InPages(frame(i)) == 0
    && exists j: nat :: j < i && InPages(frame(j)) > 0
  }

  ghost predicate NoStray(frame: nat -> Fhdr, k: nat) {
    forall i: nat :: i < k ==> !Stray(frame, i)
  }

  lemma NoStrayStep(frame: nat -> Fhdr, k: nat, jumboThresh: nat, copyThresh: nat)
    requires k > 0 && AllSane(frame, jumboThresh, copyThresh)
    ensures var f := frame(k - 1);
            NoStray(frame, k) <==>
              NoStray(frame, k - 1) &&
              !(f.bad && f.pktLen > 0 && InPages(f) == 0 && Used(frame, k - 1, jumboThresh))
  {
    hide InPages, UsesPages, Sane;
    forall j: nat ensures UsesPages(frame(j), jumboThresh) <==> InPages(frame(j)) > 0 {
      assert Sane(frame(j), jumboThresh, copyThresh);
      HdrLenIsPlacement(frame(j), jumboThresh, copyThresh);
    }
    if NoStray(frame, k) {
      assert !Stray(frame, k - 1);
    }
  }

  /** For a single frame the driver follows the device except at a stray one. */
  lemma OneFrame(f: Fhdr, jumboThresh: nat, copyThresh: nat, used: bool)
    requires Sane(f, jumboThresh, copyThresh)
    ensures HdrLen(f, jumboThresh) <= f.pktLen
    ensures DriverPages(f, jumboThresh, copyThresh, used) >= DevicePages(f)
    ensures DriverPages(f, jumboThresh, copyThresh, used) == DevicePages(f) <==>
            !(f.bad && f.pktLen > 0 && InPages(f) == 0 && used)
  {
  }

  /** Over a poll, the driver moves on in the page ring as far as the device exactly when
      no stray frame came by: pg_ring_used is never cleared between frames, so a stray
      frame makes the driver recycle pages that the device has yet to fill. */
  lemma {:induction false} InStepIff(frame: nat -> Fhdr, k: nat, jumboThresh: nat, copyThresh: nat)
    requires AllSane(frame, jumboThresh, copyThresh)
    ensures DriverTotal(frame, k, jumboThresh, copyThresh) >= DeviceTotal(frame, k)
    ensures DriverTotal(frame, k, jumboThresh, copyThresh) == DeviceTotal(frame, k) <==> NoStray(frame, k)
  {
    hide DriverPages, DevicePages, Sane, HdrLen, UsesPages;
    if k > 0 {
      InStepIff(frame, k - 1, jumboThresh, copyThresh);
      assert Sane(frame(k - 1), jumboThresh, copyThresh);
      OneFrame(frame(k - 1), jumboThresh, copyThresh, Used(frame, k - 1, jumboThresh));
      NoStrayStep(frame, k, jumboThresh, copyThresh);
    }
  }

  /** Frames of 200 bytes, of which the second one is a damaged one of 60. */
  function StickyFrames(): nat -> Fhdr {
    (n: nat) => if n == 1 then Fhdr(60, false, 0, true, false, 60) else Fhdr(200, false, 0, false, false, 128)
  }

  /** After two of them the driver has moved on one page further than the device. */
  lemma StickyFlag()
    ensures AllSane(StickyFrames(), 128, 0)
    ensures DeviceTotal(StickyFrames(), 2) == 1 && DriverTotal(StickyFrames(), 2, 128, 0) == 2
  {
    var frame := StickyFrames();
    assert UsesPages(frame(0), 128);
    assert DeviceTotal(frame, 1) == 1 && DriverTotal(frame, 1, 128, 0) == 1;
    assert Used(frame, 1, 128);
  }

  // ----- Reassembly -----

  datatype Frag = Frag(page: int, size: nat)

  /** struct sk_buff: `linear` bytes in the buffer itself, `dataLen` in pages. */
  datatype Skb = Skb(skb: int, len: int, linear: int, dataLen: int, frags: seq<Frag>)

  /** How a frame of len bytes without its CRC is laid out when the first hdrLen
      bytes are in the buffer: the pages follow in order, all of them full but the
      last, and nothing of the CRC is left. */
  predicate LaidOut(s: Skb, hdrLen: nat, len: nat) {
    && s.len == len
    && s.linear == (if hdrLen == 0 || len < hdrLen then len else hdrLen)
    && s.dataLen == len - s.linear
    && |s.frags| == PagesFor(len - s.linear)
    && forall j :: 0 <= j < |s.frags| ==>
         s.frags[j].size == if j < |s.frags| - 1 then PAGE_SIZE else len - s.linear - j * PAGE_SIZE
  }

  function FragBytes(frags: seq<Frag>): nat {
    if frags == [] then 0 else FragBytes(frags[..|frags| - 1]) + frags[|frags| - 1].size
  }

  lemma {:induction false} FullPages(frags: seq<Frag>)
    requires forall j :: 0 <= j < |frags| ==> frags[j].size == PAGE_SIZE
    ensures FragBytes(frags) == PAGE_SIZE * |frags|
  {
    if frags != [] { FullPages(frags[..|frags| - 1]); }
  }

  /** The layout accounts for every byte once. */
  lemma LaidOutBytes(s: Skb, hdrLen: nat, len: nat)
    requires LaidOut(s, hdrLen, len)
    ensures s.linear + FragBytes(s.frags) == len && s.dataLen == FragBytes(s.frags)
    ensures forall j :: 0 <= j < |s.frags| ==> 0 < s.frags[j].size <= PAGE_SIZE
  {
    if s.frags != [] { FullPages(s.frags[..|s.frags| - 1]); }
  }

  function FragPages(frags: seq<Frag>): seq<int> {
    seq(|frags|, j requires 0 <= j < |frags| => frags[j].page)
  }
}
