/** What goes up the stack in a poll of bnx2_rx_int: which frames, in which buffers,
    and in whose pages, over any number of polls. */
module RxDelivery {
  import opened RingIndex
  import opened RxIndex
  import opened RxSizing
  import opened RxFrames

  /** A poll that has been: its frames, and how many of them it dealt with. */
  datatype Turn = Turn(frame: nat -> Fhdr, count: nat)

  /** What a poll meets: the frames as the device wrote them into the n-th buffers,
      the driver's thresholds, the two rings when it begins, with the numbers of
      their first descriptors, and the polls since the rings were set up. */
  datatype Poll = Poll(frame: nat -> Fhdr, jumboThresh: nat, copyThresh: nat, mtu: nat,
                       c: nat, bufs: seq<int>, pc: nat, pages: seq<int>, before: seq<Turn>)

  /** No frame takes more pages than are posted. */
  ghost predicate Fits(p: Poll) {
    Fitting(p.frame, p.jumboThresh, p.copyThresh, |p.pages|)
  }

  lemma FrameFits(p: Poll, n: nat)
    requires Fits(p)
    ensures AllSane(p.frame, p.jumboThresh, p.copyThresh)
    ensures Sane(p.frame(n), p.jumboThresh, p.copyThresh) && DevicePages(p.frame(n)) <= |p.pages|
  {
  }

  /** The page descriptors that n frames take the driver past, and that the device
      has filled for them. */
  ghost function Driven(p: Poll, n: nat): nat
    requires Fits(p)
  {
    DriverTotal(p.frame, n, p.jumboThresh, p.copyThresh)
  }

  ghost function Filled(p: Poll, n: nat): nat
    requires Fits(p)
  {
    DeviceTotal(p.frame, n)
  }

  predicate FlagSet(p: Poll, n: nat) {
    Used(p.frame, n, p.jumboThresh)
  }

  lemma DrivenStep(p: Poll, n: nat)
    requires Fits(p)
    ensures HdrLen(p.frame(n), p.jumboThresh) <= p.frame(n).pktLen
    ensures Driven(p, n + 1) ==
            Driven(p, n) + DriverPages(p.frame(n), p.jumboThresh, p.copyThresh, FlagSet(p, n))
    ensures FlagSet(p, n + 1) <==> FlagSet(p, n) || UsesPages(p.frame(n), p.jumboThresh)
    ensures !FlagSet(p, n + 1) ==> DriverPages(p.frame(n), p.jumboThresh, p.copyThresh, FlagSet(p, n)) == 0
  {
    FrameFits(p, n);
    HdrLenIsPlacement(p.frame(n), p.jumboThresh, p.copyThresh);
    if FlagSet(p, n + 1) {
      var j: nat :| j < n + 1 && UsesPages(p.frame(j), p.jumboThresh);
    }
  }

  /** The device completes descriptors in order, none that it was not given. */
  ghost predicate HwReads(hwReads: nat -> U16, done: nat -> nat, lo: nat, hi: nat) {
    && (forall k: nat :: Behind(hwReads(k), done(k)) && lo <= done(k) <= hi)
    && forall j: nat, k: nat :: j <= k ==> done(j) <= done(k)
  }

  lemma HwRead(hwReads: nat -> U16, done: nat -> nat, lo: nat, hi: nat, k: nat)
    requires HwReads(hwReads, done, lo, hi)
    ensures Normalize(hwReads(k)) == Idx(done(k)) && lo <= done(k) <= hi
    ensures k > 0 ==> done(k - 1) <= done(k)
  {
    hide Normalize, Idx, Behind;
    NormalizeIs(hwReads(k), done(k));
  }

  /** A good frame that the stack takes: not too long, or tagged. */
  predicate Acceptable(f: Fhdr, mtu: nat) {
    !f.bad && (f.pktLen - 4 <= mtu + ETH_HLEN || f.tagged)
  }

  function AcceptableCount(frame: nat -> Fhdr, n: nat, mtu: nat): nat {
    if n == 0 then 0 else AcceptableCount(frame, n - 1, mtu) + if Acceptable(frame(n - 1), mtu) then 1 else 0
  }

  /** The layout is that of the frame as the device placed it, without its CRC. */
  predicate Intact(d: Skb, f: Fhdr) {
    f.pktLen >= 4 && LaidOut(d, f.inBuffer, f.pktLen - 4)
  }

  /** The buffer goes up with what the device put in it less what of the CRC lay there,
      and with what it put in pages less the rest of the CRC. */
  lemma IntactBytes(d: Skb, f: Fhdr, jumboThresh: nat, copyThresh: nat)
    requires Sane(f, jumboThresh, copyThresh) && Intact(d, f)
    ensures d.len == f.pktLen - 4 && d.dataLen == FragBytes(d.frags)
    ensures d.linear == if InPages(f) < 4 then f.inBuffer - (4 - InPages(f)) else f.inBuffer
    ensures FragBytes(d.frags) == if InPages(f) < 4 then 0 else InPages(f) - 4
  {
    LaidOutBytes(d, f.inBuffer, f.pktLen - 4);
  }

  /** Laid out by hdr_len, the frame is laid out as it was placed. */
  lemma IntactByHdrLen(d: Skb, f: Fhdr, jumboThresh: nat, copyThresh: nat)
    requires Sane(f, jumboThresh, copyThresh) && !f.bad && LaidOut(d, HdrLen(f, jumboThresh), f.pktLen - 4)
    ensures Intact(d, f)
  {
    HdrLenIsPlacement(f, jumboThresh, copyThresh);
  }

  /** A delivered buffer is the one at the head of the ring if and only if the frame was
      not copied, and its fragments are the pages of the page descriptors from `at` on;
      hist[i] is the page of descriptor i. */
  predicate From(d: Skb, head: int, hist: seq<int>, at: nat, copied: bool) {
    && (d.skb == head <==> !copied)
    && at + |d.frags| <= |hist| && FragPages(d.frags) == hist[at..at + |d.frags|]
  }

  lemma FromLater(d: Skb, head: int, hist: seq<int>, hist': seq<int>, at: nat, copied: bool)
    requires From(d, head, hist, at, copied) && hist <= hist'
    ensures From(d, head, hist', at, copied)
  {
    assert hist'[at..at + |d.frags|] == hist[at..at + |d.frags|];
  }

  /** Frame n has gone up as d. */
  ghost predicate GoneUp(p: Poll, n: nat, d: Skb, hist: seq<int>)
    requires Fits(p)
  {
    && n < |p.bufs| && Intact(d, p.frame(n)) && Acceptable(p.frame(n), p.mtu)
    && From(d, p.bufs[n], hist, p.pc + Driven(p, n), p.frame(n).pktLen - 4 <= p.copyThresh)
  }

  /** What was delivered since `was` are the frames with the numbers nums, in order,
      each once, of the first n. */
  ghost predicate InOrder(p: Poll, was: seq<Skb>, now: seq<Skb>, nums: seq<nat>, n: nat, hist: seq<int>)
    requires Fits(p)
  {
    && |now| == |was| + |nums| && now[..|was|] == was
    && (forall i :: 0 <= i < |nums| ==> nums[i] < n && GoneUp(p, nums[i], now[|was| + i], hist))
    && (forall i, j :: 0 <= i < j < |nums| ==> nums[i] < nums[j])
  }

  lemma NoneYet(p: Poll, ds: seq<Skb>, hist: seq<int>)
    requires Fits(p)
    ensures InOrder(p, ds, ds, [], 0, hist) && Driven(p, 0) == 0 && !FlagSet(p, 0)
    ensures AcceptableCount(p.frame, 0, p.mtu) == 0
  {
  }

  lemma OneMore(p: Poll, d0: seq<Skb>, was: seq<Skb>, now: seq<Skb>, counted: bool, nums: seq<nat>, n: nat,
                hist: seq<int>, hist': seq<int>)
    requires Fits(p) && InOrder(p, d0, was, nums, n, hist) && hist <= hist'
    requires if counted then |now| == |was| + 1 && now[..|was|] == was && GoneUp(p, n, now[|was|], hist')
             else now == was
    ensures InOrder(p, d0, now, if counted then nums + [n] else nums, n + 1, hist')
  {
    hide Intact, From, Acceptable, Fits, Driven;
    var nums' := if counted then nums + [n] else nums;
    forall i | 0 <= i < |nums'| ensures nums'[i] < n + 1 && GoneUp(p, nums'[i], now[|d0| + i], hist') {
      if i < |nums| {
        assert now[|d0| + i] == was[|d0| + i];
        var k := nums[i];
        FromLater(was[|d0| + i], p.bufs[k], hist, hist', p.pc + Driven(p, k), p.frame(k).pktLen - 4 <= p.copyThresh);
      }
    }
    if counted { assert now[..|d0|] == now[..|was|][..|d0|]; }
  }

  // ----- Over all polls -----

  ghost predicate Sound(ts: seq<Turn>, jumboThresh: nat, copyThresh: nat) {
    forall i :: 0 <= i < |ts| ==> AllSane(ts[i].frame, jumboThresh, copyThresh)
  }

  /** The page descriptor that the driver has come to after these polls, and the one
      that the device has. Both begin at 0; pg_ring_used is clear whenever a poll
      begins, but the driver's place is not set anew. */
  ghost function DriverAt(ts: seq<Turn>, jumboThresh: nat, copyThresh: nat): nat
    requires Sound(ts, jumboThresh, copyThresh)
  {
    if ts == [] then 0
    else
      var t := ts[|ts| - 1];
      DriverAt(ts[..|ts| - 1], jumboThresh, copyThresh) + DriverTotal(t.frame, t.count, jumboThresh, copyThresh)
  }

  ghost function DeviceAt(ts: seq<Turn>): nat {
    if ts == [] then 0
    else
      var t := ts[|ts| - 1];
      DeviceAt(ts[..|ts| - 1]) + DeviceTotal(t.frame, t.count)
  }

  lemma TurnMore(ts: seq<Turn>, t: Turn, jumboThresh: nat, copyThresh: nat)
    requires Sound(ts, jumboThresh, copyThresh) && AllSane(t.frame, jumboThresh, copyThresh)
    ensures Sound(ts + [t], jumboThresh, copyThresh)
    ensures DriverAt(ts + [t], jumboThresh, copyThresh) ==
            DriverAt(ts, jumboThresh, copyThresh) + DriverTotal(t.frame, t.count, jumboThresh, copyThresh)
    ensures DeviceAt(ts + [t]) == DeviceAt(ts) + DeviceTotal(t.frame, t.count)
  {
    assert (ts + [t])[..|ts|] == ts;
  }

  ghost predicate NeverStray(ts: seq<Turn>) {
    forall i :: 0 <= i < |ts| ==> NoStray(ts[i].frame, ts[i].count)
  }

  /** The driver never falls behind the device, and a lead once gained stays: they are
      at the same page descriptor after any polls if and only if there was no stray
      frame in any of them. */
  lemma {:induction false} LeadIff(ts: seq<Turn>, jumboThresh: nat, copyThresh: nat)
    requires Sound(ts, jumboThresh, copyThresh)
    ensures DriverAt(ts, jumboThresh, copyThresh) >= DeviceAt(ts)
    ensures DriverAt(ts, jumboThresh, copyThresh) == DeviceAt(ts) <==> NeverStray(ts)
  {
    hide NoStray, AllSane;
    if ts != [] {
      var t, rest := ts[|ts| - 1], ts[..|ts| - 1];
      LeadIff(rest, jumboThresh, copyThresh);
      InStepIff(t.frame, t.count, jumboThresh, copyThresh);
      assert NeverStray(ts) <==> NeverStray(rest) && NoStray(t.frame, t.count) by {
        NeverStraySplit(rest, t);
        assert ts == rest + [t];
      }
    }
  }

  lemma NeverStraySplit(ts: seq<Turn>, t: Turn)
    ensures NeverStray(ts + [t]) <==> NeverStray(ts) && NoStray(t.frame, t.count)
  {
    hide NoStray;
    if NeverStray(ts + [t]) {
      assert (ts + [t])[|ts|] == t;
      forall i | 0 <= i < |ts| ensures NoStray(ts[i].frame, ts[i].count) {
        assert (ts + [t])[i] == ts[i];
      }
    }
  }

  // ----- Whose pages they are -----

  /** The poll follows the ones before it. */
  ghost predicate Follows(p: Poll) {
    Reckoned(p.pc, p.before, p.jumboThresh, p.copyThresh)
  }

  /** pc is where these polls have taken the driver. */
  ghost predicate Reckoned(pc: nat, ts: seq<Turn>, jumboThresh: nat, copyThresh: nat) {
    Sound(ts, jumboThresh, copyThresh) && pc == DriverAt(ts, jumboThresh, copyThresh)
  }

  lemma TurnReckoned(p: Poll, n: nat)
    requires Fits(p) && Follows(p)
    ensures Reckoned(DriverPlace(p, n), p.before + [Turn(p.frame, n)], p.jumboThresh, p.copyThresh)
  {
    TurnMore(p.before, Turn(p.frame, n), p.jumboThresh, p.copyThresh);
  }

  /** The first page descriptor that the device filled for frame n, and the one from
      which on the driver takes the frame's pages. */
  ghost function DevicePlace(p: Poll, n: nat): nat
    requires Fits(p) && Follows(p)
  {
    DeviceAt(p.before) + Filled(p, n)
  }

  ghost function DriverPlace(p: Poll, n: nat): nat
    requires Fits(p)
  {
    p.pc + Driven(p, n)
  }

  /** They are the same if and only if no stray frame has come before the frame, in
      this poll or in any earlier one. */
  lemma OwnDescriptorsIff(p: Poll, n: nat)
    requires Fits(p) && Follows(p)
    ensures DriverPlace(p, n) >= DevicePlace(p, n)
    ensures DriverPlace(p, n) == DevicePlace(p, n) <==>
            NeverStray(p.before) && NoStray(p.frame, n)
  {
    hide NeverStray, NoStray, DriverAt, DeviceAt, Sound, AllSane;
    LeadIff(p.before, p.jumboThresh, p.copyThresh);
    InStepIff(p.frame, n, p.jumboThresh, p.copyThresh);
  }

  /** The frame goes up in the pages of the descriptors that the device filled for
      it. */
  ghost predicate OwnPages(p: Poll, n: nat, d: Skb, hist: seq<int>)
    requires Fits(p) && Follows(p)
  {
    var a := DevicePlace(p, n);
    a + |d.frags| <= |hist| && FragPages(d.frags) == hist[a..a + |d.frags|]
  }

  /** A page comes back only after k descriptors. */
  ghost predicate Unrepeated(hist: seq<int>, k: nat) {
    forall i, j :: 0 <= i < j < |hist| && j - i < k ==> hist[i] != hist[j]
  }

  lemma OwnPagesWithoutStray(p: Poll, n: nat, d: Skb, hist: seq<int>)
    requires Fits(p) && Follows(p) && GoneUp(p, n, d, hist)
    requires NeverStray(p.before) && NoStray(p.frame, n)
    ensures OwnPages(p, n, d, hist)
  {
    hide Driven, Filled, Intact, Acceptable, Fits, Follows, DeviceAt, NeverStray, NoStray;
    OwnDescriptorsIff(p, n);
  }

  /** A frame in pages goes up in its own pages if and only if no stray frame has come
      before it, in this poll or in any earlier one, as long as the driver's lead is
      less than the number of pages posted. */
  lemma OwnPagesIff(p: Poll, n: nat, d: Skb, hist: seq<int>)
    requires Fits(p) && Follows(p) && GoneUp(p, n, d, hist) && |d.frags| > 0
    requires Unrepeated(hist, |p.pages|) && DriverPlace(p, n) - DevicePlace(p, n) < |p.pages|
    ensures OwnPages(p, n, d, hist) <==>
            NeverStray(p.before) && NoStray(p.frame, n)
  {
    hide Driven, Filled, Intact, Acceptable, Fits, Follows, DeviceAt, NeverStray, NoStray;
    OwnDescriptorsIff(p, n);
    var a, b, k := DevicePlace(p, n), DriverPlace(p, n), |d.frags|;
    if a < b {
      assert hist[a] != hist[b];
      assert FragPages(d.frags)[0] == hist[b..b + k][0] == hist[b];
      if a + k <= |hist| { assert hist[a..a + k][0] == hist[a]; }
    }
  }

  /** The poll of StickyFlag, with nothing stray before it: its third frame goes up, if
      it does, in the page behind its own. */
  lemma WrongPage(p: Poll, d: Skb, hist: seq<int>)
    requires p.frame == StickyFrames() && p.jumboThresh == 128 && p.copyThresh == 0 && |p.pages| >= 3
    requires Follows(p) && NeverStray(p.before) && Unrepeated(hist, |p.pages|)
    ensures Fits(p) && DriverPlace(p, 2) == p.pc + 2 && DevicePlace(p, 2) == p.pc + 1
    ensures GoneUp(p, 2, d, hist) ==>
              2 < |p.bufs| && d.skb == p.bufs[2] && d.linear == 128 && |d.frags| == 1 && !OwnPages(p, 2, d, hist)
  {
    StickyFits(p);
    StickyPlaces(p);
    if GoneUp(p, 2, d, hist) {
      assert |d.frags| == PagesFor(196 - 128) == 1;
      hide NeverStray, NoStray, DeviceAt, Driven, Filled, Follows;
      OwnDescriptorsIff(p, 2);
      OwnPagesIff(p, 2, d, hist);
    }
  }

  lemma StickyPlaces(p: Poll)
    requires p.frame == StickyFrames() && p.jumboThresh == 128 && p.copyThresh == 0
    requires Fits(p) && Follows(p) && NeverStray(p.before)
    ensures DriverPlace(p, 2) == p.pc + 2 && DevicePlace(p, 2) == p.pc + 1
  {
    StickyFlag();
    hide NeverStray, DriverAt, DeviceAt, Sound;
    LeadIff(p.before, 128, 0);
  }

  lemma StickyFits(p: Poll)
    requires p.frame == StickyFrames() && p.jumboThresh == 128 && p.copyThresh == 0 && |p.pages| >= 1
    ensures Fits(p)
  {
    forall n: nat ensures DevicePages(p.frame(n)) <= 1 {
    }
  }
}
