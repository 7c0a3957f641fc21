/** The bnx2 MSI-X poll loop against a device that posts status blocks at any
    moment: bnx2_msi_1shot, bnx2_poll_msix, bnx2_poll_work and bnx2_has_fast_work.

    One step makes one access to the status block or to the interrupt register. */
module MsixPoll {
  import opened RingIndex

  /** Where NAPI is, with the index that a ring routine has read. */
  datatype Pc =
    | Idle                  // napi_complete has been called and the index acknowledged
    | TxTest                // about to compare the transmit index
    | TxRun(hw: U16)        // in bnx2_tx_int
    | RxTest
    | RxRun(hw: U16)        // in bnx2_rx_int
    | ReadIdx               // about to read status_idx
    | RecheckRx
    | RecheckTx
    | Ack                   // napi_complete called, about to write the index

  datatype State = State(
    // the device
    posts: nat,             // status blocks posted; status_idx is this modulo 2^16
    rxDone: nat,            // descriptors that they say are completed
    txDone: nat,
    hwRx: U16,              // consumer indices in the status block
    hwTx: U16,
    masked: bool,
    irq: bool,              // an interrupt on its way
    // the driver
    pc: Pc,
    rxCons: U16,
    hwTxCons: U16,
    readAt: nat             // history: posts when status_idx was last read
  )

  ghost predicate Init(s: State) {
    && s.pc.Idle? && !s.masked && !s.irq && s.posts == s.readAt
    && CaughtUp(s) && Tells(s)
  }

  /** Nothing in the status block is left to do. */
  predicate CaughtUp(s: State) {
    s.rxCons == Idx(s.rxDone) && s.hwTxCons == Idx(s.txDone)
  }

  /** The status block says what the device has done. */
  predicate Tells(s: State) {
    Behind(s.hwRx, s.rxDone) && Behind(s.hwTx, s.txDone)
  }

  /** status_idx, as 16 bits. */
  function StatusIdx(posts: nat): U16 {
    posts % 0x1_0000
  }

  /** A one-shot interrupt masks itself. */
  function Raise(s: State): State {
    if s.masked then s else s.(irq := true, masked := true)
  }

  /** The device posts new consumer indices, for so many descriptors. */
  function Post(s: State, rx: U16, rxDone: nat, tx: U16, txDone: nat): State {
    Raise(s.(posts := s.posts + 1, rxDone := rxDone, txDone := txDone, hwRx := rx, hwTx := tx))
  }

  /** Between the read of status_idx and its acknowledgement. */
  predicate InWindow(pc: Pc) {
    pc.RecheckRx? || pc.RecheckTx? || pc.Ack?
  }

  /** The interrupt arrives: napi_schedule. */
  function Deliver(s: State): State {
    s.(irq := false, pc := if s.pc.Idle? then TxTest else s.pc)
  }

  /** INT_ACK_CMD with INDEX_VALID: the device unmasks, and interrupts again when its
      index is another one. */
  function AckStep(s: State): State {
    var t := s.(masked := false, pc := Idle);
    if StatusIdx(s.posts) != StatusIdx(s.readAt) then Raise(t) else t
  }

  /** A step of the poll loop. In bnx2_rx_int, `more` reads the index again; `spent`
      says that the budget is used up at index `x`, so that NAPI polls once more. */
  function PollStep(s: State, more: bool, spent: bool, x: U16): State {
    match s.pc
    case Idle => s
    case TxTest =>
      s.(pc := if Normalize(s.hwTx) != s.hwTxCons then TxRun(Normalize(s.hwTx)) else RxTest)
    case TxRun(hw) =>
      if more then s.(pc := TxRun(Normalize(s.hwTx))) else s.(hwTxCons := hw, pc := RxTest)
    case RxTest =>
      s.(pc := if Normalize(s.hwRx) != s.rxCons then RxRun(Normalize(s.hwRx)) else ReadIdx)
    case RxRun(hw) =>
      if more then s.(pc := RxRun(Normalize(s.hwRx)))
      else if spent then s.(rxCons := x, pc := TxTest)
      else s.(rxCons := hw, pc := ReadIdx)
    case ReadIdx => s.(readAt := s.posts, pc := RecheckRx)
    case RecheckRx => s.(pc := if Normalize(s.hwRx) != s.rxCons then TxTest else RecheckTx)
    case RecheckTx => s.(pc := if Normalize(s.hwTx) != s.hwTxCons then TxTest else Ack)
    case Ack => AckStep(s)
  }

  /** At most `limit` posts fall between a read of status_idx and its
      acknowledgement. */
  ghost predicate Next(limit: nat, s: State, s': State) {
    || (exists rx, rxDone, tx, txDone :: (InWindow(s.pc) ==> s.posts < s.readAt + limit) &&
                                         s' == Post(s, rx, rxDone, tx, txDone) && Tells(s'))
    || (s.irq && s' == Deliver(s))
    || (exists more, spent, x :: s' == PollStep(s, more, spent, x))
  }

  ghost predicate IsRun(limit: nat, run: seq<State>) {
    && |run| > 0 && Init(run[0])
    && forall i :: 0 < i < |run| ==> Next(limit, run[i - 1], run[i])
  }

  ghost predicate Reachable(limit: nat, s: State) {
    exists run :: IsRun(limit, run) && s == run[|run| - 1]
  }

  /** The interrupt is armed and nothing is going on. */
  predicate Quiet(s: State) {
    s.pc.Idle? && !s.irq
  }

  ghost predicate Inv(limit: nat, s: State) {
    && (s.masked <==> s.irq || !s.pc.Idle?)
    && (s.irq ==> s.pc.Idle?)
    && (Quiet(s) ==> CaughtUp(s)) && Tells(s)
    && (InWindow(s.pc) ==> s.readAt <= s.posts <= s.readAt + limit)
    && ((s.pc.RecheckTx? || s.pc.Ack?) && s.posts == s.readAt ==> s.rxCons == Idx(s.rxDone))
    && (s.pc.Ack? && s.posts == s.readAt ==> s.hwTxCons == Idx(s.txDone))
  }

  /** Fewer than 2^16 posts cannot bring status_idx back to what was read. */
  lemma SameIndexSamePost(posts: nat, readAt: nat)
    requires readAt <= posts < readAt + 0x1_0000 && StatusIdx(posts) == StatusIdx(readAt)
    ensures posts == readAt
  {
  }

  lemma NextKeepsInv(limit: nat, s: State, s': State)
    requires limit < 0x1_0000 && Inv(limit, s) && Next(limit, s, s')
    ensures Inv(limit, s')
  {
    hide Normalize, StatusIdx, Idx, Behind;
    NormalizeIs(s.hwRx, s.rxDone);
    NormalizeIs(s.hwTx, s.txDone);
    if s.pc.Ack? && StatusIdx(s.posts) == StatusIdx(s.readAt) {
      SameIndexSamePost(s.posts, s.readAt);
    }
  }

  lemma {:induction false} RunInv(limit: nat, run: seq<State>, i: nat)
    requires limit < 0x1_0000 && IsRun(limit, run) && i < |run|
    ensures Inv(limit, run[i])
  {
    hide Next, CaughtUp;
    if i > 0 {
      RunInv(limit, run, i - 1);
      NextKeepsInv(limit, run[i - 1], run[i]);
    }
  }

  /** When the driver rests, both rings are where the device says. */
  lemma MissesNothing(limit: nat, s: State)
    requires limit < 0x1_0000 && Reachable(limit, s) && Quiet(s)
    ensures CaughtUp(s) && !s.masked
  {
    hide Next, Init, CaughtUp;
    var run :| IsRun(limit, run) && s == run[|run| - 1];
    RunInv(limit, run, |run| - 1);
  }

  // ----- The loop comes to rest -----

  /** What the driver does when the device posts nothing and no budget runs out. */
  function Drive(s: State): State {
    if s.irq then Deliver(s) else PollStep(s, false, false, 0)
  }

  function Driven(s: State, n: nat): State {
    if n == 0 then s else Drive(Driven(s, n - 1))
  }

  /** Steps to the end of the present pass. */
  function Ahead(s: State): nat {
    match s.pc
    case Idle => if s.irq then 9 else 0
    case TxTest => 8
    case TxRun(_) => 7
    case RxTest => 6
    case RxRun(_) => 5
    case ReadIdx => 4
    case RecheckRx => 3
    case RecheckTx => 2
    case Ack => 1
  }

  /** What the pass has still to look at is as the device has left it, and it has
      dealt with the rest: no other pass follows. */
  predicate LastPass(s: State) {
    var tx, rx := s.hwTxCons == Idx(s.txDone), s.rxCons == Idx(s.rxDone);
    match s.pc
    case Idle => true
    case TxTest => true
    case TxRun(hw) => hw == Idx(s.txDone)
    case RxTest => tx
    case RxRun(hw) => tx && hw == Idx(s.rxDone)
    case ReadIdx => tx && rx
    case RecheckRx => tx && rx && s.readAt == s.posts
    case RecheckTx => tx && rx && s.readAt == s.posts
    case Ack => s.readAt == s.posts
  }

  function StepsLeft(s: State): nat {
    Ahead(s) + if LastPass(s) then 0 else 10
  }

  lemma DriveGoesOn(limit: nat, s: State)
    requires limit < 0x1_0000 && Inv(limit, s) && !Quiet(s)
    ensures Inv(limit, Drive(s)) && StepsLeft(Drive(s)) < StepsLeft(s)
    ensures Drive(s).rxDone == s.rxDone && Drive(s).txDone == s.txDone
  {
    hide Normalize, Idx, Behind, StatusIdx;
    NormalizeIs(s.hwRx, s.rxDone);
    NormalizeIs(s.hwTx, s.txDone);
    DriveIsNext(limit, s);
    NextKeepsInv(limit, s, Drive(s));
    if s.pc.Ack? && StatusIdx(s.posts) == StatusIdx(s.readAt) { SameIndexSamePost(s.posts, s.readAt); }
  }

  lemma DriveIsNext(limit: nat, s: State)
    ensures Next(limit, s, Drive(s))
  {
    hide PollStep;
  }

  lemma {:induction false} DrivenFrom(s: State, n: nat)
    ensures Driven(Drive(s), n) == Driven(s, n + 1)
  {
    hide Drive;
    if n > 0 { DrivenFrom(s, n - 1); }
  }

  /** Wherever the driver is, once the device posts no more it comes to rest within 18
      steps, with all that the device had done taken notice of. */
  lemma {:induction false} Rests(limit: nat, s: State) returns (n: nat)
    requires limit < 0x1_0000 && Inv(limit, s)
    ensures n <= StepsLeft(s) <= 18
    ensures var s' := Driven(s, n);
            Quiet(s') && s'.rxCons == Idx(s.rxDone) && s'.hwTxCons == Idx(s.txDone) && !s'.masked
    decreases StepsLeft(s)
  {
    hide Drive, Idx, Normalize, StatusIdx, Behind;
    if Quiet(s) {
      n := 0;
    } else {
      DriveGoesOn(limit, s);
      n := Rests(limit, Drive(s));
      DrivenFrom(s, n);
      n := n + 1;
    }
  }

  // ----- The bound is needed -----

  lemma ReachableNext(limit: nat, s: State, s': State)
    requires Reachable(limit, s) && Next(limit, s, s')
    ensures Reachable(limit, s')
  {
    hide Init, Next;
    var run :| IsRun(limit, run) && s == run[|run| - 1];
    var run' := run + [s'];
    assert IsRun(limit, run') && s' == run'[|run'| - 1];
  }

  lemma ReachablePoll(limit: nat, s: State)
    requires Reachable(limit, s)
    ensures Reachable(limit, PollStep(s, false, false, 0))
  {
    hide Reachable, PollStep;
    ReachableNext(limit, s, PollStep(s, false, false, 0));
  }

  /** n posts while the acknowledgement is outstanding. */
  lemma {:induction false} ReachablePosts(limit: nat, s: State, n: nat)
    requires Reachable(limit, s) && s.pc.Ack? && s.masked && s.posts + n <= s.readAt + limit && Tells(s)
    ensures Reachable(limit, s.(posts := s.posts + n))
    decreases n
  {
    hide Reachable, Normalize, Behind;
    if n > 0 {
      ReachablePosts(limit, s, n - 1);
      var t := s.(posts := s.posts + n - 1);
      assert Post(t, s.hwRx, s.rxDone, s.hwTx, s.txDone) == s.(posts := s.posts + n);
      ReachableNext(limit, t, s.(posts := s.posts + n));
    }
  }

  /** An idle driver and device, and the same with an acknowledgement outstanding. */
  lemma ReachAck(limit: nat) returns (s: State)
    requires limit > 0
    ensures Reachable(limit, s) && s == State(1, 0, 0, 0, 0, true, false, Ack, 0, 0, 1)
  {
    hide Reachable;
    s := State(0, 0, 0, 0, 0, false, false, Idle, 0, 0, 0);
    assert IsRun(limit, [s]) && s == [s][|[s]| - 1];
    Reaches(limit, [s], s);
    var s1 := Post(s, 0, 0, 0, 0);
    ReachableNext(limit, s, s1);
    var s2 := Deliver(s1);
    ReachableNext(limit, s1, s2);
    ReachablePoll(limit, s2);
    s := PollStep(s2, false, false, 0);
    ReachablePoll(limit, s);
    s := PollStep(s, false, false, 0);
    ReachablePoll(limit, s);
    s := PollStep(s, false, false, 0);
    ReachablePoll(limit, s);
    s := PollStep(s, false, false, 0);
    ReachablePoll(limit, s);
    s := PollStep(s, false, false, 0);
  }

  lemma Reaches(limit: nat, run: seq<State>, s: State)
    requires IsRun(limit, run) && s == run[|run| - 1]
    ensures Reachable(limit, s)
  {
  }

  /** Exactly 2^16 posts between the read and the acknowledgement go unnoticed. */
  lemma WrapIsMissed(limit: nat) returns (s: State)
    requires limit >= 0x1_0000
    ensures Reachable(limit, s) && Quiet(s) && !CaughtUp(s)
  {
    hide Reachable;
    var s0 := ReachAck(limit);
    var s1 := Post(s0, 7, 7, 0, 0);
    ReachableNext(limit, s0, s1);
    ReachablePosts(limit, s1, 0xFFFF);
    var s2 := s1.(posts := s1.posts + 0xFFFF);
    ReachablePoll(limit, s2);
    s := PollStep(s2, false, false, 0);
    assert StatusIdx(s2.posts) == StatusIdx(s2.readAt);
  }

  /** In every run the driver rests only when nothing is left to do, if and only if
      fewer than 2^16 posts fit between a read of status_idx and its
      acknowledgement. */
  lemma MissesNothingIff(limit: nat)
    ensures (forall s :: Reachable(limit, s) && Quiet(s) ==> CaughtUp(s)) <==> limit < 0x1_0000
  {
    hide Reachable, Quiet, CaughtUp;
    if limit < 0x1_0000 {
      forall s | Reachable(limit, s) && Quiet(s) ensures CaughtUp(s) {
        MissesNothing(limit, s);
      }
    } else {
      var s := WrapIsMissed(limit);
    }
  }
}
