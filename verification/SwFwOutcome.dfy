/** When an operation on SW_FW_SYNC succeeds: over every run exactly when neither
    the semaphore nor the resource was refused as often as the source allows, and
    for a port that is left alone, whenever the resource is free. */
module SwFwOutcome {
  import opened SwFwSync

  // ----- What an operation has seen -----

  /** The reads that found SMBI set, in the latest get. The first loop of a get makes
      `timeout` reads at most. */
  ghost function SmbiSeen(c: Config, log: seq<Access>): nat {
    if log == [] then 0 else
    var last := log[|log| - 1];
    (if last.pc == WaitSmbi(0) then 0 else SmbiSeen(c, log[..|log| - 1])) +
    if last.pc.WaitSmbi? && last.pc.i < c.timeout && last.swsm.smbi then 1 else 0
  }

  /** The writes of SWESMBI that did not latch, the firmware being in, since SMBI was
      last waited for. */
  ghost function NotLatched(log: seq<Access>): nat {
    if log == [] then 0 else
    var last := log[|log| - 1];
    if last.pc.WaitSmbi? then 0
    else NotLatched(log[..|log| - 1]) + if last.pc.WriteSwsm? && last.fwSem then 1 else 0
  }

  /** The reads of SW_FW_SYNC that found a bit of the mask set. */
  ghost function BusySeen(mask: Mask, log: seq<Access>): nat {
    if log == [] then 0 else
    var last := log[|log| - 1];
    BusySeen(mask, log[..|log| - 1]) + if last.pc.ReadSync? && !Free(last.sync, mask) then 1 else 0
  }

  lemma SeenStep(c: Config, mask: Mask, log: seq<Access>, x: Access)
    ensures SmbiSeen(c, log + [x]) == (if x.pc == WaitSmbi(0) then 0 else SmbiSeen(c, log)) +
                                      if x.pc.WaitSmbi? && x.pc.i < c.timeout && x.swsm.smbi then 1 else 0
    ensures NotLatched(log + [x]) ==
              if x.pc.WaitSmbi? then 0 else NotLatched(log) + if x.pc.WriteSwsm? && x.fwSem then 1 else 0
    ensures BusySeen(mask, log + [x]) == BusySeen(mask, log) + if x.pc.ReadSync? && !Free(x.sync, mask) then 1 else 0
  {
    assert (log + [x])[..|log|] == log;
  }

  // ----- Over every run -----

  /** Where an operation is says how often it has been refused. */
  ghost predicate Counted(c: Config, g: Agent, swesmbi: bool) {
    var smbi, not, busy := SmbiSeen(c, g.log), NotLatched(g.log), BusySeen(g.op.mask, g.log);
    && (g.log == [] ==> g.pc.Idle?)
    && (g.op.Acquire? && !g.pc.Idle? && (g.pc.PutRead? || g.pc.PutWrite? ==> !g.pc.next.Busy?) ==>
          busy == g.tries < c.attempts)
    && (Inside(g.pc) ==> smbi < c.timeout)
    && match g.pc
       case Idle => g.log != [] ==> (g.succeeded <==> !Refused(c, g))
       case WaitSmbi(i) => i <= c.timeout && (i > 0 ==> smbi == i)
       case ReadSwsm(i) => not == i <= c.timeout && c.timeout > 0
       case WriteSwsm(i, _) => not == i < c.timeout
       case CheckSwsm(i) => i < c.timeout && not == if swesmbi then i else i + 1
       case ReadSync => not < c.timeout
       case WriteSync(_) => not < c.timeout
       case PutRead(next) => AtPut(c, g, next, not, busy)
       case PutWrite(next) => AtPut(c, g, next, not, busy)
  }

  ghost predicate AtPut(c: Config, g: Agent, next: After, not: nat, busy: nat) {
    && c.timeout > 0
    && match next
       case GetFailed => not == c.timeout
       case Busy => not < c.timeout && g.op.Acquire? && busy == g.tries + 1 <= c.attempts
       case Updated => not < c.timeout
  }

  /** An acquire was refused as often as the source puts up with: SMBI was set, or
      SWESMBI did not latch, in every round of one get, or the resource was busy in
      every attempt. A release goes on until it is done. */
  ghost predicate Refused(c: Config, g: Agent) {
    && g.op.Acquire?
    && (SmbiSeen(c, g.log) == c.timeout || NotLatched(g.log) == c.timeout || BusySeen(g.op.mask, g.log) == c.attempts)
  }

  lemma NothingSeen(c: Config, mask: Mask)
    ensures SmbiSeen(c, []) == NotLatched([]) == BusySeen(mask, []) == 0
  {
  }

  /** The registers an agent finds at a step are what its log gets. */
  lemma StepSeen(c: Config, s: State, a: nat, op: Op)
    requires a < |s.agents|
    ensures var g, g' := s.agents[a], AgentStep(c, s, a, op).agents[a];
            var x := Access(g.pc, s.swsm, s.fwSem, s.sync);
            var log := if g.pc.Idle? then [] else g.log;
            && g'.log == log + [x]
            && SmbiSeen(c, g'.log) == (if x.pc == WaitSmbi(0) then 0 else SmbiSeen(c, log)) +
                                      (if x.pc.WaitSmbi? && x.pc.i < c.timeout && x.swsm.smbi then 1 else 0)
            && NotLatched(g'.log) ==
               (if x.pc.WaitSmbi? then 0 else NotLatched(log) + if x.pc.WriteSwsm? && x.fwSem then 1 else 0)
            && BusySeen(g'.op.mask, g'.log) ==
               BusySeen(g'.op.mask, log) + (if x.pc.ReadSync? && !Free(x.sync, g'.op.mask) then 1 else 0)
            && (g.pc.Idle? ==> SmbiSeen(c, log) == NotLatched(log) == BusySeen(g'.op.mask, log) == 0)
  {
    hide Free, SetOwner, SmbiSeen, NotLatched, BusySeen;
    var g, g' := s.agents[a], AgentStep(c, s, a, op).agents[a];
    SeenStep(c, g'.op.mask, if g.pc.Idle? then [] else g.log, Access(g.pc, s.swsm, s.fwSem, s.sync));
    NothingSeen(c, g'.op.mask);
  }

  lemma OwnStep(c: Config, s: State, a: nat, op: Op)
    requires Inv(s) && a < |s.agents| && c.attempts > 0 && Counted(c, s.agents[a], s.swsm.swesmbi)
    ensures var s' := AgentStep(c, s, a, op); Counted(c, s'.agents[a], s'.swsm.swesmbi)
  {
    hide Inv, AgentStep, Counted;
    var pc := s.agents[a].pc;
    if !Inside(pc) {
      OutsideStep(c, s, a, op);
    } else if pc.ReadSwsm? || pc.WriteSwsm? || pc.CheckSwsm? {
      GetStep(c, s, a, op);
    } else if pc.ReadSync? || pc.WriteSync? {
      SyncStep(c, s, a, op);
    } else {
      PutStep(c, s, a, op);
    }
  }

  lemma OutsideStep(c: Config, s: State, a: nat, op: Op)
    requires a < |s.agents| && c.attempts > 0 && Counted(c, s.agents[a], s.swsm.swesmbi)
    requires !Inside(s.agents[a].pc)
    ensures var s' := AgentStep(c, s, a, op); Counted(c, s'.agents[a], s'.swsm.swesmbi)
  {
    hide Free, SetOwner, SmbiSeen, NotLatched, BusySeen;
    StepSeen(c, s, a, op);
  }

  lemma GetStep(c: Config, s: State, a: nat, op: Op)
    requires Inv(s) && a < |s.agents| && c.attempts > 0 && Counted(c, s.agents[a], s.swsm.swesmbi)
    requires var pc := s.agents[a].pc; pc.ReadSwsm? || pc.WriteSwsm? || pc.CheckSwsm?
    ensures var s' := AgentStep(c, s, a, op); Counted(c, s'.agents[a], s'.swsm.swesmbi)
  {
    hide Owns, FwOk, Free, SetOwner, SmbiSeen, NotLatched, BusySeen;
    StepSeen(c, s, a, op);
    assert AgentOk(s.agents[a], s.swsm, s.sync);
  }

  lemma SyncStep(c: Config, s: State, a: nat, op: Op)
    requires a < |s.agents| && c.attempts > 0 && Counted(c, s.agents[a], s.swsm.swesmbi)
    requires s.agents[a].pc.ReadSync? || s.agents[a].pc.WriteSync?
    ensures var s' := AgentStep(c, s, a, op); Counted(c, s'.agents[a], s'.swsm.swesmbi)
  {
    hide Free, SetOwner, SmbiSeen, NotLatched, BusySeen;
    StepSeen(c, s, a, op);
  }

  lemma PutStep(c: Config, s: State, a: nat, op: Op)
    requires a < |s.agents| && c.attempts > 0 && Counted(c, s.agents[a], s.swsm.swesmbi)
    requires s.agents[a].pc.PutRead? || s.agents[a].pc.PutWrite?
    ensures var s' := AgentStep(c, s, a, op); Counted(c, s'.agents[a], s'.swsm.swesmbi)
  {
    hide Free, SetOwner, SmbiSeen, NotLatched, BusySeen;
    StepSeen(c, s, a, op);
  }

  /** Nobody else moves SWESMBI while an agent is inside. */
  lemma OthersStep(c: Config, s: State, a: nat, op: Op, b: nat)
    requires Inv(s) && a < |s.agents| && b < |s.agents| && b != a
    ensures var s' := AgentStep(c, s, a, op);
            s'.agents[b] == s.agents[b] && (Inside(s.agents[b].pc) ==> s'.swsm.swesmbi == s.swsm.swesmbi)
  {
    hide AgentOk, Owns, FwOk, Free, SetOwner, AfterPut;
  }

  ghost predicate AllCounted(c: Config, s: State) {
    forall a :: 0 <= a < |s.agents| ==> Counted(c, s.agents[a], s.swsm.swesmbi)
  }

  lemma StepCounted(c: Config, s: State, s': State)
    requires Inv(s) && AllCounted(c, s) && Next(c, s, s') && c.attempts > 0
    ensures AllCounted(c, s')
  {
    hide Inv, AgentStep, FwStep, MayStart, Counted;
    if op :| s' == FwStep(s, op) {
      FirmwareLeavesAlone(s, op);
    } else {
      var a: nat, op :| a < |s.agents| && (s.agents[a].pc.Idle? ==> MayStart(s.agents[a], op)) &&
                        s' == AgentStep(c, s, a, op);
      SameAgents(c, s, a, op);
      OwnStep(c, s, a, op);
      forall b: nat | b < |s.agents| && b != a ensures Counted(c, s'.agents[b], s'.swsm.swesmbi) {
        OthersStep(c, s, a, op, b);
        OutsideCounted(c, s.agents[b], s.swsm.swesmbi, s'.swsm.swesmbi);
      }
    }
  }

  lemma SameAgents(c: Config, s: State, a: nat, op: Op)
    requires a < |s.agents|
    ensures |AgentStep(c, s, a, op).agents| == |s.agents|
  {
  }

  lemma FirmwareLeavesAlone(s: State, op: Op)
    ensures FwStep(s, op).agents == s.agents && FwStep(s, op).swsm == s.swsm
  {
  }

  lemma OutsideCounted(c: Config, g: Agent, swesmbi: bool, swesmbi': bool)
    requires Counted(c, g, swesmbi) && (Inside(g.pc) ==> swesmbi' == swesmbi)
    ensures Counted(c, g, swesmbi')
  {
    hide SmbiSeen, NotLatched, BusySeen;
  }

  lemma {:induction false} RunCounted(c: Config, run: seq<State>, i: nat)
    requires IsRun(c, run) && i < |run| && c.attempts > 0
    ensures AllCounted(c, run[i])
  {
    hide Inv, Next, SmbiSeen, NotLatched, BusySeen;
    if i > 0 {
      hide Init;
      RunCounted(c, run, i - 1);
      RunInv(c, run, i - 1);
      StepCounted(c, run[i - 1], run[i]);
    }
  }

  /** An acquire fails exactly when it was refused as often as the source allows:
      `timeout` reads of one get found SMBI set, or `timeout` writes did not latch
      SWESMBI, or `attempts` reads of SW_FW_SYNC found a bit of the mask set. A
      release never ends without having released. */
  lemma FailsOnlyWhenRefused(c: Config, s: State, a: nat)
    requires Reachable(c, s) && c.attempts > 0
    requires a < |s.agents| && s.agents[a].pc.Idle? && s.agents[a].log != []
    ensures var g := s.agents[a];
            g.succeeded <==> (g.op.Acquire? ==>
              && SmbiSeen(c, g.log) != c.timeout && NotLatched(g.log) != c.timeout
              && BusySeen(g.op.mask, g.log) != c.attempts)
  {
    hide Init, Next, SmbiSeen, NotLatched, BusySeen;
    var run :| IsRun(c, run) && s == run[|run| - 1];
    RunCounted(c, run, |run| - 1);
    assert Counted(c, s.agents[a], s.swsm.swesmbi);
  }

  // ----- Left alone -----

  /** n steps of agent a, with nobody else making any. */
  function Solo(c: Config, s: State, a: nat, op: Op, n: nat): (s': State)
    requires a < |s.agents|
    ensures |s'.agents| == |s.agents|
  {
    if n == 0 then s else AgentStep(c, Solo(c, s, a, op, n - 1), a, op)
  }

  lemma {:induction false} SoloPlus(c: Config, s: State, a: nat, op: Op, m: nat, n: nat)
    requires a < |s.agents|
    ensures Solo(c, s, a, op, m + n) == Solo(c, Solo(c, s, a, op, m), a, op, n)
  {
    hide AgentStep;
    if n > 0 { SoloPlus(c, s, a, op, m, n - 1); }
  }

  /** Nobody is in the way: both semaphore bits are clear and the firmware is out. */
  predicate Clear(s: State) {
    s.swsm == Swsm(false, false) && !s.fwSem
  }

  /** The resource is there for an acquire; a release is always granted. */
  predicate Granted(s: State, op: Op) {
    op.Acquire? ==> Free(s.sync, op.mask)
  }

  /** What one round of an operation with nobody in the way makes of its agent and of
      SW_FW_SYNC. */
  ghost predicate RoundDone(c: Config, s: State, a: nat, s': State)
    requires a < |s.agents| == |s'.agents|
  {
    var g, g' := s.agents[a], s'.agents[a];
    && Clear(s') && g'.op == g.op && s'.sync.fw == s.sync.fw
    && if !Granted(s, g.op) then
         && s'.sync.sw == s.sync.sw && g'.held == g.held
         && if g.tries + 1 < c.attempts then g'.pc == WaitSmbi(0) && g'.tries == g.tries + 1
            else g'.pc.Idle? && !g'.succeeded
       else
         && g'.pc.Idle? && g'.succeeded
         && s'.sync.sw == Result(g.op, s.sync.sw) && g'.held == Result(g.op, g.held)
  }

  /** Agent a has gone on to pc, and SWSM is now this. */
  ghost predicate WentOn(s: State, a: nat, s': State, pc: Pc, swsm: Swsm)
    requires a < |s.agents| == |s'.agents|
  {
    && s'.swsm == swsm && s'.fwSem == s.fwSem && s'.sync == s.sync
    && s'.agents[a].(log := []) == s.agents[a].(pc := pc, log := [])
  }

  lemma GetAloneStep(c: Config, s: State, a: nat, op: Op)
    requires a < |s.agents|
    ensures var s', pc := AgentStep(c, s, a, op), s.agents[a].pc;
            && |s'.agents| == |s.agents|
            && (pc == WaitSmbi(0) && c.timeout > 0 && !s.swsm.smbi ==>
                  WentOn(s, a, s', ReadSwsm(0), Swsm(true, s.swsm.swesmbi)))
            && (pc == ReadSwsm(0) && c.timeout > 0 ==>
                  WentOn(s, a, s', WriteSwsm(0, s.swsm), Swsm(true, s.swsm.swesmbi)))
            && (pc.WriteSwsm? && pc.i == 0 && !s.fwSem ==> WentOn(s, a, s', CheckSwsm(0), Swsm(pc.swsm.smbi, true)))
            && (pc == CheckSwsm(0) && s.swsm.swesmbi ==> WentOn(s, a, s', ReadSync, Swsm(true, true)))
  {
  }

  /** The first four steps of a round, which get the semaphore. */
  lemma GetAlone(c: Config, s: State, a: nat, op: Op)
    requires a < |s.agents| && s.agents[a].pc == WaitSmbi(0) && Clear(s) && c.timeout > 0
    ensures WentOn(s, a, Solo(c, s, a, op, 4), ReadSync, Swsm(true, true))
  {
    hide Solo, AgentStep;
    GetAloneStep(c, s, a, op);
    var s1 := AgentStep(c, s, a, op);
    GetAloneStep(c, s1, a, op);
    var s2 := AgentStep(c, s1, a, op);
    GetAloneStep(c, s2, a, op);
    var s3 := AgentStep(c, s2, a, op);
    GetAloneStep(c, s3, a, op);
    SoloSteps(c, s, a, op);
    SoloSteps(c, s3, a, op);
    SoloPlus(c, s, a, op, 3, 1);
  }

  lemma SoloSteps(c: Config, s: State, a: nat, op: Op)
    requires a < |s.agents|
    ensures Solo(c, s, a, op, 1) == AgentStep(c, s, a, op)
    ensures Solo(c, s, a, op, 3) == AgentStep(c, AgentStep(c, AgentStep(c, s, a, op), a, op), a, op)
  {
    hide AgentStep;
    var s1 := Solo(c, s, a, op, 1);
    assert s1 == AgentStep(c, Solo(c, s, a, op, 0), a, op);
    var s2 := Solo(c, s, a, op, 2);
    assert s2 == AgentStep(c, s1, a, op);
  }

  /** The rest of a round: one step longer when the operation is granted. */
  lemma SyncAlone(c: Config, s: State, a: nat, op: Op)
    requires a < |s.agents| && s.agents[a].pc == ReadSync && s.swsm == Swsm(true, true) && !s.fwSem
    ensures RoundDone(c, s, a, Solo(c, s, a, op, if Granted(s, s.agents[a].op) then 4 else 3))
  {
    hide Free, SetOwner, Solo;
    SoloSteps(c, s, a, op);
    var s1 := AgentStep(c, s, a, op);
    var s2 := AgentStep(c, s1, a, op);
    if Granted(s, s.agents[a].op) {
      assert s1.agents[a].pc == WriteSync(s.sync);
      assert s2.agents[a].pc == PutRead(Updated);
      SoloPlus(c, s, a, op, 3, 1);
      SoloSteps(c, Solo(c, s, a, op, 3), a, op);
    } else {
      assert s1.agents[a].pc == PutRead(Busy);
    }
  }

  lemma Round(c: Config, s: State, a: nat, op: Op)
    requires a < |s.agents| && s.agents[a].pc == WaitSmbi(0) && Clear(s) && c.timeout > 0
    ensures RoundDone(c, s, a, Solo(c, s, a, op, if Granted(s, s.agents[a].op) then 8 else 7))
  {
    hide Free, Solo;
    GetAlone(c, s, a, op);
    SyncAlone(c, Solo(c, s, a, op, 4), a, op);
    SoloPlus(c, s, a, op, 4, 4);
    SoloPlus(c, s, a, op, 4, 3);
  }

  lemma {:induction false} BusyRounds(c: Config, s: State, a: nat, op: Op, k: nat)
    requires a < |s.agents| && s.agents[a].pc == WaitSmbi(0) && Clear(s) && c.timeout > 0
    requires !Granted(s, s.agents[a].op)
    requires s.agents[a].tries + k == c.attempts && k > 0
    decreases k
    ensures var s' := Solo(c, s, a, op, 7 * k);
            && Clear(s') && s'.sync == s.sync && s'.agents[a].pc.Idle? && !s'.agents[a].succeeded
            && s'.agents[a].held == s.agents[a].held
  {
    hide Free, Solo;
    Round(c, s, a, op);
    var s' := Solo(c, s, a, op, 7);
    if k > 1 {
      BusyRounds(c, s', a, op, k - 1);
      SoloPlus(c, s, a, op, 7, 7 * (k - 1));
    }
  }

  /** An idle port whose operation nobody interferes with, with nobody in the way and
      at least one round and one attempt allowed: nine steps later it has what it
      asked for, if that was free, or has given back what it named. An acquire of
      what is not free ends after all its attempts, with nothing changed. */
  lemma AloneIff(c: Config, s: State, a: nat, op: Op)
    requires a < |s.agents| && s.agents[a].pc.Idle? && Clear(s) && c.timeout > 0 && c.attempts > 0
    ensures var granted := op.Acquire? ==> Free(s.sync, op.mask);
            var s' := Solo(c, s, a, op, if granted then 9 else 1 + 7 * c.attempts);
            var g, g' := s.agents[a], s'.agents[a];
            && g'.pc.Idle? && (g'.succeeded <==> granted) && Clear(s') && s'.sync.fw == s.sync.fw
            && g'.held == (if granted then Result(op, g.held) else g.held)
            && s'.sync.sw == (if granted then Result(op, s.sync.sw) else s.sync.sw)
  {
    hide Free, Solo;
    var s1 := Solo(c, s, a, op, 1);
    BeginAlone(c, s, a, op);
    Round(c, s1, a, op);
    SoloPlus(c, s, a, op, 1, 8);
    if !Granted(s, op) {
      BusyRounds(c, s1, a, op, c.attempts);
      SoloPlus(c, s, a, op, 1, 7 * c.attempts);
    }
  }

  lemma BeginAlone(c: Config, s: State, a: nat, op: Op)
    requires a < |s.agents| && s.agents[a].pc.Idle?
    ensures var s' := Solo(c, s, a, op, 1);
            && s'.swsm == s.swsm && s'.fwSem == s.fwSem && s'.sync == s.sync
            && s'.agents[a].(log := []) == Agent(WaitSmbi(0), op, 0, s.agents[a].held, s.agents[a].held, false, [])
  {
    hide Solo;
    SoloSteps(c, s, a, op);
  }

  /** What a port has acquired it may release, and that restores SW_FW_SYNC. */
  lemma AcquireRelease(c: Config, s: State, a: nat, mask: Mask, n: nat)
    requires a < |s.agents| && s.agents[a].pc.Idle? && Clear(s) && c.timeout > 0 && c.attempts > 0
    requires Free(s.sync, mask) && mask !! s.agents[a].held
    ensures var s1 := Solo(c, s, a, Acquire(mask), 9);
            && MayStart(s1.agents[a], Release(mask))
            && var s2 := Solo(c, s1, a, Release(mask), 9);
               && s2.agents[a].pc.Idle? && s2.agents[a].held == s.agents[a].held
               && s2.sync == s.sync && Clear(s2)
  {
    hide Solo;
    AloneIff(c, s, a, Acquire(mask));
    AloneIff(c, Solo(c, s, a, Acquire(mask), 9), a, Release(mask));
  }

  /** The firmware, with neither semaphore bit in its way, has what it asks for if it is
      free after five steps, and after four is out again if not. */
  lemma FirmwareIff(s: State, op: Op)
    requires s.fw.pc.FwIdle? && Clear(s)
    ensures var s1 := FwStep(s, op);
            var s3 := FwStep(FwStep(s1, op), op);
            var s4 := FwStep(s3, op);
            var s5 := FwStep(s4, op);
            && s3.fwSem
            && if Granted(s, op) then
                 s5.fw.pc.FwIdle? && Clear(s5) && s5.fw.held == Result(op, s.fw.held) &&
                 s5.sync.sw == s.sync.sw && s5.sync.fw == Result(op, s.sync.fw)
               else
                 s4.fw.pc.FwIdle? && Clear(s4) && s4.fw.held == s.fw.held && s4.sync == s.sync
  {
    hide Free;
  }
}
