/** The two-level lock that igb ports and firmware share: the SWSM semaphore bits
    guard the SW_FW_SYNC register, whose bits in turn guard the PHYs and the
    EEPROM.

    Any number of software agents and the firmware take steps in any order; one
    step makes one register access. */
module SwFwSync {

  /** Bit positions of a SW_FW_SYNC mask. */
  type Mask = set<nat>

  /** SWSM: reading it sets SMBI and returns the previous value; SWESMBI latches
      only while the firmware does not hold its side of the semaphore. */
  datatype Swsm = Swsm(smbi: bool, swesmbi: bool)

  /** SW_FW_SYNC: the low half belongs to software, the high half to firmware. */
  datatype Sync = Sync(sw: Mask, fw: Mask)

  datatype Op = Acquire(mask: Mask) | Release(mask: Mask)

  /** What follows igb_put_hw_semaphore: the get had failed, the resource was busy,
      or the register has been updated. */
  datatype After = GetFailed | Busy | Updated

  /** Program points of igb_acquire_swfw_sync_82575 and igb_release_swfw_sync_82575
      with igb_get_hw_semaphore and igb_put_hw_semaphore inlined. */
  datatype Pc =
    | Idle
    | WaitSmbi(i: nat)
    | ReadSwsm(i: nat)
    | WriteSwsm(i: nat, swsm: Swsm)
    | CheckSwsm(i: nat)
    | ReadSync
    | WriteSync(sync: Sync)
    | PutRead(next: After)
    | PutWrite(next: After)

  /** History: one step of an agent, with the registers as it found them. */
  datatype Access = Access(pc: Pc, swsm: Swsm, fwSem: bool, sync: Sync)

  /** An agent in the middle of `op`, or after it with its outcome. `before` is what
      it held when the operation began, `log` its steps since then. */
  datatype Agent = Agent(
    pc: Pc, op: Op, tries: nat, held: Mask, before: Mask, succeeded: bool, log: seq<Access>)

  /** A firmware that obeys the same rule. */
  datatype FwPc = FwIdle | FwWait | FwRead | FwWrite(sync: Sync) | FwLeave
  datatype Firmware = Firmware(pc: FwPc, op: Op, held: Mask)

  datatype State = State(
    swsm: Swsm,
    fwSem: bool,                 // the firmware's side of the semaphore
    sync: Sync,
    agents: seq<Agent>,
    fw: Firmware,
    holder: int,                 // history: the agent that found SMBI clear, or -1
    owner: map<nat, nat>         // history: the agent that set each software bit
  )

  /** word_size + 1, and the number of attempts of an acquire. */
  datatype Config = Config(timeout: nat, attempts: nat)

  ghost predicate Init(s: State) {
    && s.swsm == Swsm(false, false) && !s.fwSem && s.sync == Sync({}, {})
    && (forall a :: 0 <= a < |s.agents| ==>
          s.agents[a].pc.Idle? && !s.agents[a].succeeded && s.agents[a].held == s.agents[a].before == {} &&
          s.agents[a].log == [])
    && s.fw.pc.FwIdle? && s.fw.held == {} && s.holder == -1 && s.owner == map[]
  }

  /** !(swfw_sync & (fwmask | swmask)) */
  predicate Free(sync: Sync, mask: Mask) {
    forall r :: r in mask ==> r !in sync.sw && r !in sync.fw
  }

  /** A caller releases only what it holds. */
  predicate MayStart(g: Agent, op: Op) {
    op.Release? ==> op.mask <= g.held
  }

  /** An operation whose get or whose last attempt failed: an acquire gives up, a
      release tries again for ever. */
  function Failed(g: Agent): Agent {
    if g.op.Release? then g.(pc := WaitSmbi(0)) else g.(pc := Idle, succeeded := false)
  }

  function AfterPut(c: Config, g: Agent, next: After): Agent {
    match next
    case GetFailed => Failed(g)
    case Busy => if g.tries + 1 >= c.attempts then Failed(g) else g.(pc := WaitSmbi(0), tries := g.tries + 1)
    case Updated => g.(pc := Idle, succeeded := true)
  }

  function Put(s: State, a: nat, g: Agent): State
    requires a < |s.agents|
  {
    s.(agents := s.agents[a := g])
  }

  function SetOwner(owner: map<nat, nat>, m: Mask, a: nat): map<nat, nat> {
    map r | r in owner.Keys + m :: if r in m then a else owner[r]
  }

  /** Agent a has made one step from s to s'. */
  function Noted(s: State, a: nat, s': State): State
    requires a < |s.agents| == |s'.agents|
  {
    Put(s', a, s'.agents[a].(log := s'.agents[a].log + [Access(s.agents[a].pc, s.swsm, s.fwSem, s.sync)]))
  }

  /** One step of agent a; `op` is what it does next when it is idle. */
  function AgentStep(c: Config, s: State, a: nat, op: Op): State
    requires a < |s.agents|
  {
    Noted(s, a, Move(c, s, a, op))
  }

  function Move(c: Config, s: State, a: nat, op: Op): (s': State)
    requires a < |s.agents|
    ensures |s'.agents| == |s.agents|
  {
    var g := s.agents[a];
    match g.pc
    case Idle =>
      Put(s, a, Agent(WaitSmbi(0), op, 0, g.held, g.held, false, []))
    case WaitSmbi(i) =>
      if i >= c.timeout then Put(s, a, Failed(g))
      else if s.swsm.smbi then Put(s, a, g.(pc := WaitSmbi(i + 1)))
      else Put(s.(swsm := s.swsm.(smbi := true), holder := a), a, g.(pc := ReadSwsm(0)))
    case ReadSwsm(i) =>
      if i >= c.timeout then Put(s, a, g.(pc := PutRead(GetFailed)))
      else Put(s.(swsm := s.swsm.(smbi := true)), a, g.(pc := WriteSwsm(i, s.swsm)))
    case WriteSwsm(i, v) =>
      Put(s.(swsm := Swsm(v.smbi, s.swsm.swesmbi || !s.fwSem)), a, g.(pc := CheckSwsm(i)))
    case CheckSwsm(i) =>
      Put(s.(swsm := s.swsm.(smbi := true)), a, g.(pc := if s.swsm.swesmbi then ReadSync else ReadSwsm(i + 1)))
    case ReadSync =>
      Put(s, a, g.(pc := if g.op.Acquire? && !Free(s.sync, g.op.mask) then PutRead(Busy)
                         else WriteSync(s.sync)))
    case WriteSync(v) =>
      (match g.op
       case Acquire(m) =>
         Put(s.(sync := v.(sw := v.sw + m), owner := SetOwner(s.owner, m, a)),
             a, g.(held := g.held + m, pc := PutRead(Updated)))
       case Release(m) =>
         Put(s.(sync := v.(sw := v.sw - m), owner := s.owner - m), a, g.(held := g.held - m, pc := PutRead(Updated))))
    case PutRead(next) =>
      Put(s.(swsm := s.swsm.(smbi := true)), a, g.(pc := PutWrite(next)))
    case PutWrite(next) =>
      Put(s.(swsm := Swsm(false, false), holder := -1), a, AfterPut(c, g, next))
  }

  /** One step of the firmware. */
  function FwStep(s: State, op: Op): State {
    var f := s.fw;
    match f.pc
    case FwIdle => s.(fw := f.(pc := FwWait, op := op))
    case FwWait => if s.swsm.swesmbi then s else s.(fwSem := true, fw := f.(pc := FwRead))
    case FwRead =>
      s.(fw := f.(pc := if f.op.Acquire? && !Free(s.sync, f.op.mask) then FwLeave else FwWrite(s.sync)))
    case FwWrite(v) =>
      (match f.op
       case Acquire(m) => s.(sync := v.(fw := v.fw + m), fw := f.(pc := FwLeave, held := f.held + m))
       case Release(m) => s.(sync := v.(fw := v.fw - m), fw := f.(pc := FwLeave, held := f.held - m)))
    case FwLeave => s.(fwSem := false, fw := f.(pc := FwIdle))
  }

  ghost predicate Next(c: Config, s: State, s': State) {
    || (exists a: nat, op :: a < |s.agents| && (s.agents[a].pc.Idle? ==> MayStart(s.agents[a], op)) &&
                        s' == AgentStep(c, s, a, op))
    || (exists op :: s' == FwStep(s, op))
  }

  ghost predicate IsRun(c: Config, run: seq<State>) {
    && |run| > 0 && Init(run[0])
    && forall i :: 0 < i < |run| ==> Next(c, run[i - 1], run[i])
  }

  // ----- The inductive invariant -----

  /** The agent has set SMBI and not cleared it. */
  predicate Inside(pc: Pc) {
    !pc.Idle? && !pc.WaitSmbi?
  }

  /** The agent is between a successful get and its put. */
  predicate HasSemaphore(pc: Pc) {
    pc.ReadSync? || pc.WriteSync? || (pc.PutRead? && !pc.next.GetFailed?) || (pc.PutWrite? && !pc.next.GetFailed?)
  }

  ghost predicate AgentOk(g: Agent, swsm: Swsm, sync: Sync) {
    && (g.pc.WriteSwsm? ==> g.pc.swsm == Swsm(true, false))
    && (HasSemaphore(g.pc) ==> swsm.swesmbi)
    && (Inside(g.pc) && !HasSemaphore(g.pc) && !g.pc.CheckSwsm? ==> !swsm.swesmbi)
    && (g.pc.WriteSync? ==> g.pc.sync == sync && (g.op.Acquire? ==> Free(sync, g.op.mask)))
    && (g.op.Release? && !g.pc.Idle? && !Updating(g.pc) ==> g.op.mask <= g.held)
    && g.held == (if Updating(g.pc) || (g.pc.Idle? && g.succeeded) then Result(g.op, g.before) else g.before)
  }

  predicate Updating(pc: Pc) {
    (pc.PutRead? && pc.next.Updated?) || (pc.PutWrite? && pc.next.Updated?)
  }

  function Result(op: Op, before: Mask): Mask {
    match op
    case Acquire(m) => before + m
    case Release(m) => before - m
  }

  ghost predicate FwOk(f: Firmware, fwSem: bool, sync: Sync) {
    && (fwSem <==> f.pc.FwRead? || f.pc.FwWrite? || f.pc.FwLeave?)
    && (f.pc.FwWrite? ==> f.pc.sync == sync && (f.op.Acquire? ==> Free(sync, f.op.mask)))
    && f.held == sync.fw
  }

  ghost predicate Owns(a: nat, held: Mask, owner: map<nat, nat>) {
    forall r :: r in held <==> r in owner && owner[r] == a
  }

  ghost predicate Inv(s: State) {
    && -1 <= s.holder < |s.agents|
    && (s.swsm.smbi <==> s.holder >= 0)
    && (s.swsm.swesmbi ==> s.holder >= 0 && !s.fwSem)
    && (forall a :: 0 <= a < |s.agents| ==>
          && (Inside(s.agents[a].pc) <==> s.holder == a)
          && AgentOk(s.agents[a], s.swsm, s.sync)
          && Owns(a, s.agents[a].held, s.owner))
    && FwOk(s.fw, s.fwSem, s.sync)
    && s.owner.Keys == s.sync.sw && s.sync.sw !! s.sync.fw
    && (forall r :: r in s.owner ==> s.owner[r] < |s.agents|)
  }

  lemma InitInv(s: State)
    requires Init(s)
    ensures Inv(s)
  {
  }

  /** Agents outside do not depend on the registers. */
  lemma OutsideOk(g: Agent, swsm: Swsm, sync: Sync, swsm': Swsm, sync': Sync)
    requires AgentOk(g, swsm, sync) && !Inside(g.pc)
    ensures AgentOk(g, swsm', sync')
  {
  }

  /** What remains to be shown when agent a becomes g' and the registers change. */
  lemma StepOfAgent(s: State, s': State, a: nat)
    requires Inv(s) && a < |s.agents| == |s'.agents|
    requires s' == s.(swsm := s'.swsm, sync := s'.sync, holder := s'.holder, owner := s'.owner,
                      agents := s.agents[a := s'.agents[a]])
    requires Inside(s.agents[a].pc) || s.holder == -1 ||
             (s'.swsm == s.swsm && s'.sync == s.sync && s'.holder == s.holder)
    requires (s'.swsm.smbi <==> s'.holder >= 0) && (s'.swsm.swesmbi ==> s'.holder >= 0 && !s.fwSem)
    requires if Inside(s'.agents[a].pc) then s'.holder == a else s'.holder != a
    requires s'.holder == a || s'.holder == -1 || s'.holder == s.holder != a
    requires AgentOk(s'.agents[a], s'.swsm, s'.sync)
    requires forall b :: 0 <= b < |s.agents| && b != a ==> Owns(b, s.agents[b].held, s'.owner)
    requires Owns(a, s'.agents[a].held, s'.owner)
    requires FwOk(s.fw, s.fwSem, s'.sync) && s'.owner.Keys == s'.sync.sw && s'.sync.sw !! s'.sync.fw
    requires forall r :: r in s'.owner ==> s'.owner[r] < |s.agents|
    ensures Inv(s')
  {
    hide AgentOk, FwOk, Owns;
    forall b | 0 <= b < |s.agents| && b != a ensures AgentOk(s.agents[b], s'.swsm, s'.sync) {
      if s'.swsm != s.swsm || s'.sync != s.sync {
        OutsideOk(s.agents[b], s.swsm, s.sync, s'.swsm, s'.sync);
      }
    }
  }

  lemma AgentStepKeepsInv(c: Config, s: State, a: nat, op: Op)
    requires Inv(s) && a < |s.agents| && (s.agents[a].pc.Idle? ==> MayStart(s.agents[a], op))
    ensures Inv(AgentStep(c, s, a, op))
  {
    hide Inv, AgentStep, MayStart;
    if s.agents[a].pc.WriteSync? {
      WriteSyncKeepsInv(c, s, a, op);
    } else if Inside(s.agents[a].pc) {
      if s.agents[a].pc.PutRead? || s.agents[a].pc.PutWrite? {
        PutStepKeepsInv(c, s, a, op);
      } else {
        GetStepKeepsInv(c, s, a, op);
      }
    } else {
      OutsideStepKeepsInv(c, s, a, op);
    }
  }

  lemma OutsideStepKeepsInv(c: Config, s: State, a: nat, op: Op)
    requires Inv(s) && a < |s.agents| && (s.agents[a].pc.Idle? ==> MayStart(s.agents[a], op)) &&
      !Inside(s.agents[a].pc)
    ensures Inv(AgentStep(c, s, a, op))
  {
    hide Owns, FwOk;
    StepOfAgent(s, AgentStep(c, s, a, op), a);
  }

  lemma GetStepKeepsInv(c: Config, s: State, a: nat, op: Op)
    requires Inv(s) && a < |s.agents|
    requires var pc := s.agents[a].pc; pc.ReadSwsm? || pc.WriteSwsm? || pc.CheckSwsm? || pc.ReadSync?
    ensures Inv(AgentStep(c, s, a, op))
  {
    hide Owns, FwOk, Free, AfterPut;
    StepOfAgent(s, AgentStep(c, s, a, op), a);
  }

  lemma PutStepKeepsInv(c: Config, s: State, a: nat, op: Op)
    requires Inv(s) && a < |s.agents| && (s.agents[a].pc.PutRead? || s.agents[a].pc.PutWrite?)
    ensures Inv(AgentStep(c, s, a, op))
  {
    hide Owns, FwOk, Free;
    StepOfAgent(s, AgentStep(c, s, a, op), a);
  }

  /** Writing SW_FW_SYNC back: the copy is current, the bits set were free and the
      bits cleared were the agent's own. */
  lemma WriteSyncKeepsInv(c: Config, s: State, a: nat, op: Op)
    requires Inv(s) && a < |s.agents| && s.agents[a].pc.WriteSync?
    ensures Inv(AgentStep(c, s, a, op))
  {
    hide Owns, SetOwner;
    var s', g := AgentStep(c, s, a, op), s.agents[a];
    match g.op {
      case Acquire(m) => OwnsAcquire(a, g.held, s.owner, m, a);
      case Release(m) => OwnsRelease(a, g.held, s.owner, m, a, g.held);
    }
    forall b | 0 <= b < |s.agents| && b != a ensures Owns(b, s.agents[b].held, s'.owner) {
      match g.op
      case Acquire(m) => OwnsAcquire(b, s.agents[b].held, s.owner, m, a);
      case Release(m) => OwnsRelease(b, s.agents[b].held, s.owner, m, a, g.held);
    }
    StepOfAgent(s, s', a);
  }

  lemma OwnsAcquire(b: nat, held: Mask, owner: map<nat, nat>, m: Mask, a: nat)
    requires Owns(b, held, owner) && m !! owner.Keys
    ensures Owns(b, if b == a then held + m else held, SetOwner(owner, m, a))
    ensures SetOwner(owner, m, a).Keys == owner.Keys + m
    ensures var owner' := SetOwner(owner, m, a);
            forall r :: r in owner' ==> owner'[r] == a || (r in owner && owner'[r] == owner[r])
  {
  }

  lemma OwnsRelease(b: nat, held: Mask, owner: map<nat, nat>, m: Mask, a: nat, mine: Mask)
    requires Owns(b, held, owner) && Owns(a, mine, owner) && m <= mine
    ensures Owns(b, if b == a then held - m else held, owner - m)
    ensures (owner - m).Keys == owner.Keys - m && forall r :: r in owner - m ==> (owner - m)[r] == owner[r]
  {
  }

  lemma FwStepKeepsInv(s: State, op: Op)
    requires Inv(s)
    ensures Inv(FwStep(s, op))
  {
    hide Owns;
    var s' := FwStep(s, op);
    forall b | 0 <= b < |s.agents| ensures AgentOk(s.agents[b], s'.swsm, s'.sync) {
    }
    assert FwOk(s'.fw, s'.fwSem, s'.sync);
    assert s'.sync.sw !! s'.sync.fw;
  }

  // ----- What holds over every run -----

  ghost predicate Reachable(c: Config, s: State) {
    exists run :: IsRun(c, run) && s == run[|run| - 1]
  }

  lemma {:induction false} RunInv(c: Config, run: seq<State>, i: nat)
    requires IsRun(c, run) && i < |run|
    ensures Inv(run[i])
  {
    hide Inv, AgentStep, FwStep, MayStart, Init;
    if i == 0 {
      InitInv(run[0]);
    } else {
      RunInv(c, run, i - 1);
      var s, s' := run[i - 1], run[i];
      assert Next(c, s, s');
      if op :| s' == FwStep(s, op) {
        FwStepKeepsInv(s, op);
      } else {
        var a: nat, op :| a < |s.agents| && (s.agents[a].pc.Idle? ==> MayStart(s.agents[a], op)) &&
                          s' == AgentStep(c, s, a, op);
        AgentStepKeepsInv(c, s, a, op);
      }
    }
  }

  lemma ReachableInv(c: Config, s: State)
    requires Reachable(c, s)
    ensures Inv(s)
  {
    hide Inv, Next, Init;
    var run :| IsRun(c, run) && s == run[|run| - 1];
    RunInv(c, run, |run| - 1);
  }

  predicate FirmwareInside(s: State) {
    s.fw.pc.FwRead? || s.fw.pc.FwWrite? || s.fw.pc.FwLeave?
  }

  /** At most one agent is between a successful igb_get_hw_semaphore and its put,
      and none while the firmware is in its own section. */
  lemma SemaphoreIsExclusive(c: Config, s: State, a: nat, b: nat)
    requires Reachable(c, s) && a < |s.agents| && b < |s.agents|
    requires HasSemaphore(s.agents[a].pc)
    ensures HasSemaphore(s.agents[b].pc) ==> a == b
    ensures !FirmwareInside(s)
  {
    ReachableInv(c, s);
    hide AgentOk;
    AgentHasSwesmbi(s, a);
  }

  lemma AgentHasSwesmbi(s: State, a: nat)
    requires Inv(s) && a < |s.agents| && HasSemaphore(s.agents[a].pc)
    ensures s.swsm.swesmbi
  {
    assert AgentOk(s.agents[a], s.swsm, s.sync);
  }

  /** No resource has two owners, and SW_FW_SYNC says exactly who owns what: no bit
      is lost, left behind or overwritten. */
  lemma OwnershipIsExclusive(c: Config, s: State)
    requires Reachable(c, s)
    ensures forall a, b :: 0 <= a < b < |s.agents| ==> s.agents[a].held !! s.agents[b].held
    ensures forall a :: 0 <= a < |s.agents| ==> s.agents[a].held !! s.fw.held && s.agents[a].held <= s.sync.sw
    ensures forall r :: r in s.sync.sw ==> exists a :: 0 <= a < |s.agents| && r in s.agents[a].held
    ensures s.sync.fw == s.fw.held
  {
    ReachableInv(c, s);
    hide AgentOk, Reachable;
    forall a | 0 <= a < |s.agents| ensures Owns(a, s.agents[a].held, s.owner) {
    }
    forall r | r in s.sync.sw ensures exists a :: 0 <= a < |s.agents| && r in s.agents[a].held {
      var a := s.owner[r];
      assert 0 <= a < |s.agents| && r in s.agents[a].held;
    }
  }

  /** An operation that reports success has changed exactly the bits asked for; one
      that reports failure has left its caller with what it held before, and in
      particular not with the semaphore. */
  lemma OutcomeIsExact(c: Config, s: State, a: nat)
    requires Reachable(c, s) && a < |s.agents| && s.agents[a].pc.Idle?
    ensures var g := s.agents[a];
            && g.held == (if g.succeeded then Result(g.op, g.before) else g.before)
            && s.holder != a
  {
    ReachableInv(c, s);
    assert AgentOk(s.agents[a], s.swsm, s.sync);
  }

  /** The semaphore bits are set only on behalf of somebody: once every agent is
      out, both are clear. */
  lemma SemaphoreIsReturned(c: Config, s: State)
    requires Reachable(c, s)
    ensures s.swsm == Swsm(false, false) || exists a :: 0 <= a < |s.agents| && Inside(s.agents[a].pc)
  {
    ReachableInv(c, s);
    hide AgentOk, FwOk, Owns;
    assert s.holder >= 0 ==> Inside(s.agents[s.holder].pc);
  }
}
