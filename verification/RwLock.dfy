/** src/rwlock.c as a step system: any number of threads, one mutex, two
    condition variables with spurious wakeups, one step per C statement. */
module RwLock {
  /** Where a thread stands: outside any call, or before a statement of one. */
  datatype Pc =
    | Out | HoldsRead | HoldsWrite
      // rwl_rdlock
    | RdLock | RdTest | RdEnroll | RdLoop | RdWait | RdAsleep | RdWoken | RdLeave | RdTake | RdDone
      // rwl_tryrdlock
    | TrLock | TrTest | TrTake | TrDone(got: bool)
      // rwl_rdunlock
    | RuLock | RuDrop | RuTest | RuSignal | RuDone
      // rwl_wrlock
    | WrLock | WrTest | WrEnroll | WrLoop | WrWait | WrAsleep | WrWoken | WrLeave | WrTake | WrDone
      // rwl_trywrlock
    | TwLock | TwTest | TwTake | TwDone(got: bool)
      // rwl_wrunlock
    | WuLock | WuClear | WuTest | WuBroadcast | WuSignal | WuDone
      // rwl_destroy
    | DsLock | DsHeld | DsAwaited | DsClear | DsDone

  datatype Owner = Nobody | By(t: nat)

  /** The shared fields of rwlock_t. */
  datatype Vars = Vars(rActive: int, wActive: int, rWait: int, wWait: int, valid: bool)

  datatype State = State(vars: Vars, owner: Owner, pc: seq<Pc>)

  datatype Call = ReadLock | TryReadLock | ReadUnlock | WriteLock | TryWriteLock | WriteUnlock | Destroy

  /** A thread makes a call, runs its next statement, signals a sleeping
      writer, or wakes up for no reason. */
  datatype Step = Make(t: nat, call: Call) | Run(t: nat) | Signal(t: nat, writer: nat) | Spurious(t: nat)

  // ----- the steps -----

  function Init(threads: nat): State {
    State(Vars(0, 0, 0, 0, true), Nobody, seq(threads, _ => Out))
  }

  /** The mutex_lock after the check of `valid`. */
  function Entry(call: Call): Pc {
    match call
    case ReadLock => RdLock
    case TryReadLock => TrLock
    case ReadUnlock => RuLock
    case WriteLock => WrLock
    case TryWriteLock => TwLock
    case WriteUnlock => WuLock
    case Destroy => DsLock
  }

  /** Blocked in a mutex_lock, that inside cond_wait included. */
  predicate NeedsMutex(pc: Pc) {
    || pc.RdLock? || pc.TrLock? || pc.RuLock? || pc.WrLock? || pc.TwLock? || pc.WuLock? || pc.DsLock?
    || pc.RdWoken? || pc.WrWoken?
  }

  /** Gives the mutex back: mutex_unlock, or cond_wait when it goes to sleep. */
  predicate Unlocks(pc: Pc) {
    || pc.RdDone? || pc.TrDone? || pc.RuDone? || pc.WrDone? || pc.TwDone? || pc.WuDone? || pc.DsDone?
    || pc.RdWait? || pc.WrWait?
  }

  predicate Asleep(pc: Pc) {
    pc.RdAsleep? || pc.WrAsleep?
  }

  predicate Outside(pc: Pc) {
    pc.Out? || pc.HoldsRead? || pc.HoldsWrite?
  }

  /** Between mutex_lock and mutex_unlock. */
  predicate Inside(pc: Pc) {
    match pc
    case Out | HoldsRead | HoldsWrite | RdAsleep | WrAsleep => false
    case RdLock | TrLock | RuLock | WrLock | TwLock | WuLock | DsLock | RdWoken | WrWoken => false
    case _ => true
  }

  /** Only a reader calls rwl_rdunlock, only a writer rwl_wrunlock, and a
      thread that holds the lock makes no other call. */
  predicate MayCall(pc: Pc, call: Call) {
    match call
    case ReadUnlock => pc.HoldsRead?
    case WriteUnlock => pc.HoldsWrite?
    case _ => pc.Out?
  }

  predicate Signals(pc: Pc) {
    pc.RuSignal? || pc.WuSignal?
  }

  predicate Enabled(s: State, step: Step) {
    step.t < |s.pc| &&
    var pc := s.pc[step.t];
    match step
    case Make(_, call) => MayCall(pc, call)
    case Run(_) =>
      && !Asleep(pc) && !Outside(pc)
      && (NeedsMutex(pc) ==> s.owner.Nobody?)
      && (Signals(pc) ==> forall i :: 0 <= i < |s.pc| ==> !s.pc[i].WrAsleep?)
    case Signal(_, writer) => Signals(pc) && writer < |s.pc| && s.pc[writer].WrAsleep?
    case Spurious(_) => Asleep(pc)
  }

  function Free(v: Vars): bool {
    v.wActive == 0 && !(v.rActive > 0)
  }

  /** The statement before which a thread stands: what it assigns and where
      control goes. */
  function Statement(v: Vars, pc: Pc): (Vars, Pc) {
    match pc
    case Out | HoldsRead | HoldsWrite | RdAsleep | WrAsleep => (v, pc)

    case RdLock => (v, RdTest)
    case RdTest => (v, if v.wActive != 0 then RdEnroll else RdTake)
    case RdEnroll => (v.(rWait := v.rWait + 1), RdLoop)
    case RdLoop => (v, if v.wActive != 0 then RdWait else RdLeave)
    case RdWait => (v, RdAsleep)
    case RdWoken => (v, RdLoop)
    case RdLeave => (v.(rWait := v.rWait - 1), RdTake)
    case RdTake => (v.(rActive := v.rActive + 1), RdDone)
    case RdDone => (v, HoldsRead)

    case TrLock => (v, TrTest)
    case TrTest => (v, if v.wActive != 0 then TrDone(false) else TrTake)
    case TrTake => (v.(rActive := v.rActive + 1), TrDone(true))
    case TrDone(got) => (v, if got then HoldsRead else Out)

    case RuLock => (v, RuDrop)
    case RuDrop => (v.(rActive := v.rActive - 1), RuTest)
    case RuTest => (v, if v.rActive == 0 && v.wWait > 0 then RuSignal else RuDone)
    case RuSignal => (v, RuDone)
    case RuDone => (v, Out)

    case WrLock => (v, WrTest)
    case WrTest => (v, if !Free(v) then WrEnroll else WrTake)
    case WrEnroll => (v.(wWait := v.wWait + 1), WrLoop)
    case WrLoop => (v, if !Free(v) then WrWait else WrLeave)
    case WrWait => (v, WrAsleep)
    case WrWoken => (v, WrLoop)
    case WrLeave => (v.(wWait := v.wWait - 1), WrTake)
    case WrTake => (v.(wActive := 1), WrDone)
    case WrDone => (v, HoldsWrite)

    case TwLock => (v, TwTest)
    case TwTest => (v, if !Free(v) then TwDone(false) else TwTake)
    case TwTake => (v.(wActive := 1), TwDone(true))
    case TwDone(got) => (v, if got then HoldsWrite else Out)

    case WuLock => (v, WuClear)
    case WuClear => (v.(wActive := 0), WuTest)
    case WuTest => (v, if v.rWait > 0 then WuBroadcast else if v.wWait > 0 then WuSignal else WuDone)
    case WuBroadcast => (v, WuDone)
    case WuSignal => (v, WuDone)
    case WuDone => (v, Out)

    case DsLock => (v, DsHeld)
    case DsHeld => (v, if !Free(v) then DsDone else DsAwaited)
    case DsAwaited => (v, if v.rWait != 0 || v.wWait != 0 then DsDone else DsClear)
    case DsClear => (v.(valid := false), DsDone)
    case DsDone => (v, Out)
  }

  function OwnerAfter(owner: Owner, t: nat, pc: Pc): Owner {
    if NeedsMutex(pc) then By(t) else if Unlocks(pc) then Nobody else owner
  }

  /** cond_broadcast on `read`. */
  function Roused(pcs: seq<Pc>): (r: seq<Pc>)
    ensures |r| == |pcs|
    ensures forall i :: 0 <= i < |pcs| ==> r[i] == if pcs[i].RdAsleep? then RdWoken else pcs[i]
  {
    seq(|pcs|, i requires 0 <= i < |pcs| => if pcs[i].RdAsleep? then RdWoken else pcs[i])
  }

  /** The other threads, woken or not, before `step` moves its own thread. */
  function Others(s: State, step: Step): (r: seq<Pc>)
    requires Enabled(s, step)
    ensures |r| == |s.pc|
  {
    match step
    case Signal(_, writer) => s.pc[writer := WrWoken]
    case Run(t) => if s.pc[t].WuBroadcast? then Roused(s.pc) else s.pc
    case _ => s.pc
  }

  function Next(s: State, step: Step): State
    requires Enabled(s, step)
  {
    var t, pc := step.t, s.pc[step.t];
    match step
    case Make(_, call) => if s.vars.valid then s.(pc := s.pc[t := Entry(call)]) else s
    case Spurious(_) => s.(pc := s.pc[t := if pc.RdAsleep? then RdWoken else WrWoken])
    case _ =>
      var (v, next) := Statement(s.vars, pc);
      State(v, OwnerAfter(s.owner, t, pc), Others(s, step)[t := next])
  }

  // ----- roles -----

  datatype Role = ActiveReader | ActiveWriter | WaitingReader | WaitingWriter

  predicate Plays(pc: Pc, role: Role) {
    match role
    case ActiveReader => pc.RdDone? || pc.HoldsRead? || pc == TrDone(true) || pc.RuLock? || pc.RuDrop?
    case ActiveWriter => pc.WrDone? || pc.HoldsWrite? || pc == TwDone(true) || pc.WuLock? || pc.WuClear?
    case WaitingReader => pc.RdLoop? || pc.RdWait? || pc.RdAsleep? || pc.RdWoken? || pc.RdLeave?
    case WaitingWriter => pc.WrLoop? || pc.WrWait? || pc.WrAsleep? || pc.WrWoken? || pc.WrLeave?
  }

  function Counter(v: Vars, role: Role): int {
    match role
    case ActiveReader => v.rActive
    case ActiveWriter => v.wActive
    case WaitingReader => v.rWait
    case WaitingWriter => v.wWait
  }

  function One(b: bool): nat { if b then 1 else 0 }

  function Count(pcs: seq<Pc>, role: Role): nat {
    if pcs == [] then 0 else Count(pcs[..|pcs| - 1], role) + One(Plays(pcs[|pcs| - 1], role))
  }

  lemma {:induction false} CountUpdated(pcs: seq<Pc>, t: nat, pc: Pc, role: Role)
    requires t < |pcs|
    ensures Count(pcs[t := pc], role) == Count(pcs, role) - One(Plays(pcs[t], role)) + One(Plays(pc, role))
    decreases |pcs|
  {
    var m := |pcs| - 1;
    if t == m {
      assert pcs[t := pc][..m] == pcs[..m];
    } else {
      CountUpdated(pcs[..m], t, pc, role);
      assert pcs[t := pc][..m] == pcs[..m][t := pc];
    }
  }

  lemma {:induction false} CountRoused(pcs: seq<Pc>, role: Role)
    ensures Count(Roused(pcs), role) == Count(pcs, role)
    decreases |pcs|
  {
    if pcs != [] {
      CountRoused(pcs[..|pcs| - 1], role);
      assert Roused(pcs)[..|pcs| - 1] == Roused(pcs[..|pcs| - 1]);
    }
  }

  /** A count is positive just when somebody plays the role. */
  lemma {:induction false} CountPositive(pcs: seq<Pc>, role: Role)
    ensures Count(pcs, role) > 0 <==> exists i :: 0 <= i < |pcs| && Plays(pcs[i], role)
    decreases |pcs|
  {
    if pcs != [] {
      var m := |pcs| - 1;
      CountPositive(pcs[..m], role);
      if exists i :: 0 <= i < |pcs| && Plays(pcs[i], role) {
        var i :| 0 <= i < |pcs| && Plays(pcs[i], role);
        assert i < m ==> pcs[..m][i] == pcs[i];
      }
    }
  }

  // ----- the invariant -----

  /** What the thread inside the mutex has found out; nobody can change it meanwhile. */
  predicate Knows(v: Vars, pc: Pc) {
    match pc
    case RdEnroll | RdWait => v.wActive == 1
    case RdLeave | RdTake | TrTake => v.wActive == 0
    case WrEnroll | WrWait => !Free(v)
    case WrLeave | WrTake | TwTake => Free(v)
    case WuTest | WuSignal => v.wActive == 0
    case WuBroadcast => v.wActive == 0 && v.rWait > 0
    case DsAwaited => Free(v)
    case DsClear => Free(v) && v.rWait == 0 && v.wWait == 0
    case _ => true
  }

  /** A writer is active only alone. */
  predicate Exclusive(v: Vars) {
    0 <= v.rActive && 0 <= v.wActive <= 1 && (v.wActive == 1 ==> v.rActive == 0)
  }

  /** The mutex has one owner, the thread inside, and what it knows is so. */
  ghost predicate Mutual(s: State) {
    && (s.owner.By? ==> s.owner.t < |s.pc|)
    && forall i :: 0 <= i < |s.pc| ==>
         (Inside(s.pc[i]) <==> s.owner == By(i)) && (Inside(s.pc[i]) ==> Knows(s.vars, s.pc[i]))
  }

  /** The counters are the numbers of threads in each role. */
  ghost predicate Counted(s: State) {
    forall role :: Counter(s.vars, role) == Count(s.pc, role)
  }

  /** About to tell the waiters that the lock is free. */
  predicate Calling(pc: Pc) {
    pc.RuTest? || pc.RuSignal? || pc.WuTest? || pc.WuBroadcast? || pc.WuSignal?
  }

  /** A waiter awake, or one that has stopped waiting and takes the lock. */
  predicate Up(pc: Pc) {
    || pc.RdWoken? || pc.RdLoop? || pc.RdLeave? || pc.RdTake?
    || pc.WrWoken? || pc.WrLoop? || pc.WrLeave? || pc.WrTake?
  }

  /** Readers sleep only while a writer is active or about to call them. */
  ghost predicate ReadersCalled(s: State) {
    s.vars.wActive == 0 && (exists i :: 0 <= i < |s.pc| && s.pc[i].RdAsleep?) ==>
      exists i :: 0 <= i < |s.pc| && (s.pc[i].WuTest? || s.pc[i].WuBroadcast?)
  }

  /** While the lock is free and a writer sleeps, somebody awake will take the
      lock or is about to pass it on. */
  ghost predicate WritersCalled(s: State) {
    Free(s.vars) && (exists i :: 0 <= i < |s.pc| && s.pc[i].WrAsleep?) ==>
      exists i :: 0 <= i < |s.pc| && (Calling(s.pc[i]) || Up(s.pc[i]))
  }

  ghost predicate Inv(s: State) {
    Mutual(s) && Counted(s) && Exclusive(s.vars) && ReadersCalled(s) && WritersCalled(s)
  }

  /** One statement, seen alone, keeps the counters in step with the roles. */
  lemma StatementCountsReaders(v: Vars, pc: Pc)
    requires Inside(pc) || NeedsMutex(pc)
    ensures var (v', pc') := Statement(v, pc);
            v'.rActive == v.rActive - One(Plays(pc, ActiveReader)) + One(Plays(pc', ActiveReader))
  {
    match pc
    case RdLock | RdTest | RdEnroll | RdLoop | RdWait | RdWoken | RdLeave | RdTake | RdDone =>
    case TrLock | TrTest | TrTake | TrDone(_) =>
    case RuLock | RuDrop | RuTest | RuSignal | RuDone =>
    case WrLock | WrTest | WrEnroll | WrLoop | WrWait | WrWoken | WrLeave | WrTake | WrDone =>
    case TwLock | TwTest | TwTake | TwDone(_) =>
    case WuLock | WuClear | WuTest | WuBroadcast | WuSignal | WuDone =>
    case _ =>
  }

  lemma StatementCountsWriters(v: Vars, pc: Pc)
    requires (Inside(pc) && Knows(v, pc)) || NeedsMutex(pc)
    requires pc.WuClear? ==> v.wActive == 1
    ensures var (v', pc') := Statement(v, pc);
            v'.wActive == v.wActive - One(Plays(pc, ActiveWriter)) + One(Plays(pc', ActiveWriter))
  {
    hide *;
    if Reading(pc) { ReadingCountsWriters(v, pc); } else { WritingCountsWriters(v, pc); }
  }

  lemma ReadingCountsWriters(v: Vars, pc: Pc)
    requires Reading(pc)
    ensures var (v', pc') := Statement(v, pc);
            v'.wActive == v.wActive - One(Plays(pc, ActiveWriter)) + One(Plays(pc', ActiveWriter))
  {
  }

  lemma WritingCountsWriters(v: Vars, pc: Pc)
    requires ((Inside(pc) && Knows(v, pc)) || NeedsMutex(pc)) && !Reading(pc)
    requires pc.WuClear? ==> v.wActive == 1
    ensures var (v', pc') := Statement(v, pc);
            v'.wActive == v.wActive - One(Plays(pc, ActiveWriter)) + One(Plays(pc', ActiveWriter))
  {
    match pc
    case WrLock | WrTest | WrEnroll | WrLoop | WrWait | WrWoken | WrLeave | WrTake | WrDone =>
    case TwLock | TwTest | TwTake | TwDone(_) =>
    case WuLock | WuClear | WuTest | WuBroadcast | WuSignal | WuDone =>
    case _ =>
  }

  lemma StatementCountsWaitingReaders(v: Vars, pc: Pc)
    requires Inside(pc) || NeedsMutex(pc)
    ensures var (v', pc') := Statement(v, pc);
            v'.rWait == v.rWait - One(Plays(pc, WaitingReader)) + One(Plays(pc', WaitingReader))
  {
    match pc
    case RdLock | RdTest | RdEnroll | RdLoop | RdWait | RdWoken | RdLeave | RdTake | RdDone =>
    case TrLock | TrTest | TrTake | TrDone(_) =>
    case RuLock | RuDrop | RuTest | RuSignal | RuDone =>
    case WrLock | WrTest | WrEnroll | WrLoop | WrWait | WrWoken | WrLeave | WrTake | WrDone =>
    case TwLock | TwTest | TwTake | TwDone(_) =>
    case WuLock | WuClear | WuTest | WuBroadcast | WuSignal | WuDone =>
    case _ =>
  }

  lemma StatementCountsWaitingWriters(v: Vars, pc: Pc)
    requires Inside(pc) || NeedsMutex(pc)
    ensures var (v', pc') := Statement(v, pc);
            v'.wWait == v.wWait - One(Plays(pc, WaitingWriter)) + One(Plays(pc', WaitingWriter))
  {
    match pc
    case RdLock | RdTest | RdEnroll | RdLoop | RdWait | RdWoken | RdLeave | RdTake | RdDone =>
    case TrLock | TrTest | TrTake | TrDone(_) =>
    case RuLock | RuDrop | RuTest | RuSignal | RuDone =>
    case WrLock | WrTest | WrEnroll | WrLoop | WrWait | WrWoken | WrLeave | WrTake | WrDone =>
    case TwLock | TwTest | TwTake | TwDone(_) =>
    case WuLock | WuClear | WuTest | WuBroadcast | WuSignal | WuDone =>
    case _ =>
  }

  lemma StatementExcludes(v: Vars, pc: Pc)
    requires (Inside(pc) && Knows(v, pc)) || NeedsMutex(pc)
    requires Exclusive(v) && (pc.RuDrop? ==> v.rActive > 0)
    ensures Exclusive(Statement(v, pc).0)
  {
  }

  /** And leaves the thread knowing what the next statement relies on. */
  lemma StatementInforms(v: Vars, pc: Pc)
    requires (Inside(pc) && Knows(v, pc)) || NeedsMutex(pc)
    requires Exclusive(v)
    ensures var (v', pc') := Statement(v, pc); Inside(pc') ==> Knows(v', pc')
  {
    hide *;
    if Reading(pc) { ReadingInforms(v, pc); } else { WritingInforms(v, pc); }
  }

  predicate Reading(pc: Pc) {
    match pc
    case RdLock | RdTest | RdEnroll | RdLoop | RdWait | RdWoken | RdLeave | RdTake | RdDone => true
    case TrLock | TrTest | TrTake | TrDone(_) => true
    case RuLock | RuDrop | RuTest | RuSignal | RuDone => true
    case _ => false
  }

  lemma ReadingInforms(v: Vars, pc: Pc)
    requires (Inside(pc) && Knows(v, pc)) || NeedsMutex(pc)
    requires Exclusive(v) && Reading(pc)
    ensures var (v', pc') := Statement(v, pc); Inside(pc') ==> Knows(v', pc')
  {
  }

  lemma WritingInforms(v: Vars, pc: Pc)
    requires (Inside(pc) && Knows(v, pc)) || NeedsMutex(pc)
    requires Exclusive(v) && !Reading(pc)
    ensures var (v', pc') := Statement(v, pc); Inside(pc') ==> Knows(v', pc')
  {
    hide *;
    if Ending(pc) { EndingInforms(v, pc); } else { TakingInforms(v, pc); }
  }

  predicate Ending(pc: Pc) {
    match pc
    case WuLock | WuClear | WuTest | WuBroadcast | WuSignal | WuDone => true
    case DsLock | DsHeld | DsAwaited | DsClear | DsDone => true
    case _ => false
  }

  lemma EndingInforms(v: Vars, pc: Pc)
    requires (Inside(pc) && Knows(v, pc)) || NeedsMutex(pc)
    requires Exclusive(v) && Ending(pc)
    ensures var (v', pc') := Statement(v, pc); Inside(pc') ==> Knows(v', pc')
  {
  }

  lemma TakingInforms(v: Vars, pc: Pc)
    requires (Inside(pc) && Knows(v, pc)) || NeedsMutex(pc)
    requires Exclusive(v) && !Reading(pc) && !Ending(pc)
    ensures var (v', pc') := Statement(v, pc); Inside(pc') ==> Knows(v', pc')
  {
  }

  lemma StatementStays(v: Vars, pc: Pc)
    requires Inside(pc) || NeedsMutex(pc)
    ensures Inside(Statement(v, pc).1) <==> !Unlocks(pc)
  {
  }

  lemma Present(s: State, t: nat)
    requires Counted(s) && t < |s.pc|
    ensures forall role :: Plays(s.pc[t], role) ==> Counter(s.vars, role) > 0
  {
    forall role | Plays(s.pc[t], role) ensures Counter(s.vars, role) > 0 {
      CountPositive(s.pc, role);
    }
  }

  lemma MutualKept(s: State, step: Step)
    requires Mutual(s) && Exclusive(s.vars) && Enabled(s, step)
    ensures Mutual(Next(s, step))
  {
    var t, s' := step.t, Next(s, step);
    if step.Run? || step.Signal? {
      StatementInforms(s.vars, s.pc[t]);
      StatementStays(s.vars, s.pc[t]);
      hide Statement, Knows, Exclusive;
      forall i | 0 <= i < |s'.pc|
        ensures (Inside(s'.pc[i]) <==> s'.owner == By(i)) && (Inside(s'.pc[i]) ==> Knows(s'.vars, s'.pc[i]))
      {
        if i != t {
          assert Inside(s'.pc[i]) == Inside(s.pc[i]) == (s.owner == By(i));
          assert NeedsMutex(s.pc[t]) ==> s.owner.Nobody?;
        }
      }
    }
  }

  /** A step changes the count of a role by what its own thread does. */
  lemma CountMoves(s: State, step: Step, role: Role)
    requires Enabled(s, step)
    ensures var t, s' := step.t, Next(s, step);
            Count(s'.pc, role) == Count(s.pc, role) - One(Plays(s.pc[t], role)) + One(Plays(s'.pc[t], role))
  {
    hide Count, Statement;
    var t, s', others := step.t, Next(s, step), Others(s, step);
    if step.Signal? { CountUpdated(s.pc, step.writer, WrWoken, role); }
    if step.Run? { CountRoused(s.pc, role); }
    assert Count(others, role) == Count(s.pc, role);
    CountUpdated(others, t, s'.pc[t], role);
    assert s'.pc == others[t := s'.pc[t]];
  }

  /** And its counter by the same. */
  lemma CounterMoves(s: State, step: Step, role: Role)
    requires Mutual(s) && Counted(s) && Exclusive(s.vars) && Enabled(s, step)
    ensures var t, s' := step.t, Next(s, step);
            Counter(s'.vars, role) == Counter(s.vars, role) - One(Plays(s.pc[t], role)) + One(Plays(s'.pc[t], role))
  {
    hide Count;
    var v, pc := s.vars, s.pc[step.t];
    Present(s, step.t);
    assert Plays(pc, ActiveWriter) ==> Counter(v, ActiveWriter) > 0;
    if step.Run? || step.Signal? {
      match role
      case ActiveReader => StatementCountsReaders(v, pc);
      case ActiveWriter => StatementCountsWriters(v, pc);
      case WaitingReader => StatementCountsWaitingReaders(v, pc);
      case WaitingWriter => StatementCountsWaitingWriters(v, pc);
    }
  }

  lemma CountedKept(s: State, step: Step)
    requires Inv(s) && Enabled(s, step)
    ensures Counted(Next(s, step)) && Exclusive(Next(s, step).vars)
  {
    hide Count, Next;
    var v, pc, s' := s.vars, s.pc[step.t], Next(s, step);
    forall role ensures Counter(s'.vars, role) == Count(s'.pc, role) {
      CountMoves(s, step, role);
      CounterMoves(s, step, role);
      assert Counter(v, role) == Count(s.pc, role);
    }
    StepExcludes(s, step);
  }

  lemma StepExcludes(s: State, step: Step)
    requires Mutual(s) && Counted(s) && Exclusive(s.vars) && Enabled(s, step)
    ensures Exclusive(Next(s, step).vars)
  {
    hide Count;
    Present(s, step.t);
    assert Plays(s.pc[step.t], ActiveReader) ==> Counter(s.vars, ActiveReader) > 0;
    if step.Run? || step.Signal? { StatementExcludes(s.vars, s.pc[step.t]); }
  }

  /** A statement that leaves `wActive` at 0 either found it so or is wrunlock's. */
  lemma StatementClears(v: Vars, pc: Pc)
    requires (Inside(pc) && Knows(v, pc)) || NeedsMutex(pc)
    ensures var (v', pc') := Statement(v, pc);
            && (v'.wActive == 0 ==> v.wActive == 0 || pc'.WuTest?)
            && (v'.wActive == 0 ==> !pc'.RdAsleep?)
            && (pc.WuTest? && v.rWait > 0 ==> pc'.WuBroadcast?)
  {
  }

  lemma ReadersKept(s: State, step: Step)
    requires Inv(s) && Enabled(s, step)
    ensures ReadersCalled(Next(s, step))
  {
    var t, s' := step.t, Next(s, step);
    CountPositive(s.pc, WaitingReader);
    assert Counter(s.vars, WaitingReader) == Count(s.pc, WaitingReader);
    if step.Run? || step.Signal? { StatementClears(s.vars, s.pc[t]); }
    if s'.vars.wActive == 0 && exists i :: 0 <= i < |s'.pc| && s'.pc[i].RdAsleep? {
      var i :| 0 <= i < |s'.pc| && s'.pc[i].RdAsleep?;
      assert i != t && s.pc[i].RdAsleep?;
      if s.vars.wActive == 0 {
        var j :| 0 <= j < |s.pc| && (s.pc[j].WuTest? || s.pc[j].WuBroadcast?);
        assert s'.pc[j].WuTest? || s'.pc[j].WuBroadcast?;
      } else {
        assert s'.pc[t].WuTest?;
      }
    }
  }

  /** What a statement does to a thread that others may be waiting for. */
  lemma StatementPassesOn(v: Vars, pc: Pc)
    requires (Inside(pc) && Knows(v, pc)) || NeedsMutex(pc)
    requires Exclusive(v) && Free(Statement(v, pc).0)
    ensures var (v', pc') := Statement(v, pc);
            && !pc'.WrAsleep?
            && (!Free(v) ==> Calling(pc'))
            && (Up(pc) ==> Up(pc'))
            && ((pc.RuTest? || pc.WuTest?) && v.wWait > 0 ==> Calling(pc'))
  {
  }

  lemma WritersKept(s: State, step: Step)
    requires Inv(s) && Enabled(s, step)
    ensures WritersCalled(Next(s, step))
  {
    hide Count, Statement, Knows, Exclusive, Executes, After;
    var t, s' := step.t, Next(s, step);
    if Free(s'.vars) && exists i :: 0 <= i < |s'.pc| && s'.pc[i].WrAsleep? {
      var i :| 0 <= i < |s'.pc| && s'.pc[i].WrAsleep?;
      if step.Run? || step.Signal? {
        StatementPassesOn(s.vars, s.pc[t]);
        assert i != t && s.pc[i].WrAsleep?;
        Present(s, i);
        assert Plays(s.pc[i], WaitingWriter) && Counter(s.vars, WaitingWriter) > 0;
        if !Free(s.vars) {
          assert Calling(s'.pc[t]);
        } else {
          WaiterPassed(s, step, i);
        }
      } else {
        var j :| 0 <= j < |s.pc| && (Calling(s.pc[j]) || Up(s.pc[j]));
        assert s'.pc[j] == s.pc[j];
      }
    }
  }

  lemma WaiterPassed(s: State, step: Step, i: nat)
    requires Inv(s) && Enabled(s, step) && (step.Run? || step.Signal?)
    requires Free(s.vars) && Free(Next(s, step).vars) && s.vars.wWait > 0
    requires i < |s.pc| && i != step.t && s.pc[i].WrAsleep?
    ensures var s' := Next(s, step); exists j :: 0 <= j < |s'.pc| && (Calling(s'.pc[j]) || Up(s'.pc[j]))
  {
    hide Count;
    var t, s' := step.t, Next(s, step);
    StatementPassesOn(s.vars, s.pc[t]);
    if step.Signal? {
      assert Up(s'.pc[step.writer]);
    } else if s.pc[t].WuBroadcast? {
      var k := SomeReaderWaits(s, t);
      assert Up(s'.pc[k]);
    } else {
      var j :| 0 <= j < |s.pc| && (Calling(s.pc[j]) || Up(s.pc[j]));
      if j != t {
        assert s'.pc[j] == s.pc[j];
      } else {
        assert Calling(s'.pc[t]) || Up(s'.pc[t]);
      }
    }
  }

  lemma SomeReaderWaits(s: State, t: nat) returns (k: nat)
    requires Mutual(s) && Counted(s) && t < |s.pc| && s.pc[t].WuBroadcast?
    ensures k < |s.pc| && k != t && (s.pc[k].RdAsleep? || s.pc[k].RdWoken?)
  {
    assert Inside(s.pc[t]) && Knows(s.vars, s.pc[t]) && Counter(s.vars, WaitingReader) > 0;
    CountPositive(s.pc, WaitingReader);
    k :| 0 <= k < |s.pc| && Plays(s.pc[k], WaitingReader);
    assert s.owner == By(t);
  }

  /** Every statement of every thread keeps the invariant. */
  lemma InvKept(s: State, step: Step)
    requires Inv(s) && Enabled(s, step)
    ensures Inv(Next(s, step))
  {
    MutualKept(s, step);
    CountedKept(s, step);
    ReadersKept(s, step);
    WritersKept(s, step);
  }

  lemma {:induction false} NobodyCounts(threads: nat, role: Role)
    ensures Count(seq(threads, _ => Out), role) == 0
    decreases threads
  {
    if threads > 0 {
      var pcs: seq<Pc> := seq(threads, _ => Out);
      assert pcs[..threads - 1] == seq(threads - 1, _ => Out);
      NobodyCounts(threads - 1, role);
    }
  }

  lemma InitInv(threads: nat)
    ensures Inv(Init(threads))
  {
    forall role ensures Counter(Init(threads).vars, role) == Count(Init(threads).pc, role) {
      NobodyCounts(threads, role);
    }
  }

  // ----- runs -----

  /** The states a run goes through: every step is enabled when it is taken. */
  ghost predicate Executes(s: State, steps: seq<Step>)
    decreases |steps|
  {
    steps != [] ==> Enabled(s, steps[0]) && Executes(Next(s, steps[0]), steps[1..])
  }

  function After(s: State, steps: seq<Step>): (r: State)
    requires Executes(s, steps)
    ensures |r.pc| == |s.pc|
    decreases |steps|
  {
    if steps == [] then s else After(Next(s, steps[0]), steps[1..])
  }

  lemma {:induction false} RunInv(s: State, steps: seq<Step>)
    requires Inv(s) && Executes(s, steps)
    ensures Inv(After(s, steps))
    decreases |steps|
  {
    if steps != [] {
      InvKept(s, steps[0]);
      RunInv(Next(s, steps[0]), steps[1..]);
    }
  }

  ghost predicate Reachable(s: State) {
    exists threads: nat, steps :: Executes(Init(threads), steps) && After(Init(threads), steps) == s
  }

  lemma ReachableInv(s: State)
    requires Reachable(s)
    ensures Inv(s)
  {
    var threads: nat, steps :| Executes(Init(threads), steps) && After(Init(threads), steps) == s;
    InitInv(threads);
    RunInv(Init(threads), steps);
  }

  // ----- what every reachable state has -----

  lemma {:induction false} CountTwo(pcs: seq<Pc>, role: Role, i: nat, j: nat)
    requires i < j < |pcs| && Plays(pcs[i], role) && Plays(pcs[j], role)
    ensures Count(pcs, role) >= 2
    decreases |pcs|
  {
    var m := |pcs| - 1;
    if j < m {
      CountTwo(pcs[..m], role, i, j);
    } else {
      CountPositive(pcs[..m], role);
      assert pcs[..m][i] == pcs[i];
    }
  }

  /** A writer holds the lock only alone. */
  lemma WriterAlone(s: State, i: nat, j: nat)
    requires Reachable(s) && i < |s.pc| && j < |s.pc| && i != j && s.pc[i].HoldsWrite?
    ensures !s.pc[j].HoldsWrite? && !s.pc[j].HoldsRead?
  {
    ReachableInv(s);
    Present(s, i);
    Present(s, j);
    assert Plays(s.pc[i], ActiveWriter) && Counter(s.vars, ActiveWriter) > 0;
    assert s.pc[j].HoldsRead? ==> Plays(s.pc[j], ActiveReader);
    assert Counter(s.vars, ActiveWriter) == Count(s.pc, ActiveWriter);
    if s.pc[j].HoldsWrite? {
      CountTwo(s.pc, ActiveWriter, if i < j then i else j, if i < j then j else i);
      assert false;
    }
  }

  /** The four counters are the numbers of threads in the four roles. */
  lemma CountersTell(s: State)
    requires Reachable(s)
    ensures s.vars.rActive == Count(s.pc, ActiveReader) && s.vars.wActive == Count(s.pc, ActiveWriter)
    ensures s.vars.rWait == Count(s.pc, WaitingReader) && s.vars.wWait == Count(s.pc, WaitingWriter)
  {
    ReachableInv(s);
    assert forall role :: Counter(s.vars, role) == Count(s.pc, role);
    assert Counter(s.vars, ActiveReader) == s.vars.rActive && Counter(s.vars, ActiveWriter) == s.vars.wActive;
    assert Counter(s.vars, WaitingReader) == s.vars.rWait && Counter(s.vars, WaitingWriter) == s.vars.wWait;
  }

  /** No reader sleeps while no writer is active. */
  lemma NoReaderSleeps(s: State, i: nat)
    requires Reachable(s) && s.owner.Nobody? && s.vars.wActive == 0 && i < |s.pc|
    ensures !s.pc[i].RdAsleep?
  {
    ReachableInv(s);
    assert forall k :: 0 <= k < |s.pc| ==> !Inside(s.pc[k]);
  }

  /** No lost wakeup: when the lock is free and somebody waits, some waiter is awake. */
  lemma WaiterAwake(s: State) returns (t: nat)
    requires Reachable(s) && s.owner.Nobody? && Free(s.vars) && (s.vars.rWait > 0 || s.vars.wWait > 0)
    ensures t < |s.pc| && (s.pc[t].RdWoken? || s.pc[t].WrWoken?)
  {
    hide Reachable, Count, Knows;
    ReachableInv(s);
    CountersTell(s);
    CountPositive(s.pc, WaitingReader);
    CountPositive(s.pc, WaitingWriter);
    var i :| 0 <= i < |s.pc| && (Plays(s.pc[i], WaitingReader) || Plays(s.pc[i], WaitingWriter));
    assert !Inside(s.pc[i]);
    t := i;
    if s.pc[i].RdAsleep? {
      NoReaderSleeps(s, i);
      assert false;
    }
    if s.pc[i].WrAsleep? {
      var j :| 0 <= j < |s.pc| && (Calling(s.pc[j]) || Up(s.pc[j]));
      assert !Inside(s.pc[j]);
      t := j;
    }
  }

  predicate Holds(pc: Pc) {
    pc.HoldsRead? || pc.HoldsWrite?
  }

  /** A statement that wakes nobody moves only its own thread. */
  lemma RunAlone(s: State, t: nat)
    requires t < |s.pc| && if NeedsMutex(s.pc[t]) then s.owner.Nobody? else s.owner == By(t) && Inside(s.pc[t])
    requires !Signals(s.pc[t]) && !s.pc[t].WuBroadcast?
    ensures Enabled(s, Run(t))
    ensures var (v, pc) := Statement(s.vars, s.pc[t]);
            Next(s, Run(t)) == State(v, OwnerAfter(s.owner, t, s.pc[t]), s.pc[t := pc])
  {
  }

  /** And it can have the lock by its own next five statements. */
  lemma WaiterCanWin(s: State) returns (t: nat)
    requires Reachable(s) && s.owner.Nobody? && Free(s.vars) && (s.vars.rWait > 0 || s.vars.wWait > 0)
    ensures t < |s.pc| && Executes(s, Own(t, 5)) && Holds(After(s, Own(t, 5)).pc[t])
  {
    t := WaiterAwake(s);
    hide Reachable, Executes, After, Own;
    if s.pc[t].RdWoken? { WokenReaderTakes(s, t); } else { WokenWriterTakes(s, t); }
  }

  lemma FiveSteps(s: State, five: seq<Step>, s1: State, s2: State, s3: State, s4: State, s5: State)
    requires |five| == 5
    requires Enabled(s, five[0]) && s1 == Next(s, five[0])
    requires Enabled(s1, five[1]) && s2 == Next(s1, five[1])
    requires Enabled(s2, five[2]) && s3 == Next(s2, five[2])
    requires Enabled(s3, five[3]) && s4 == Next(s3, five[3])
    requires Enabled(s4, five[4]) && s5 == Next(s4, five[4])
    ensures Executes(s, five) && After(s, five) == s5
  {
    hide Next, Enabled;
    assert five[1..][1..] == five[2..] && five[2..][1..] == five[3..];
    assert five[3..][1..] == five[4..] && five[4..][1..] == five[5..] == [];
    assert Executes(s5, five[5..]) && After(s5, five[5..]) == s5;
    assert Executes(s4, five[4..]) && After(s4, five[4..]) == s5;
    assert Executes(s3, five[3..]) && After(s3, five[3..]) == s5;
    assert Executes(s2, five[2..]) && After(s2, five[2..]) == s5;
    assert Executes(s1, five[1..]) && After(s1, five[1..]) == s5;
  }

  /** rwl_destroy succeeds only when nobody holds the lock or waits for it. */
  lemma DestroyFindsNobody(s: State, t: nat, i: nat, role: Role)
    requires Reachable(s) && t < |s.pc| && s.pc[t].DsClear? && i < |s.pc|
    ensures !Plays(s.pc[i], role)
  {
    ReachableInv(s);
    assert Inside(s.pc[t]) && Knows(s.vars, s.pc[t]);
    Present(s, i);
    assert Counter(s.vars, role) == 0;
  }

  /** Past its check of `valid`, still before the mutex. */
  predicate Entering(pc: Pc) {
    pc.RdLock? || pc.TrLock? || pc.WrLock? || pc.TwLock?
  }

  ghost predicate SomebodyAcquires(s: State) {
    exists steps, i :: Executes(s, steps) && 0 <= i < |s.pc| && Holds(After(s, steps).pc[i])
  }

  /** Once rwl_destroy has cleared `valid`, the lock can still be taken just when
      some thread had passed its check of it and not yet locked the mutex. */
  lemma DestroyIsFinal(s: State, t: nat)
    requires Reachable(s) && t < |s.pc| && s.pc[t].DsClear? && Enabled(s, Run(t))
    ensures var s' := Next(s, Run(t));
            SomebodyAcquires(s') <==> exists i :: 0 <= i < |s'.pc| && Entering(s'.pc[i])
  {
    var s' := Next(s, Run(t));
    Destroyed(s, t);
    if i :| 0 <= i < |s'.pc| && Entering(s'.pc[i]) {
      EnteringWins(s', t, i);
    } else {
      forall steps, i | Executes(s', steps) && 0 <= i < |s'.pc| ensures !Holds(After(s', steps).pc[i]) {
        StaysShut(s', steps);
      }
    }
  }

  /** And such a state is reached: the second thread passes its check of `valid`, the
      first one clears it, and the second one then holds a lock that was destroyed. */
  lemma DestroyRaced() returns (s: State)
    ensures Reachable(s) && |s.pc| == 2 && s.pc[0].DsClear? && Enabled(s, Run(0))
    ensures Entering(Next(s, Run(0)).pc[1]) && SomebodyAcquires(Next(s, Run(0)))
  {
    var v := Init(2).vars;
    var s1, s2 := State(v, Nobody, [DsLock, Out]), State(v, Nobody, [DsLock, RdLock]);
    var s3, s4 := State(v, By(0), [DsHeld, RdLock]), State(v, By(0), [DsAwaited, RdLock]);
    s := State(v, By(0), [DsClear, RdLock]);
    RacedCalls();
    RacedRuns(v);
    var steps := [Make(0, Destroy), Make(1, ReadLock), Run(0), Run(0), Run(0)];
    hide *;
    FiveSteps(Init(2), steps, s1, s2, s3, s4, s);
    RacedEnd(v, steps);
    DestroyIsFinal(s, 0);
  }

  lemma RacedCalls()
    ensures var s0, v := Init(2), Init(2).vars;
            && Enabled(s0, Make(0, Destroy)) && Next(s0, Make(0, Destroy)) == State(v, Nobody, [DsLock, Out])
            && Enabled(State(v, Nobody, [DsLock, Out]), Make(1, ReadLock))
            && Next(State(v, Nobody, [DsLock, Out]), Make(1, ReadLock)) == State(v, Nobody, [DsLock, RdLock])
  {
    hide Statement;
    assert Init(2).pc[0 := DsLock] == [DsLock, Out] && [DsLock, Out][1 := RdLock] == [DsLock, RdLock];
  }

  lemma RacedRuns(v: Vars)
    requires v == Init(2).vars
    ensures var s2, s3, s4 := State(v, Nobody, [DsLock, RdLock]), State(v, By(0), [DsHeld, RdLock]), State(v, By(0),
            [DsAwaited, RdLock]);
            && Enabled(s2, Run(0)) && Next(s2, Run(0)) == s3
            && Enabled(s3, Run(0)) && Next(s3, Run(0)) == s4
            && Enabled(s4, Run(0)) && Next(s4, Run(0)) == State(v, By(0), [DsClear, RdLock])
  {
    assert Statement(v, DsLock) == (v, DsHeld) && Statement(v, DsHeld) == (v, DsAwaited)
            && Statement(v, DsAwaited) == (v, DsClear);
    hide Statement;
    assert [DsLock, RdLock][0 := DsHeld] == [DsHeld, RdLock] && [DsHeld, RdLock][0 := DsAwaited] == [DsAwaited, RdLock];
    assert [DsAwaited, RdLock][0 := DsClear] == [DsClear, RdLock];
  }

  lemma RacedEnd(v: Vars, steps: seq<Step>)
    requires Executes(Init(2), steps) && After(Init(2), steps) == State(v, By(0), [DsClear, RdLock])
    ensures var s := State(v, By(0), [DsClear, RdLock]);
            Reachable(s) && Enabled(s, Run(0)) && |Next(s, Run(0)).pc| == 2 && Entering(Next(s, Run(0)).pc[1])
  {
    hide Executes, After, Statement;
  }

  predicate Idle(pc: Pc) {
    pc.Out? || pc.DsLock? || pc.DsHeld? || pc.DsAwaited? || pc.DsClear? || pc.DsDone?
  }

  /** No thread is in any call but rwl_destroy, and none can get in. */
  ghost predicate Shut(s: State) {
    !s.vars.valid && forall i :: 0 <= i < |s.pc| ==> Idle(s.pc[i])
  }

  lemma Destroyed(s: State, t: nat)
    requires Reachable(s) && t < |s.pc| && s.pc[t].DsClear? && Enabled(s, Run(t))
    ensures var s' := Next(s, Run(t));
            && s'.owner == By(t) && s'.pc[t].DsDone? && !s'.vars.valid && Free(s'.vars)
            && forall i :: 0 <= i < |s'.pc| ==> Idle(s'.pc[i]) || Entering(s'.pc[i])
  {
    ReachableInv(s);
    assert Inside(s.pc[t]);
    forall i | 0 <= i < |s.pc| && i != t ensures Idle(s.pc[i]) || Entering(s.pc[i]) {
      assert !Inside(s.pc[i]);
      DestroyFindsNobody(s, t, i, ActiveReader);
      DestroyFindsNobody(s, t, i, ActiveWriter);
      DestroyFindsNobody(s, t, i, WaitingReader);
      DestroyFindsNobody(s, t, i, WaitingWriter);
    }
  }

  lemma {:induction false} StaysShut(s: State, steps: seq<Step>)
    requires Shut(s) && Executes(s, steps)
    ensures Shut(After(s, steps))
    decreases |steps|
  {
    if steps != [] {
      assert Shut(Next(s, steps[0]));
      StaysShut(Next(s, steps[0]), steps[1..]);
    }
  }

  /** The thread that has cleared `valid` unlocks, and the other goes on. */
  lemma EnteringWins(s: State, t: nat, i: nat)
    requires t < |s.pc| && s.owner == By(t) && s.pc[t].DsDone? && Free(s.vars)
    requires i < |s.pc| && Entering(s.pc[i])
    ensures SomebodyAcquires(s)
  {
    RunAlone(s, t);
    var s1 := Next(s, Run(t));
    assert s1 == State(s.vars, Nobody, s.pc[t := Out]);
    FreeEntryWins(s1, i);
    hide Next, Enabled, Statement;
    var steps := [Run(t)] + Own(i, 4);
    assert steps[1..] == Own(i, 4);
    assert Executes(s, steps) && After(s, steps) == After(s1, Own(i, 4));
  }

  lemma FreeEntryWins(s: State, i: nat)
    requires s.owner.Nobody? && Free(s.vars) && i < |s.pc| && Entering(s.pc[i])
    ensures Executes(s, Own(i, 4)) && Holds(After(s, Own(i, 4)).pc[i])
  {
    if s.pc[i].RdLock? || s.pc[i].TrLock? { ReaderEnters(s, i); } else { WriterEnters(s, i); }
  }

  lemma ReaderEnters(s: State, i: nat)
    requires s.owner.Nobody? && s.vars.wActive == 0 && i < |s.pc| && (s.pc[i].RdLock? || s.pc[i].TrLock?)
    ensures Executes(s, Own(i, 4)) && After(s, Own(i, 4)).pc[i] == HoldsRead
  {
    hide *;
    var v := s.vars;
    var w := v.(rActive := v.rActive + 1);
    Entries();
    if s.pc[i].RdLock? {
      ReadHops(v);
      ReadMoves(v);
      ReadMoves(w);
      WokenFour(s, i, (v, RdLock), (v, RdTest), (v, RdTake), (w, RdDone), (w, HoldsRead));
    } else {
      TryReadHops(v);
      TryReadHops(w);
      WokenFour(s, i, (v, TrLock), (v, TrTest), (v, TrTake), (w, TrDone(true)), (w, HoldsRead));
    }
  }

  lemma WriterEnters(s: State, i: nat)
    requires s.owner.Nobody? && s.vars.wActive == 0 && s.vars.rActive <= 0
    requires i < |s.pc| && (s.pc[i].WrLock? || s.pc[i].TwLock?)
    ensures Executes(s, Own(i, 4)) && After(s, Own(i, 4)).pc[i] == HoldsWrite
  {
    hide *;
    var v := s.vars;
    var w := v.(wActive := 1);
    Entries();
    if s.pc[i].WrLock? {
      WriteHops(v);
      WriteMoves(v);
      WriteMoves(w);
      WokenFour(s, i, (v, WrLock), (v, WrTest), (v, WrTake), (w, WrDone), (w, HoldsWrite));
    } else {
      TryWriteHops(v);
      TryWriteDone(w);
      WokenFour(s, i, (v, TwLock), (v, TwTest), (v, TwTake), (w, TwDone(true)), (w, HoldsWrite));
    }
  }

  // ----- what each call comes to, run to its end -----

  /** A thread's next `n` statements. */
  ghost function Own(t: nat, n: nat): seq<Step> {
    seq(n, _ => Run(t))
  }

  /** The shared fields and the place of one thread over its statements. */
  type Trail = seq<Place>

  type Place = (Vars, Pc)

  /** From one place to the next, by a statement that wakes no other thread. */
  ghost predicate Last(a: Place, b: Place) {
    Statement(a.0, a.1) == b && !Signals(a.1) && !a.1.WuBroadcast?
  }

  /** The same, and the mutex is kept. */
  ghost predicate Hop(a: Place, b: Place) {
    Last(a, b) && !Unlocks(a.1) && Inside(b.1)
  }

  /** The trail follows the statements, inside the mutex up to its end. */
  ghost predicate Leads(path: Trail) {
    && |path| >= 2
    && (forall i :: 0 <= i < |path| - 2 ==> Hop(path[i], path[i + 1]))
    && Last(path[|path| - 2], path[|path| - 1])
  }

  lemma {:induction false} FollowsInside(pcs: seq<Pc>, t: nat, path: Trail)
    requires t < |pcs| && Leads(path) && Inside(path[0].1)
    ensures var s, last := State(path[0].0, By(t), pcs[t := path[0].1]), path[|path| - 1];
            && Executes(s, Own(t, |path| - 1))
            && After(s, Own(t, |path| - 1))
               == State(last.0, if Unlocks(path[|path| - 2].1) then Nobody else By(t), pcs[t := last.1])
    decreases |path|
  {
    hide *;
    LeadsLength(path);
    FirstHop(path);
    StaysInside(path[0].0, pcs, t, path[0].1, path[1]);
    var s := State(path[0].0, By(t), pcs[t := path[0].1]);
    if |path| == 2 {
      NoneOwn(Next(s, Run(t)), t);
    } else {
      LeadsOn(path);
      FollowsInside(pcs, t, path[1..]);
    }
    OwnStep(s, t, |path| - 1);
  }

  lemma LeadsLength(path: Trail)
    requires Leads(path)
    ensures |path| >= 2
  {
  }

  lemma NoneOwn(s: State, t: nat)
    ensures Executes(s, Own(t, 0)) && After(s, Own(t, 0)) == s
  {
  }

  lemma OwnStep(s: State, t: nat, n: nat)
    requires n > 0 && Enabled(s, Run(t)) && Executes(Next(s, Run(t)), Own(t, n - 1))
    ensures Executes(s, Own(t, n)) && After(s, Own(t, n)) == After(Next(s, Run(t)), Own(t, n - 1))
  {
    hide Enabled, Next;
    assert Own(t, n)[0] == Run(t) && Own(t, n)[1..] == Own(t, n - 1);
  }

  lemma StaysInside(v: Vars, pcs: seq<Pc>, t: nat, from: Pc, to: Place)
    requires t < |pcs| && Inside(from) && !Signals(from) && !from.WuBroadcast? && Statement(v, from) == to
    ensures var s := State(v, By(t), pcs[t := from]);
            && Enabled(s, Run(t))
            && Next(s, Run(t)) == State(to.0, if Unlocks(from) then Nobody else By(t), pcs[t := to.1])
  {
    hide Statement, Next, Enabled;
    RunAlone(State(v, By(t), pcs[t := from]), t);
    assert pcs[t := from][t := to.1] == pcs[t := to.1];
    hide *;
  }

  lemma FirstHop(path: Trail)
    requires Leads(path)
    ensures Last(path[0], path[1]) && (|path| > 2 ==> !Unlocks(path[0].1) && Inside(path[1].1))
    ensures Statement(path[0].0, path[0].1) == path[1] && !Signals(path[0].1) && !path[0].1.WuBroadcast?
  {
    if |path| > 2 { assert Hop(path[0], path[1]); }
    hide Statement;
  }

  lemma LeadsOn(path: Trail)
    requires Leads(path) && |path| > 2
    ensures Leads(path[1..]) && path[1..][|path| - 2] == path[|path| - 1]
    ensures path[1..][|path| - 3] == path[|path| - 2]
  {
    hide Hop, Last;
    var rest := path[1..];
    assert |rest| == |path| - 1 && rest[|rest| - 2] == path[|path| - 2];
    forall i | 0 <= i < |rest| - 2 ensures Hop(rest[i], rest[i + 1]) {
      assert rest[i] == path[i + 1] && rest[i + 1] == path[i + 2];
    }
  }

  /** A woken thread that has to wait for the mutex only. */
  lemma WokenRuns(s: State, t: nat, path: Trail)
    requires t < |s.pc| && s.owner.Nobody? && NeedsMutex(s.pc[t])
    requires Leads(path) && path[0] == (s.vars, s.pc[t]) && |path| > 2
    ensures var steps, last := Own(t, |path| - 1), path[|path| - 1];
            Executes(s, steps) && After(s, steps)
            == State(last.0, if Unlocks(path[|path| - 2].1) then Nobody else By(t), s.pc[t := last.1])
  {
    var steps := Own(t, |path| - 1);
    FirstHop(path);
    RunAlone(s, t);
    hide Statement, Next, Enabled, Hop, Last;
    LeadsOn(path);
    FollowsInside(s.pc, t, path[1..]);
    assert steps[0] == Run(t) && steps[1..] == Own(t, |path| - 2);
  }

  /** A thread is about to make a call on a lock that is not destroyed, and nobody is inside it. */
  ghost predicate Ready(s: State, t: nat, call: Call) {
    t < |s.pc| && s.owner.Nobody? && s.vars.valid && MayCall(s.pc[t], call)
  }

  /** The call followed by `n` statements of its thread ends in `s'`. */
  ghost predicate EndsIn(s: State, t: nat, call: Call, n: nat, s': State) {
    Executes(s, [Make(t, call)] + Own(t, n)) && After(s, [Make(t, call)] + Own(t, n)) == s'
  }

  /** A call on a lock nobody is inside of. */
  lemma CallRuns(s: State, t: nat, call: Call, path: Trail)
    requires Ready(s, t, call) && Leads(path) && path[0] == (s.vars, Entry(call)) && |path| > 2
    ensures var last := path[|path| - 1];
            EndsIn(s, t, call, |path| - 1,
                   State(last.0, if Unlocks(path[|path| - 2].1) then Nobody else By(t), s.pc[t := last.1]))
  {
    hide Leads, Statement, Unlocks, NeedsMutex, Entry, Own;
    var own, last := Own(t, |path| - 1), path[|path| - 1];
    var s1 := s.(pc := s.pc[t := Entry(call)]);
    assert Enabled(s, Make(t, call)) && Next(s, Make(t, call)) == s1;
    EntryNeedsMutex(call);
    WokenRuns(s1, t, path);
    hide Next, Enabled;
    assert s1.pc[t := last.1] == s.pc[t := last.1];
    assert ([Make(t, call)] + own)[1..] == own;
  }

  lemma EntryNeedsMutex(call: Call)
    ensures NeedsMutex(Entry(call)) && !Unlocks(Entry(call))
  {
  }

  lemma CallThree(s: State, t: nat, call: Call, a: Place, b: Place, c: Place, d: Place)
    requires Ready(s, t, call) && a == (s.vars, Entry(call))
    requires Hop(a, b) && Hop(b, c) && Last(c, d)
    ensures EndsIn(s, t, call, 3, State(d.0, if Unlocks(c.1) then Nobody else By(t), s.pc[t := d.1]))
  {
    hide *;
    Chain([a, b, c, d]);
    CallRuns(s, t, call, [a, b, c, d]);
  }

  lemma WokenThree(s: State, t: nat, a: Place, b: Place, c: Place, d: Place)
    requires t < |s.pc| && s.owner.Nobody? && NeedsMutex(s.pc[t]) && a == (s.vars, s.pc[t])
    requires Hop(a, b) && Hop(b, c) && Last(c, d)
    ensures Executes(s, Own(t, 3))
    ensures After(s, Own(t, 3)) == State(d.0, if Unlocks(c.1) then Nobody else By(t), s.pc[t := d.1])
  {
    hide *;
    Chain([a, b, c, d]);
    WokenRuns(s, t, [a, b, c, d]);
  }

  lemma CallFour(s: State, t: nat, call: Call, a: Place, b: Place, c: Place, d: Place, e: Place)
    requires Ready(s, t, call) && a == (s.vars, Entry(call))
    requires Hop(a, b) && Hop(b, c) && Hop(c, d) && Last(d, e)
    ensures EndsIn(s, t, call, 4, State(e.0, if Unlocks(d.1) then Nobody else By(t), s.pc[t := e.1]))
  {
    hide *;
    Chain([a, b, c, d, e]);
    CallRuns(s, t, call, [a, b, c, d, e]);
  }

  lemma CallFive(s: State, t: nat, call: Call, a: Place, b: Place, c: Place, d: Place, e: Place, f: Place)
    requires Ready(s, t, call) && a == (s.vars, Entry(call))
    requires Hop(a, b) && Hop(b, c) && Hop(c, d) && Hop(d, e) && Last(e, f)
    ensures EndsIn(s, t, call, 5, State(f.0, if Unlocks(e.1) then Nobody else By(t), s.pc[t := f.1]))
  {
    hide *;
    Chain([a, b, c, d, e, f]);
    CallRuns(s, t, call, [a, b, c, d, e, f]);
  }

  lemma WokenFour(s: State, t: nat, a: Place, b: Place, c: Place, d: Place, e: Place)
    requires t < |s.pc| && s.owner.Nobody? && NeedsMutex(s.pc[t]) && a == (s.vars, s.pc[t])
    requires Hop(a, b) && Hop(b, c) && Hop(c, d) && Last(d, e)
    ensures Executes(s, Own(t, 4))
    ensures After(s, Own(t, 4)) == State(e.0, if Unlocks(d.1) then Nobody else By(t), s.pc[t := e.1])
  {
    hide *;
    Chain([a, b, c, d, e]);
    WokenRuns(s, t, [a, b, c, d, e]);
  }

  lemma WokenFive(s: State, t: nat, a: Place, b: Place, c: Place, d: Place, e: Place, f: Place)
    requires t < |s.pc| && s.owner.Nobody? && NeedsMutex(s.pc[t]) && a == (s.vars, s.pc[t])
    requires Hop(a, b) && Hop(b, c) && Hop(c, d) && Hop(d, e) && Last(e, f)
    ensures Executes(s, Own(t, 5))
    ensures After(s, Own(t, 5)) == State(f.0, if Unlocks(e.1) then Nobody else By(t), s.pc[t := f.1])
  {
    hide *;
    Chain([a, b, c, d, e, f]);
    WokenRuns(s, t, [a, b, c, d, e, f]);
  }

  lemma Chain(path: Trail)
    requires |path| >= 2 && (forall i :: 0 <= i < |path| - 2 ==> Hop(path[i], path[i + 1]))
    requires Last(path[|path| - 2], path[|path| - 1])
    ensures Leads(path)
  {
    hide Hop, Last;
  }

  // ----- the hops of each call -----

  lemma Entries()
    ensures Entry(ReadLock) == RdLock && Entry(TryReadLock) == TrLock && Entry(ReadUnlock) == RuLock
    ensures Entry(WriteLock) == WrLock && Entry(TryWriteLock) == TwLock && Entry(WriteUnlock) == WuLock
    ensures Entry(Destroy) == DsLock
    ensures NeedsMutex(RdWoken) && NeedsMutex(WrWoken)
    ensures NeedsMutex(RdLock) && NeedsMutex(TrLock) && NeedsMutex(WrLock) && NeedsMutex(TwLock)
  {
  }

  /** The last statements, and whether they give the mutex back. */
  lemma Exits()
    ensures Unlocks(RdDone) && Unlocks(TrDone(true)) && Unlocks(TrDone(false)) && Unlocks(RuDone) && Unlocks(RdWait)
    ensures Unlocks(WrDone) && Unlocks(TwDone(true)) && Unlocks(TwDone(false)) && Unlocks(WuDone) && Unlocks(WrWait)
    ensures Unlocks(DsDone) && !Unlocks(RuTest) && !Unlocks(WuTest)
  {
  }

  /** A statement from inside, or from the mutex_lock, that wakes no other thread is a hop unless it unlocks. */
  lemma HopBy(v: Vars, pc: Pc)
    requires (Inside(pc) || NeedsMutex(pc)) && !Signals(pc) && !pc.WuBroadcast?
    ensures Last((v, pc), Statement(v, pc)) && (!Unlocks(pc) ==> Hop((v, pc), Statement(v, pc)))
  {
    StatementStays(v, pc);
    hide Statement, Inside, NeedsMutex, Unlocks;
  }

  lemma ReadHops(v: Vars)
    ensures Hop((v, RdLock), (v, RdTest)) && Hop((v, RdWoken), (v, RdLoop))
    ensures v.wActive == 0 ==> Hop((v, RdTest), (v, RdTake)) && Hop((v, RdLoop), (v, RdLeave))
    ensures v.wActive != 0 ==> Hop((v, RdTest), (v, RdEnroll)) && Hop((v, RdLoop), (v, RdWait))
  {
    hide Hop, Last;
    HopBy(v, RdLock);
    HopBy(v, RdWoken);
    HopBy(v, RdTest);
    HopBy(v, RdLoop);
  }

  lemma ReadMoves(v: Vars)
    ensures Hop((v, RdEnroll), (v.(rWait := v.rWait + 1), RdLoop)) && Last((v, RdWait), (v, RdAsleep))
    ensures Hop((v, RdLeave), (v.(rWait := v.rWait - 1), RdTake))
    ensures Hop((v, RdTake), (v.(rActive := v.rActive + 1), RdDone)) && Last((v, RdDone), (v, HoldsRead))
  {
    hide Hop, Last;
    HopBy(v, RdEnroll);
    HopBy(v, RdWait);
    HopBy(v, RdLeave);
    HopBy(v, RdTake);
    HopBy(v, RdDone);
  }

  lemma TryReadHops(v: Vars)
    ensures Hop((v, TrLock), (v, TrTest)) && Hop((v, TrTake), (v.(rActive := v.rActive + 1), TrDone(true)))
    ensures Hop((v, TrTest), (v, if v.wActive == 0 then TrTake else TrDone(false)))
    ensures Last((v, TrDone(true)), (v, HoldsRead)) && Last((v, TrDone(false)), (v, Out))
  {
    hide Hop, Last;
    HopBy(v, TrLock);
    HopBy(v, TrTake);
    HopBy(v, TrTest);
    HopBy(v, TrDone(true));
    HopBy(v, TrDone(false));
  }

  lemma WriteHops(v: Vars)
    ensures Hop((v, WrLock), (v, WrTest)) && Hop((v, WrWoken), (v, WrLoop))
    ensures v.wActive == 0 && v.rActive <= 0 ==> Hop((v, WrTest), (v, WrTake)) && Hop((v, WrLoop), (v, WrLeave))
    ensures v.wActive != 0 || v.rActive > 0 ==> Hop((v, WrTest), (v, WrEnroll)) && Hop((v, WrLoop), (v, WrWait))
  {
    hide Hop, Last;
    HopBy(v, WrLock);
    HopBy(v, WrWoken);
    HopBy(v, WrTest);
    HopBy(v, WrLoop);
  }

  lemma WriteMoves(v: Vars)
    ensures Hop((v, WrLeave), (v.(wWait := v.wWait - 1), WrTake))
    ensures Hop((v, WrTake), (v.(wActive := 1), WrDone)) && Last((v, WrDone), (v, HoldsWrite))
  {
    hide Hop, Last;
    HopBy(v, WrLeave);
    HopBy(v, WrTake);
    HopBy(v, WrDone);
  }

  lemma WriteWaits(v: Vars)
    ensures Hop((v, WrEnroll), (v.(wWait := v.wWait + 1), WrLoop)) && Last((v, WrWait), (v, WrAsleep))
  {
    hide Hop, Last;
    HopBy(v, WrEnroll);
    HopBy(v, WrWait);
  }

  lemma TryWriteHops(v: Vars)
    ensures Hop((v, TwLock), (v, TwTest)) && Hop((v, TwTake), (v.(wActive := 1), TwDone(true)))
    ensures Hop((v, TwTest), (v, if v.wActive == 0 && v.rActive <= 0 then TwTake else TwDone(false)))
  {
    hide Hop, Last;
    HopBy(v, TwLock);
    HopBy(v, TwTake);
    HopBy(v, TwTest);
  }

  lemma TryWriteDone(v: Vars)
    ensures Last((v, TwDone(true)), (v, HoldsWrite)) && Last((v, TwDone(false)), (v, Out))
  {
    hide Hop, Last;
    HopBy(v, TwDone(true));
    HopBy(v, TwDone(false));
  }

  lemma ReadUnlockHops(v: Vars)
    ensures Hop((v, RuLock), (v, RuDrop)) && Hop((v, RuDrop), (v.(rActive := v.rActive - 1), RuTest))
    ensures Hop((v, RuTest), (v, if v.rActive == 0 && v.wWait > 0 then RuSignal else RuDone))
    ensures Last((v, RuTest), (v, if v.rActive == 0 && v.wWait > 0 then RuSignal else RuDone))
    ensures Last((v, RuDone), (v, Out))
  {
    hide Hop, Last;
    HopBy(v, RuLock);
    HopBy(v, RuDrop);
    HopBy(v, RuTest);
    HopBy(v, RuDone);
  }

  lemma WriteUnlockHops(v: Vars)
    ensures Hop((v, WuLock), (v, WuClear)) && Hop((v, WuClear), (v.(wActive := 0), WuTest))
  {
    hide Hop, Last;
    HopBy(v, WuLock);
    HopBy(v, WuClear);
  }

  lemma WriteUnlockTest(v: Vars)
    ensures var next := if v.rWait > 0 then WuBroadcast else if v.wWait > 0 then WuSignal else WuDone;
            Hop((v, WuTest), (v, next)) && Last((v, WuTest), (v, next))
    ensures Last((v, WuDone), (v, Out))
  {
    hide Hop, Last;
    HopBy(v, WuTest);
    HopBy(v, WuDone);
  }

  lemma DestroyHops(v: Vars)
    ensures Hop((v, DsLock), (v, DsHeld))
    ensures Hop((v, DsHeld), (v, if v.wActive != 0 || v.rActive > 0 then DsDone else DsAwaited))
  {
    hide Hop, Last;
    HopBy(v, DsLock);
    HopBy(v, DsHeld);
  }

  lemma DestroyMoves(v: Vars)
    ensures Hop((v, DsClear), (v.(valid := false), DsDone)) && Last((v, DsDone), (v, Out))
    ensures Hop((v, DsAwaited), (v, if v.rWait != 0 || v.wWait != 0 then DsDone else DsClear))
  {
    hide Hop, Last;
    HopBy(v, DsClear);
    HopBy(v, DsDone);
    HopBy(v, DsAwaited);
  }

  // ----- the outcomes -----

  lemma CallerIs(s: State, t: nat, call: Call)
    requires Ready(s, t, call)
    ensures t < |s.pc| && s.owner.Nobody? && !s.pc[t].WrAsleep?
    ensures !call.ReadUnlock? && !call.WriteUnlock? ==> s.pc[t].Out?
  {
  }

  lemma EndsIs(s: State, t: nat, call: Call, n: nat, s': State)
    requires EndsIn(s, t, call, n, s')
    ensures Executes(s, [Make(t, call)] + Own(t, n)) && After(s, [Make(t, call)] + Own(t, n)) == s'
  {
  }

  lemma WakingIs(t: nat, call: Call, wake: Step)
    ensures Waking(t, call, 3, wake) == [Make(t, call)] + Own(t, 3) + [wake, Run(t)]
  {
  }

  /** rwl_rdlock takes the lock whatever number of readers hold it, and goes to sleep just when a writer does. */
  lemma ReadLockEnds(s: State, t: nat)
    requires Ready(s, t, ReadLock)
    ensures var v := s.vars;
            if v.wActive == 0 then
              EndsIn(s, t, ReadLock, 4, State(v.(rActive := v.rActive + 1), Nobody, s.pc[t := HoldsRead]))
            else EndsIn(s, t, ReadLock, 5, State(v.(rWait := v.rWait + 1), Nobody, s.pc[t := RdAsleep]))
  {
    hide *;
    var v := s.vars;
    Entries();
    Exits();
    CallerIs(s, t, ReadLock);
    ReadHops(v);
    ReadMoves(v);
    if v.wActive == 0 {
      var w := v.(rActive := v.rActive + 1);
      ReadMoves(w);
      CallFour(s, t, ReadLock, (v, RdLock), (v, RdTest), (v, RdTake), (w, RdDone), (w, HoldsRead));
    } else {
      var w := v.(rWait := v.rWait + 1);
      ReadHops(w);
      ReadMoves(w);
      CallFive(s, t, ReadLock, (v, RdLock), (v, RdTest), (v, RdEnroll), (w, RdLoop), (w, RdWait), (w, RdAsleep));
    }
  }

  /** rwl_tryrdlock does the same, but gives up where that one sleeps, and leaves everything as it was. */
  lemma TryReadLockEnds(s: State, t: nat)
    requires Ready(s, t, TryReadLock)
    ensures var v := s.vars;
            if v.wActive == 0 then
              EndsIn(s, t, TryReadLock, 4, State(v.(rActive := v.rActive + 1), Nobody, s.pc[t := HoldsRead]))
            else EndsIn(s, t, TryReadLock, 3, s)
  {
    hide *;
    var v := s.vars;
    Entries();
    Exits();
    CallerIs(s, t, TryReadLock);
    TryReadHops(v);
    if v.wActive == 0 {
      var w := v.(rActive := v.rActive + 1);
      TryReadHops(w);
      CallFour(s, t, TryReadLock, (v, TrLock), (v, TrTest), (v, TrTake), (w, TrDone(true)), (w, HoldsRead));
    } else {
      CallThree(s, t, TryReadLock, (v, TrLock), (v, TrTest), (v, TrDone(false)), (v, Out));
      assert s.pc[t := Out] == s.pc;
    }
  }

  /** rwl_wrlock takes the lock just when nobody holds it, and else goes to sleep. */
  lemma WriteLockEnds(s: State, t: nat)
    requires Ready(s, t, WriteLock)
    ensures var v := s.vars;
            if v.wActive == 0 && v.rActive <= 0 then
              EndsIn(s, t, WriteLock, 4, State(v.(wActive := 1), Nobody, s.pc[t := HoldsWrite]))
            else EndsIn(s, t, WriteLock, 5, State(v.(wWait := v.wWait + 1), Nobody, s.pc[t := WrAsleep]))
  {
    hide *;
    var v := s.vars;
    Entries();
    Exits();
    CallerIs(s, t, WriteLock);
    WriteHops(v);
    WriteMoves(v);
    WriteWaits(v);
    if v.wActive == 0 && v.rActive <= 0 {
      var w := v.(wActive := 1);
      WriteMoves(w);
      CallFour(s, t, WriteLock, (v, WrLock), (v, WrTest), (v, WrTake), (w, WrDone), (w, HoldsWrite));
    } else {
      var w := v.(wWait := v.wWait + 1);
      WriteHops(w);
      WriteWaits(w);
      CallFive(s, t, WriteLock, (v, WrLock), (v, WrTest), (v, WrEnroll), (w, WrLoop), (w, WrWait), (w, WrAsleep));
    }
  }

  /** rwl_trywrlock likewise, but gives up. */
  lemma TryWriteLockEnds(s: State, t: nat)
    requires Ready(s, t, TryWriteLock)
    ensures var v := s.vars;
            if v.wActive == 0 && v.rActive <= 0 then
              EndsIn(s, t, TryWriteLock, 4, State(v.(wActive := 1), Nobody, s.pc[t := HoldsWrite]))
            else EndsIn(s, t, TryWriteLock, 3, s)
  {
    hide *;
    var v := s.vars;
    Entries();
    Exits();
    CallerIs(s, t, TryWriteLock);
    TryWriteHops(v);
    TryWriteDone(v);
    if v.wActive == 0 && v.rActive <= 0 {
      var w := v.(wActive := 1);
      TryWriteDone(w);
      CallFour(s, t, TryWriteLock, (v, TwLock), (v, TwTest), (v, TwTake), (w, TwDone(true)), (w, HoldsWrite));
    } else {
      CallThree(s, t, TryWriteLock, (v, TwLock), (v, TwTest), (v, TwDone(false)), (v, Out));
      assert s.pc[t := Out] == s.pc;
    }
  }

  /** A reader that is woken while a writer is active goes back to sleep, and so does a writer that finds the lock
      held; both still wait, and nothing else has changed. */
  lemma WokenInVain(s: State, t: nat)
    requires t < |s.pc| && s.owner.Nobody?
    requires (s.pc[t].RdWoken? && s.vars.wActive != 0)
             || (s.pc[t].WrWoken? && (s.vars.wActive != 0 || s.vars.rActive > 0))
    ensures Executes(s, Own(t, 3))
    ensures After(s, Own(t, 3)) == s.(pc := s.pc[t := if s.pc[t].RdWoken? then RdAsleep else WrAsleep])
  {
    hide *;
    var v := s.vars;
    Entries();
    Exits();
    ReadHops(v);
    ReadMoves(v);
    WriteHops(v);
    WriteMoves(v);
    WriteWaits(v);
    if s.pc[t].RdWoken? {
      WokenThree(s, t, (v, RdWoken), (v, RdLoop), (v, RdWait), (v, RdAsleep));
    } else {
      WokenThree(s, t, (v, WrWoken), (v, WrLoop), (v, WrWait), (v, WrAsleep));
    }
  }

  /** So a wakeup for no reason changes nothing: a sleeper that cannot have the lock is asleep again after its own
      next three statements, and all is as it was. */
  lemma SpuriousChangesNothing(s: State, t: nat)
    requires t < |s.pc| && s.owner.Nobody?
    requires (s.pc[t].RdAsleep? && s.vars.wActive != 0)
             || (s.pc[t].WrAsleep? && (s.vars.wActive != 0 || s.vars.rActive > 0))
    ensures var steps := [Spurious(t)] + Own(t, 3); Executes(s, steps) && After(s, steps) == s
  {
    var s1 := s.(pc := s.pc[t := if s.pc[t].RdAsleep? then RdWoken else WrWoken]);
    assert Enabled(s, Spurious(t)) && Next(s, Spurious(t)) == s1;
    hide Enabled, Next, Own;
    WokenInVain(s1, t);
    assert s1.pc[t := s.pc[t]] == s.pc;
    assert ([Spurious(t)] + Own(t, 3))[1..] == Own(t, 3);
  }

  /** Otherwise it takes the lock and no longer waits. */
  lemma WokenReaderTakes(s: State, t: nat)
    requires t < |s.pc| && s.owner.Nobody? && s.pc[t].RdWoken? && s.vars.wActive == 0
    ensures var v := s.vars;
            Executes(s, Own(t, 5))
            && After(s, Own(t, 5))
               == State(v.(rWait := v.rWait - 1, rActive := v.rActive + 1), Nobody, s.pc[t := HoldsRead])
  {
    hide *;
    var v := s.vars;
    Entries();
    Exits();
    ReadHops(v);
    ReadMoves(v);
    var w := v.(rWait := v.rWait - 1);
    ReadMoves(w);
    var x := w.(rActive := w.rActive + 1);
    ReadMoves(x);
    WokenFive(s, t, (v, RdWoken), (v, RdLoop), (v, RdLeave), (w, RdTake), (x, RdDone), (x, HoldsRead));
  }

  lemma WokenWriterTakes(s: State, t: nat)
    requires t < |s.pc| && s.owner.Nobody? && s.pc[t].WrWoken? && s.vars.wActive == 0 && s.vars.rActive <= 0
    ensures var v := s.vars;
            Executes(s, Own(t, 5))
            && After(s, Own(t, 5))
               == State(v.(wWait := v.wWait - 1, wActive := 1), Nobody, s.pc[t := HoldsWrite])
  {
    hide *;
    var v := s.vars;
    Entries();
    Exits();
    WriteHops(v);
    WriteMoves(v);
    WriteWaits(v);
    var w := v.(wWait := v.wWait - 1);
    WriteMoves(w);
    var x := w.(wActive := 1);
    WriteMoves(x);
    WokenFive(s, t, (v, WrWoken), (v, WrLoop), (v, WrLeave), (w, WrTake), (x, WrDone), (x, HoldsWrite));
  }

  // ----- the calls that end a hold, and the last one -----

  /** No writer is asleep. */
  ghost predicate NoneToSignal(pcs: seq<Pc>) {
    forall i :: 0 <= i < |pcs| ==> !pcs[i].WrAsleep?
  }

  /** A call with one more step `wake` of its thread and its last statement. */
  ghost function Waking(t: nat, call: Call, n: nat, wake: Step): seq<Step> {
    [Make(t, call)] + Own(t, n) + [wake, Run(t)]
  }

  /** rwl_rdunlock gives up one reader's hold; it goes no further while readers are left or no writer waits. */
  lemma ReadUnlockEnds(s: State, t: nat)
    requires Ready(s, t, ReadUnlock) && (s.vars.rActive != 1 || s.vars.wWait <= 0)
    ensures var v := s.vars;
            EndsIn(s, t, ReadUnlock, 4, State(v.(rActive := v.rActive - 1), Nobody, s.pc[t := Out]))
  {
    hide *;
    var v := s.vars;
    Entries();
    Exits();
    CallerIs(s, t, ReadUnlock);
    var w := v.(rActive := v.rActive - 1);
    ReadUnlockHops(v);
    ReadUnlockHops(w);
    CallFour(s, t, ReadUnlock, (v, RuLock), (v, RuDrop), (w, RuTest), (w, RuDone), (w, Out));
  }

  /** The last reader with writers waiting signals: any one writer that sleeps wakes up, and if none does the
      signal is lost. */
  lemma LastReadUnlockSignals(s: State, t: nat, i: nat)
    requires Ready(s, t, ReadUnlock) && s.vars.rActive == 1 && s.vars.wWait > 0
    requires i < |s.pc| && i != t
    ensures var v := s.vars.(rActive := 0);
            && (s.pc[i].WrAsleep? ==>
                 Executes(s, Waking(t, ReadUnlock, 3, Signal(t, i)))
                 && After(s, Waking(t, ReadUnlock, 3, Signal(t, i))) == State(v, Nobody, s.pc[t := Out][i := WrWoken]))
            && (NoneToSignal(s.pc) ==>
                 Executes(s, Waking(t, ReadUnlock, 3, Run(t)))
                 && After(s, Waking(t, ReadUnlock, 3, Run(t))) == State(v, Nobody, s.pc[t := Out]))
  {
    hide *;
    var v := s.vars;
    Entries();
    Exits();
    CallerIs(s, t, ReadUnlock);
    var w := v.(rActive := 0);
    ReadUnlockHops(v);
    ReadUnlockHops(w);
    CallThree(s, t, ReadUnlock, (v, RuLock), (v, RuDrop), (w, RuTest), (w, RuSignal));
    SignalEnds(w, s.pc, t, i, RuSignal, RuDone);
    EndsIs(s, t, ReadUnlock, 3, State(w, By(t), s.pc[t := RuSignal]));
    if s.pc[i].WrAsleep? {
      TwoMore(s, [Make(t, ReadUnlock)] + Own(t, 3), Signal(t, i), Run(t));
      WakingIs(t, ReadUnlock, Signal(t, i));
    }
    if NoneToSignal(s.pc) {
      TwoMore(s, [Make(t, ReadUnlock)] + Own(t, 3), Run(t), Run(t));
      WakingIs(t, ReadUnlock, Run(t));
    }
  }

  /** The two steps after a test that found a writer to signal. */
  lemma SignalEnds(v: Vars, pcs: seq<Pc>, t: nat, i: nat, signal: Pc, done: Pc)
    requires t < |pcs| && i < |pcs| && i != t && !pcs[t].WrAsleep?
    requires (signal == RuSignal && done == RuDone) || (signal == WuSignal && done == WuDone)
    ensures var s := State(v, By(t), pcs[t := signal]);
            && (pcs[i].WrAsleep? ==>
                 Executes(s, [Signal(t, i), Run(t)])
                 && After(s, [Signal(t, i), Run(t)]) == State(v, Nobody, pcs[t := Out][i := WrWoken]))
            && (NoneToSignal(pcs) ==>
                 Executes(s, [Run(t), Run(t)]) && After(s, [Run(t), Run(t)]) == State(v, Nobody, pcs[t := Out]))
  {
    var s := State(v, By(t), pcs[t := signal]);
    assert Statement(v, signal) == (v, done) && Statement(v, done) == (v, Out);
    hide Statement;
    if pcs[i].WrAsleep? {
      var s1 := State(v, By(t), pcs[t := done][i := WrWoken]);
      assert pcs[t := signal][i := WrWoken][t := done] == pcs[t := done][i := WrWoken];
      assert Enabled(s, Signal(t, i)) && Next(s, Signal(t, i)) == s1;
      RunAlone(s1, t);
      assert pcs[t := done][i := WrWoken][t := Out] == pcs[t := Out][i := WrWoken];
      TwoSteps(s, Signal(t, i), Run(t));
    }
    if NoneToSignal(pcs) {
      var s1 := State(v, By(t), pcs[t := done]);
      assert pcs[t := signal][t := done] == pcs[t := done];
      assert Enabled(s, Run(t)) && Next(s, Run(t)) == s1;
      RunAlone(s1, t);
      assert pcs[t := done][t := Out] == pcs[t := Out];
      TwoSteps(s, Run(t), Run(t));
    }
  }

  lemma TwoSteps(s: State, a: Step, b: Step)
    requires Enabled(s, a) && Enabled(Next(s, a), b)
    ensures Executes(s, [a, b]) && After(s, [a, b]) == Next(Next(s, a), b)
  {
    hide Enabled, Next;
    var s1, s2 := Next(s, a), Next(Next(s, a), b);
    assert [a, b][1..] == [b] && [b][1..] == [];
    assert Executes(s2, []) && After(s2, []) == s2;
    assert Executes(s1, [b]) && After(s1, [b]) == s2;
  }

  lemma {:induction false} RunsOn(s: State, steps: seq<Step>, more: seq<Step>)
    requires Executes(s, steps) && Executes(After(s, steps), more)
    ensures Executes(s, steps + more) && After(s, steps + more) == After(After(s, steps), more)
    decreases |steps|
  {
    hide Enabled, Next;
    if steps == [] {
      assert steps + more == more;
    } else {
      assert (steps + more)[1..] == steps[1..] + more;
      RunsOn(Next(s, steps[0]), steps[1..], more);
    }
  }

  lemma TwoMore(s: State, steps: seq<Step>, a: Step, b: Step)
    requires Executes(s, steps) && Executes(After(s, steps), [a, b])
    ensures Executes(s, steps + [a, b]) && After(s, steps + [a, b]) == After(After(s, steps), [a, b])
  {
    RunsOn(s, steps, [a, b]);
  }

  /** rwl_wrunlock wakes every reader that sleeps, if readers wait. */
  lemma WriteUnlockWakesReaders(s: State, t: nat)
    requires Ready(s, t, WriteUnlock) && s.vars.rWait > 0
    ensures var steps := Waking(t, WriteUnlock, 3, Run(t));
            && Executes(s, steps)
            && After(s, steps) == State(s.vars.(wActive := 0), Nobody, Roused(s.pc)[t := Out])
  {
    hide *;
    var v := s.vars;
    Entries();
    Exits();
    CallerIs(s, t, WriteUnlock);
    var w := v.(wActive := 0);
    WriteUnlockHops(v);
    WriteUnlockTest(w);
    CallThree(s, t, WriteUnlock, (v, WuLock), (v, WuClear), (w, WuTest), (w, WuBroadcast));
    BroadcastEnds(w, s.pc, t);
    EndsIs(s, t, WriteUnlock, 3, State(w, By(t), s.pc[t := WuBroadcast]));
    TwoMore(s, [Make(t, WriteUnlock)] + Own(t, 3), Run(t), Run(t));
    WakingIs(t, WriteUnlock, Run(t));
  }

  lemma BroadcastEnds(v: Vars, pcs: seq<Pc>, t: nat)
    requires t < |pcs|
    ensures var s := State(v, By(t), pcs[t := WuBroadcast]);
            && Executes(s, [Run(t), Run(t)])
            && After(s, [Run(t), Run(t)]) == State(v, Nobody, Roused(pcs)[t := Out])
  {
    var s := State(v, By(t), pcs[t := WuBroadcast]);
    var s1 := State(v, By(t), Roused(pcs)[t := WuDone]);
    assert Statement(v, WuBroadcast) == (v, WuDone) && Statement(v, WuDone) == (v, Out);
    hide Statement;
    assert Roused(pcs[t := WuBroadcast])[t := WuDone] == Roused(pcs)[t := WuDone];
    assert Enabled(s, Run(t)) && Next(s, Run(t)) == s1;
    RunAlone(s1, t);
    assert Roused(pcs)[t := WuDone][t := Out] == Roused(pcs)[t := Out];
    TwoSteps(s, Run(t), Run(t));
  }

  /** Else it signals one writer, if writers wait. */
  lemma WriteUnlockSignals(s: State, t: nat, i: nat)
    requires Ready(s, t, WriteUnlock) && s.vars.rWait <= 0 && s.vars.wWait > 0
    requires i < |s.pc| && i != t
    ensures var v := s.vars.(wActive := 0);
            && (s.pc[i].WrAsleep? ==>
                 Executes(s, Waking(t, WriteUnlock, 3, Signal(t, i)))
                 && After(s, Waking(t, WriteUnlock, 3, Signal(t, i))) == State(v, Nobody, s.pc[t := Out][i := WrWoken]))
            && (NoneToSignal(s.pc) ==>
                 Executes(s, Waking(t, WriteUnlock, 3, Run(t)))
                 && After(s, Waking(t, WriteUnlock, 3, Run(t))) == State(v, Nobody, s.pc[t := Out]))
  {
    hide *;
    var v := s.vars;
    Entries();
    Exits();
    CallerIs(s, t, WriteUnlock);
    var w := v.(wActive := 0);
    WriteUnlockHops(v);
    WriteUnlockTest(w);
    CallThree(s, t, WriteUnlock, (v, WuLock), (v, WuClear), (w, WuTest), (w, WuSignal));
    SignalEnds(w, s.pc, t, i, WuSignal, WuDone);
    EndsIs(s, t, WriteUnlock, 3, State(w, By(t), s.pc[t := WuSignal]));
    if s.pc[i].WrAsleep? {
      TwoMore(s, [Make(t, WriteUnlock)] + Own(t, 3), Signal(t, i), Run(t));
      WakingIs(t, WriteUnlock, Signal(t, i));
    }
    if NoneToSignal(s.pc) {
      TwoMore(s, [Make(t, WriteUnlock)] + Own(t, 3), Run(t), Run(t));
      WakingIs(t, WriteUnlock, Run(t));
    }
  }

  /** And with nobody waiting it wakes nobody. */
  lemma WriteUnlockEnds(s: State, t: nat)
    requires Ready(s, t, WriteUnlock) && s.vars.rWait <= 0 && s.vars.wWait <= 0
    ensures EndsIn(s, t, WriteUnlock, 4, State(s.vars.(wActive := 0), Nobody, s.pc[t := Out]))
  {
    hide *;
    var v := s.vars;
    Entries();
    Exits();
    CallerIs(s, t, WriteUnlock);
    var w := v.(wActive := 0);
    WriteUnlockHops(v);
    WriteUnlockTest(w);
    CallFour(s, t, WriteUnlock, (v, WuLock), (v, WuClear), (w, WuTest), (w, WuDone), (w, Out));
  }

  /** rwl_destroy clears the flag just when nobody holds the lock and nobody waits, and else changes nothing. */
  lemma DestroyEnds(s: State, t: nat)
    requires Ready(s, t, Destroy)
    ensures var v := s.vars;
            if v.wActive != 0 || v.rActive > 0 then EndsIn(s, t, Destroy, 3, s)
            else if v.rWait != 0 || v.wWait != 0 then EndsIn(s, t, Destroy, 4, s)
            else EndsIn(s, t, Destroy, 5, State(v.(valid := false), Nobody, s.pc[t := Out]))
  {
    hide *;
    var v := s.vars;
    Entries();
    Exits();
    CallerIs(s, t, Destroy);
    DestroyHops(v);
    DestroyMoves(v);
    assert s.pc[t := Out] == s.pc;
    if v.wActive != 0 || v.rActive > 0 {
      CallThree(s, t, Destroy, (v, DsLock), (v, DsHeld), (v, DsDone), (v, Out));
    } else if v.rWait != 0 || v.wWait != 0 {
      CallFour(s, t, Destroy, (v, DsLock), (v, DsHeld), (v, DsAwaited), (v, DsDone), (v, Out));
    } else {
      var w := v.(valid := false);
      DestroyMoves(w);
      CallFive(s, t, Destroy, (v, DsLock), (v, DsHeld), (v, DsAwaited), (v, DsClear), (w, DsDone), (w, Out));
    }
  }

  /** No call gets into a lock that was destroyed. */
  lemma NoCallAfterDestroy(s: State, t: nat, call: Call)
    requires t < |s.pc| && MayCall(s.pc[t], call) && !s.vars.valid
    ensures Enabled(s, Make(t, call)) && Next(s, Make(t, call)) == s
  {
  }
}
