/**
  The worker handshake of src/benchmarks/benchmark_worker.cpp, driven for any
  number of workers by the loops of src/benchmarks/pmembench.cpp, as a step
  system over all interleavings.

  Each worker has a mutex, a condition variable and a state.  States are
  numbered as in the enumeration: IDLE 0, INIT 1, INITIALIZED 2, RUN 3, END 4,
  EXIT 5, DONE 6.  The worker thread goes through three rounds k = 0, 1, 2: wait
  while the state is 2k, check that it is 2k + 1, call (init, func, exit), check
  again and set 2k + 2.  Waiting releases the mutex; a waiter may also wake up
  without being signalled.
*/
module WorkerHandshake {

  datatype Owner = Nobody | ByMain | ByWorker

  datatype WorkerPc =
    | NotStarted
    | Locking            // about to lock the mutex
    | Testing(k: nat)    // holds the mutex, at the head of wait loop k
    | Sleeping(k: nat)   // blocked on the condition variable
    | Woken(k: nat)      // unblocked, about to lock the mutex again
    | Calling(k: nat)    // holds the mutex, about to run the callback
    | Posting(k: nat)    // holds the mutex, about to advance the state
    | Unlocking
    | Finished

  datatype Callback = InitCall | FuncCall | ExitCall

  datatype Worker = Worker(state: nat, lock: Owner, pc: WorkerPc, log: seq<Callback>)

  datatype Op = Init | Run | Join | Exit

  datatype Sub = Lock | Advance | Test | Sleep | Wake | Unlock

  datatype MainPc =
    | Alloc(j: nat)                  // create worker j
    | At(op: Op, j: nat, sub: Sub)   // inside an operation on worker j
    | Results                        // results_store
    | Reap(j: nat)                   // join the thread of worker j
    | Done

  /** `failed` is set when an assert of the source fails. */
  datatype Sys = Sys(main: MainPc, ws: seq<Worker>, failed: bool)

  /** The benchmark's optional callbacks. */
  datatype Config = Config(n: nat, hasInit: bool, hasExit: bool)

  datatype Actor = Main | Thread(i: nat) | SpuriousMain | Spurious(i: nat)

  function Start(c: Config): Sys {
    Sys(if c.n == 0 then Results else Alloc(0), seq(c.n, _ => Worker(0, Nobody, NotStarted, [])), false)
  }

  // ----- steps

  /** The callback of round k, if the benchmark has one. */
  function CallOf(c: Config, k: nat): seq<Callback> {
    if k == 0 then (if c.hasInit then [InitCall] else [])
    else if k == 1 then [FuncCall]
    else if c.hasExit then [ExitCall] else []
  }

  /** The worker's side of a signal. */
  function WakeWorker(w: Worker): Worker {
    if w.pc.Sleeping? then w.(pc := Woken(w.pc.k)) else w
  }

  /** The main thread's side of a signal on worker i's condition variable. */
  function WakeMain(m: MainPc, i: nat): MainPc {
    if m.At? && m.j == i && m.sub == Sleep then m.(sub := Wake) else m
  }

  predicate WorkerEnabled(w: Worker) {
    match w.pc
    case Locking => w.lock == Nobody
    case Woken(_) => w.lock == Nobody
    case Testing(_) => true
    case Calling(_) => true
    case Posting(_) => true
    case Unlocking => true
    case _ => false
  }

  /** One step of a worker thread; whether it signals, and whether an assert fails. */
  function WorkerStep(c: Config, w: Worker): (Worker, bool, bool) {
    match w.pc
    case Locking => (w.(lock := ByWorker, pc := Testing(0)), false, false)
    case Woken(k) => (w.(lock := ByWorker, pc := Testing(k)), false, false)
    case Testing(k) =>
      if w.state == 2 * k then (w.(lock := Nobody, pc := Sleeping(k)), false, false)
      else (w.(pc := Calling(k)), false, w.state != 2 * k + 1)
    case Calling(k) => (w.(log := w.log + CallOf(c, k), pc := Posting(k)), false, false)
    case Posting(k) =>
      (w.(state := 2 * k + 2, pc := if k < 2 then Testing(k + 1) else Unlocking), true, w.state != 2 * k + 1)
    case Unlocking => (w.(lock := Nobody, pc := Finished), false, false)
    case _ => (w, false, false)
  }

  /** The state an operation advances from. */
  function From(op: Op): nat {
    match op
    case Init => 0
    case Run => 2
    case Join => 2
    case Exit => 4
  }

  /** The state an operation waits to be left. */
  function Awaits(op: Op): nat { From(op) + 1 }

  /** Where the main thread goes after it unlocked worker j's mutex. */
  function AfterOp(c: Config, op: Op, j: nat): MainPc {
    match op
    case Init => if j + 1 < c.n then Alloc(j + 1) else At(Run, 0, Lock)
    case Run => if j + 1 < c.n then At(Run, j + 1, Lock) else At(Join, 0, Lock)
    case Join => if j + 1 < c.n then At(Join, j + 1, Lock) else Results
    case Exit => Reap(j)
  }

  predicate MainEnabled(s: Sys) {
    match s.main
    case Alloc(j) => j < |s.ws|
    case At(_, j, sub) =>
      j < |s.ws| && sub != Sleep && (sub == Lock || sub == Wake ==> s.ws[j].lock == Nobody)
    case Results => true
    case Reap(j) => j < |s.ws| && s.ws[j].pc == Finished
    case Done => false
  }

  /** One step of the main thread. */
  function MainStep(c: Config, s: Sys): Sys
    requires MainEnabled(s)
  {
    match s.main
    case Alloc(j) => s.(main := At(Init, j, Lock), ws := s.ws[j := s.ws[j].(pc := Locking)])
    case At(op, j, sub) =>
      var w := s.ws[j];
      (match sub
       case Lock => s.(main := At(op, j, if op == Join then Test else Advance), ws := s.ws[j := w.(lock := ByMain)])
       case Wake => s.(main := At(op, j, Test), ws := s.ws[j := w.(lock := ByMain)])
       case Advance =>
         Sys(At(op, j, if op == Run then Unlock else Test), s.ws[j := WakeWorker(w.(state := From(op) + 1))],
             s.failed || w.state != From(op))
       case Test =>
         if w.state == Awaits(op) then s.(main := At(op, j, Sleep), ws := s.ws[j := w.(lock := Nobody)])
         else s.(main := At(op, j, Unlock), failed := s.failed || w.state != Awaits(op) + 1)
       case Unlock => s.(main := AfterOp(c, op, j), ws := s.ws[j := w.(lock := Nobody)])
       case Sleep => s)
    case Results => s.(main := if c.n == 0 then Done else At(Exit, 0, Lock))
    case Reap(j) => s.(main := if j + 1 < c.n then At(Exit, j + 1, Lock) else Done)
    case Done => s
  }

  predicate Enabled(s: Sys, a: Actor) {
    match a
    case Main => MainEnabled(s)
    case Thread(i) => i < |s.ws| && WorkerEnabled(s.ws[i])
    case SpuriousMain => s.main.At? && s.main.sub == Sleep
    case Spurious(i) => i < |s.ws| && s.ws[i].pc.Sleeping?
  }

  function Step(c: Config, s: Sys, a: Actor): Sys
    requires Enabled(s, a)
  {
    match a
    case Main => MainStep(c, s)
    case Thread(i) =>
      var (w, signals, bad) := WorkerStep(c, s.ws[i]);
      Sys(if signals then WakeMain(s.main, i) else s.main, s.ws[i := w], s.failed || bad)
    case SpuriousMain => s.(main := s.main.(sub := Wake))
    case Spurious(i) => s.(ws := s.ws[i := WakeWorker(s.ws[i])])
  }

  // ----- the invariant

  /** The least and greatest state worker i can be in, as the main thread has progressed. */
  function Bounds(m: MainPc, i: nat): (nat, nat) {
    match m
    case Alloc(j) => if i < j then (2, 2) else (0, 0)
    case Results => (4, 4)
    case Reap(j) => if i <= j then (6, 6) else (4, 4)
    case Done => (6, 6)
    case At(op, j, sub) =>
      if i < j then (match op case Init => (2, 2) case Run => (3, 4) case Join => (4, 4) case Exit => (6, 6))
      else if i > j then (match op case Init => (0, 0) case Run => (2, 2) case Join => (3, 4) case Exit => (4, 4))
      else
        match sub
        case Lock => if op == Join then (3, 4) else (From(op), From(op))
        case Advance => (From(op), From(op))
        case Test => (From(op) + 1, From(op) + 2)
        case Wake => (From(op) + 1, From(op) + 2)
        case Sleep => (From(op) + 1, From(op) + 1)
        case Unlock => if op == Run then (3, 3) else (From(op) + 2, From(op) + 2)
  }

  /** How a worker's state and position go together; a sleeper's wait condition still holds, so no wakeup is lost. */
  predicate Local(w: Worker) {
    match w.pc
    case NotStarted => w.state == 0
    case Locking => w.state <= 1
    case Testing(k) => k <= 2 && 2 * k <= w.state <= 2 * k + 1
    case Woken(k) => k <= 2 && 2 * k <= w.state <= 2 * k + 1
    case Sleeping(k) => k <= 2 && w.state == 2 * k
    case Calling(k) => k <= 2 && w.state == 2 * k + 1
    case Posting(k) => k <= 2 && w.state == 2 * k + 1
    case Unlocking => w.state == 6
    case Finished => w.state == 6
  }

  predicate WorkerHolds(pc: WorkerPc) {
    pc.Testing? || pc.Calling? || pc.Posting? || pc.Unlocking?
  }

  predicate MainHolds(m: MainPc, i: nat) {
    m.At? && m.j == i && (m.sub == Advance || m.sub == Test || m.sub == Unlock)
  }

  /** The rounds a worker has called back in. */
  function RoundsCalled(pc: WorkerPc): nat {
    match pc
    case Testing(k) => k
    case Sleeping(k) => k
    case Woken(k) => k
    case Calling(k) => k
    case Posting(k) => k + 1
    case Unlocking => 3
    case Finished => 3
    case _ => 0
  }

  /** Init, func and exit, each once and in this order, up to the given round. */
  function CallsUpTo(c: Config, r: nat): seq<Callback> {
    if r == 0 then [] else CallsUpTo(c, r - 1) + CallOf(c, r - 1)
  }

  predicate Started(m: MainPc, i: nat) {
    match m
    case Alloc(j) => i < j
    case At(Init, j, _) => i <= j
    case _ => true
  }

  /** Workers whose thread has been joined. */
  predicate Reaped(m: MainPc, i: nat) {
    match m
    case At(Exit, j, _) => i < j
    case Reap(j) => i < j
    case Done => true
    case _ => false
  }

  ghost predicate WorkerInv(c: Config, m: MainPc, i: nat, w: Worker) {
    && Bounds(m, i).0 <= w.state <= Bounds(m, i).1
    && Local(w)
    && w.lock == (if WorkerHolds(w.pc) then ByWorker else if MainHolds(m, i) then ByMain else Nobody)
    && !(WorkerHolds(w.pc) && MainHolds(m, i))
    && (Started(m, i) <==> w.pc != NotStarted)
    && (Reaped(m, i) ==> w.pc == Finished)
    && w.log == CallsUpTo(c, RoundsCalled(w.pc))
  }

  predicate MainOk(c: Config, m: MainPc) {
    match m
    case Alloc(j) => j < c.n
    case At(op, j, sub) =>
      && j < c.n
      && (op == Join ==> sub != Advance)
      && (op == Run ==> sub != Test && sub != Sleep && sub != Wake)
    case Reap(j) => j < c.n
    case Results => true
    case Done => true
  }

  ghost predicate Inv(c: Config, s: Sys) {
    && !s.failed && |s.ws| == c.n && MainOk(c, s.main)
    && forall i :: 0 <= i < c.n ==> WorkerInv(c, s.main, i, s.ws[i])
  }

  lemma StartInv(c: Config)
    ensures Inv(c, Start(c))
  {
  }

  lemma PostingKeeps(c: Config, m: MainPc, i: nat, w: Worker)
    requires WorkerInv(c, m, i, w) && w.pc.Posting? && MainOk(c, m)
    ensures var (w', signals, bad) := WorkerStep(c, w);
            signals && !bad && WorkerInv(c, WakeMain(m, i), i, w')
  {
    var k := w.pc.k;
    assert w.state == 2 * k + 1 && !MainHolds(m, i);
    // the main thread expects the next state from this worker, or is waiting for it
    assert Bounds(m, i).1 == 2 * k + 2 || (m.At? && m.j == i && m.sub == Sleep);
    assert Bounds(WakeMain(m, i), i).0 <= 2 * k + 2 <= Bounds(WakeMain(m, i), i).1;
  }

  /** A worker's own step, with the wakeup of the main thread it may cause. */
  lemma WorkerKeepsInv(c: Config, m: MainPc, i: nat, w: Worker)
    requires WorkerInv(c, m, i, w) && WorkerEnabled(w) && MainOk(c, m)
    ensures var (w', signals, bad) := WorkerStep(c, w);
            !bad && WorkerInv(c, if signals then WakeMain(m, i) else m, i, w')
  {
    match w.pc
    case Locking =>
    case Woken(k) =>
    case Testing(k) =>
    case Calling(k) =>
    case Posting(k) => PostingKeeps(c, m, i, w);
    case Unlocking =>
  }

  /** Waking the main thread at worker i does not concern the other workers. */
  lemma WakeMainElsewhere(c: Config, m: MainPc, i: nat, j: nat, w: Worker)
    requires WorkerInv(c, m, j, w) && i != j
    ensures WorkerInv(c, WakeMain(m, i), j, w)
  {
  }

  lemma ThreadKeepsInv(c: Config, s: Sys, i: nat)
    requires Inv(c, s) && Enabled(s, Thread(i))
    ensures Inv(c, Step(c, s, Thread(i)))
  {
    var t := Step(c, s, Thread(i));
    WorkerKeepsInv(c, s.main, i, s.ws[i]);
    forall j | 0 <= j < c.n && j != i ensures WorkerInv(c, t.main, j, t.ws[j]) {
      WakeMainElsewhere(c, s.main, i, j, s.ws[j]);
    }
  }

  // The main thread's step on the worker it is at, one lemma for each kind of step.

  lemma LockKeeps(c: Config, op: Op, j: nat, w: Worker)
    requires WorkerInv(c, At(op, j, Lock), j, w) && w.lock == Nobody
    ensures WorkerInv(c, At(op, j, if op == Join then Test else Advance), j, w.(lock := ByMain))
  {
  }

  lemma RelockKeeps(c: Config, op: Op, j: nat, w: Worker)
    requires WorkerInv(c, At(op, j, Wake), j, w) && w.lock == Nobody
    ensures WorkerInv(c, At(op, j, Test), j, w.(lock := ByMain))
  {
  }

  lemma AdvanceKeeps(c: Config, op: Op, j: nat, w: Worker)
    requires WorkerInv(c, At(op, j, Advance), j, w) && op != Join
    ensures w.state == From(op)
    ensures WorkerInv(c, At(op, j, if op == Run then Unlock else Test), j, WakeWorker(w.(state := From(op) + 1)))
  {
  }

  lemma TestKeeps(c: Config, op: Op, j: nat, w: Worker)
    requires WorkerInv(c, At(op, j, Test), j, w) && op != Run
    ensures w.state == Awaits(op) ==> WorkerInv(c, At(op, j, Sleep), j, w.(lock := Nobody))
    ensures w.state != Awaits(op) ==> w.state == Awaits(op) + 1 && WorkerInv(c, At(op, j, Unlock), j, w)
  {
  }

  lemma UnlockKeeps(c: Config, op: Op, j: nat, w: Worker)
    requires WorkerInv(c, At(op, j, Unlock), j, w) && j < c.n
    ensures WorkerInv(c, AfterOp(c, op, j), j, w.(lock := Nobody))
  {
  }

  lemma MainKeepsSelf(c: Config, s: Sys)
    requires MainOk(c, s.main) && |s.ws| == c.n && MainEnabled(s) && !s.failed
    requires s.main.At? || s.main.Alloc? || s.main.Reap?
    requires WorkerInv(c, s.main, s.main.j, s.ws[s.main.j])
    ensures var t := MainStep(c, s);
            !t.failed && WorkerInv(c, t.main, s.main.j, t.ws[s.main.j])
  {
    match s.main
    case Alloc(j) =>
    case Reap(j) =>
    case At(op, j, sub) =>
      var w := s.ws[j];
      match sub
      case Lock => LockKeeps(c, op, j, w);
      case Wake => RelockKeeps(c, op, j, w);
      case Advance => AdvanceKeeps(c, op, j, w);
      case Test => TestKeeps(c, op, j, w);
      case Unlock => UnlockKeeps(c, op, j, w);
  }

  /** The main thread's positions `m` and `m'` mean the same to worker i. */
  predicate SameView(m: MainPc, m': MainPc, i: nat) {
    && Bounds(m, i) == Bounds(m', i) && MainHolds(m, i) == MainHolds(m', i)
    && Started(m, i) == Started(m', i) && Reaped(m, i) == Reaped(m', i)
  }

  lemma MainStepElsewhere(c: Config, s: Sys, i: nat)
    requires MainOk(c, s.main) && |s.ws| == c.n && MainEnabled(s) && i < c.n
    requires s.main.At? || s.main.Alloc? || s.main.Reap? ==> i != s.main.j
    ensures var t := MainStep(c, s);
            t.ws[i] == s.ws[i] && SameView(s.main, t.main, i)
  {
    match s.main
    case Alloc(j) =>
    case Reap(j) =>
    case Results =>
    case At(op, j, sub) =>
      match op
      case Init =>
      case Run =>
      case Join =>
      case Exit =>
  }

  lemma MainStepOk(c: Config, s: Sys)
    requires MainOk(c, s.main) && |s.ws| == c.n && MainEnabled(s)
    ensures MainOk(c, MainStep(c, s).main) && |MainStep(c, s).ws| == c.n
  {
  }

  lemma MainKeepsInv(c: Config, s: Sys)
    requires Inv(c, s) && MainEnabled(s)
    ensures Inv(c, MainStep(c, s))
  {
    var t := MainStep(c, s);
    MainStepOk(c, s);
    var here := s.main.At? || s.main.Alloc? || s.main.Reap?;
    if here {
      MainKeepsSelf(c, s);
    }
    forall i | 0 <= i < c.n ensures WorkerInv(c, t.main, i, t.ws[i]) {
      if !here || i != s.main.j {
        MainStepElsewhere(c, s, i);
        assert WorkerInv(c, s.main, i, s.ws[i]);
      }
    }
  }

  lemma StepKeepsInv(c: Config, s: Sys, a: Actor)
    requires Inv(c, s) && Enabled(s, a)
    ensures Inv(c, Step(c, s, a))
  {
    match a
    case Main => MainKeepsInv(c, s);
    case Thread(i) => ThreadKeepsInv(c, s, i);
    case SpuriousMain =>
      var t := Step(c, s, a);
      forall i | 0 <= i < c.n ensures WorkerInv(c, t.main, i, t.ws[i]) {
        assert WorkerInv(c, s.main, i, s.ws[i]);
      }
    case Spurious(j) =>
      var t := Step(c, s, a);
      forall i | 0 <= i < c.n ensures WorkerInv(c, t.main, i, t.ws[i]) {
        assert WorkerInv(c, s.main, i, s.ws[i]);
      }
  }

  // ----- whole runs

  /** A run: which thread, or which spurious wakeup, comes next. */
  ghost predicate IsRun(c: Config, run: seq<Sys>, acts: seq<Actor>) {
    && |run| == |acts| + 1 && run[0] == Start(c)
    && forall i :: 0 <= i < |acts| ==> Enabled(run[i], acts[i]) && run[i + 1] == Step(c, run[i], acts[i])
  }

  lemma {:induction false} RunKeepsInv(c: Config, run: seq<Sys>, acts: seq<Actor>, i: nat)
    requires IsRun(c, run, acts) && i < |run|
    ensures Inv(c, run[i])
  {
    if i == 0 {
      StartInv(c);
    } else {
      RunKeepsInv(c, run, acts, i - 1);
      StepKeepsInv(c, run[i - 1], acts[i - 1]);
    }
  }

  /** No assert of the handshake ever fails. */
  lemma AssertsHold(c: Config, run: seq<Sys>, acts: seq<Actor>, i: nat)
    requires IsRun(c, run, acts) && i < |run|
    ensures !run[i].failed
  {
    RunKeepsInv(c, run, acts, i);
  }

  /** Mutual exclusion, and no lost wakeup: whoever sleeps still has its wait condition. */
  lemma NoLostWakeup(c: Config, run: seq<Sys>, acts: seq<Actor>, i: nat, j: nat)
    requires IsRun(c, run, acts) && i < |run| && j < c.n
    ensures var s := run[i];
            && |s.ws| == c.n
            && !(WorkerHolds(s.ws[j].pc) && MainHolds(s.main, j))
            && (s.ws[j].pc.Sleeping? ==> s.ws[j].state == 2 * s.ws[j].pc.k)
            && (s.main.At? && s.main.j == j && s.main.sub == Sleep ==> s.ws[j].state == Awaits(s.main.op))
  {
    RunKeepsInv(c, run, acts, i);
    assert WorkerInv(c, run[i].main, j, run[i].ws[j]);
  }

  lemma CallsWritten(c: Config)
    ensures CallsUpTo(c, 2) == (if c.hasInit then [InitCall] else []) + [FuncCall]
    ensures CallsUpTo(c, 3)
         == (if c.hasInit then [InitCall] else []) + [FuncCall] + (if c.hasExit then [ExitCall] else [])
  {
    assert CallsUpTo(c, 1) == CallsUpTo(c, 0) + CallOf(c, 0);
    assert CallsUpTo(c, 2) == CallsUpTo(c, 1) + CallOf(c, 1);
    assert CallsUpTo(c, 3) == CallsUpTo(c, 2) + CallOf(c, 2);
  }

  /** Results are stored only when every worker has run init and func, once each, and none has started its exit. */
  lemma ResultsAfterAllFuncs(c: Config, run: seq<Sys>, acts: seq<Actor>, i: nat, j: nat)
    requires IsRun(c, run, acts) && i < |run| && run[i].main == Results && j < c.n
    ensures |run[i].ws| == c.n && run[i].ws[j].state == 4
    ensures run[i].ws[j].log == (if c.hasInit then [InitCall] else []) + [FuncCall]
  {
    RunKeepsInv(c, run, acts, i);
    assert WorkerInv(c, run[i].main, j, run[i].ws[j]);
    CallsWritten(c);
  }

  /** When the driver is done, every worker thread has ended and called init, func and exit exactly once, in this order. */
  lemma DoneMeansAllCalled(c: Config, run: seq<Sys>, acts: seq<Actor>, i: nat, j: nat)
    requires IsRun(c, run, acts) && i < |run| && run[i].main == Done && j < c.n
    ensures |run[i].ws| == c.n && run[i].ws[j].pc == Finished && run[i].ws[j].lock == Nobody
    ensures run[i].ws[j].log
         == (if c.hasInit then [InitCall] else []) + [FuncCall] + (if c.hasExit then [ExitCall] else [])
  {
    RunKeepsInv(c, run, acts, i);
    assert WorkerInv(c, run[i].main, j, run[i].ws[j]);
    CallsWritten(c);
  }

  /** The driver has stored the results. */
  predicate PastResults(m: MainPc) {
    m.Reap? || m.Done? || (m.At? && m.op == Exit)
  }

  /** The results are stored in every run, before any worker is told to exit. */
  lemma {:induction false} ResultsComeFirst(c: Config, run: seq<Sys>, acts: seq<Actor>, i: nat) returns (k: nat)
    requires IsRun(c, run, acts) && i < |run| && PastResults(run[i].main)
    ensures k < i && run[k].main == Results && acts[k] == Main
  {
    assert run[i - 1 + 1] == Step(c, run[i - 1], acts[i - 1]);
    if run[i - 1].main == Results {
      k := i - 1;
    } else {
      k := ResultsComeFirst(c, run, acts, i - 1);
    }
  }

  lemma RoundsOfState(w: Worker)
    requires Local(w)
    ensures RoundsCalled(w.pc) >= 2 ==> w.state >= 3
    ensures RoundsCalled(w.pc) >= 3 ==> w.state >= 5
    ensures w.state >= 2 ==> RoundsCalled(w.pc) >= 1
    ensures w.state >= 4 ==> RoundsCalled(w.pc) >= 2
    ensures RoundsCalled(w.pc) <= 3
  {
  }

  /** No worker is a stage ahead of what the driver has let every worker reach. */
  lemma BoundsInStep(m: MainPc, a: nat, b: nat)
    ensures Bounds(m, a).1 >= 3 ==> Bounds(m, b).0 >= 2
    ensures Bounds(m, a).1 >= 5 ==> Bounds(m, b).0 >= 4
  {
  }

  lemma CallsContain(c: Config, r: nat)
    requires r <= 3
    ensures InitCall in CallsUpTo(c, r) <==> c.hasInit && r >= 1
    ensures FuncCall in CallsUpTo(c, r) <==> r >= 2
    ensures ExitCall in CallsUpTo(c, r) <==> c.hasExit && r >= 3
  {
    assert CallsUpTo(c, 1) == CallsUpTo(c, 0) + CallOf(c, 0);
    assert CallsUpTo(c, 2) == CallsUpTo(c, 1) + CallOf(c, 1);
    assert CallsUpTo(c, 3) == CallsUpTo(c, 2) + CallOf(c, 2);
  }

  /** The stages of different workers do not overlap: func runs after every init, and exit after every func. */
  lemma StagesInOrder(c: Config, run: seq<Sys>, acts: seq<Actor>, i: nat, a: nat, b: nat)
    requires IsRun(c, run, acts) && i < |run| && a < c.n && b < c.n
    ensures |run[i].ws| == c.n
    ensures FuncCall in run[i].ws[a].log && c.hasInit ==> InitCall in run[i].ws[b].log
    ensures ExitCall in run[i].ws[a].log ==> FuncCall in run[i].ws[b].log
  {
    RunKeepsInv(c, run, acts, i);
    var s := run[i];
    assert WorkerInv(c, s.main, a, s.ws[a]) && WorkerInv(c, s.main, b, s.ws[b]);
    RoundsOfState(s.ws[a]);
    RoundsOfState(s.ws[b]);
    BoundsInStep(s.main, a, b);
    CallsContain(c, RoundsCalled(s.ws[a].pc));
    CallsContain(c, RoundsCalled(s.ws[b].pc));
  }

  predicate IsSpurious(a: Actor) {
    a.SpuriousMain? || a.Spurious?
  }

  /** No deadlock: in every reachable unfinished state some thread can take a real step. */
  lemma NoDeadlock(c: Config, s: Sys) returns (a: Actor)
    requires Inv(c, s) && s.main != Done
    ensures Enabled(s, a) && !IsSpurious(a)
  {
    if MainEnabled(s) {
      return Main;
    }
    assert s.main.At? || s.main.Reap?;
    var j := s.main.j;
    assert WorkerInv(c, s.main, j, s.ws[j]);
    a := Thread(j);
  }

  // ----- termination

  /** The steps a worker has left, if nobody sleeps again. */
  function WorkerRank(pc: WorkerPc): nat {
    match pc
    case NotStarted => 40
    case Locking => 35
    case Woken(k) => if k <= 2 then 31 - 10 * k else 0
    case Testing(k) => if k <= 2 then 30 - 10 * k else 0
    case Sleeping(k) => if k <= 2 then 29 - 10 * k else 0
    case Calling(k) => if k <= 2 then 28 - 10 * k else 0
    case Posting(k) => if k <= 2 then 27 - 10 * k else 0
    case Unlocking => 2
    case Finished => 0
  }

  function SumRanks(ws: seq<Worker>): nat {
    if ws == [] then 0 else WorkerRank(ws[0].pc) + SumRanks(ws[1..])
  }

  lemma {:induction false} SumRanksUpdate(ws: seq<Worker>, i: nat, w: Worker)
    requires i < |ws|
    ensures SumRanks(ws[i := w]) == SumRanks(ws) - WorkerRank(ws[i].pc) + WorkerRank(w.pc)
  {
    if i == 0 {
      assert ws[0 := w][1..] == ws[1..];
    } else {
      SumRanksUpdate(ws[1..], i - 1, w);
      assert ws[i := w][1..] == ws[1..][i - 1 := w];
    }
  }

  /** The operations the main thread has left, counting the current one. */
  function OpsLeft(c: Config, m: MainPc): int {
    match m
    case Alloc(j) => 4 * c.n + 2 - j
    case At(Init, j, _) => 4 * c.n + 2 - j
    case At(Run, j, _) => 3 * c.n + 2 - j
    case At(Join, j, _) => 2 * c.n + 2 - j
    case Results => c.n + 1
    case At(Exit, j, _) => c.n - j
    case Reap(j) => c.n - j
    case Done => 0
  }

  function SubRank(m: MainPc): nat {
    match m
    case Alloc(_) => 12
    case At(_, _, Lock) => 11
    case At(_, _, Advance) => 10
    case At(_, _, Wake) => 6
    case At(_, _, Test) => 5
    case At(_, _, Sleep) => 4
    case At(_, _, Unlock) => 2
    case Reap(_) => 1
    case _ => 0
  }

  function MainRank(c: Config, m: MainPc): int { 20 * OpsLeft(c, m) + SubRank(m) }

  function Rank(c: Config, s: Sys): int { MainRank(c, s.main) + SumRanks(s.ws) }

  /** A worker's step uses up more than the wakeup it may cause gives back. */
  lemma WorkerStepDescends(c: Config, m: MainPc, i: nat, w: Worker)
    requires WorkerInv(c, m, i, w) && WorkerEnabled(w)
    ensures var (w', signals, bad) := WorkerStep(c, w);
            WorkerRank(w'.pc) + MainRank(c, if signals then WakeMain(m, i) else m) < WorkerRank(w.pc) + MainRank(c, m)
  {
  }

  lemma MainStepDescends(c: Config, s: Sys)
    requires Inv(c, s) && MainEnabled(s)
    ensures Rank(c, MainStep(c, s)) < Rank(c, s)
  {
    var t := MainStep(c, s);
    if s.main.At? || s.main.Alloc? {
      var j := s.main.j;
      assert WorkerInv(c, s.main, j, s.ws[j]);
      MainStepUpdates(c, s);
      SumRanksUpdate(s.ws, j, t.ws[j]);
      MainPcDescends(c, s);
    }
  }

  /** The main thread touches no worker but the one it is at. */
  lemma MainStepUpdates(c: Config, s: Sys)
    requires MainEnabled(s) && (s.main.At? || s.main.Alloc?)
    ensures var t := MainStep(c, s);
            |t.ws| == |s.ws| && t.ws == s.ws[s.main.j := t.ws[s.main.j]]
  {
  }

  lemma MainPcDescends(c: Config, s: Sys)
    requires MainOk(c, s.main) && |s.ws| == c.n && MainEnabled(s) && (s.main.At? || s.main.Alloc?)
    requires WorkerInv(c, s.main, s.main.j, s.ws[s.main.j])
    ensures var t := MainStep(c, s);
            var j := s.main.j;
            MainRank(c, t.main) + WorkerRank(t.ws[j].pc) < MainRank(c, s.main) + WorkerRank(s.ws[j].pc)
  {
    match s.main
    case Alloc(j) =>
    case At(op, j, sub) =>
      match sub
      case Lock =>
      case Wake =>
      case Advance =>
      case Test =>
      case Unlock =>
  }

  /** Real steps lower the rank; a spurious wakeup raises it by two. */
  lemma StepRank(c: Config, s: Sys, a: Actor)
    requires Inv(c, s) && Enabled(s, a)
    ensures Rank(c, Step(c, s, a)) <= Rank(c, s) + if IsSpurious(a) then 2 else -1
  {
    match a
    case Main => MainStepDescends(c, s);
    case Thread(i) =>
      assert WorkerInv(c, s.main, i, s.ws[i]);
      WorkerStepDescends(c, s.main, i, s.ws[i]);
      SumRanksUpdate(s.ws, i, WorkerStep(c, s.ws[i]).0);
    case SpuriousMain =>
    case Spurious(i) =>
      assert WorkerInv(c, s.main, i, s.ws[i]);
      SumRanksUpdate(s.ws, i, WakeWorker(s.ws[i]));
  }

  function SpuriousCount(acts: seq<Actor>): nat {
    if acts == [] then 0
    else SpuriousCount(acts[..|acts| - 1]) + if IsSpurious(acts[|acts| - 1]) then 1 else 0
  }

  lemma {:induction false} RunRank(c: Config, run: seq<Sys>, acts: seq<Actor>, i: nat)
    requires IsRun(c, run, acts) && i < |run|
    ensures Rank(c, run[i]) + i <= Rank(c, run[0]) + 3 * SpuriousCount(acts[..i])
  {
    if i > 0 {
      RunRank(c, run, acts, i - 1);
      RunKeepsInv(c, run, acts, i - 1);
      StepRank(c, run[i - 1], acts[i - 1]);
      assert acts[..i][..i - 1] == acts[..i - 1];
    }
  }

  lemma {:induction false} StartRank(ws: seq<Worker>)
    requires forall i :: 0 <= i < |ws| ==> ws[i].pc == NotStarted
    ensures SumRanks(ws) == 40 * |ws|
  {
    if ws != [] {
      StartRank(ws[1..]);
    }
  }

  lemma RankNonNegative(c: Config, s: Sys)
    requires MainOk(c, s.main)
    ensures Rank(c, s) >= 0
  {
  }

  /** Every run is bounded: at most 120 steps for each worker, 60 more, and three for each spurious wakeup. */
  lemma RunsAreBounded(c: Config, run: seq<Sys>, acts: seq<Actor>)
    requires IsRun(c, run, acts)
    ensures |acts| <= 120 * c.n + 60 + 3 * SpuriousCount(acts)
  {
    RunRank(c, run, acts, |acts|);
    RunKeepsInv(c, run, acts, |acts|);
    RankNonNegative(c, run[|acts|]);
    FirstRank(c);
    assert acts[..|acts|] == acts;
  }

  lemma FirstRank(c: Config)
    ensures Rank(c, Start(c)) <= 120 * c.n + 60
  {
    StartRank(Start(c).ws);
  }
}
