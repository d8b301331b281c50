/**
  get_lock of src/benchmarks/obj_locks.cpp: lock initialisation guarded by a run
  id, for any number of threads, any interleaving, and any number of run ids.

  `pop` is the pool's run id, `runid` the id stored with the lock.  A thread
  claims the lock by storing pop - 1, initialises it, and stores pop; after a
  failed initialisation it stores 0.
*/
module RunIdLock {

  datatype Pc =
    | Outside           // not in get_lock
    | Load              // about to read the stored id
    | Claim(tmp: int)   // read `tmp`, about to compare-and-swap it to pop - 1
    | InInit            // inside the initialiser
    | InitOk            // initialised, about to compare-and-swap pop - 1 to pop
    | InitFailed        // about to store 0
    | Got               // about to return the lock
    | GotNull           // about to return null

  /** `owner` made the last successful claim; `done` counts the initialisations that succeeded under this run id. */
  datatype Sys = Sys(pop: int, runid: int, ts: seq<Pc>, owner: int, done: nat)

  datatype Action = Enter(i: nat) | Go(i: nat, ok: bool) | Leave(i: nat) | Advance

  predicate AllOutside(s: Sys) {
    forall i :: 0 <= i < |s.ts| ==> s.ts[i] == Outside
  }

  predicate Enabled(s: Sys, a: Action) {
    match a
    case Enter(i) => i < |s.ts| && s.ts[i] == Outside
    case Go(i, _) => i < |s.ts| && s.ts[i] != Outside && s.ts[i] != Got && s.ts[i] != GotNull
    case Leave(i) => i < |s.ts| && (s.ts[i] == Got || s.ts[i] == GotNull)
    case Advance => AllOutside(s)
  }

  /** One atomic step; `ok` is the outcome of the initialiser. */
  function Step(s: Sys, a: Action): Sys
    requires Enabled(s, a)
  {
    match a
    case Enter(i) => s.(ts := s.ts[i := Load])
    case Leave(i) => s.(ts := s.ts[i := Outside])
    case Advance => s.(pop := s.pop + 2, done := 0)
    case Go(i, ok) =>
      match s.ts[i]
      case Load =>
        s.(ts := s.ts[i := if s.runid == s.pop then Got else if s.runid == s.pop - 1 then Load else Claim(s.runid)])
      case Claim(tmp) =>
        if s.runid == tmp then s.(runid := s.pop - 1, ts := s.ts[i := InInit], owner := i)
        else s.(ts := s.ts[i := Load])
      case InInit =>
        if ok then s.(ts := s.ts[i := InitOk], done := s.done + 1) else s.(ts := s.ts[i := InitFailed])
      case InitFailed => s.(runid := 0, ts := s.ts[i := GotNull])
      case InitOk =>
        if s.runid == s.pop - 1 then s.(runid := s.pop, ts := s.ts[i := Load])
        else s.(ts := s.ts[i := GotNull])
      case _ => s
  }

  /** A stored id that is neither ahead of the run id nor the mark of a claim under it. */
  predicate Sound(runid: int, pop: int) {
    runid <= pop && runid != pop - 1
  }

  /** A lock whose stored id is the run id counts as initialised. */
  function Start(n: nat, pop: int, runid: int): Sys {
    Sys(pop, runid, seq(n, _ => Outside), -1, if runid == pop then 1 else 0)
  }

  predicate Inside(pc: Pc) {
    pc == InInit || pc == InitOk || pc == InitFailed
  }

  predicate ThreadInv(s: Sys, i: nat, pc: Pc) {
    match pc
    case Claim(tmp) => tmp != s.pop && tmp != s.pop - 1 && (s.runid == s.pop - 1 ==> i != s.owner)
    case InInit => s.runid == s.pop - 1 && i == s.owner && s.done == 0
    case InitOk => s.runid == s.pop - 1 && i == s.owner && s.done == 1
    case InitFailed => s.runid == s.pop - 1 && i == s.owner && s.done == 0
    case Got => s.runid == s.pop
    case _ => s.runid == s.pop - 1 ==> i != s.owner
  }

  ghost predicate Inv(s: Sys) {
    && s.pop % 2 == 0 && s.pop >= 2 && s.done <= 1
    && (s.runid == s.pop - 1 ==> 0 <= s.owner < |s.ts| && Inside(s.ts[s.owner]))
    && (s.runid != s.pop - 1 ==> (s.done == 1 <==> s.runid == s.pop))
    && forall i :: 0 <= i < |s.ts| ==> ThreadInv(s, i, s.ts[i])
  }

  /** Advancing the run id would make a stored id ahead of it count as claimed or as initialised. */
  predicate Reaches(s: Sys) {
    s.runid == s.pop + 1 || s.runid == s.pop + 2
  }

  lemma StepKeepsInv(s: Sys, a: Action)
    requires Inv(s) && Enabled(s, a) && (a.Advance? ==> !Reaches(s))
    ensures Inv(Step(s, a))
  {
    var t := Step(s, a);
    if !a.Advance? {
      assert ThreadInv(s, a.i, s.ts[a.i]);
    }
    forall j | 0 <= j < |t.ts| ensures ThreadInv(t, j, t.ts[j]) {
      assert ThreadInv(s, j, s.ts[j]);
    }
  }

  ghost predicate IsRun(run: seq<Sys>, acts: seq<Action>) {
    && |run| == |acts| + 1
    && forall k :: 0 <= k < |acts| ==> Enabled(run[k], acts[k]) && run[k + 1] == Step(run[k], acts[k])
  }

  /** No advance of the run id reaches the stored id. */
  ghost predicate NeverReaches(run: seq<Sys>, acts: seq<Action>)
    requires |run| == |acts| + 1
  {
    forall k :: 0 <= k < |acts| && acts[k].Advance? ==> !Reaches(run[k])
  }

  lemma {:induction false} RunKeepsInv(run: seq<Sys>, acts: seq<Action>, k: nat)
    requires IsRun(run, acts) && k < |run| && Inv(run[0]) && NeverReaches(run, acts)
    ensures Inv(run[k])
  {
    if k > 0 {
      RunKeepsInv(run, acts, k - 1);
      StepKeepsInv(run[k - 1], acts[k - 1]);
    }
  }

  lemma StartInv(n: nat, pop: int, runid: int)
    requires pop % 2 == 0 && pop >= 2 && runid != pop - 1
    ensures Inv(Start(n, pop, runid))
  {
  }

  /** A stored id that is not ahead of the run id never gets ahead of it, so no advance reaches it. */
  lemma {:induction false} SoundStays(run: seq<Sys>, acts: seq<Action>, k: nat)
    requires IsRun(run, acts) && k < |run| && run[0].runid <= run[0].pop && run[0].pop >= 0
    ensures run[k].runid <= run[k].pop && run[k].pop >= 0
  {
    if k > 0 {
      SoundStays(run, acts, k - 1);
      assert run[k - 1 + 1] == Step(run[k - 1], acts[k - 1]);
    }
  }

  lemma SoundNeverReaches(n: nat, pop: int, runid: int, run: seq<Sys>, acts: seq<Action>)
    requires IsRun(run, acts) && run[0] == Start(n, pop, runid) && pop >= 2 && Sound(runid, pop)
    ensures NeverReaches(run, acts)
  {
    forall k | 0 <= k < |acts| ensures !Reaches(run[k]) {
      SoundStays(run, acts, k);
    }
  }

  /**
    In every run, over any number of run ids: at most one thread is inside the
    initialiser; at most one initialisation succeeds under a run id; a lock is
    handed out only when it has been initialised under the current run id.  Runs
    from a sound stored id, and runs that do not advance the run id, never reach
    a stored id ahead.
  */
  lemma InitialisedOnce(n: nat, pop: int, runid: int, run: seq<Sys>, acts: seq<Action>, k: nat, i: nat, j: nat)
    requires IsRun(run, acts) && k < |run| && run[0] == Start(n, pop, runid)
    requires pop % 2 == 0 && pop >= 2 && runid != pop - 1 && (Sound(runid, pop) || NeverReaches(run, acts))
    requires i < |run[k].ts| && j < |run[k].ts|
    ensures run[k].done <= 1
    ensures Inside(run[k].ts[i]) && Inside(run[k].ts[j]) ==> i == j
    ensures run[k].ts[i] == Got ==> run[k].done == 1 && run[k].runid == run[k].pop
  {
    if Sound(runid, pop) {
      SoundNeverReaches(n, pop, runid, run, acts);
    }
    StartInv(n, pop, runid);
    RunKeepsInv(run, acts, k);
    assert ThreadInv(run[k], i, run[k].ts[i]) && ThreadInv(run[k], j, run[k].ts[j]);
  }

  /** A lock counts as initialised only after an initialiser has succeeded under the current run id. */
  lemma {:induction false} DoneMeansSuccess(run: seq<Sys>, acts: seq<Action>, k: nat) returns (m: nat, i: nat)
    requires IsRun(run, acts) && k < |run| && run[0].done == 0 && run[k].done > 0
    ensures m < k && acts[m] == Go(i, true) && i < |run[m].ts| && run[m].ts[i] == InInit && run[m].pop == run[k].pop
  {
    var a := acts[k - 1];
    assert run[k - 1 + 1] == Step(run[k - 1], a);
    if a.Go? && a.ok && run[k - 1].ts[a.i] == InInit {
      m, i := k - 1, a.i;
    } else {
      m, i := DoneMeansSuccess(run, acts, k - 1);
    }
  }

  /** The thread is on its way to returning null. */
  predicate Failing(pc: Pc) {
    pc == InitFailed || pc == GotNull
  }

  /** Only the failure of its own initialiser puts a thread there. */
  lemma FailingStep(s: Sys, a: Action, i: nat)
    requires Inv(s) && Enabled(s, a) && i < |s.ts| && Failing(Step(s, a).ts[i])
    ensures Failing(s.ts[i]) || (s.ts[i] == InInit && a == Go(i, false))
    ensures a != Enter(i)
  {
    assert ThreadInv(s, i, s.ts[i]);
  }

  /** A thread gets null only when its own initialiser has failed, since it entered. */
  lemma {:induction false} NullMeansFailure(run: seq<Sys>, acts: seq<Action>, k: nat, i: nat) returns (m: nat)
    requires IsRun(run, acts) && k < |run| && Inv(run[0]) && NeverReaches(run, acts)
    requires i < |run[0].ts| && !Failing(run[0].ts[i]) && i < |run[k].ts| && Failing(run[k].ts[i])
    ensures m < k && acts[m] == Go(i, false) && i < |run[m].ts| && run[m].ts[i] == InInit
    ensures forall q :: m < q < k ==> acts[q] != Enter(i)
  {
    RunKeepsInv(run, acts, k - 1);
    SameThreads(run, acts, k - 1);
    FailingStep(run[k - 1], acts[k - 1], i);
    if Failing(run[k - 1].ts[i]) {
      m := NullMeansFailure(run, acts, k - 1, i);
    } else {
      m := k - 1;
    }
  }

  lemma {:induction false} SameThreads(run: seq<Sys>, acts: seq<Action>, k: nat)
    requires IsRun(run, acts) && k < |run|
    ensures |run[k].ts| == |run[0].ts|
  {
    if k > 0 {
      SameThreads(run, acts, k - 1);
      assert run[k - 1 + 1] == Step(run[k - 1], acts[k - 1]);
    }
  }

  /** A thread's steps, with the given outcome of the initialiser, while no other thread moves. */
  function Solo(s: Sys, i: nat, ok: bool, n: nat): Sys
    decreases n
  {
    if n == 0 || !Enabled(s, Go(i, ok)) then s else Solo(Step(s, Go(i, ok)), i, ok, n - 1)
  }

  /**
    What get_lock does for a thread that is alone: it gets the lock, initialised
    under the current run id, or null and a claimable lock if the initialiser
    fails.  The initialiser is not called for a lock that is initialised already.
  */
  lemma AloneGetsLock(s: Sys, i: nat, ok: bool)
    requires Inv(s) && AllOutside(s) && i < |s.ts|
    ensures var t := Solo(Step(s, Enter(i)), i, ok, 5);
            && t.pop == s.pop && |t.ts| == |s.ts|
            && (ok || s.runid == s.pop ==> t.ts[i] == Got && t.runid == t.pop && t.done == 1)
            && (!ok && s.runid != s.pop ==> t.ts[i] == GotNull && t.runid == 0 && t.done == 0)
  {
    assert s.runid != s.pop - 1;
    var t0 := Step(s, Enter(i));
    var t1 := Step(t0, Go(i, ok));
    if s.runid != s.pop {
      var t2 := Step(t1, Go(i, ok));
      var t3 := Step(t2, Go(i, ok));
      var t4 := Step(t3, Go(i, ok));
      if ok {
        var t5 := Step(t4, Go(i, ok));
        assert Solo(t4, i, ok, 1) == t5;
        assert Solo(t3, i, ok, 2) == t5;
        assert Solo(t2, i, ok, 3) == t5;
        assert Solo(t1, i, ok, 4) == t5;
      } else {
        assert Solo(t3, i, ok, 2) == t4;
        assert Solo(t2, i, ok, 3) == t4;
        assert Solo(t1, i, ok, 4) == t4;
      }
    } else {
      assert Solo(t1, i, ok, 4) == t1;
    }
  }

  /** A thread that only finds an initialisation in progress. */
  predicate Spins(s: Sys, i: nat)
    requires i < |s.ts|
  {
    s.ts[i] == Load && s.runid == s.pop - 1
  }

  /** While some thread is inside get_lock, some thread can do better than spin. */
  lemma SomeoneAdvances(s: Sys, i: nat) returns (j: nat)
    requires Inv(s) && Enabled(s, Go(i, true))
    ensures Enabled(s, Go(j, true)) && !Spins(s, j)
  {
    j := if s.runid == s.pop - 1 then s.owner else i;
  }

  /** Null is returned only after a failed initialisation: the second compare-and-swap never fails. */
  lemma PublishSucceeds(s: Sys, i: nat)
    requires Inv(s) && i < |s.ts| && s.ts[i] == InitOk
    ensures Step(s, Go(i, true)).ts[i] == Load && Step(s, Go(i, true)).runid == s.pop
  {
    assert ThreadInv(s, i, s.ts[i]);
  }

  /** A failed initialisation leaves the lock claimable: the stored id is sound, and a thread entering alone gets to initialise. */
  lemma FailureLeavesClaimable(s: Sys, i: nat, j: nat)
    requires Inv(s) && i < |s.ts| && s.ts[i] == InitFailed && j < |s.ts| && s.ts[j] == Outside
    ensures var t := Step(s, Go(i, false));
            && t.runid == 0 && t.ts[i] == GotNull && t.done == s.done == 0
            && Sound(t.runid, t.pop) && t.runid != t.pop
            && Enabled(t, Enter(j))
            && var u := Step(t, Enter(j));
               && Enabled(u, Go(j, true))
               && var x := Step(u, Go(j, true));
                  Enabled(x, Go(j, true)) && Step(x, Go(j, true)).ts[j] == InInit
  {
    assert ThreadInv(s, i, s.ts[i]) && ThreadInv(s, j, s.ts[j]);
  }

  /** Advancing the run id by two while nobody is inside re-establishes the start condition, with the lock uninitialised. */
  lemma AdvanceRestarts(s: Sys)
    requires Inv(s) && AllOutside(s) && !Reaches(s)
    ensures var t := Step(s, Advance);
            && t.pop == s.pop + 2 && t.runid == s.runid
            && Inv(t) && t.runid != t.pop - 1 && t.runid != t.pop && t.done == 0
            && (s.runid <= s.pop ==> Sound(t.runid, t.pop) && !Reaches(t))
  {
    StepKeepsInv(s, Advance);
  }

  /** ... and when the advance does reach the stored id, the lock is handed out raw or every thread is blocked. */
  lemma ReachingFails(s: Sys, i: nat)
    requires AllOutside(s) && Reaches(s) && i < |s.ts|
    ensures var t := Step(s, Advance);
            Enabled(t, Enter(i))
            && var u := Step(t, Enter(i));
               if s.runid == s.pop + 1 then Orphaned(u)
               else Enabled(u, Go(i, true)) && Step(u, Go(i, true)).ts[i] == Got && Step(u, Go(i, true)).done == 0
  {
  }

  // ----- the start condition is exact

  /** Nobody owns the claim that the stored id shows. */
  ghost predicate Orphaned(s: Sys) {
    s.runid == s.pop - 1 && forall i :: 0 <= i < |s.ts| ==> s.ts[i] == Outside || s.ts[i] == Load
  }

  /** An orphaned claim is never given up: with a thread inside get_lock, no thread ever returns. */
  lemma {:induction false} OrphanedForever(run: seq<Sys>, acts: seq<Action>, k: nat, i: nat)
    requires IsRun(run, acts) && k < |run| && Orphaned(run[0])
    requires i < |run[0].ts| && run[0].ts[i] == Load
    ensures Orphaned(run[k]) && i < |run[k].ts| && run[k].ts[i] == Load
  {
    if k > 0 {
      OrphanedForever(run, acts, k - 1, i);
    }
  }

  /** The run in which the run id is advanced until it reaches a stored id that was ahead of it. */
  lemma {:induction false} AdvanceTo(n: nat, pop: int, runid: int, target: int) returns (run: seq<Sys>, acts: seq<Action>)
    requires pop <= target && pop % 2 == 0 && target % 2 == 0 && runid > pop
    ensures IsRun(run, acts) && run[0] == Start(n, pop, runid)
    ensures run[|acts|] == Sys(target, runid, seq(n, _ => Outside), -1, 0)
    decreases target - pop
  {
    if target == pop {
      return [Start(n, pop, runid)], [];
    }
    var r, a := AdvanceTo(n, pop, runid, target - 2);
    var last := r[|a|];
    assert AllOutside(last);
    run, acts := r + [Step(last, Advance)], a + [Advance];
    forall k | 0 <= k < |acts| ensures Enabled(run[k], acts[k]) && run[k + 1] == Step(run[k], acts[k]) {
      if k < |a| {
        assert run[k] == r[k] && run[k + 1] == r[k + 1];
      }
    }
  }

  /** An even stored id ahead of the run id: some later run hands out the lock without initialising it. */
  lemma AheadEvenHandsOutRaw(n: nat, pop: int, runid: int) returns (run: seq<Sys>, acts: seq<Action>)
    requires n > 0 && pop >= 2 && pop % 2 == 0 && runid > pop && runid % 2 == 0
    ensures IsRun(run, acts) && run[0] == Start(n, pop, runid)
    ensures var s := run[|acts|]; |s.ts| == n && s.ts[0] == Got && s.done == 0
  {
    run, acts := AdvanceTo(n, pop, runid, runid);
    run, acts := Extend(run, acts, Enter(0));
    run, acts := Extend(run, acts, Go(0, true));
  }

  /** An odd stored id at or ahead of the claim mark: some later run blocks every thread for good. */
  lemma AheadOddBlocks(n: nat, pop: int, runid: int) returns (run: seq<Sys>, acts: seq<Action>)
    requires n > 0 && pop >= 2 && pop % 2 == 0 && runid >= pop - 1 && runid % 2 == 1
    ensures IsRun(run, acts) && run[0] == Start(n, pop, runid)
    ensures var s := run[|acts|]; Orphaned(s) && |s.ts| == n && s.ts[0] == Load
  {
    if runid == pop - 1 {
      run, acts := [Start(n, pop, runid)], [];
    } else {
      run, acts := AdvanceTo(n, pop, runid, runid + 1);
    }
    run, acts := Extend(run, acts, Enter(0));
  }

  lemma Extend(run: seq<Sys>, acts: seq<Action>, a: Action) returns (run': seq<Sys>, acts': seq<Action>)
    requires IsRun(run, acts) && Enabled(run[|acts|], a)
    ensures IsRun(run', acts') && run'[0] == run[0]
    ensures run'[|acts'|] == Step(run[|acts|], a)
  {
    run', acts' := run + [Step(run[|acts|], a)], acts + [a];
    forall k | 0 <= k < |acts'| ensures Enabled(run'[k], acts'[k]) && run'[k + 1] == Step(run'[k], acts'[k]) {
      if k < |acts| {
        assert run'[k] == run[k] && run'[k + 1] == run[k + 1];
      }
    }
  }
}
