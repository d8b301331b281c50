/**
  Unsafe-shutdown detection over whole runs: sessions that open, use and close a
  pool, interrupted at any store by a crash, with unsafe-shutdown counts that
  never fall.

  Persistence: what was stored before the last flush is durable; of the stores
  since then any subset may be durable at a crash.  Clearing the record in
  shutdown_state_init is one store.
*/
module ShutdownRuns {
  import opened Fletcher64
  import opened ShutdownState
  import opened Wrappers

  /** The unsafe-shutdown count and identity of the hardware. */
  datatype Env = Env(usc: U64, uuid: U64)

  function Clean(v: Env): Rec { Sealed(v.usc, v.uuid, 0) }

  function Dirty(v: Env): Rec { Sealed(v.usc, v.uuid, 1) }

  datatype Phase = Idle | Failed | Checked | Marking | Open | Closing | Closed

  /**
    dur      the durable record
    pend     the stores since the last flush
    todo     what is left of the operation in progress
    modified the session's sds_dirty_modified flag
    armed    the identity under which set_dirty completed, until the flag is touched again
    maybe    the identity under which set_dirty issued its last store, until a later operation's first flush
  */
  datatype State = State(dur: Rec, pend: seq<Store>, todo: seq<Instr>, phase: Phase, env: Env, modified: bool,
                         armed: Option<Env>, maybe: Option<Env>)

  datatype Action = Begin | Step | Mark | Close | End | Crash(keep: seq<bool>, env: Env)

  function ApplyAll(r: Rec, sts: seq<Store>): Rec
    decreases sts
  {
    if sts == [] then r else ApplyAll(Apply(r, sts[0]), sts[1..])
  }

  lemma ApplyCons(r: Rec, st: Store, sts: seq<Store>)
    ensures ApplyAll(r, [st] + sts) == ApplyAll(Apply(r, st), sts)
  {
    assert ([st] + sts)[1..] == sts;
  }

  lemma ApplyOne(r: Rec, st: Store)
    ensures ApplyAll(r, [st]) == Apply(r, st)
  {
    assert [st] == [st] + [];
    ApplyCons(r, st, []);
  }

  /** The record found after a crash that kept the chosen stores. */
  function Image(r: Rec, sts: seq<Store>, keep: seq<bool>): Rec
    requires |keep| == |sts|
    decreases sts
  {
    if sts == [] then r
    else Image(if keep[0] then Apply(r, sts[0]) else r, sts[1..], keep[1..])
  }

  predicate Enabled(s: State, a: Action) {
    match a
    case Begin => s.phase == Idle
    case Step => s.todo != []
    case Mark => s.phase == Checked && s.todo == []
    case Close => (s.phase == Failed || s.phase == Checked || s.phase == Open || s.phase == Closed) && s.todo == []
    case End => (s.phase == Failed || s.phase == Checked || s.phase == Closed) && s.todo == []
    case Crash(keep, env) => |keep| == |s.pend| && env.usc >= s.env.usc
  }

  /** The phase a finished operation leads to. */
  function Settled(p: Phase): Phase {
    match p
    case Marking => Open
    case Closing => Closed
    case _ => p
  }

  /** One instruction of the operation in progress. */
  function RunInstr(s: State): State
    requires s.todo != []
  {
    var rest := s.todo[1..];
    var phase := if rest == [] then Settled(s.phase) else s.phase;
    match s.todo[0]
    case Do(st) =>
      s.(pend := s.pend + [st], todo := rest, phase := phase,
         maybe := if s.phase == Marking && st.PutCsum? then Some(s.env) else s.maybe)
    case Flush =>
      s.(dur := ApplyAll(s.dur, s.pend), pend := [], todo := rest, phase := phase,
         armed := if s.phase == Marking && rest == [] then Some(s.env) else s.armed,
         maybe := if s.phase == Checked || s.phase == Closing then None else s.maybe)
  }

  function Act(s: State, a: Action): State
    requires Enabled(s, a)
  {
    match a
    case Begin =>
      var (ret, prog) := Check(Clean(s.env), s.dur);
      s.(phase := if ret == 0 then Checked else Failed, todo := prog, modified := false,
         armed := if prog == [] then s.armed else None)
    case Step => RunInstr(s)
    case Mark => s.(phase := Marking, todo := MarkProg(s.dur, 1), modified := true)
    case Close =>
      if s.modified then s.(phase := Closing, todo := MarkProg(s.dur, 0), armed := None)
      else s.(phase := Idle)
    case End => s.(phase := Idle)
    case Crash(keep, env) => s.(dur := Image(s.dur, s.pend, keep), pend := [], todo := [], phase := Idle, env := env)
  }

  function Start(env: Env): State {
    State(ZERO, [], [], Idle, env, false, None, None)
  }

  /** The states of a run, from a cleared record. */
  ghost predicate IsRun(run: seq<State>, acts: seq<Action>) {
    && |run| == |acts| + 1
    && run[0] == Start(run[0].env)
    && forall i :: 0 <= i < |acts| ==> Enabled(run[i], acts[i]) && run[i + 1] == Act(run[i], acts[i])
  }

  // ----- what every crash image is

  /** The checksum of the dirty record is not the checksum of the cleared one. */
  predicate NoCollision(v: Env) {
    Digest(v.usc, v.uuid, 1) != NONE
  }

  function Identity(r: Rec): Env { Env(r.usc, r.uuid) }

  /**
    A record that the next check judges rightly: clean, or damaged, or marked
    under the identity in `maybe`, or of an identity with a collision.  A dirty
    record has one of the identities `ids`.
  */
  predicate Benign(ids: set<Env>, r: Rec, maybe: Option<Env>) {
    || r.dirty == 0
    || (r.dirty == 1 && Identity(r) in ids && (Intact(r) && NoCollision(Identity(r)) ==> maybe == Some(Identity(r))))
  }

  /** Whatever a crash keeps is benign. */
  predicate ImagesBenign(ids: set<Env>, r: Rec, sts: seq<Store>, maybe: Option<Env>)
    decreases sts
  {
    if sts == [] then Benign(ids, r, maybe)
    else ImagesBenign(ids, r, sts[1..], maybe) && ImagesBenign(ids, Apply(r, sts[0]), sts[1..], maybe)
  }

  lemma {:induction false} ImageBenign(ids: set<Env>, r: Rec, sts: seq<Store>, maybe: Option<Env>, keep: seq<bool>)
    requires |keep| == |sts| && ImagesBenign(ids, r, sts, maybe)
    ensures Benign(ids, Image(r, sts, keep), maybe)
    decreases sts
  {
    if sts != [] {
      ImageBenign(ids, if keep[0] then Apply(r, sts[0]) else r, sts[1..], maybe, keep[1..]);
    }
  }

  /** The record when no operation is in progress. */
  predicate AtRest(s: State) {
    && s.pend == []
    && (s.phase == Checked || s.phase == Closed ==> s.dur == Clean(s.env) && s.armed == None)
    && (s.phase == Closed ==> s.maybe == None)
    && (s.phase == Open ==> s.dur == Dirty(s.env) && s.armed == Some(s.env) && s.maybe == Some(s.env))
    && (s.phase == Idle || s.phase == Failed || s.phase == Checked || s.phase == Open || s.phase == Closed)
  }

  /** From here to the end of the operation in progress every crash image is benign, and the end is as it should be. */
  ghost predicate SafeFrom(ids: set<Env>, s: State)
    decreases |s.todo|
  {
    && ImagesBenign(ids, s.dur, s.pend, s.maybe)
    && (s.todo == [] ==> AtRest(s))
    && (s.todo != [] ==> SafeFrom(ids, RunInstr(s)))
  }

  ghost predicate Inv(ids: set<Env>, s: State) {
    && SafeFrom(ids, s)
    && (s.todo != [] ==> s.phase == Checked || s.phase == Marking || s.phase == Closing)
    && (s.todo != [] ==> s.armed == None)
    && (s.armed.Some? ==> s.dur == Dirty(s.armed.value) && s.pend == [] && s.armed.value.usc <= s.env.usc)
    && (s.phase == Failed ==> !s.modified)
    && (s.phase == Marking || s.phase == Open || s.phase == Closing || s.phase == Closed ==> s.modified)
  }

  // ----- the three programs

  /** A store that cannot make a clean record dirty. */
  predicate Cleanly(st: Store) {
    st.PutDirty? ==> st.b == 0
  }

  lemma {:induction false} CleanImages(ids: set<Env>, r: Rec, sts: seq<Store>, maybe: Option<Env>)
    requires r.dirty == 0 && forall i :: 0 <= i < |sts| ==> Cleanly(sts[i])
    ensures ImagesBenign(ids, r, sts, maybe)
    decreases sts
  {
    if sts != [] {
      CleanImages(ids, r, sts[1..], maybe);
      CleanImages(ids, Apply(r, sts[0]), sts[1..], maybe);
    }
  }

  lemma OneImage(ids: set<Env>, r: Rec, st: Store, maybe: Option<Env>)
    requires Benign(ids, r, maybe) && Benign(ids, Apply(r, st), maybe)
    ensures ImagesBenign(ids, r, [st], maybe)
  {
    assert [st][1..] == [];
  }

  /** The tail of an operation: flush, checksum, flush, all on a clean record. */
  lemma CleanTailSafe(ids: set<Env>, s: State, c: Csum)
    requires s.todo == [Flush, Do(PutCsum(c)), Flush] && (s.phase == Checked || s.phase == Closing)
    requires s.dur.dirty == 0 && forall i :: 0 <= i < |s.pend| ==> Cleanly(s.pend[i])
    requires ApplyAll(s.dur, s.pend).(csum := c) == Clean(s.env) && s.armed == None
    ensures SafeFrom(ids, s)
  {
    CleanImages(ids, s.dur, s.pend, s.maybe);
    var s1 := RunInstr(s);
    assert s1.todo == [Do(PutCsum(c)), Flush];
    CleanImages(ids, s1.dur, s1.pend, s1.maybe);
    var s2 := RunInstr(s1);
    assert s2.todo == [Flush] && s2.pend == [PutCsum(c)];
    CleanImages(ids, s2.dur, s2.pend, s2.maybe);
    var s3 := RunInstr(s2);
    ApplyOne(s2.dur, PutCsum(c));
    assert s3.todo == [] && s3.dur == Clean(s.env);
    CleanImages(ids, s3.dur, s3.pend, s3.maybe);
    assert SafeFrom(ids, s3);
    assert SafeFrom(ids, s2);
    assert SafeFrom(ids, s1);
  }

  /** shutdown_state_clear_dirty is safe on the record it marked, and when repeated on the cleared one. */
  lemma ClearSafe(ids: set<Env>, s: State)
    requires s.phase == Closing && s.todo == MarkProg(s.dur, 0) && s.pend == [] && s.armed == None
    requires s.dur == Clean(s.env) || (s.dur == Dirty(s.env) && s.maybe == Some(s.env) && s.env in ids)
    ensures SafeFrom(ids, s)
  {
    var c := Digest(s.env.usc, s.env.uuid, 0);
    assert s.todo == [Do(PutDirty(0)), Flush, Do(PutCsum(c)), Flush];
    var s1 := RunInstr(s);
    assert s1.todo == [Flush, Do(PutCsum(c)), Flush] && s1.pend == [PutDirty(0)];
    OneImage(ids, s.dur, PutDirty(0), s.maybe);
    var s2 := RunInstr(s1);
    ApplyOne(s.dur, PutDirty(0));
    assert s2.dur == s.dur.(dirty := 0) && s2.todo == [Do(PutCsum(c)), Flush];
    var s2' := s2.(todo := [Flush, Do(PutCsum(c)), Flush]);
    assert RunInstr(s2') == s2;
    CleanTailSafe(ids, s2', c);
    assert SafeFrom(ids, s2);
    assert SafeFrom(ids, s1);
  }

  /** The second half of set_dirty, once the flag is durable and the checksum still the old one. */
  lemma MarkTailSafe(ids: set<Env>, s: State, c: Csum)
    requires s.phase == Marking && s.todo == [Do(PutCsum(c)), Flush] && s.pend == [] && s.armed == None
    requires s.dur == Clean(s.env).(dirty := 1) && c == Digest(s.env.usc, s.env.uuid, 1)
    requires s.env in ids
    ensures SafeFrom(ids, s)
  {
    DirtyChangesDigest(s.env.usc, s.env.uuid);
    var s1 := RunInstr(s);
    assert s1.todo == [Flush] && s1.pend == [PutCsum(c)] && s1.maybe == Some(s.env);
    OneImage(ids, s.dur, PutCsum(c), s1.maybe);
    var s2 := RunInstr(s1);
    ApplyOne(s.dur, PutCsum(c));
    assert s2.todo == [] && s2.dur == Dirty(s.env);
    assert SafeFrom(ids, s2);
    assert SafeFrom(ids, s1);
  }

  /** shutdown_state_set_dirty is safe: until its last store is out, the checksum gives the new flag away. */
  lemma MarkSafe(ids: set<Env>, s: State)
    requires s.phase == Marking && s.todo == MarkProg(s.dur, 1) && s.pend == [] && s.armed == None
    requires s.dur == Clean(s.env) && s.env in ids
    ensures SafeFrom(ids, s)
  {
    var c := Digest(s.env.usc, s.env.uuid, 1);
    DirtyChangesDigest(s.env.usc, s.env.uuid);
    assert s.todo == [Do(PutDirty(1)), Flush, Do(PutCsum(c)), Flush];
    var s1 := RunInstr(s);
    assert s1.todo == [Flush, Do(PutCsum(c)), Flush] && s1.pend == [PutDirty(1)];
    OneImage(ids, s.dur, PutDirty(1), s1.maybe);
    var s2 := RunInstr(s1);
    ApplyOne(s.dur, PutDirty(1));
    assert s2.todo == [Do(PutCsum(c)), Flush];
    MarkTailSafe(ids, s2, c);
    assert SafeFrom(ids, s1);
  }

  /** A benign record half way through clearing: without a collision, a zero checksum alone makes no dirty record intact. */
  lemma ClearingImages(ids: set<Env>, r: Rec, maybe: Option<Env>)
    requires Benign(ids, r, maybe)
    ensures ImagesBenign(ids, r, [Zero, PutCsum(NONE)], maybe)
    ensures ApplyAll(r, [Zero, PutCsum(NONE)]) == ZERO
  {
    assert Benign(ids, r.(csum := NONE), maybe);
    OneImage(ids, r, PutCsum(NONE), maybe);
    CleanImages(ids, ZERO, [PutCsum(NONE)], maybe);
    assert [Zero, PutCsum(NONE)][1..] == [PutCsum(NONE)];
    ApplyCons(r, Zero, [PutCsum(NONE)]);
    ApplyOne(ZERO, PutCsum(NONE));
    assert [Zero, PutCsum(NONE)] == [Zero] + [PutCsum(NONE)];
  }

  lemma RunDo(s: State, st: Store, rest: seq<Instr>)
    requires s.phase == Checked && s.todo == [Do(st)] + rest && rest != []
    ensures RunInstr(s) == s.(pend := s.pend + [st], todo := rest)
  {
    assert s.todo[1..] == rest;
  }

  lemma RunFlush(s: State, rest: seq<Instr>)
    requires s.phase == Checked && s.todo == [Flush] + rest && rest != []
    ensures RunInstr(s) == s.(dur := ApplyAll(s.dur, s.pend), pend := [], todo := rest, maybe := None)
  {
    assert s.todo[1..] == rest;
  }

  /** The first half of reinit, up to its first flush; what comes after it is known to be safe. */
  lemma ClearingSafe(ids: set<Env>, s: State, tail: seq<Instr>)
    requires s.phase == Checked && s.todo == [Do(Zero), Do(PutCsum(NONE)), Flush] + tail && s.pend == []
    requires tail != [] && Benign(ids, s.dur, s.maybe)
    requires SafeFrom(ids, s.(dur := ZERO, todo := tail, maybe := None))
    ensures SafeFrom(ids, s)
  {
    var r, c := s.dur, Do(PutCsum(NONE));
    assert s.todo == [Do(Zero)] + ([c] + ([Flush] + tail));
    RunDo(s, Zero, [c] + ([Flush] + tail));
    var s1 := RunInstr(s);
    assert s1.pend == [Zero];
    OneImage(ids, r, Zero, s1.maybe);
    RunDo(s1, PutCsum(NONE), [Flush] + tail);
    var s2 := RunInstr(s1);
    assert s2.pend == [Zero, PutCsum(NONE)];
    ClearingImages(ids, r, s2.maybe);
    RunFlush(s2, tail);
    assert SafeFrom(ids, s2);
    assert SafeFrom(ids, s1);
  }

  /** shutdown_state_reinit is safe on every benign record. */
  lemma ReinitSafe(ids: set<Env>, s: State)
    requires s.phase == Checked && s.todo == ReinitProg(s.env.usc, s.env.uuid) && s.pend == [] && s.armed == None
    requires Benign(ids, s.dur, s.maybe)
    ensures SafeFrom(ids, s)
  {
    var v := s.env;
    var tail := [Do(PutUuid(v.uuid)), Do(PutUsc(v.usc)), Do(PutDirty(0)), Flush,
                 Do(PutCsum(Digest(v.usc, v.uuid, 0))), Flush];
    assert s.todo == [Do(Zero), Do(PutCsum(NONE)), Flush] + tail;
    FieldsSafe(ids, s.(dur := ZERO, todo := tail, maybe := None));
    ClearingSafe(ids, s, tail);
  }

  lemma ApplyFields(v: Env)
    ensures ApplyAll(ZERO, [PutUuid(v.uuid), PutUsc(v.usc), PutDirty(0)]) == Rec(v.usc, v.uuid, 0, NONE)
  {
    ApplyCons(ZERO, PutUuid(v.uuid), [PutUsc(v.usc), PutDirty(0)]);
    ApplyCons(Rec(0, v.uuid, 0, NONE), PutUsc(v.usc), [PutDirty(0)]);
    ApplyOne(Rec(v.usc, v.uuid, 0, NONE), PutDirty(0));
    assert [PutUuid(v.uuid), PutUsc(v.usc), PutDirty(0)] == [PutUuid(v.uuid)] + ([PutUsc(v.usc)] + [PutDirty(0)]);
  }

  /** The second half of reinit, from the cleared record. */
  lemma FieldsSafe(ids: set<Env>, s: State)
    requires s.phase == Checked && s.pend == [] && s.armed == None && s.dur == ZERO
    requires s.todo == [Do(PutUuid(s.env.uuid)), Do(PutUsc(s.env.usc)), Do(PutDirty(0)), Flush,
                        Do(PutCsum(Digest(s.env.usc, s.env.uuid, 0))), Flush]
    ensures SafeFrom(ids, s)
  {
    var v := s.env;
    var c := Digest(v.usc, v.uuid, 0);
    CleanImages(ids, s.dur, s.pend, s.maybe);
    var s1 := RunInstr(s);
    assert s1.todo == [Do(PutUsc(v.usc)), Do(PutDirty(0)), Flush, Do(PutCsum(c)), Flush] && s1.pend == [PutUuid(v.uuid)];
    CleanImages(ids, s1.dur, s1.pend, s1.maybe);
    var s2 := RunInstr(s1);
    assert s2.todo == [Do(PutDirty(0)), Flush, Do(PutCsum(c)), Flush] && s2.pend == [PutUuid(v.uuid), PutUsc(v.usc)];
    CleanImages(ids, s2.dur, s2.pend, s2.maybe);
    var s3 := RunInstr(s2);
    assert s3.todo == [Flush, Do(PutCsum(c)), Flush];
    assert s3.pend == [PutUuid(v.uuid), PutUsc(v.usc), PutDirty(0)];
    ApplyFields(v);
    CleanTailSafe(ids, s3, c);
    assert SafeFrom(ids, s2);
    assert SafeFrom(ids, s1);
  }

  // ----- every step keeps the invariant

  lemma ActKeepsInv(ids: set<Env>, s: State, a: Action)
    requires Inv(ids, s) && Enabled(s, a) && s.env in ids
    ensures Inv(ids, Act(s, a))
  {
    match a
    case Begin => BeginKeepsInv(ids, s);
    case Step => StepKeepsInv(ids, s);
    case Mark => MarkSafe(ids, Act(s, a));
    case Close =>
      if s.modified {
        ClearSafe(ids, Act(s, a));
      }
    case End =>
    case Crash(keep, env) =>
      SafeImages(ids, s);
      ImageBenign(ids, s.dur, s.pend, s.maybe, keep);
  }

  lemma SafeImages(ids: set<Env>, s: State)
    requires SafeFrom(ids, s)
    ensures ImagesBenign(ids, s.dur, s.pend, s.maybe)
  {
  }

  lemma BeginKeepsInv(ids: set<Env>, s: State)
    requires Inv(ids, s) && s.phase == Idle
    ensures Inv(ids, Act(s, Begin))
  {
    var t := Act(s, Begin);
    assert s.todo == [] && s.pend == [];
    var (ret, prog) := Check(Clean(s.env), s.dur);
    if prog != [] {
      ReinitSafe(ids, t);
    }
  }

  lemma StepKeepsInv(ids: set<Env>, s: State)
    requires Inv(ids, s) && s.todo != []
    ensures Inv(ids, RunInstr(s))
  {
    assert SafeFrom(ids, RunInstr(s));
  }

  /** The identities the hardware has in a run. */
  function EnvsOf(run: seq<State>): set<Env> {
    set i | 0 <= i < |run| :: run[i].env
  }

  lemma {:induction false} RunKeepsInv(ids: set<Env>, run: seq<State>, acts: seq<Action>, i: nat)
    requires IsRun(run, acts) && i < |run|
    requires forall j :: 0 <= j < i ==> run[j].env in ids
    ensures Inv(ids, run[i])
  {
    if i > 0 {
      RunKeepsInv(ids, run, acts, i - 1);
      ActKeepsInv(ids, run[i - 1], acts[i - 1]);
    } else {
      assert Benign(ids, ZERO, None);
    }
  }

  /** A verdict of 0 leaves the current identity, a clear flag and a correct checksum, in every run. */
  lemma CheckedRecordIsCurrent(run: seq<State>, acts: seq<Action>, i: nat)
    requires IsRun(run, acts) && i < |run| && run[i].phase == Checked && run[i].todo == []
    ensures run[i].dur == Clean(run[i].env) && run[i].pend == []
  {
    RunKeepsInv(EnvsOf(run), run, acts, i);
  }

  // ----- detection

  /** The count has risen since set_dirty completed, and nothing has touched the flag. */
  predicate Tainted(s: State) {
    s.armed.Some? && s.env.usc > s.armed.value.usc
  }

  /** Once tainted, always tainted: every check says 1, and no step changes the record. */
  lemma TaintedStays(ids: set<Env>, s: State, a: Action)
    requires Inv(ids, s) && Tainted(s) && Enabled(s, a)
    ensures Tainted(Act(s, a)) && Act(s, a).dur == s.dur
    ensures a.Begin? ==> Act(s, a).phase == Failed
  {
    assert s.todo == [] && s.pend == [];
    assert s.phase == Idle || s.phase == Failed;
  }

  lemma {:induction false} TaintedForever(run: seq<State>, acts: seq<Action>, i: nat, j: nat)
    requires IsRun(run, acts) && i <= j < |run| && Tainted(run[i])
    ensures Tainted(run[j]) && run[j].dur == run[i].dur
  {
    if i < j {
      TaintedForever(run, acts, i, j - 1);
      RunKeepsInv(EnvsOf(run), run, acts, j - 1);
      TaintedStays(EnvsOf(run), run[j - 1], acts[j - 1]);
    }
  }

  /**
    Detection over whole runs: if the unsafe-shutdown count rises while a pool is
    open, every later check says 1 and leaves the record as it was, however many
    sessions come and go in between.
  */
  lemma UnsafeShutdownReported(run: seq<State>, acts: seq<Action>, i: nat, j: nat)
    requires IsRun(run, acts) && i < j < |acts|
    requires run[i].phase == Open && acts[i].Crash? && acts[i].env.usc > run[i].env.usc
    requires acts[j].Begin?
    ensures run[j + 1].phase == Failed
    ensures run[j + 1].dur == run[i].dur == Dirty(run[i].env)
  {
    RunKeepsInv(EnvsOf(run), run, acts, i);
    assert run[i].todo == [];
    assert run[i + 1] == Act(run[i], acts[i]);
    TaintedForever(run, acts, i + 1, j);
    RunKeepsInv(EnvsOf(run), run, acts, j);
    TaintedStays(EnvsOf(run), run[j], acts[j]);
  }

  // ----- operations run to their end

  /** From `i` to `j` only instructions of the operation in progress are run, and at `j` none is left. */
  ghost predicate RunsToEnd(run: seq<State>, acts: seq<Action>, i: nat, j: nat)
    requires |run| == |acts| + 1
  {
    i < j < |run| && run[j].todo == [] && forall k :: i < k < j ==> acts[k].Step?
  }

  /** An operation that runs to its end leads to the phase it is for. */
  lemma {:induction false} StepsSettle(run: seq<State>, acts: seq<Action>, i: nat, j: nat)
    requires IsRun(run, acts) && i <= j < |run| && run[i].todo != [] && forall k :: i <= k < j ==> acts[k].Step?
    ensures run[j].env == run[i].env
    ensures run[j].phase == if run[j].todo == [] then Settled(run[i].phase) else run[i].phase
  {
    if i < j {
      StepsSettle(run, acts, i, j - 1);
      assert run[j - 1 + 1] == Act(run[j - 1], acts[j - 1]);
    }
  }

  /** set_dirty that runs to its end opens the pool, with the mark durable. */
  lemma MarkOpens(run: seq<State>, acts: seq<Action>, i: nat, j: nat)
    requires IsRun(run, acts) && RunsToEnd(run, acts, i, j) && acts[i].Mark?
    ensures run[j].phase == Open && run[j].dur == Dirty(run[i].env) && run[j].pend == [] && run[j].env == run[i].env
  {
    assert run[i + 1] == Act(run[i], acts[i]);
    StepsSettle(run, acts, i + 1, j);
    RunKeepsInv(EnvsOf(run), run, acts, j);
  }

  /** Closing an open pool, run to its end, leaves a clean durable record: no check says 1 on it, whatever the identity. */
  lemma CloseClears(run: seq<State>, acts: seq<Action>, i: nat, j: nat)
    requires IsRun(run, acts) && RunsToEnd(run, acts, i, j) && run[i].phase == Open && acts[i].Close?
    ensures run[j].phase == Closed && run[j].dur == Clean(run[i].env) && run[j].pend == [] && run[j].maybe == None
    ensures forall w :: Check(Clean(w), run[j].dur).0 == 0
  {
    RunKeepsInv(EnvsOf(run), run, acts, i);
    assert run[i + 1] == Act(run[i], acts[i]);
    StepsSettle(run, acts, i + 1, j);
    RunKeepsInv(EnvsOf(run), run, acts, j);
  }

  /** Nothing in the state can make the record dirty. */
  predicate Undirtied(s: State) {
    && s.dur.dirty == 0
    && (forall k :: 0 <= k < |s.pend| ==> Cleanly(s.pend[k]))
    && (forall k :: 0 <= k < |s.todo| && s.todo[k].Do? ==> Cleanly(s.todo[k].st))
  }

  lemma {:induction false} CleanApply(r: Rec, sts: seq<Store>)
    requires r.dirty == 0 && forall k :: 0 <= k < |sts| ==> Cleanly(sts[k])
    ensures ApplyAll(r, sts).dirty == 0
    decreases sts
  {
    if sts != [] {
      CleanApply(Apply(r, sts[0]), sts[1..]);
    }
  }

  lemma {:induction false} CleanImage(r: Rec, sts: seq<Store>, keep: seq<bool>)
    requires |keep| == |sts| && r.dirty == 0 && forall k :: 0 <= k < |sts| ==> Cleanly(sts[k])
    ensures Image(r, sts, keep).dirty == 0
    decreases sts
  {
    if sts != [] {
      CleanImage(if keep[0] then Apply(r, sts[0]) else r, sts[1..], keep[1..]);
    }
  }

  /** Only set_dirty can change that, and until then every check says 0. */
  lemma UndirtiedStays(s: State, a: Action)
    requires Undirtied(s) && Enabled(s, a) && !a.Mark?
    ensures Undirtied(Act(s, a))
    ensures a.Begin? ==> Act(s, a).phase == Checked
  {
    match a
    case Begin =>
    case Step => CleanApply(s.dur, s.pend);
    case Close =>
    case End =>
    case Crash(keep, env) => CleanImage(s.dur, s.pend, keep);
  }

  /**
    A pool that was closed is never reported, however its identity changes and
    however many sessions are interrupted, until the next set_dirty.
  */
  lemma ClosedPoolNeverReported(run: seq<State>, acts: seq<Action>, i: nat, j: nat, m: nat)
    requires IsRun(run, acts) && RunsToEnd(run, acts, i, j) && run[i].phase == Open && acts[i].Close?
    requires j <= m < |acts| && acts[m].Begin? && forall k :: j <= k < m ==> !acts[k].Mark?
    ensures run[m + 1].phase == Checked
  {
    CloseClears(run, acts, i, j);
    UndirtiedUntil(run, acts, j, m);
    UndirtiedStays(run[m], acts[m]);
    assert run[m + 1] == Act(run[m], acts[m]);
  }

  lemma {:induction false} UndirtiedUntil(run: seq<State>, acts: seq<Action>, j: nat, m: nat)
    requires IsRun(run, acts) && j <= m < |run| && Undirtied(run[j]) && forall k :: j <= k < m ==> !acts[k].Mark?
    ensures Undirtied(run[m])
  {
    if j < m {
      UndirtiedUntil(run, acts, j, m - 1);
      UndirtiedStays(run[m - 1], acts[m - 1]);
      assert run[m - 1 + 1] == Act(run[m - 1], acts[m - 1]);
    }
  }

  // ----- no false alarm

  /** The check at step `j` says 1 although no identity changed under a set_dirty that had issued its last store. */
  predicate FalseAlarm(run: seq<State>, acts: seq<Action>, j: nat)
    requires |run| == |acts| + 1 && j < |acts|
  {
    acts[j].Begin? && run[j + 1].phase == Failed && !(run[j].maybe.Some? && run[j].maybe.value != run[j].env)
  }

  lemma {:induction false} CountNeverFalls(run: seq<State>, acts: seq<Action>, i: nat, j: nat)
    requires IsRun(run, acts) && i <= j < |run|
    ensures run[i].env.usc <= run[j].env.usc
  {
    if i < j {
      CountNeverFalls(run, acts, i, j - 1);
      assert run[j - 1 + 1] == Act(run[j - 1], acts[j - 1]);
    }
  }

  /** A false alarm needs a collision: of an identity the hardware had earlier in the run, and no longer has. */
  lemma FalseAlarmMeansCollision(run: seq<State>, acts: seq<Action>, j: nat) returns (i: nat)
    requires IsRun(run, acts) && j < |acts| && FalseAlarm(run, acts, j)
    ensures i <= j && run[i].env != run[j].env && run[i].env.usc <= run[j].env.usc && !NoCollision(run[i].env)
  {
    var s, ids := run[j], EnvsOf(run[..j + 1]);
    RunKeepsInv(ids, run, acts, j);
    assert run[j + 1] == Act(s, Begin);
    CheckMeaning(Clean(s.env), s.dur);
    assert s.pend == [] && Benign(ids, s.dur, s.maybe);
    i :| 0 <= i < |run[..j + 1]| && run[..j + 1][i].env == Identity(s.dur);
    CountNeverFalls(run, acts, i, j);
  }

  lemma NoFalseAlarm(run: seq<State>, acts: seq<Action>, j: nat)
    requires IsRun(run, acts) && j < |acts|
    requires forall i :: 0 <= i <= j && run[i].env != run[j].env ==> NoCollision(run[i].env)
    ensures !FalseAlarm(run, acts, j)
  {
    if FalseAlarm(run, acts, j) {
      var i := FalseAlarmMeansCollision(run, acts, j);
    }
  }

  /** Step `k` is a flush of a check or of a close: it retires whatever was marked before. */
  predicate Retires(run: seq<State>, acts: seq<Action>, k: nat)
    requires |run| == |acts| + 1 && k < |acts|
  {
    acts[k].Step? && run[k].todo != [] && run[k].todo[0].Flush? && (run[k].phase == Checked || run[k].phase == Closing)
  }

  /**
    What `maybe` stands for: set_dirty issued its checksum store under that
    identity earlier in the run, and nothing has retired the mark since.
  */
  lemma {:induction false} MaybeMeansMarked(run: seq<State>, acts: seq<Action>, j: nat) returns (i: nat)
    requires IsRun(run, acts) && j < |run| && run[j].maybe.Some?
    ensures i < j && run[i].env == run[j].maybe.value
    ensures acts[i].Step? && run[i].phase == Marking && run[i].todo != [] && run[i].todo[0].Do?
            && run[i].todo[0].st.PutCsum?
    ensures forall k :: i < k < j ==> !Retires(run, acts, k)
  {
    assert run[j - 1 + 1] == Act(run[j - 1], acts[j - 1]);
    if run[j].maybe == run[j - 1].maybe && run[j - 1].maybe.Some?
      && !(acts[j - 1].Step? && run[j - 1].phase == Marking && run[j - 1].todo[0].Do? && run[j - 1].todo[0].st.PutCsum?) {
      i := MaybeMeansMarked(run, acts, j - 1);
    } else {
      i := j - 1;
    }
  }

  // ----- the collision condition is exact

  ghost predicate Confined(run: seq<State>, v: Env, w: Env) {
    forall i :: 0 <= i < |run| ==> run[i].env == v || run[i].env == w
  }

  /** A run in which no set_dirty ever got as far as its checksum, ending in the given state. */
  ghost predicate Unmarked(run: seq<State>, acts: seq<Action>, v: Env, w: Env, last: State) {
    && IsRun(run, acts) && Confined(run, v, w) && last == run[|run| - 1]
    && forall i :: 0 <= i < |run| ==> run[i].maybe == None
  }

  lemma Extend(run: seq<State>, acts: seq<Action>, v: Env, w: Env, last: State, a: Action)
    returns (run': seq<State>, acts': seq<Action>)
    requires Unmarked(run, acts, v, w, last) && Enabled(last, a)
    requires Act(last, a).maybe == None && (Act(last, a).env == v || Act(last, a).env == w)
    ensures Unmarked(run', acts', v, w, Act(last, a))
    ensures |acts'| == |acts| + 1 && acts'[|acts|] == a && run'[|acts|] == last
  {
    run', acts' := run + [Act(last, a)], acts + [a];
    forall i | 0 <= i < |acts'| ensures Enabled(run'[i], acts'[i]) && run'[i + 1] == Act(run'[i], acts'[i]) {
      if i < |acts| {
        assert run'[i] == run[i] && run'[i + 1] == run[i + 1];
      }
    }
  }

  /** Let the operation of a checking session run to its end. */
  lemma {:induction false} Finish(run: seq<State>, acts: seq<Action>, v: Env, w: Env, last: State)
    returns (run': seq<State>, acts': seq<Action>, end: State)
    requires Unmarked(run, acts, v, w, last) && last.phase == Checked
    ensures Unmarked(run', acts', v, w, end)
    ensures end.phase == Checked && end.todo == [] && end.env == last.env
    decreases |last.todo|
  {
    run', acts', end := run, acts, last;
    if last.todo != [] {
      run', acts' := Extend(run, acts, v, w, last, Step);
      run', acts', end := Finish(run', acts', v, w, RunInstr(last));
    }
  }

  /** A freshly cleared pool, checked under `v`, then set_dirty half way: the flag is durable, the checksum still to come. */
  lemma HalfMarked(v: Env, w: Env) returns (run: seq<State>, acts: seq<Action>, s: State)
    ensures Unmarked(run, acts, v, w, s)
    ensures s.phase == Marking && s.pend == [] && s.env == v && s.dur == Clean(v).(dirty := 1)
    ensures s.todo == [Do(PutCsum(Digest(v.usc, v.uuid, 1))), Flush]
  {
    run, acts, s := [Start(v)], [], Start(v);
    run, acts := Extend(run, acts, v, w, s, Begin);
    s := Act(s, Begin);
    CheckMeaning(Clean(v), ZERO);
    assert s.phase == Checked by {
      assert !(Intact(ZERO) && ZERO.dirty != 0);
    }
    run, acts, s := Finish(run, acts, v, w, s);
    CheckedRecordIsCurrent(run, acts, |run| - 1);
    run, acts := Extend(run, acts, v, w, s, Mark);
    s := Act(s, Mark);
    var c := Digest(v.usc, v.uuid, 1);
    assert s.todo == [Do(PutDirty(1)), Flush, Do(PutCsum(c)), Flush];
    run, acts := Extend(run, acts, v, w, s, Step);
    s := RunInstr(s);
    assert s.todo == [Flush, Do(PutCsum(c)), Flush] && s.pend == [PutDirty(1)];
    run, acts := Extend(run, acts, v, w, s, Step);
    ApplyOne(Clean(v), PutDirty(1));
    s := RunInstr(s);
  }

  /** ... and interrupted there. */
  lemma InterruptedMark(v: Env, w: Env) returns (run: seq<State>, acts: seq<Action>, s: State)
    ensures Unmarked(run, acts, v, w, s)
    ensures s.phase == Idle && s.todo == [] && s.pend == [] && s.env == v && s.dur == Clean(v).(dirty := 1)
  {
    run, acts, s := HalfMarked(v, w);
    run, acts := Extend(run, acts, v, w, s, Crash([], v));
    s := Act(s, Crash([], v));
  }

  /** In this run no session ever gets to have the pool open. */
  ghost predicate NeverOpen(run: seq<State>, acts: seq<Action>, last: State) {
    IsRun(run, acts) && last == run[|acts|] && forall i :: 0 <= i < |run| ==> run[i].phase != Open
  }

  /** An alarm does not need a set_dirty that returned: it is enough that its last store survives a crash. */
  lemma AlarmWithoutOpen(v: Env, w: Env) returns (run: seq<State>, acts: seq<Action>, s: State)
    requires v != w && v.usc <= w.usc
    ensures NeverOpen(run, acts, s) && s.phase == Failed
  {
    run, acts, s := HalfMarked(v, w);
    forall i | 0 <= i < |run| ensures run[i].phase != Open {
      RunKeepsInv(EnvsOf(run), run, acts, i);
    }
    run, acts := Onward(run, acts, s, Step);
    s := RunInstr(s);
    assert s.pend == [PutCsum(Digest(v.usc, v.uuid, 1))];
    run, acts := Onward(run, acts, s, Crash([true], w));
    StoreKept(s.dur, s.pend[0]);
    s := Act(s, Crash([true], w));
    assert s.dur == Dirty(v);
    CheckMeaning(Clean(w), Dirty(v));
    run, acts := Onward(run, acts, s, Begin);
    s := Act(s, Begin);
  }

  lemma StoreKept(r: Rec, st: Store)
    ensures Image(r, [st], [true]) == Apply(r, st)
  {
    assert Image(r, [st], [true]) == Image(Apply(r, st), [st][1..], [true][1..]);
  }

  lemma Onward(run: seq<State>, acts: seq<Action>, last: State, a: Action) returns (run': seq<State>, acts': seq<Action>)
    requires NeverOpen(run, acts, last) && Enabled(last, a) && Act(last, a).phase != Open
    ensures NeverOpen(run', acts', Act(last, a))
  {
    run', acts' := run + [Act(last, a)], acts + [a];
    forall i | 0 <= i < |acts'| ensures Enabled(run'[i], acts'[i]) && run'[i + 1] == Act(run'[i], acts'[i]) {
      if i < |acts| {
        assert run'[i] == run[i] && run'[i + 1] == run[i + 1];
      }
    }
  }

  /**
    If the dirty record's checksum is zero, a false alarm is possible: the next
    session's reinit is interrupted when its zero checksum is durable and its
    clearing of the record is not, which turns the abandoned mark into an intact one.
  */
  lemma CollisionGivesFalseAlarm(v: Env, w: Env) returns (run: seq<State>, acts: seq<Action>)
    requires !NoCollision(v) && v != w && v.usc <= w.usc
    ensures IsRun(run, acts) && Confined(run, v, w)
    ensures |acts| > 0 && FalseAlarm(run, acts, |acts| - 1)
  {
    var s;
    run, acts, s := InterruptedMark(v, w);
    DirtyChangesDigest(v.usc, v.uuid);
    var tail := [Do(PutUuid(v.uuid)), Do(PutUsc(v.usc)), Do(PutDirty(0)), Flush,
                 Do(PutCsum(Digest(v.usc, v.uuid, 0))), Flush];
    assert ReinitProg(v.usc, v.uuid) == [Do(Zero), Do(PutCsum(NONE)), Flush] + tail;
    run, acts := Extend(run, acts, v, w, s, Begin);
    s := Act(s, Begin);
    assert s.phase == Checked && s.todo == [Do(Zero), Do(PutCsum(NONE)), Flush] + tail;
    run, acts := Extend(run, acts, v, w, s, Step);
    s := RunInstr(s);
    assert s.todo == [Do(PutCsum(NONE)), Flush] + tail && s.pend == [Zero];
    run, acts := Extend(run, acts, v, w, s, Step);
    s := RunInstr(s);
    assert s.pend == [Zero, PutCsum(NONE)];
    var a := Crash([false, true], w);
    run, acts := Extend(run, acts, v, w, s, a);
    OnlyChecksumKept(s.dur);
    s := Act(s, a);
    assert s.dur == Dirty(v);
    CheckMeaning(Clean(w), Dirty(v));
    run, acts := Extend(run, acts, v, w, s, Begin);
  }

  lemma OnlyChecksumKept(r: Rec)
    ensures Image(r, [Zero, PutCsum(NONE)], [false, true]) == r.(csum := NONE)
  {
    var sts, keep := [Zero, PutCsum(NONE)], [false, true];
    assert sts[1..] == [PutCsum(NONE)] && keep[1..] == [true];
    assert sts[1..][1..] == [] && keep[1..][1..] == [];
    assert Image(r, sts, keep) == Image(r, [PutCsum(NONE)], [true]);
  }

  ghost predicate Within(run: seq<State>, ids: iset<Env>) {
    forall i :: 0 <= i < |run| ==> run[i].env in ids
  }

  /** No identity that another one can follow has a collision. */
  ghost predicate NoneFollowed(ids: iset<Env>) {
    forall v, w :: v in ids && w in ids && v != w && v.usc <= w.usc ==> NoCollision(v)
  }

  /** For hardware with any set of identities, false alarms are impossible exactly when none that can change has a collision. */
  lemma NoFalseAlarmIff(ids: iset<Env>)
    ensures NoneFollowed(ids) <==>
            forall run: seq<State>, acts: seq<Action>, j: nat {:trigger FalseAlarm(run, acts, j)} ::
              IsRun(run, acts) && Within(run, ids) && j < |acts| ==> !FalseAlarm(run, acts, j)
  {
    if NoneFollowed(ids) {
      forall run: seq<State>, acts: seq<Action>, j: nat {:trigger FalseAlarm(run, acts, j)}
        | IsRun(run, acts) && Within(run, ids) && j < |acts|
        ensures !FalseAlarm(run, acts, j)
      {
        if FalseAlarm(run, acts, j) {
          var i := FalseAlarmMeansCollision(run, acts, j);
        }
      }
    } else {
      var v, w :| v in ids && w in ids && v != w && v.usc <= w.usc && !NoCollision(v);
      var run, acts := CollisionGivesFalseAlarm(v, w);
      assert FalseAlarm(run, acts, |acts| - 1);
    }
  }

  /** Such identities exist: count 1 with identity 2^32 - 2. */
  lemma CollisionExists()
    ensures !NoCollision(Env(1, 0xFFFF_FFFE))
  {
  }
}
