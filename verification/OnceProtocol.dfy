/**
  os_once of src/common/os_thread_windows.c: a once-only call built on
  compare-and-swap, for any number of threads and any interleaving.
*/
module OnceProtocol {

  datatype Pc =
    | Load              // about to read the once word
    | Claim(tmp: int)   // read `tmp`, about to compare-and-swap it to 1
    | InCall            // running func
    | Publish           // func has returned, about to compare-and-swap 1 to 2
    | Returned(ret: int)

  /** `owner` is the thread whose claim succeeded; `calls` and `finished` count entries to and returns from func. */
  datatype Sys = Sys(once: int, ts: seq<Pc>, owner: int, calls: nat, finished: nat)

  function Start(n: nat, v: int): Sys {
    Sys(v, seq(n, _ => Load), -1, 0, 0)
  }

  predicate Enabled(s: Sys, i: nat) {
    i < |s.ts| && !s.ts[i].Returned?
  }

  /** One atomic step of thread i. */
  function Step(s: Sys, i: nat): Sys
    requires Enabled(s, i)
  {
    match s.ts[i]
    case Load =>
      s.(ts := s.ts[i := if s.once == 2 then Returned(0) else if s.once == 1 then Load else Claim(s.once)])
    case Claim(tmp) =>
      if s.once == tmp then s.(once := 1, ts := s.ts[i := InCall], owner := i, calls := s.calls + 1)
      else s.(ts := s.ts[i := Load])
    case InCall => s.(ts := s.ts[i := Publish], finished := s.finished + 1)
    case Publish =>
      if s.once == 1 then s.(once := 2, ts := s.ts[i := Load])
      else s.(ts := s.ts[i := Returned(-1)])
  }

  ghost predicate IsRun(n: nat, v: int, run: seq<Sys>, acts: seq<nat>) {
    && |run| == |acts| + 1 && run[0] == Start(n, v)
    && forall k :: 0 <= k < |acts| ==> Enabled(run[k], acts[k]) && run[k + 1] == Step(run[k], acts[k])
  }

  /** The owner, and nobody else, is between claiming and publishing; others have read the initial value or nothing. */
  predicate ThreadInv(s: Sys, v: int, i: nat, pc: Pc) {
    match pc
    case Load => s.once == 1 ==> i != s.owner
    case Claim(tmp) => tmp == v && (s.once == 1 ==> i != s.owner)
    case InCall => s.once == 1 && i == s.owner && s.finished == 0
    case Publish => s.once == 1 && i == s.owner && s.finished == 1
    case Returned(ret) => s.once == 2 && ret == 0
  }

  ghost predicate Inv(s: Sys, v: int) {
    && (s.once == v || s.once == 1 || s.once == 2)
    && (s.once == v ==> s.calls == 0 && s.finished == 0)
    && (s.once == 1 ==> s.calls == 1 && 0 <= s.owner < |s.ts|)
    && (s.once == 2 ==> s.calls == 1 && s.finished == 1)
    && forall i :: 0 <= i < |s.ts| ==> ThreadInv(s, v, i, s.ts[i])
  }

  lemma StepKeepsInv(s: Sys, v: int, i: nat)
    requires Inv(s, v) && v != 1 && v != 2 && Enabled(s, i)
    ensures Inv(Step(s, i), v)
  {
    var t := Step(s, i);
    assert ThreadInv(s, v, i, s.ts[i]);
    forall j | 0 <= j < |t.ts| ensures ThreadInv(t, v, j, t.ts[j]) {
      assert ThreadInv(s, v, j, s.ts[j]);
    }
  }

  lemma {:induction false} RunKeepsInv(n: nat, v: int, run: seq<Sys>, acts: seq<nat>, k: nat)
    requires IsRun(n, v, run, acts) && k < |run| && v != 1 && v != 2
    ensures Inv(run[k], v) && |run[k].ts| == n
  {
    if k > 0 {
      RunKeepsInv(n, v, run, acts, k - 1);
      StepKeepsInv(run[k - 1], v, acts[k - 1]);
    }
  }

  /**
    From any initial value other than 1 and 2: func is entered at most once; once
    any thread has returned it has been called exactly once and has finished; no
    thread returns the error.
  */
  lemma CalledExactlyOnce(n: nat, v: int, run: seq<Sys>, acts: seq<nat>, k: nat, i: nat)
    requires IsRun(n, v, run, acts) && k < |run| && v != 1 && v != 2 && i < n
    ensures run[k].calls <= 1 && |run[k].ts| == n
    ensures run[k].ts[i].Returned? ==> run[k].calls == 1 && run[k].finished == 1 && run[k].ts[i].ret == 0
  {
    RunKeepsInv(n, v, run, acts, k);
    assert ThreadInv(run[k], v, i, run[k].ts[i]);
  }

  /** At most one thread is inside func. */
  lemma OneCaller(n: nat, v: int, run: seq<Sys>, acts: seq<nat>, k: nat, i: nat, j: nat)
    requires IsRun(n, v, run, acts) && k < |run| && v != 1 && v != 2 && i < n && j < n
    ensures |run[k].ts| == n
    ensures run[k].ts[i] == InCall && run[k].ts[j] == InCall ==> i == j
  {
    RunKeepsInv(n, v, run, acts, k);
    assert ThreadInv(run[k], v, i, run[k].ts[i]) && ThreadInv(run[k], v, j, run[k].ts[j]);
  }

  // ----- progress

  /** A thread that only finds the call still in progress. */
  predicate Spins(s: Sys, i: nat)
    requires i < |s.ts|
  {
    s.ts[i] == Load && s.once == 1
  }

  /** While some thread has not returned, some thread can do better than spin. */
  lemma SomeoneAdvances(s: Sys, v: int, i: nat) returns (j: nat)
    requires Inv(s, v) && v != 1 && v != 2 && Enabled(s, i)
    ensures Enabled(s, j) && !Spins(s, j)
  {
    j := if s.once == 1 then s.owner else i;
    assert ThreadInv(s, v, j, s.ts[j]);
  }

  function Weight(pc: Pc, untouched: bool): nat {
    match pc
    case Load => if untouched then 9 else 2
    case Claim(_) => 8
    case InCall => 7
    case Publish => 6
    case Returned(_) => 0
  }

  function Total(ts: seq<Pc>, untouched: bool): nat {
    if ts == [] then 0 else Weight(ts[0], untouched) + Total(ts[1..], untouched)
  }

  lemma {:induction false} TotalUpdate(ts: seq<Pc>, i: nat, pc: Pc, untouched: bool)
    requires i < |ts|
    ensures Total(ts[i := pc], untouched) == Total(ts, untouched) - Weight(ts[i], untouched) + Weight(pc, untouched)
  {
    if i == 0 {
      assert ts[0 := pc][1..] == ts[1..];
    } else {
      TotalUpdate(ts[1..], i - 1, pc, untouched);
      assert ts[i := pc][1..] == ts[1..][i - 1 := pc];
    }
  }

  lemma {:induction false} TotalShrinks(ts: seq<Pc>)
    ensures Total(ts, false) <= Total(ts, true) <= 9 * |ts|
  {
    if ts != [] {
      TotalShrinks(ts[1..]);
    }
  }

  function Rank(s: Sys, v: int): nat { Total(s.ts, s.once == v) }

  /** Every step that is not a spin lowers the rank, and a spin keeps it: threads take at most nine such steps each. */
  lemma StepRank(s: Sys, v: int, i: nat)
    requires Inv(s, v) && v != 1 && v != 2 && Enabled(s, i)
    ensures Rank(Step(s, i), v) <= Rank(s, v) - if Spins(s, i) then 0 else 1
  {
    var t := Step(s, i);
    assert ThreadInv(s, v, i, s.ts[i]);
    assert t.ts == s.ts[i := t.ts[i]];
    TotalUpdate(s.ts, i, t.ts[i], t.once == v);
    TotalUpdate(s.ts, i, t.ts[i], s.once == v);
    TotalShrinks(t.ts);
  }

  /** The steps of a run that are not spins. */
  function Advances(run: seq<Sys>, acts: seq<nat>): nat
    requires |run| == |acts| + 1 && forall k :: 0 <= k < |acts| ==> acts[k] < |run[k].ts|
    decreases |acts|
  {
    if acts == [] then 0
    else
      var m := |acts| - 1;
      Advances(run[..m + 1], acts[..m]) + if Spins(run[m], acts[m]) then 0 else 1
  }

  /** Over every run, n threads take at most 9 n steps that are not spins. */
  lemma {:induction false} AdvancesBounded(n: nat, v: int, run: seq<Sys>, acts: seq<nat>)
    requires IsRun(n, v, run, acts) && v != 1 && v != 2
    ensures forall k :: 0 <= k < |acts| ==> acts[k] < |run[k].ts|
    ensures Advances(run, acts) + Rank(run[|acts|], v) <= 9 * n
    decreases |acts|
  {
    if acts == [] {
      TotalShrinks(run[0].ts);
    } else {
      var m := |acts| - 1;
      AdvancesBounded(n, v, run[..m + 1], acts[..m]);
      RunKeepsInv(n, v, run, acts, m);
      StepRank(run[m], v, acts[m]);
    }
  }

  /** From the value 1 with no caller, no thread ever gets past its first read. */
  lemma {:induction false} StartedAtOneNeverReturns(n: nat, run: seq<Sys>, acts: seq<nat>, k: nat)
    requires IsRun(n, 1, run, acts) && k < |run|
    ensures run[k] == run[0]
  {
    if k > 0 {
      StartedAtOneNeverReturns(n, run, acts, k - 1);
      assert run[k] == Step(run[k - 1], acts[k - 1]);
      var i := acts[k - 1];
      assert run[0].ts[i := Load] == run[0].ts;
    }
  }

  /** A thread's steps while no other thread moves. */
  function Solo(s: Sys, i: nat, n: nat): Sys
    decreases n
  {
    if n == 0 || !Enabled(s, i) then s else Solo(Step(s, i), i, n - 1)
  }

  /** What os_once does for a thread that is alone: from any value but 1 and 2 it calls func once; from 2 it calls nothing. */
  lemma AloneCallsOnce(n: nat, v: int, i: nat)
    requires i < n && v != 1
    ensures var s := Solo(Start(n, v), i, 5);
            && s.once == 2 && |s.ts| == n && s.ts[i] == Returned(0)
            && s.calls == s.finished == if v == 2 then 0 else 1
  {
    var t0 := Start(n, v);
    var t1 := Step(t0, i);
    if v != 2 {
      var t2 := Step(t1, i);
      var t3 := Step(t2, i);
      var t4 := Step(t3, i);
      var t5 := Step(t4, i);
      assert Solo(t4, i, 1) == t5;
      assert Solo(t3, i, 2) == t5;
      assert Solo(t2, i, 3) == t5;
      assert Solo(t1, i, 4) == t5;
    } else {
      assert Solo(t1, i, 4) == t1;
    }
  }
}
