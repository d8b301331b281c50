/** Whole runs of register and unregister calls on the mapping list, sequential and interleaved. */
module MappingRuns {
  import opened Arith
  import opened TrackerList
  import opened Wrappers
  import opened MapTracker

  datatype Op = Register(addr: nat, len: nat, kind: Kind) | Unregister(addr: nat, len: nat)

  /** What the system guarantees of a registered mapping: non-empty, in the lower half. */
  predicate Legal(op: Op) {
    op.Register? ==> op.len > 0 && op.addr + op.len <= HALF
  }

  /** The bytes an operation is about. */
  predicate Covers(op: Op, page: nat, x: int)
    requires page > 0
  {
    op.addr <= x < op.addr + if op.Register? then op.len else RoundUp(op.len, page)
  }

  /** One call: the list, the return value and the number of the next allocation. */
  function Exec(s: seq<Tracker>, tick: nat, op: Op, page: nat, alloc: nat -> bool): Swept
    requires page > 0
  {
    match op
    case Register(addr, len, kind) =>
      var (r, ret) := Registered(s, Tracker(addr, addr + len, kind), alloc(tick));
      Swept(r, ret, tick + 1)
    case Unregister(addr, len) => Unregistered(s, addr, len, tick, page, alloc)
  }

  datatype Outcome = Outcome(list: seq<Tracker>, tick: nat, rets: seq<int>)

  /** A run of calls, from the empty list. */
  function Run(ops: seq<Op>, page: nat, alloc: nat -> bool): (r: Outcome)
    requires page > 0
    ensures |r.rets| == |ops|
  {
    if ops == [] then Outcome([], 0, [])
    else
      var n := |ops| - 1;
      var p := Run(ops[..n], page, alloc);
      var e := Exec(p.list, p.tick, ops[n], page, alloc);
      Outcome(e.list, e.tick, p.rets + [e.ret])
  }

  /** Whether an unregister call is one that every split refuses. */
  predicate IsRefused(op: Op, page: nat)
    requires page > 0
  {
    op.Unregister? && Refused(op.addr, op.addr + RoundUp(op.len, page), page)
  }

  /** Byte `x` is in the range of a removal, and not behind the place where it stopped. */
  predicate Removes(s: seq<Tracker>, addr: nat, len: nat, tick: nat, page: nat, alloc: nat -> bool, x: int)
    requires page > 0
  {
    var end := addr + RoundUp(len, page);
    addr <= x < end
    && (Unregistered(s, addr, len, tick, page, alloc).ret == 0 || x < StopAt(s, addr, end, Refused(addr, end, page), alloc, tick))
  }

  lemma RemoveAt(s: seq<Tracker>, addr: nat, len: nat, tick: nat, page: nat, alloc: nat -> bool, x: int)
    requires page > 0 && WellFormed(s)
    ensures WellFormed(Unregistered(s, addr, len, tick, page, alloc).list)
    ensures At(Unregistered(s, addr, len, tick, page, alloc).list, x)
         == if Removes(s, addr, len, tick, page, alloc, x) then None else At(s, x)
  {
    var end := addr + RoundUp(len, page);
    SweepChain(s, addr, end, Refused(addr, end, page), alloc, tick, 0);
    SweepAt(s, addr, end, Refused(addr, end, page), alloc, tick, 0, x);
  }

  /** What a call decides about byte `x`, if anything: a registration tracks it, a removal does not. */
  function Settles(s: seq<Tracker>, tick: nat, op: Op, page: nat, alloc: nat -> bool, x: int): Option<Option<Kind>>
    requires page > 0
  {
    match op
    case Register(_, _, kind) =>
      if Covers(op, page, x) && Exec(s, tick, op, page, alloc).ret == 0 then Some(Some(kind)) else None
    case Unregister(addr, len) => if Removes(s, addr, len, tick, page, alloc, x) then Some(None) else None
  }

  /** The reference: the last decision about byte `x` in a run of calls. */
  function Replay(ops: seq<Op>, page: nat, alloc: nat -> bool, x: int): Option<Kind>
    requires page > 0
  {
    if ops == [] then None
    else
      var n := |ops| - 1;
      var p := Run(ops[..n], page, alloc);
      match Settles(p.list, p.tick, ops[n], page, alloc, x)
      case Some(k) => k
      case None => Replay(ops[..n], page, alloc, x)
  }

  /**
    What the return values say about the reference: a successful call settles the
    bytes it covers, a failed registration and a refused removal settle nothing,
    and a removal that failed half way can only drop bytes it covers.
  */
  lemma SettlesByReturn(s: seq<Tracker>, tick: nat, op: Op, page: nat, alloc: nat -> bool, x: int)
    requires page > 0 && WellFormed(s)
    ensures var e := Exec(s, tick, op, page, alloc);
            var d := Settles(s, tick, op, page, alloc, x);
            && (Covers(op, page, x) && e.ret == 0 ==> d == Some(if op.Register? then Some(op.kind) else None))
            && (!Covers(op, page, x) || (op.Register? && e.ret != 0) ==> d == None)
            && (IsRefused(op, page) && e.ret != 0 ==> e.list == s)
            && (op.Unregister? ==> d == None || d == Some(None))
  {
    if op.Unregister? {
      var end := op.addr + RoundUp(op.len, page);
      SweepFailure(s, op.addr, end, Refused(op.addr, end, page), alloc, tick);
    }
  }

  /** One call, on the map the list stands for. */
  lemma ExecRefines(s: seq<Tracker>, tick: nat, op: Op, page: nat, alloc: nat -> bool, x: int)
    requires page > 0 && WellFormed(s) && Legal(op)
    ensures var e := Exec(s, tick, op, page, alloc);
            && WellFormed(e.list)
            && (e.ret == 0 || e.ret == -1)
            && (op.Register? ==> (e.ret == 0 <==> alloc(tick) && forall y :: Covers(op, page, y) ==> At(s, y) == None))
            && At(e.list, x) == match Settles(s, tick, op, page, alloc, x) case Some(k) => k case None => At(s, x)
  {
    match op
    case Register(addr, len, kind) =>
      RegisteredRefines(s, Tracker(addr, addr + len, kind), alloc(tick));
      var t := Tracker(addr, addr + len, kind);
      assert forall y :: t.Has(y) <==> Covers(op, page, y);
    case Unregister(addr, len) =>
      RemoveAt(s, addr, len, tick, page, alloc, x);
      var end := addr + RoundUp(len, page);
      SweepFailure(s, addr, end, Refused(addr, end, page), alloc, tick);
  }

  /** With memory, unregistering whole pages succeeds, and none of their bytes is tracked any more. */
  lemma PagesUnregistered(s: seq<Tracker>, tick: nat, addr: nat, len: nat, page: nat, alloc: nat -> bool)
    requires page > 0 && WellFormed(s) && addr % page == 0 && len > 0 && forall i :: alloc(i)
    ensures var e := Exec(s, tick, Unregister(addr, len), page, alloc);
            e.ret == 0 && forall x :: addr <= x < addr + RoundUp(len, page) ==> At(e.list, x) == None
  {
    UnregisterOutcome(s, tick, addr, len, page, alloc, 0);
    forall x | addr <= x < addr + RoundUp(len, page)
      ensures At(Exec(s, tick, Unregister(addr, len), page, alloc).list, x) == None
    {
      UnregisterOutcome(s, tick, addr, len, page, alloc, x);
    }
  }

  /** Over every run the list stays sorted, disjoint and in the lower half, and every byte is what the reference says. */
  lemma {:induction false} RunRefines(ops: seq<Op>, page: nat, alloc: nat -> bool, x: int)
    requires page > 0 && forall i :: 0 <= i < |ops| ==> Legal(ops[i])
    ensures var r := Run(ops, page, alloc);
            Ordered(r.list) && InLowerHalf(r.list) && At(r.list, x) == Replay(ops, page, alloc, x)
  {
    RunStaysWellFormed(ops, page, alloc);
    WellFormedIff(Run(ops, page, alloc).list);
    if ops != [] {
      var n := |ops| - 1;
      var p := Run(ops[..n], page, alloc);
      RunStaysWellFormed(ops[..n], page, alloc);
      RunRefines(ops[..n], page, alloc, x);
      ExecRefines(p.list, p.tick, ops[n], page, alloc, x);
    }
  }

  lemma {:induction false} RunStaysWellFormed(ops: seq<Op>, page: nat, alloc: nat -> bool)
    requires page > 0 && forall i :: 0 <= i < |ops| ==> Legal(ops[i])
    ensures WellFormed(Run(ops, page, alloc).list)
  {
    if ops != [] {
      var n := |ops| - 1;
      var p := Run(ops[..n], page, alloc);
      RunStaysWellFormed(ops[..n], page, alloc);
      ExecRefines(p.list, p.tick, ops[n], page, alloc, 0);
    }
  }

  lemma RunSnoc(ops: seq<Op>, i: nat, page: nat, alloc: nat -> bool)
    requires page > 0 && i < |ops|
    ensures var p := Run(ops[..i], page, alloc);
            var e := Exec(p.list, p.tick, ops[i], page, alloc);
            Run(ops[..i + 1], page, alloc) == Outcome(e.list, e.tick, p.rets + [e.ret])
  {
    assert ops[..i + 1][..i] == ops[..i];
  }

  /** One call on the heap list. */
  method Call(m: Mappings, op: Op, page: nat, alloc: nat -> bool, tick: nat) returns (ret: int, tick': nat)
    requires page > 0 && m.Valid() && Legal(op)
    modifies m.queue, m.queue.Repr()
    ensures m.Valid() && fresh(m.queue.Repr() - old(m.queue.Repr()))
    ensures Swept(m.Contents(), ret, tick') == Exec(old(m.Contents()), tick, op, page, alloc)
  {
    match op {
      case Register(addr, len, kind) =>
        ghost var k;
        ret, k := m.Register(addr, len, kind, alloc(tick));
        tick' := tick + 1;
      case Unregister(addr, len) =>
        ret, tick' := m.Unregister(addr, len, page, alloc, tick);
    }
  }

  /** The heap list does what the run says. */
  method RunOnHeap(ops: seq<Op>, page: nat, alloc: nat -> bool) returns (m: Mappings, rets: seq<int>)
    requires page > 0 && forall i :: 0 <= i < |ops| ==> Legal(ops[i])
    ensures m.Valid() && m.Contents() == Run(ops, page, alloc).list
    ensures rets == Run(ops, page, alloc).rets
  {
    m := new Mappings();
    rets := [];
    var tick: nat := 0;
    for i := 0 to |ops|
      invariant m.Valid() && fresh(m.queue) && fresh(m.queue.Repr())
      invariant Outcome(m.Contents(), tick, rets) == Run(ops[..i], page, alloc)
    {
      RunSnoc(ops, i, page, alloc);
      var ret;
      ret, tick := Call(m, ops[i], page, alloc, tick);
      rets := rets + [ret];
    }
    assert ops[..|ops|] == ops;
  }

  // ----- register as two separately locked steps

  /** Inserting a tracker keeps the list well formed exactly when nothing overlaps it at that moment. */
  lemma InsertSafeIff(s: seq<Tracker>, t: Tracker)
    requires WellFormed(s) && t.base < t.end <= HALF
    ensures WellFormed(InsertByBase(s, t)) <==> NoOverlap(s, t.base, t.end)
  {
    if NoOverlap(s, t.base, t.end) {
      InsertByBaseAdds(s, t, 0, 0);
    } else {
      InsertClash(s, t, 0);
    }
  }

  lemma {:induction false} InsertClash(s: seq<Tracker>, t: Tracker, lo: int)
    requires Chain(s, lo) && t.base < t.end && !NoOverlap(s, t.base, t.end)
    ensures !Chain(InsertByBase(s, t), lo)
  {
    if s[0].base >= t.base {
      assert ([t] + s)[1..] == s;
      if t.end <= s[0].base {
        assert !Overlaps(s[0], t.base, t.end);
        NothingBeyond(s[1..], s[0].end, t.base, t.end);
      }
    } else {
      var r := InsertByBase(s[1..], t);
      assert ([s[0]] + r)[1..] == r;
      if Overlaps(s[0], t.base, t.end) {
        if Chain(r, s[0].end) {
          InsertedBound(s[1..], t, s[0].end);
        }
      } else {
        InsertClash(s[1..], t, s[0].end);
      }
    }
  }

  lemma {:induction false} InsertedBound(s: seq<Tracker>, t: Tracker, lo: int)
    requires Chain(InsertByBase(s, t), lo)
    ensures lo <= t.base
  {
    var r := InsertByBase(s, t);
    if s != [] && s[0].base < t.base {
      assert r[1..] == InsertByBase(s[1..], t);
      InsertedBound(s[1..], t, s[0].end);
    }
  }

  /** Shared list, and the registrations that have passed their check but are not inserted yet. */
  datatype Shared = Shared(list: seq<Tracker>, inFlight: multiset<Tracker>)

  const NOBODY: Shared := Shared([], multiset{})

  /** `GiveUp` is a registration whose allocation failed. */
  datatype Step = Check(t: Tracker) | GiveUp(t: Tracker) | Insert(t: Tracker) | Remove(addr: nat, len: nat, tick: nat)

  /** One locked step of some thread. */
  function Next(c: Shared, st: Step, page: nat, alloc: nat -> bool): Shared
    requires page > 0
  {
    match st
    case Check(t) => if NoOverlap(c.list, t.base, t.end) then c.(inFlight := c.inFlight + multiset{t}) else c
    case GiveUp(t) => c.(inFlight := c.inFlight - multiset{t})
    case Insert(t) =>
      if t in c.inFlight then Shared(InsertByBase(c.list, t), c.inFlight - multiset{t}) else c
    case Remove(addr, len, tick) => c.(list := Unregistered(c.list, addr, len, tick, page, alloc).list)
  }

  predicate Apart(a: Tracker, b: Tracker) {
    a.end <= b.base || b.end <= a.base
  }

  /** The environment's promise: mappings in flight at the same time do not share a byte. */
  ghost predicate FlightsApart(c: Shared) {
    && (forall t :: t in c.inFlight ==> t.base < t.end <= HALF && c.inFlight[t] == 1)
    && (forall a, b :: a in c.inFlight && b in c.inFlight && a != b ==> Apart(a, b))
  }

  ghost predicate SharedInv(c: Shared) {
    WellFormed(c.list) && forall t :: t in c.inFlight ==> NoOverlap(c.list, t.base, t.end)
  }

  /** A list without overlap keeps having none when a tracker apart from the range is inserted. */
  lemma {:induction false} InsertKeepsNoOverlap(s: seq<Tracker>, t: Tracker, u: Tracker)
    requires NoOverlap(s, u.base, u.end) && t.base < t.end && u.base < u.end && Apart(t, u)
    ensures NoOverlap(InsertByBase(s, t), u.base, u.end)
  {
    if s == [] {
    } else if s[0].base >= t.base {
      assert ([t] + s)[1..] == s;
    } else {
      InsertKeepsNoOverlap(s[1..], t, u);
      assert ([s[0]] + InsertByBase(s[1..], t))[1..] == InsertByBase(s[1..], t);
    }
  }

  /** A sweep only removes bytes, so it creates no overlap. */
  lemma SweepKeepsNoOverlap(s: seq<Tracker>, addr: nat, end: nat, bad: bool, alloc: nat -> bool, tick: nat, u: Tracker)
    requires WellFormed(s) && addr <= end && (addr == end ==> bad)
    requires u.base < u.end && NoOverlap(s, u.base, u.end)
    ensures NoOverlap(Sweep(s, addr, end, bad, alloc, tick).list, u.base, u.end)
  {
    var r := Sweep(s, addr, end, bad, alloc, tick).list;
    SweepChain(s, addr, end, bad, alloc, tick, 0);
    NoOverlapMeansUntracked(s, u.base, u.end);
    forall x | u.base <= x < u.end ensures At(r, x) == None {
      SweepAt(s, addr, end, bad, alloc, tick, 0, x);
    }
    NoOverlapMeansUntracked(r, u.base, u.end);
  }

  lemma InsertKeepsInv(c: Shared, t: Tracker, rest: multiset<Tracker>)
    requires SharedInv(c) && FlightsApart(c) && t in c.inFlight && rest == c.inFlight - multiset{t}
    ensures SharedInv(Shared(InsertByBase(c.list, t), rest))
  {
    InsertByBaseAdds(c.list, t, 0, 0);
    forall u | u in rest ensures NoOverlap(InsertByBase(c.list, t), u.base, u.end) {
      assert u in c.inFlight && u != t;
      InsertKeepsNoOverlap(c.list, t, u);
    }
  }

  lemma RemoveKeepsInv(c: Shared, addr: nat, len: nat, tick: nat, page: nat, alloc: nat -> bool)
    requires page > 0 && SharedInv(c) && FlightsApart(c)
    ensures SharedInv(c.(list := Unregistered(c.list, addr, len, tick, page, alloc).list))
  {
    var end := addr + RoundUp(len, page);
    var bad := Refused(addr, end, page);
    SweepChain(c.list, addr, end, bad, alloc, tick, 0);
    forall u | u in c.inFlight ensures NoOverlap(Sweep(c.list, addr, end, bad, alloc, tick).list, u.base, u.end) {
      SweepKeepsNoOverlap(c.list, addr, end, bad, alloc, tick, u);
    }
  }

  /** Under the promise, every interleaving of the locked steps keeps the list sorted and disjoint. */
  lemma NextKeepsInv(c: Shared, st: Step, page: nat, alloc: nat -> bool)
    requires page > 0 && SharedInv(c) && FlightsApart(c)
    ensures SharedInv(Next(c, st, page, alloc))
  {
    match st
    case Check(t) =>
    case GiveUp(t) =>
    case Insert(t) =>
      if t in c.inFlight {
        InsertKeepsInv(c, t, c.inFlight - multiset{t});
      }
    case Remove(addr, len, tick) =>
      RemoveKeepsInv(c, addr, len, tick, page, alloc);
  }

  /** The state after a run of steps, from the empty list. */
  function Interleave(steps: seq<Step>, page: nat, alloc: nat -> bool): Shared
    requires page > 0
    decreases |steps|
  {
    if steps == [] then NOBODY
    else Next(Interleave(steps[..|steps| - 1], page, alloc), steps[|steps| - 1], page, alloc)
  }

  ghost predicate AlwaysApart(steps: seq<Step>, page: nat, alloc: nat -> bool)
    requires page > 0
  {
    forall i :: 0 <= i < |steps| ==> FlightsApart(Interleave(steps[..i], page, alloc))
  }

  lemma ApartBefore(steps: seq<Step>, page: nat, alloc: nat -> bool)
    requires page > 0 && steps != [] && AlwaysApart(steps, page, alloc)
    ensures AlwaysApart(steps[..|steps| - 1], page, alloc)
    ensures FlightsApart(Interleave(steps[..|steps| - 1], page, alloc))
  {
    var n := |steps| - 1;
    forall i | 0 <= i < n ensures FlightsApart(Interleave(steps[..n][..i], page, alloc)) {
      assert steps[..n][..i] == steps[..i];
    }
  }

  /** Every interleaved run, under the promise at every moment. */
  lemma {:induction false} InterleavedRunSafe(steps: seq<Step>, page: nat, alloc: nat -> bool)
    requires page > 0 && AlwaysApart(steps, page, alloc)
    ensures SharedInv(Interleave(steps, page, alloc))
    decreases |steps|
  {
    if steps != [] {
      var n := |steps| - 1;
      ApartBefore(steps, page, alloc);
      InterleavedRunSafe(steps[..n], page, alloc);
      NextKeepsInv(Interleave(steps[..n], page, alloc), steps[n], page, alloc);
    }
  }

  /** What a step decides about byte `x`, if anything. */
  function Decides(c: Shared, st: Step, page: nat, alloc: nat -> bool, x: int): Option<Option<Kind>>
    requires page > 0
  {
    match st
    case Check(_) => None
    case GiveUp(_) => None
    case Insert(t) => if t in c.inFlight && t.Has(x) then Some(Some(t.kind)) else None
    case Remove(addr, len, tick) => if Removes(c.list, addr, len, tick, page, alloc, x) then Some(None) else None
  }

  /** The last decision about byte `x` in a run of steps. */
  function Ledger(steps: seq<Step>, page: nat, alloc: nat -> bool, x: int): Option<Kind>
    requires page > 0
    decreases |steps|
  {
    if steps == [] then None
    else
      var n := |steps| - 1;
      match Decides(Interleave(steps[..n], page, alloc), steps[n], page, alloc, x)
      case Some(k) => k
      case None => Ledger(steps[..n], page, alloc, x)
  }

  lemma NextAt(c: Shared, st: Step, page: nat, alloc: nat -> bool, x: int)
    requires page > 0 && SharedInv(c) && FlightsApart(c)
    ensures At(Next(c, st, page, alloc).list, x)
         == match Decides(c, st, page, alloc, x) case Some(k) => k case None => At(c.list, x)
  {
    match st
    case Check(t) =>
    case GiveUp(t) =>
    case Insert(t) =>
      if t in c.inFlight {
        InsertByBaseAdds(c.list, t, 0, x);
      }
    case Remove(addr, len, tick) =>
      RemoveAt(c.list, addr, len, tick, page, alloc, x);
  }

  /** Which bytes are tracked after an interleaved run: those whose last decision was an insertion, with its kind. */
  lemma {:induction false} InterleavedRunAt(steps: seq<Step>, page: nat, alloc: nat -> bool, x: int)
    requires page > 0 && AlwaysApart(steps, page, alloc)
    ensures At(Interleave(steps, page, alloc).list, x) == Ledger(steps, page, alloc, x)
    decreases |steps|
  {
    if steps != [] {
      var n := |steps| - 1;
      ApartBefore(steps, page, alloc);
      InterleavedRunSafe(steps[..n], page, alloc);
      InterleavedRunAt(steps[..n], page, alloc, x);
      NextAt(Interleave(steps[..n], page, alloc), steps[n], page, alloc, x);
    }
  }

  lemma InterleaveSnoc(steps: seq<Step>, st: Step, page: nat, alloc: nat -> bool)
    requires page > 0
    ensures Interleave(steps + [st], page, alloc) == Next(Interleave(steps, page, alloc), st, page, alloc)
  {
    assert (steps + [st])[..|steps|] == steps;
  }

  /**
    Without a step of another thread in between, the two halves of register are
    the whole call, and a failed allocation leaves everything as it was.
  */
  lemma HalvesMakeRegister(c: Shared, t: Tracker, page: nat, alloc: nat -> bool)
    requires page > 0 && t !in c.inFlight
    ensures var checked := Next(c, Check(t), page, alloc);
            && Next(checked, Insert(t), page, alloc) == c.(list := Registered(c.list, t, true).0)
            && Next(checked, GiveUp(t), page, alloc) == c
            && (t in checked.inFlight <==> Registered(c.list, t, true).1 == 0)
  {
    assert c.inFlight + multiset{t} - multiset{t} == c.inFlight;
    assert c.inFlight - multiset{t} == c.inFlight;
  }

  /** Two registrations that have both passed their check on the empty list. */
  lemma BothInFlight(a: Tracker, b: Tracker, page: nat, alloc: nat -> bool)
    requires page > 0
    ensures Interleave([Check(a)] + [Check(b)], page, alloc) == Shared([], multiset{a, b})
  {
    InterleaveSnoc([], Check(a), page, alloc);
    assert [] + [Check(a)] == [Check(a)];
    InterleaveSnoc([Check(a)], Check(b), page, alloc);
    assert multiset{a} + multiset{b} == multiset{a, b};
  }

  lemma OneInserted(a: Tracker, b: Tracker, page: nat, alloc: nat -> bool)
    requires page > 0
    ensures Next(Shared([], multiset{a, b}), Insert(a), page, alloc) == Shared([a], multiset{b})
  {
    assert multiset{a, b} - multiset{a} == multiset{b};
  }

  /**
    The promise is needed: two overlapping registrations, or the same one twice,
    checked before either is inserted break the list.
  */
  lemma RaceBreaksList(a: Tracker, b: Tracker, page: nat, alloc: nat -> bool)
    requires page > 0 && a.base < a.end <= HALF && b.base < b.end <= HALF && !Apart(a, b)
    ensures !Ordered(Interleave([Check(a), Check(b), Insert(a), Insert(b)], page, alloc).list)
  {
    var checks := [Check(a)] + [Check(b)];
    BothInFlight(a, b, page, alloc);
    InterleaveSnoc(checks, Insert(a), page, alloc);
    OneInserted(a, b, page, alloc);
    InterleaveSnoc(checks + [Insert(a)], Insert(b), page, alloc);
    assert checks + [Insert(a)] + [Insert(b)] == [Check(a), Check(b), Insert(a), Insert(b)];
    InsertSafeIff([a], b);
    WellFormedIff(InsertByBase([a], b));
  }
}
