/** The mapping list of src/common/mmap.c on the heap: the sorted queue of trackers and the operations on it. */
module MapTracker {
  import opened Arith
  import opened CircularQueue
  import opened TrackerList
  import opened Wrappers

  /** In the lower half the comparer's stop position is the insertion position by base address. */
  lemma StopIsInsertByBase(s: seq<Tracker>, t: Tracker, k: nat)
    requires WellFormed(s) && t.base < HALF && StopsAt(Comparer, s, t, k)
    ensures InsertByBase(s, t) == s[..k] + [t] + s[k..]
  {
    forall i | 0 <= i < |s| ensures Comparer(s[i], t) < 0 <==> s[i].base < t.base {
      ChainIndex(s, 0, i);
      ComparerOrdersIff(s[i], t);
    }
    InsertByBaseAt(s, t, k);
  }

  /** The comparer orders the trackers of a well-formed list against `t` exactly when `t` is near enough to the first. */
  lemma NearOrders(s: seq<Tracker>, t: Tracker, i: nat)
    requires WellFormed(s) && t.base < TWO_64 && i < |s| && t.base - s[0].base <= HALF
    ensures Comparer(s[i], t) < 0 <==> s[i].base < t.base
  {
    ChainIndex(s, 0, i);
    if i > 0 {
      ChainPair(s, 0, 0, i);
      ChainIndex(s, 0, 0);
    }
    ComparerOrdersIff(s[i], t);
  }

  /** A tracker too far above the first one is put in front of it. */
  lemma FarGoesFirst(s: seq<Tracker>, t: Tracker, k: nat)
    requires WellFormed(s) && t.base < TWO_64 && StopsAt(Comparer, s, t, k) && s != [] && t.base - s[0].base > HALF
    ensures k == 0
  {
    ChainIndex(s, 0, 0);
    ComparerOrdersIff(s[0], t);
  }

  /**
    A tracker that overlaps nothing, put where sorted insertion stops, keeps the
    list ordered exactly when it is not empty and starts at most 2^63 above the
    first tracker.
  */
  lemma InsertionOrderedIff(s: seq<Tracker>, t: Tracker, k: nat)
    requires WellFormed(s) && t.base < TWO_64 && NoOverlap(s, t.base, t.end) && StopsAt(Comparer, s, t, k)
    ensures Ordered(s[..k] + [t] + s[k..]) <==> t.base < t.end && (s == [] || t.base - s[0].base <= HALF)
  {
    if t.base >= t.end {
      assert (s[..k] + [t] + s[k..])[k] == t;
    } else if s != [] && t.base - s[0].base > HALF {
      FarUnordered(s, t, k);
    } else {
      NearOrdered(s, t, k);
    }
  }

  lemma FarUnordered(s: seq<Tracker>, t: Tracker, k: nat)
    requires WellFormed(s) && t.base < TWO_64 && StopsAt(Comparer, s, t, k)
    requires t.base < t.end && s != [] && t.base - s[0].base > HALF
    ensures !Ordered(s[..k] + [t] + s[k..])
  {
    FarGoesFirst(s, t, k);
    var r := s[..k] + [t] + s[k..];
    assert r[0] == t && r[1] == s[0];
  }

  lemma NearOrdered(s: seq<Tracker>, t: Tracker, k: nat)
    requires WellFormed(s) && t.base < TWO_64 && NoOverlap(s, t.base, t.end) && StopsAt(Comparer, s, t, k)
    requires t.base < t.end && (s == [] || t.base - s[0].base <= HALF)
    ensures Ordered(s[..k] + [t] + s[k..])
  {
    WellFormedIff(s);
    NoOverlapIff(s, t.base, t.end);
    forall i | 0 <= i < |s| ensures if i < k then s[i].end <= t.base else t.end <= s[i].base {
      NearOrders(s, t, i);
      if i >= k {
        NearOrders(s, t, k);
        assert i > k ==> s[k].end <= s[i].base;
      }
    }
    InsertedOrdered(s, t, k);
  }

  lemma InsertedOrdered(s: seq<Tracker>, t: Tracker, k: nat)
    requires Ordered(s) && k <= |s| && t.base < t.end
    requires forall i :: 0 <= i < |s| ==> if i < k then s[i].end <= t.base else t.end <= s[i].base
    ensures Ordered(s[..k] + [t] + s[k..])
  {
  }

  /** What putting a range where sorted insertion stops does to a well-formed list. */
  lemma RegistrationOutcome(s: seq<Tracker>, t: Tracker, k: nat)
    requires WellFormed(s) && t.base < TWO_64 && NoOverlap(s, t.base, t.end) && StopsAt(Comparer, s, t, k)
    ensures var r := s[..k] + [t] + s[k..];
            && (Ordered(r) <==> t.base < t.end && (s == [] || t.base - s[0].base <= HALF))
            && (WellFormed(r) <==> t.base < t.end <= HALF)
            && (t.base < t.end <= HALF ==> r == InsertByBase(s, t))
  {
    InsertionOrderedIff(s, t, k);
    if t.base < t.end <= HALF {
      StopIsInsertByBase(s, t, k);
      InsertByBaseAdds(s, t, 0, 0);
    } else if WellFormed(s[..k] + [t] + s[k..]) {
      ChainIndex(s[..k] + [t] + s[k..], 0, k);
    }
  }

  /** Registering [2^63 + 4096, 2^63 + 8192) beside [0, 4096) leaves the list out of order. */
  lemma UpperHalfGoesFirst(kind: Kind)
    ensures var low, high := Tracker(0, 4096, kind), Tracker(HALF + 4096, HALF + 8192, kind);
            && NoOverlap([low], high.base, high.end) && StopsAt(Comparer, [low], high, 0)
            && !Ordered([high] + [low])
  {
    var low, high := Tracker(0, 4096, kind), Tracker(HALF + 4096, HALF + 8192, kind);
    assert ([high] + [low])[0] == high && ([high] + [low])[1] == low;
  }

  /** `rest` with the low and the high piece of `t` inserted. */
  ghost function WithPieces(rest: seq<Tracker>, t: Tracker, addr: nat, end: nat): seq<Tracker> {
    var one := if addr > t.base then InsertByBase(rest, t.(end := addr)) else rest;
    if end < t.end then InsertByBase(one, t.(base := end)) else one
  }

  /** Re-inserting the two pieces of a removed tracker puts them back at its place. */
  lemma {:induction false} PiecesGoBack(p: seq<Tracker>, t: Tracker, q: seq<Tracker>, addr: nat, end: nat)
    requires addr < end && Overlaps(t, addr, end) && (q != [] ==> t.end <= q[0].base)
    requires forall i :: 0 <= i < |p| ==> p[i].base < t.base
    ensures WithPieces(p + q, t, addr, end) == p + Cut(t, addr, end) + q
  {
    if p == [] {
      assert p + q == q && p + Cut(t, addr, end) + q == Cut(t, addr, end) + q;
      PiecesInFront(t, q, addr, end);
    } else {
      PiecesGoBack(p[1..], t, q, addr, end);
      HeadStays(p[0], p[1..] + q, t, addr, end);
      HeadOut(p, q);
      HeadOut(p, Cut(t, addr, end));
      HeadOut(p + Cut(t, addr, end), q);
    }
  }

  lemma HeadOut(p: seq<Tracker>, q: seq<Tracker>)
    requires p != []
    ensures p + q == [p[0]] + (p[1..] + q) && (p + q)[1..] == p[1..] + q && (p + q)[0] == p[0]
  {
  }

  lemma PiecesInFront(t: Tracker, q: seq<Tracker>, addr: nat, end: nat)
    requires addr < end && Overlaps(t, addr, end) && (q != [] ==> t.end <= q[0].base)
    ensures WithPieces(q, t, addr, end) == Cut(t, addr, end) + q
  {
    var low, high := t.(end := addr), t.(base := end);
    if addr > t.base && end < t.end {
      assert ([low] + q)[1..] == q;
      assert InsertByBase([low] + q, high) == [low] + ([high] + q);
      assert Cut(t, addr, end) == [low] + [high];
    } else if addr > t.base {
      assert Cut(t, addr, end) == [low];
    } else if end < t.end {
      assert Cut(t, addr, end) == [high];
    }
  }

  lemma HeadStays(h: Tracker, rest: seq<Tracker>, t: Tracker, addr: nat, end: nat)
    requires h.base < t.base && addr < end && Overlaps(t, addr, end)
    ensures WithPieces([h] + rest, t, addr, end) == [h] + WithPieces(rest, t, addr, end)
  {
    assert ([h] + rest)[1..] == rest;
    var one := InsertByBase(rest, t.(end := addr));
    assert ([h] + one)[1..] == one;
  }

  /** What lies before and after position `k` of a well-formed list. */
  lemma Around(s: seq<Tracker>, k: nat)
    requires WellFormed(s) && k < |s|
    ensures s[k].base < s[k].end <= HALF
    ensures Chain(s[..k], 0) && Chain(s[k + 1..], s[k].end)
    ensures forall i :: 0 <= i < k ==> s[i].base < s[i].end <= s[k].base
  {
    ChainIndex(s, 0, k);
    ChainPrefix(s, 0, k);
    forall i | 0 <= i < k ensures s[i].base < s[i].end <= s[k].base {
      ChainIndex(s, 0, i);
      ChainPair(s, 0, i, k);
    }
  }

  /** Every list on the way through a split is well formed, and the last one has the pieces in place. */
  lemma SplitLists(p: seq<Tracker>, t: Tracker, q: seq<Tracker>, addr: nat, end: nat)
    requires Chain(p, 0) && Chain(q, t.end) && t.base < t.end <= HALF
    requires forall i :: 0 <= i < |p| ==> p[i].base < p[i].end <= t.base
    requires addr < end && Overlaps(t, addr, end)
    ensures WellFormed(p + q)
    ensures addr > t.base ==> WellFormed(InsertByBase(p + q, t.(end := addr)))
    ensures WellFormed(p + Cut(t, addr, end) + q)
    ensures p + Cut(t, addr, end) + q == WithPieces(p + q, t, addr, end)
  {
    ChainConcat(p, q, 0, t.end);
    CutChain(t, addr, end);
    ChainConcat(p, Cut(t, addr, end), 0, t.base);
    ChainConcat(p + Cut(t, addr, end), q, 0, t.end);
    PiecesGoBack(p, t, q, addr, end);
    if addr > t.base {
      var low := t.(end := addr);
      NothingBeyond(q, t.end, low.base, low.end);
      NoOverlapIff(p, low.base, low.end);
      NoOverlapConcat(p, q, low.base, low.end);
      InsertByBaseAdds(p + q, low, 0, 0);
    }
  }

  /** What is left of the sweep `goal` once `done` is settled and `rest` is still to be swept. */
  ghost predicate Remains(goal: Swept, done: seq<Tracker>, rest: seq<Tracker>, addr: nat, end: nat, bad: bool,
                          alloc: nat -> bool, tick: nat)
  {
    var r := Sweep(rest, addr, end, bad, alloc, tick);
    goal == Swept(done + r.list, r.ret, r.tick)
  }

  lemma SweepBegins(s: seq<Tracker>, addr: nat, end: nat, bad: bool, alloc: nat -> bool, tick: nat) returns (goal: Swept)
    ensures goal == Sweep(s, addr, end, bad, alloc, tick)
    ensures Remains(goal, [], s, addr, end, bad, alloc, tick)
  {
    goal := Sweep(s, addr, end, bad, alloc, tick);
    assert [] + goal.list == goal.list;
  }

  lemma SweepEnds(goal: Swept, done: seq<Tracker>, rest: seq<Tracker>, addr: nat, end: nat, bad: bool,
                  alloc: nat -> bool, tick: nat)
    requires Remains(goal, done, rest, addr, end, bad, alloc, tick) && NoOverlap(done + rest, addr, end)
    ensures goal == Swept(done + rest, 0, tick)
  {
    NoOverlapConcat(done, rest, addr, end);
    SweepFailure(rest, addr, end, bad, alloc, tick);
  }

  /** The sweep at the first overlapping tracker `t`: it stops there, or goes on behind the pieces of `t`. */
  lemma SweepAtFound(goal: Swept, done: seq<Tracker>, p: seq<Tracker>, t: Tracker, q: seq<Tracker>, addr: nat, end: nat,
                     bad: bool, alloc: nat -> bool, tick: nat)
    requires NoOverlap(p, addr, end) && Overlaps(t, addr, end)
    requires Remains(goal, done, p + ([t] + q), addr, end, bad, alloc, tick)
    ensures bad ==> goal == Swept(done + (p + ([t] + q)), -1, tick)
    ensures var (ok, next) := SplitAllocs(t, addr, end, alloc, tick);
            && (!bad && !ok ==> goal == Swept(done + (p + ([t] + q)), -1, next))
            && (!bad && ok ==> Remains(goal, done + p + Cut(t, addr, end), q, addr, end, bad, alloc, next))
  {
    SweepSkip(p, [t] + q, addr, end, bad, alloc, tick);
    assert ([t] + q)[1..] == q;
    var (ok, next) := SplitAllocs(t, addr, end, alloc, tick);
    var r := Sweep(q, addr, end, bad, alloc, next).list;
    assert done + (p + (Cut(t, addr, end) + r)) == done + p + Cut(t, addr, end) + r;
  }

  /** The list, return value and next allocation number after util_range_split of the tracker at `k`. */
  ghost function SplitResult(s: seq<Tracker>, k: nat, addr: nat, end: nat, bad: bool, alloc: nat -> bool, tick: nat): Swept
    requires k < |s|
  {
    var (ok, t) := SplitAllocs(s[k], addr, end, alloc, tick);
    if bad then Swept(s, -1, tick)
    else if !ok then Swept(s, -1, t)
    else Swept(s[..k] + Cut(s[k], addr, end) + s[k + 1..], 0, t)
  }

  /** One iteration of the unregister loop, seen on the sequence: skip to the found tracker, then split it. */
  lemma SweepStep(s: seq<Tracker>, done: seq<Tracker>, rest: seq<Tracker>, k: nat, addr: nat, end: nat, bad: bool,
                  alloc: nat -> bool, tick: nat, goal: Swept)
    returns (done': seq<Tracker>, rest': seq<Tracker>)
    requires s == done + rest && NoOverlap(done, addr, end) && WellFormed(s)
    requires addr <= end && (addr == end ==> bad)
    requires k < |s| && Overlaps(s[k], addr, end) && NoOverlap(s[..k], addr, end)
    requires Remains(goal, done, rest, addr, end, bad, alloc, tick)
    ensures var r := SplitResult(s, k, addr, end, bad, alloc, tick);
            && (r.ret == 0 || r.ret == -1)
            && (r.ret == -1 ==> goal == r)
            && (r.ret == 0 ==>
                  && r.list == done' + rest' && NoOverlap(done', addr, end)
                  && Remains(goal, done', rest', addr, end, bad, alloc, r.tick))
    ensures |rest'| < |rest|
  {
    Locate(s, done, rest, k, addr, end);
    var p, q := s[|done|..k], s[k + 1..];
    done', rest' := done + p + Cut(s[k], addr, end), q;
    NoOverlapConcat(done, p, addr, end);
    SweepAtFound(goal, done, p, s[k], q, addr, end, bad, alloc, tick);
    if !bad {
      ChainIndex(s, 0, k);
      CutChain(s[k], addr, end);
      NoOverlapConcat(done + p, Cut(s[k], addr, end), addr, end);
    }
  }

  /** The first overlapping tracker lies behind the part that is done. */
  lemma Locate(s: seq<Tracker>, done: seq<Tracker>, rest: seq<Tracker>, k: nat, addr: nat, end: nat)
    requires s == done + rest && NoOverlap(done, addr, end) && k < |s| && Overlaps(s[k], addr, end)
    ensures |done| <= k && s[..k] == done + s[|done|..k] && rest == s[|done|..k] + ([s[k]] + s[k + 1..])
  {
    NoOverlapIff(done, addr, end);
    assert forall i :: 0 <= i < |done| ==> s[i] == done[i];
    SliceInRest(done, rest, k);
    SplitAt(rest, k - |done|);
  }

  lemma SliceInRest(done: seq<Tracker>, rest: seq<Tracker>, k: nat)
    requires |done| <= k < |done| + |rest|
    ensures (done + rest)[..k] == done + rest[..k - |done|] && (done + rest)[|done|..k] == rest[..k - |done|]
    ensures (done + rest)[k] == rest[k - |done|] && (done + rest)[k + 1..] == rest[k - |done| + 1..]
  {
  }

  lemma SplitAt(s: seq<Tracker>, k: nat)
    requires k < |s|
    ensures s == s[..k] + ([s[k]] + s[k + 1..])
  {
  }

  class Mappings {
    const queue: Queue<Tracker>

    ghost predicate Valid()
      reads this, queue, queue.nodes
    {
      queue.Valid() && WellFormed(queue.contents)
    }

    ghost function Contents(): (s: seq<Tracker>)
      reads this, queue
    {
      queue.contents
    }

    constructor ()
      ensures Valid() && Contents() == [] && fresh(queue)
    {
      queue := new Queue<Tracker>.Init();
    }

    /** util_range_find_unlocked: the lowest tracker overlapping the range, or none. */
    method FindUnlocked(addr: nat, len: nat) returns (mt: Node?<Tracker>, ghost k: nat)
      requires Valid()
      ensures mt == null <==> NoOverlap(Contents(), addr, addr + len)
      ensures mt != null ==> IsFirstOverlap(mt, k, addr, addr + len)
    {
      mt, k := FindFrom(addr, addr + len);
    }

    /** The search loop, for the end address as computed. */
    method FindFrom(addr: nat, end: nat) returns (mt: Node?<Tracker>, ghost k: nat)
      requires Valid()
      ensures mt == null <==> NoOverlap(Contents(), addr, end)
      ensures mt != null ==> IsFirstOverlap(mt, k, addr, end)
    {
      mt := queue.first;
      k := 0;
      ghost var s := Contents();
      while mt != null
        invariant Valid() && Contents() == s
        invariant 0 <= k <= |queue.nodes|
        invariant mt == (if k < |s| then queue.nodes[k] else null)
        invariant NoOverlap(s[..k], addr, end)
        decreases |s| - k
      {
        assert s[k] == mt.data;
        assert s == s[..k] + ([s[k]] + s[k + 1..]) && s[..k + 1] == s[..k] + [s[k]];
        NoOverlapConcat(s[..k], [s[k]] + s[k + 1..], addr, end);
        if addr < mt.data.end && (addr >= mt.data.base || end > mt.data.base) {
          return;
        }
        if addr < mt.data.base {
          ChainIndex(s, 0, k);
          NothingBeyond(s[k + 1..], s[k].end, addr, end);
          NoOverlapConcat([s[k]], s[k + 1..], addr, end);
          mt := null;
          return;
        }
        NoOverlapConcat(s[..k], [s[k]], addr, end);
        mt := mt.next;
        k := k + 1;
      }
      assert s[..k] == s;
    }

    /** util_range_find: the same search, for clients that look at the tracker only. */
    method Find(addr: nat, len: nat) returns (t: Option<Tracker>, ghost k: nat)
      requires Valid()
      ensures t.None? <==> NoOverlap(Contents(), addr, addr + len)
      ensures t.Some? ==> k < |Contents()| && Contents()[k] == t.value
      ensures t.Some? ==> Overlaps(t.value, addr, addr + len) && NoOverlap(Contents()[..k], addr, addr + len)
    {
      var mt;
      mt, k := FindUnlocked(addr, len);
      t := if mt == null then None else Some(mt.data);
    }

    /** `mt` is the node at position `k`, overlaps the range, and nothing before it does. */
    ghost predicate IsFirstOverlap(mt: Node<Tracker>, k: nat, addr: int, end: int)
      reads this, queue
    {
      && k < |queue.nodes| && queue.nodes[k] == mt
      && k < |Contents()|
      && Contents()[k] == mt.data
      && Overlaps(mt.data, addr, end)
      && NoOverlap(Contents()[..k], addr, end)
    }

    /**
      util_range_register; `gotMemory` is the outcome of the allocation.  The end
      of the range is computed in 64 bits.  A registered range leaves the list
      ordered exactly when it is not empty, does not wrap and starts at most 2^63
      above the first tracker, and then well formed exactly when it also ends in
      the lower half.
    */
    method Register(addr: nat, len: nat, kind: Kind, gotMemory: bool) returns (ret: int, ghost k: nat)
      requires Valid() && addr < TWO_64 && len < TWO_64
      modifies queue, queue.Repr()
      ensures queue.Valid() && fresh(queue.Repr() - old(queue.Repr()))
      ensures ret == if gotMemory && NoOverlap(old(Contents()), addr, Wrap(addr + len)) then 0 else -1
      ensures ret != 0 ==> Contents() == old(Contents())
      ensures ret == 0 ==>
                var t := Tracker(addr, Wrap(addr + len), kind);
                && StopsAt(Comparer, old(Contents()), t, k)
                && Contents() == old(Contents())[..k] + [t] + old(Contents())[k..]
      ensures ret == 0 ==>
                (Ordered(Contents()) <==>
                 && len > 0 && addr + len < TWO_64
                 && (old(Contents()) == [] || addr - old(Contents())[0].base <= HALF))
      ensures Valid() <==> ret != 0 || (len > 0 && addr + len <= HALF)
      ensures len > 0 && addr + len <= HALF ==>
                (Contents(), ret) == Registered(old(Contents()), Tracker(addr, addr + len, kind), gotMemory)
    {
      ghost var s := Contents();
      k := 0;
      var found, _ := FindFrom(addr, Wrap(addr + len));
      if found != null {
        return -1, k;
      }
      if !gotMemory {
        return -1, k;
      }
      var mt := new Node(Tracker(addr, Wrap(addr + len), kind));
      k := queue.SortedInsert(mt, Comparer);
      RegistrationOutcome(s, mt.data, k);
      return 0, k;
    }

    /** util_range_split: replace a tracker by what the range leaves of it. */
    method Split(mt: Node<Tracker>, addr: nat, end: nat, page: nat, alloc: nat -> bool, tick: nat,
                 ghost k: nat, ghost bad: bool)
      returns (ret: int, tick': nat)
      requires Valid() && page > 0 && addr <= end && IsFirstOverlap(mt, k, addr, end)
      requires bad == Refused(addr, end, page)
      modifies queue, queue.Repr()
      ensures Valid()
      ensures fresh(queue.Repr() - old(queue.Repr()))
      ensures Swept(Contents(), ret, tick') == SplitResult(old(Contents()), k, addr, end, bad, alloc, tick)
      ensures ret == -1 <==> addr == end || addr % page != 0 || end % page != 0 || exists i :: tick <= i < tick' && !alloc(i)
    {
      tick' := tick;
      if addr == end || addr % page != 0 || end % page != 0 {
        return -1, tick';
      }
      var mtb: Node?<Tracker>, mte: Node?<Tracker> := null, null;
      if addr > mt.data.base {
        tick' := tick' + 1;
        if !alloc(tick' - 1) {
          return -1, tick';
        }
        mtb := new Node(mt.data.(end := addr));
      }
      if end < mt.data.end {
        tick' := tick' + 1;
        if !alloc(tick' - 1) {
          return -1, tick';
        }
        mte := new Node(mt.data.(base := end));
      }
      Replace(mt, mtb, mte, addr, end, k);
      return 0, tick';
    }

    /** The list update at the end of util_range_split. */
    method Replace(mt: Node<Tracker>, mtb: Node?<Tracker>, mte: Node?<Tracker>, addr: nat, end: nat, ghost k: nat)
      requires Valid() && addr < end && IsFirstOverlap(mt, k, addr, end)
      requires mtb != null ==> mtb !in queue.Repr() && mtb.data == mt.data.(end := addr)
      requires mte != null ==> mte !in queue.Repr() && mte.data == mt.data.(base := end) && mte != mtb
      requires mtb != null <==> addr > mt.data.base
      requires mte != null <==> end < mt.data.end
      modifies queue, queue.Repr(), mtb, mte
      ensures Valid()
      ensures forall n :: n in queue.Repr() ==> n in old(queue.Repr()) || n == mtb || n == mte
      ensures Contents() == old(Contents())[..k] + Cut(mt.data, addr, end) + old(Contents())[k + 1..]
    {
      ghost var s := Contents();
      Around(s, k);
      SplitLists(s[..k], s[k], s[k + 1..], addr, end);
      queue.Remove(mt, k);
      if mtb != null {
        InsertPiece(mtb);
      }
      if mte != null {
        InsertPiece(mte);
      }
    }

    method InsertPiece(n: Node<Tracker>)
      requires Valid() && n !in queue.Repr() && n.data.base < HALF
      modifies queue, queue.Repr(), n
      ensures queue.Valid()
      ensures Contents() == InsertByBase(old(Contents()), n.data)
      ensures queue.Repr() <= old(queue.Repr()) + {n}
    {
      ghost var s := Contents();
      ghost var k := queue.SortedInsert(n, Comparer);
      StopIsInsertByBase(s, n.data, k);
    }

    /** util_range_unregister: the range is extended to whole pages first. */
    method Unregister(addr: nat, len: nat, page: nat, alloc: nat -> bool, tick: nat) returns (ret: int, tick': nat)
      requires Valid() && page > 0
      modifies queue, queue.Repr()
      ensures Valid()
      ensures Swept(Contents(), ret, tick') == Unregistered(old(Contents()), addr, len, tick, page, alloc)
      ensures fresh(queue.Repr() - old(queue.Repr()))
      ensures ret == 0 || ret == -1
      ensures ret == -1 <==>
              && !NoOverlap(old(Contents()), addr, addr + RoundUp(len, page))
              && (len == 0 || addr % page != 0 || exists i :: tick <= i < tick' && !alloc(i))
      ensures len == 0 || addr % page != 0 ==> Contents() == old(Contents())
    {
      var rounded := RoundUp(len, page);
      ghost var bad := Refused(addr, addr + rounded, page);
      ghost var goal := SweepBegins(Contents(), addr, addr + rounded, bad, alloc, tick);
      UnregisterOutcome(Contents(), tick, addr, len, page, alloc, 0);
      ret, tick' := RemoveRange(addr, rounded, page, alloc, tick, bad, goal);
    }

    /** The loop of util_range_unregister, with the outcome of the whole sweep as its goal. */
    method RemoveRange(addr: nat, len: nat, page: nat, alloc: nat -> bool, tick: nat, ghost bad: bool, ghost goal: Swept)
      returns (ret: int, tick': nat)
      requires Valid() && page > 0 && bad == Refused(addr, addr + len, page)
      requires Remains(goal, [], Contents(), addr, addr + len, bad, alloc, tick)
      modifies queue, queue.Repr()
      ensures Valid()
      ensures Swept(Contents(), ret, tick') == goal
      ensures fresh(queue.Repr() - old(queue.Repr()))
    {
      var end := addr + len;
      // the list is `done` followed by `rest`, and sweeping `rest` is what remains
      ghost var done, rest := [], Contents();
      assert done + rest == Contents();
      tick' := tick;
      while true
        invariant Valid()
        invariant fresh(queue.Repr() - old(queue.Repr()))
        invariant Contents() == done + rest && NoOverlap(done, addr, end)
        invariant Remains(goal, done, rest, addr, end, bad, alloc, tick')
        decreases |rest|
      {
        var mt, k := FindUnlocked(addr, len);
        if mt == null {
          SweepEnds(goal, done, rest, addr, end, bad, alloc, tick');
          return 0, tick';
        }
        ghost var done', rest' := SweepStep(Contents(), done, rest, k, addr, end, bad, alloc, tick', goal);
        ret, tick' := Split(mt, addr, end, page, alloc, tick', k, bad);
        if ret != 0 {
          return;
        }
        done, rest := done', rest';
      }
    }

    /** util_range_is_pmem: 1 exactly when the address and every byte of the range are tracked. */
    method IsPmem(addr: nat, len: nat) returns (ret: int)
      requires Valid()
      ensures ret == 0 || ret == 1
      ensures ret == 1 <==>
              At(Contents(), addr).Some? && forall x :: addr <= x < addr + len ==> At(Contents(), x).Some?
    {
      var a: nat, l: nat := addr, len;
      ghost var s := Contents();
      while true
        invariant Valid() && Contents() == s
        invariant addr <= a && a + l == addr + len && (l == 0 ==> a == addr)
        invariant forall x :: addr <= x < a ==> At(s, x).Some?
        decreases l
      {
        var found, k := Find(a, l);
        if found.None? {
          NoOverlapIff(s, a, a + l);
          AtNone(s, a);
          return 0;
        }
        var mt := found.value;
        if mt.base > a {
          GapUntracked(s, k, a, a + l, a);
          return 0;
        }
        forall x | a <= x < mt.end ensures At(s, x).Some? {
          AtIndex(s, 0, k, x);
        }
        var mapLen := mt.end - a;
        if mapLen > l {
          mapLen := l;
        }
        l := l - mapLen;
        a := a + mapLen;
        if !(l > 0) {
          break;
        }
      }
      return 1;
    }
  }
}
