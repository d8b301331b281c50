/**
  The persistent-memory mappings that src/common/mmap.c tracks, as a sequence of
  trackers, and the partial map from byte address to mapping kind that such a
  sequence stands for (`At`).

  Addresses and lengths are unbounded integers; the callers' obligation that a
  mapping does not wrap and lies in the lower half of the address space is
  stated where it is needed.
*/
module TrackerList {
  import opened Arith
  import opened Wrappers

  const HALF: int := 0x8000_0000_0000_0000

  /** The mapping type; the region id exists for device DAX only. */
  datatype Kind = DevDax(region: int) | MapSync | OtherType

  datatype Tracker = Tracker(base: nat, end: nat, kind: Kind) {
    predicate Has(x: int) { base <= x < end }
  }

  // ----- the comparer

  function Signed(x: int): int {
    var m := x % TWO_64;
    if m < HALF then m else m - TWO_64
  }

  /** The sum of two 64-bit numbers, in 64 bits. */
  function Wrap(x: nat): nat { if x < TWO_64 then x else x - TWO_64 }

  /** util_range_comparer: a 64-bit signed difference of the two base addresses. */
  function Comparer(a: Tracker, b: Tracker): int {
    Signed(Signed(a.base) - Signed(b.base))
  }

  /** The comparer orders two trackers by base exactly while their distance stays below 2^63. */
  lemma ComparerOrdersIff(a: Tracker, b: Tracker)
    requires a.base < TWO_64 && b.base < TWO_64
    ensures (Comparer(a, b) < 0 <==> a.base < b.base) <==> -HALF <= a.base - b.base < HALF
  {
    var d := Signed(a.base) - Signed(b.base);
    if a.base >= HALF && b.base < HALF {
      assert d == a.base - b.base - TWO_64;
    } else if a.base < HALF && b.base >= HALF {
      assert d == a.base - b.base + TWO_64;
    } else {
      assert d == a.base - b.base;
    }
  }

  // ----- well-formed lists

  /** From `lo` on: ascending, pairwise disjoint, no empty tracker, all in the lower half. */
  ghost predicate Chain(s: seq<Tracker>, lo: int) {
    s == [] || (lo <= s[0].base < s[0].end <= HALF && Chain(s[1..], s[0].end))
  }

  ghost predicate WellFormed(s: seq<Tracker>) {
    Chain(s, 0)
  }

  /** Sorted by address, pairwise disjoint, no empty tracker. */
  ghost predicate Ordered(s: seq<Tracker>) {
    && (forall i :: 0 <= i < |s| ==> s[i].base < s[i].end)
    && (forall i, j :: 0 <= i < j < |s| ==> s[i].end <= s[j].base)
  }

  ghost predicate InLowerHalf(s: seq<Tracker>) {
    forall i :: 0 <= i < |s| ==> s[i].end <= HALF
  }

  lemma {:induction false} ChainIndex(s: seq<Tracker>, lo: int, i: nat)
    requires Chain(s, lo) && i < |s|
    ensures lo <= s[i].base < s[i].end <= HALF
    ensures Chain(s[i + 1..], s[i].end)
  {
    if i == 0 {
    } else {
      ChainIndex(s[1..], s[0].end, i - 1);
      assert s[1..][i..] == s[i + 1..];
    }
  }

  lemma ChainPair(s: seq<Tracker>, lo: int, i: nat, j: nat)
    requires Chain(s, lo) && i < j < |s|
    ensures s[i].end <= s[j].base
  {
    ChainIndex(s, lo, i);
    ChainIndex(s[i + 1..], s[i].end, j - i - 1);
  }

  /** Well-formedness is being sorted by address, pairwise disjoint, free of empty trackers and in the lower half. */
  lemma {:induction false} WellFormedIff(s: seq<Tracker>)
    ensures WellFormed(s) <==> Ordered(s) && InLowerHalf(s)
  {
    if WellFormed(s) {
      forall i | 0 <= i < |s| ensures s[i].base < s[i].end <= HALF {
        ChainIndex(s, 0, i);
      }
      forall i, j | 0 <= i < j < |s| ensures s[i].end <= s[j].base {
        ChainPair(s, 0, i, j);
      }
    }
    if Ordered(s) && InLowerHalf(s) {
      OrderedChain(s, 0);
    }
  }

  lemma {:induction false} OrderedChain(s: seq<Tracker>, lo: int)
    requires Ordered(s) && InLowerHalf(s) && (s != [] ==> lo <= s[0].base)
    ensures Chain(s, lo)
  {
    if s != [] {
      OrderedChain(s[1..], s[0].end);
    }
  }

  lemma {:induction false} ChainPrefix(s: seq<Tracker>, lo: int, k: nat)
    requires Chain(s, lo) && k <= |s|
    ensures Chain(s[..k], lo)
  {
    if k > 0 {
      ChainPrefix(s[1..], s[0].end, k - 1);
      assert s[..k][1..] == s[1..][..k - 1];
    }
  }

  /** Chains concatenate when the first ends where the second may begin. */
  lemma {:induction false} ChainConcat(a: seq<Tracker>, b: seq<Tracker>, lo: int, mid: int)
    requires Chain(a, lo) && Chain(b, mid) && lo <= mid
    requires forall i :: 0 <= i < |a| ==> a[i].end <= mid
    ensures Chain(a + b, lo)
  {
    if a == [] {
      assert a + b == b;
    } else {
      ChainConcat(a[1..], b, a[0].end, mid);
      assert (a + b)[1..] == a[1..] + b;
    }
  }

  // ----- overlap and lookup

  /** The overlap test of util_range_find_unlocked. */
  predicate Overlaps(t: Tracker, addr: int, end: int) {
    addr < t.end && (addr >= t.base || end > t.base)
  }

  predicate NoOverlap(s: seq<Tracker>, addr: int, end: int) {
    s == [] || (!Overlaps(s[0], addr, end) && NoOverlap(s[1..], addr, end))
  }

  lemma {:induction false} NoOverlapIff(s: seq<Tracker>, addr: int, end: int)
    ensures NoOverlap(s, addr, end) <==> forall i :: 0 <= i < |s| ==> !Overlaps(s[i], addr, end)
  {
    if s != [] {
      NoOverlapIff(s[1..], addr, end);
      assert forall i :: 0 < i < |s| ==> s[i] == s[1..][i - 1];
    }
  }

  lemma {:induction false} NoOverlapConcat(a: seq<Tracker>, b: seq<Tracker>, addr: int, end: int)
    ensures NoOverlap(a + b, addr, end) <==> NoOverlap(a, addr, end) && NoOverlap(b, addr, end)
  {
    if a == [] {
      assert a + b == b;
    } else {
      assert (a + b)[1..] == a[1..] + b;
      NoOverlapConcat(a[1..], b, addr, end);
    }
  }

  /** The map a tracker sequence stands for. */
  function At(s: seq<Tracker>, x: int): Option<Kind> {
    if s == [] then None
    else if s[0].Has(x) then Some(s[0].kind)
    else At(s[1..], x)
  }

  lemma {:induction false} AtConcat(a: seq<Tracker>, b: seq<Tracker>, x: int)
    ensures At(a + b, x) == if At(a, x).Some? then At(a, x) else At(b, x)
  {
    if a == [] {
      assert a + b == b;
    } else {
      assert (a + b)[1..] == a[1..] + b;
      AtConcat(a[1..], b, x);
    }
  }

  lemma {:induction false} AtNone(s: seq<Tracker>, x: int)
    ensures At(s, x) == None <==> forall i :: 0 <= i < |s| ==> !s[i].Has(x)
  {
    if s != [] {
      AtNone(s[1..], x);
      assert forall i :: 0 < i < |s| ==> s[i] == s[1..][i - 1];
    }
  }

  lemma {:induction false} AtBelow(s: seq<Tracker>, lo: int, x: int)
    requires Chain(s, lo) && x < lo
    ensures At(s, x) == None
  {
    if s != [] {
      AtBelow(s[1..], s[0].end, x);
    }
  }

  lemma {:induction false} AtIndex(s: seq<Tracker>, lo: int, i: nat, x: int)
    requires Chain(s, lo) && i < |s| && s[i].Has(x)
    ensures At(s, x) == Some(s[i].kind)
  {
    if i > 0 {
      ChainPair(s, lo, 0, i);
      AtIndex(s[1..], s[0].end, i - 1, x);
    }
  }

  /** No tracker overlaps a non-empty range exactly when no byte of it is tracked. */
  lemma NoOverlapMeansUntracked(s: seq<Tracker>, addr: int, end: int)
    requires WellFormed(s) && addr < end
    ensures NoOverlap(s, addr, end) <==> forall x :: addr <= x < end ==> At(s, x) == None
  {
    NoOverlapIff(s, addr, end);
    if NoOverlap(s, addr, end) {
      forall x | addr <= x < end ensures At(s, x) == None {
        AtNone(s, x);
      }
    } else {
      var i :| 0 <= i < |s| && Overlaps(s[i], addr, end);
      var x := if addr >= s[i].base then addr else s[i].base;
      ChainIndex(s, 0, i);
      AtIndex(s, 0, i, x);
    }
  }

  /** The early exit of the search: nothing at or after a tracker that starts beyond the range overlaps it. */
  lemma {:induction false} NothingBeyond(s: seq<Tracker>, lo: int, addr: int, end: int)
    requires Chain(s, lo) && addr < lo && end <= lo
    ensures NoOverlap(s, addr, end)
  {
    if s != [] {
      NothingBeyond(s[1..], s[0].end, addr, end);
    }
  }

  /** Between `a` and the lowest overlapping tracker nothing is tracked. */
  lemma GapUntracked(s: seq<Tracker>, k: nat, a: nat, end: nat, x: int)
    requires WellFormed(s) && k < |s| && Overlaps(s[k], a, end) && NoOverlap(s[..k], a, end)
    requires a <= x < s[k].base
    ensures At(s, x) == None
  {
    NoOverlapIff(s[..k], a, end);
    forall i | 0 <= i < |s| ensures !s[i].Has(x) {
      if i < k {
        assert s[..k][i] == s[i];
      } else if i > k {
        ChainIndex(s, 0, k);
        ChainPair(s, 0, k, i);
      }
    }
    AtNone(s, x);
  }

  // ----- registration

  function InsertByBase(s: seq<Tracker>, t: Tracker): seq<Tracker> {
    if s == [] || s[0].base >= t.base then [t] + s else [s[0]] + InsertByBase(s[1..], t)
  }

  /** The list and the return value of util_range_register. */
  function Registered(s: seq<Tracker>, t: Tracker, gotMemory: bool): (seq<Tracker>, int) {
    if !NoOverlap(s, t.base, t.end) || !gotMemory then (s, -1) else (InsertByBase(s, t), 0)
  }

  lemma {:induction false} InsertByBaseAt(s: seq<Tracker>, t: Tracker, k: nat)
    requires k <= |s|
    requires forall i :: 0 <= i < k ==> s[i].base < t.base
    requires k < |s| ==> s[k].base >= t.base
    ensures InsertByBase(s, t) == s[..k] + [t] + s[k..]
  {
    if k > 0 {
      InsertByBaseAt(s[1..], t, k - 1);
      assert s == [s[0]] + s[1..];
    }
  }

  /** Adding a disjoint tracker keeps the list well formed and adds exactly its bytes. */
  lemma {:induction false} InsertByBaseAdds(s: seq<Tracker>, t: Tracker, lo: int, x: int)
    requires Chain(s, lo) && lo <= t.base < t.end <= HALF && NoOverlap(s, t.base, t.end)
    ensures Chain(InsertByBase(s, t), lo)
    ensures At(InsertByBase(s, t), x) == if t.Has(x) then Some(t.kind) else At(s, x)
  {
    if s == [] {
    } else if s[0].base >= t.base {
      assert !Overlaps(s[0], t.base, t.end);
      assert ([t] + s)[1..] == s;
    } else {
      assert !Overlaps(s[0], t.base, t.end);
      InsertByBaseAdds(s[1..], t, s[0].end, x);
      assert ([s[0]] + InsertByBase(s[1..], t))[1..] == InsertByBase(s[1..], t);
    }
  }

  /** Registration fails exactly on a tracked byte or without memory, and otherwise adds exactly its range. */
  lemma RegisteredRefines(s: seq<Tracker>, t: Tracker, gotMemory: bool)
    requires WellFormed(s) && t.base < t.end <= HALF
    ensures var (r, ret) := Registered(s, t, gotMemory);
            && WellFormed(r)
            && (ret == 0 <==> gotMemory && forall x :: t.Has(x) ==> At(s, x) == None)
            && (ret == 0 ==> forall x :: At(r, x) == if t.Has(x) then Some(t.kind) else At(s, x))
            && (ret != 0 ==> ret == -1 && r == s)
  {
    NoOverlapMeansUntracked(s, t.base, t.end);
    var (r, ret) := Registered(s, t, gotMemory);
    if ret == 0 {
      InsertByBaseAdds(s, t, 0, 0);
      forall x ensures At(r, x) == if t.Has(x) then Some(t.kind) else At(s, x) {
        InsertByBaseAdds(s, t, 0, x);
      }
    }
  }

  // ----- splitting and removal

  /** What util_range_split leaves of a tracker: the part below `addr`, the part from `end` on. */
  function Cut(t: Tracker, addr: nat, end: nat): seq<Tracker> {
    (if addr > t.base then [t.(end := addr)] else []) + (if end < t.end then [t.(base := end)] else [])
  }

  /**
    The allocations that splitting `t` makes, numbered from `tick`: whether all
    of them succeed, and the number of the next one.
  */
  function SplitAllocs(t: Tracker, addr: int, end: int, alloc: nat -> bool, tick: nat): (bool, nat) {
    var t1 := if addr > t.base then tick + 1 else tick;
    if t1 > tick && !alloc(tick) then (false, t1)
    else if end < t.end then (alloc(t1), t1 + 1)
    else (true, t1)
  }

  /** The ranges util_range_split refuses: empty, or not page aligned. */
  predicate Refused(addr: nat, end: nat, page: nat)
    requires page > 0
  {
    addr == end || addr % page != 0 || end % page != 0
  }

  /** A split makes one allocation for each piece it leaves, and stops at the first that fails. */
  lemma SplitAllocsCount(t: Tracker, addr: nat, end: nat, alloc: nat -> bool, tick: nat)
    ensures var (ok, next) := SplitAllocs(t, addr, end, alloc, tick);
            && tick <= next <= tick + |Cut(t, addr, end)|
            && (ok <==> forall i :: tick <= i < tick + |Cut(t, addr, end)| ==> alloc(i))
            && (ok ==> next == tick + |Cut(t, addr, end)|)
            && (!ok ==> tick < next && !alloc(next - 1) && forall i :: tick <= i < next - 1 ==> alloc(i))
  {
    var n := |Cut(t, addr, end)|;
    assert n == (if addr > t.base then 1 else 0) + (if end < t.end then 1 else 0);
    assert n > 0 ==> tick <= tick < tick + n;
    assert n > 1 ==> tick <= tick + 1 < tick + n;
  }

  datatype Swept = Swept(list: seq<Tracker>, ret: int, tick: nat)

  /**
    util_range_unregister on the sequence, for the page-rounded range: trackers
    are processed from the lowest address up, and the first failed split stops
    the sweep and leaves the remaining trackers alone.  `bad` says that the range
    is one that every split refuses.
  */
  function Sweep(s: seq<Tracker>, addr: nat, end: nat, bad: bool, alloc: nat -> bool, tick: nat): Swept {
    if s == [] then Swept([], 0, tick)
    else if !Overlaps(s[0], addr, end) then
      var r := Sweep(s[1..], addr, end, bad, alloc, tick);
      Swept([s[0]] + r.list, r.ret, r.tick)
    else if bad then Swept(s, -1, tick)
    else
      var (ok, t) := SplitAllocs(s[0], addr, end, alloc, tick);
      if !ok then Swept(s, -1, t)
      else
        var r := Sweep(s[1..], addr, end, bad, alloc, t);
        Swept(Cut(s[0], addr, end) + r.list, r.ret, r.tick)
  }

  /** Trackers that do not overlap pass through a sweep. */
  lemma {:induction false} SweepSkip(p: seq<Tracker>, s: seq<Tracker>, addr: nat, end: nat, bad: bool,
                                     alloc: nat -> bool, tick: nat)
    requires NoOverlap(p, addr, end)
    ensures var r := Sweep(s, addr, end, bad, alloc, tick);
            Sweep(p + s, addr, end, bad, alloc, tick) == Swept(p + r.list, r.ret, r.tick)
  {
    if p == [] {
      assert p + s == s;
    } else {
      assert (p + s)[1..] == p[1..] + s;
      SweepSkip(p[1..], s, addr, end, bad, alloc, tick);
      var r := Sweep(s, addr, end, bad, alloc, tick);
      assert p + r.list == [p[0]] + (p[1..] + r.list);
    }
  }

  lemma CutAt(t: Tracker, addr: nat, end: nat, x: int)
    requires t.base < t.end && addr < end && Overlaps(t, addr, end)
    ensures At(Cut(t, addr, end), x) == if addr <= x < end || !t.Has(x) then None else Some(t.kind)
  {
    AtConcat(if addr > t.base then [t.(end := addr)] else [], if end < t.end then [t.(base := end)] else [], x);
  }

  /** The pieces form a chain inside the tracker, and are outside the range. */
  lemma CutChain(t: Tracker, addr: nat, end: nat)
    requires t.base < t.end <= HALF && addr < end && Overlaps(t, addr, end)
    ensures Chain(Cut(t, addr, end), t.base) && NoOverlap(Cut(t, addr, end), addr, end)
    ensures forall i :: 0 <= i < |Cut(t, addr, end)| ==> Cut(t, addr, end)[i].end <= t.end
  {
    var low := if addr > t.base then [t.(end := addr)] else [];
    var high := if end < t.end then [t.(base := end)] else [];
    ChainConcat(low, high, t.base, if addr > t.base then addr else t.base);
    NoOverlapConcat(low, high, addr, end);
  }

  lemma {:induction false} SweepChain(s: seq<Tracker>, addr: nat, end: nat, bad: bool, alloc: nat -> bool,
                                      tick: nat, lo: int)
    requires Chain(s, lo) && addr <= end && (addr == end ==> bad)
    ensures Chain(Sweep(s, addr, end, bad, alloc, tick).list, lo)
  {
    if s == [] {
    } else if !Overlaps(s[0], addr, end) {
      SweepChain(s[1..], addr, end, bad, alloc, tick, s[0].end);
      ChainConcat([s[0]], Sweep(s[1..], addr, end, bad, alloc, tick).list, lo, s[0].end);
    } else if bad {
    } else {
      var (ok, t) := SplitAllocs(s[0], addr, end, alloc, tick);
      if ok {
        SweepChain(s[1..], addr, end, bad, alloc, t, s[0].end);
        CutChain(s[0], addr, end);
        ChainLower(Cut(s[0], addr, end), s[0].base, lo);
        ChainConcat(Cut(s[0], addr, end), Sweep(s[1..], addr, end, bad, alloc, t).list, lo, s[0].end);
      }
    }
  }

  lemma ChainLower(s: seq<Tracker>, lo: int, lo': int)
    requires Chain(s, lo) && lo' <= lo
    ensures Chain(s, lo')
  {
  }

  /** The base of the tracker whose split stopped a sweep, or the end of the lower half if none did. */
  function StopAt(s: seq<Tracker>, addr: nat, end: nat, bad: bool, alloc: nat -> bool, tick: nat): nat {
    if s == [] then HALF
    else if !Overlaps(s[0], addr, end) then StopAt(s[1..], addr, end, bad, alloc, tick)
    else
      var (ok, t) := SplitAllocs(s[0], addr, end, alloc, tick);
      if bad || !ok then s[0].base else StopAt(s[1..], addr, end, bad, alloc, t)
  }

  lemma {:induction false} StopBound(s: seq<Tracker>, addr: nat, end: nat, bad: bool, alloc: nat -> bool, tick: nat,
                                     lo: int)
    requires Chain(s, lo) && lo <= HALF
    ensures lo <= StopAt(s, addr, end, bad, alloc, tick) <= HALF
    ensures StopAt(s, addr, end, bad, alloc, tick) == HALF <==> Sweep(s, addr, end, bad, alloc, tick).ret == 0
  {
    if s != [] {
      var (ok, t) := SplitAllocs(s[0], addr, end, alloc, tick);
      StopBound(s[1..], addr, end, bad, alloc, if Overlaps(s[0], addr, end) && !bad then t else tick, s[0].end);
    }
  }

  /**
    A sweep removes exactly the bytes of the range below the place where it
    stopped, which is all of them when it succeeds, and changes no other byte.
  */
  lemma {:induction false} SweepAt(s: seq<Tracker>, addr: nat, end: nat, bad: bool, alloc: nat -> bool, tick: nat,
                                   lo: int, x: int)
    requires Chain(s, lo) && addr <= end && (addr == end ==> bad)
    ensures var r := Sweep(s, addr, end, bad, alloc, tick);
            var stop := StopAt(s, addr, end, bad, alloc, tick);
            && At(r.list, x) == (if addr <= x < end && x < stop then None else At(s, x))
            && (addr <= x < end && r.ret == 0 ==> At(r.list, x) == None)
  {
    if s == [] {
    } else if !Overlaps(s[0], addr, end) {
      SweepAt(s[1..], addr, end, bad, alloc, tick, s[0].end, x);
    } else {
      var (ok, t) := SplitAllocs(s[0], addr, end, alloc, tick);
      if bad || !ok {
        assert Chain(s, s[0].base);
        if x < s[0].base {
          AtBelow(s, s[0].base, x);
        }
      } else {
        SweepAt(s[1..], addr, end, bad, alloc, t, s[0].end, x);
        StopBound(s[1..], addr, end, bad, alloc, t, s[0].end);
        CutAt(s[0], addr, end, x);
        AtConcat(Cut(s[0], addr, end), Sweep(s[1..], addr, end, bad, alloc, t).list, x);
        if s[0].Has(x) {
          AtBelow(s[1..], s[0].end, x);
        }
      }
    }
  }

  /** When a sweep fails, and that it fails for no other reason. */
  lemma {:induction false} SweepFailure(s: seq<Tracker>, addr: nat, end: nat, bad: bool, alloc: nat -> bool, tick: nat)
    ensures var r := Sweep(s, addr, end, bad, alloc, tick);
            && tick <= r.tick
            && (r.ret == 0 || r.ret == -1)
            && (NoOverlap(s, addr, end) ==> r.ret == 0 && r.list == s && r.tick == tick)
            && (!NoOverlap(s, addr, end) && bad ==> r.ret == -1 && r.list == s && r.tick == tick)
            && (!bad ==> (r.ret == -1 <==> exists i :: tick <= i < r.tick && !alloc(i)))
  {
    if s == [] {
    } else {
      if !Overlaps(s[0], addr, end) {
        SweepFailure(s[1..], addr, end, bad, alloc, tick);
      } else if bad {
      } else {
        var (ok, t) := SplitAllocs(s[0], addr, end, alloc, tick);
        if ok {
          SweepFailure(s[1..], addr, end, bad, alloc, t);
          assert forall i :: tick <= i < t ==> alloc(i);
        } else {
          assert !alloc(t - 1);
        }
      }
    }
  }

  /** For a page-rounded length, the refused ranges are those of length zero and those that do not start at a page. */
  lemma RefusedIff(addr: nat, len: nat, page: nat)
    requires page > 0
    ensures Refused(addr, addr + RoundUp(len, page), page) <==> len == 0 || addr % page != 0
  {
    var n := RoundUp(len, page);
    if addr % page == 0 {
      SumAligned(addr, n, page);
    } else if (addr + n) % page == 0 {
      DiffAligned(addr + n, n, page);
    }
  }

  /** What unregister does, with the range rounded to whole pages. */
  function Unregistered(s: seq<Tracker>, addr: nat, len: nat, tick: nat, page: nat, alloc: nat -> bool): Swept
    requires page > 0
  {
    var end := addr + RoundUp(len, page);
    Sweep(s, addr, end, Refused(addr, end, page), alloc, tick)
  }

  /**
    When unregister fails, and what it then does: something overlaps the range,
    and its length is zero, or it does not start at a page, or an allocation
    failed.  In the first two cases the list stays as it is; a success removes
    every page of the range, and no call changes a byte outside them.
  */
  lemma UnregisterOutcome(s: seq<Tracker>, tick: nat, addr: nat, len: nat, page: nat, alloc: nat -> bool, x: int)
    requires page > 0 && WellFormed(s)
    ensures var e := Unregistered(s, addr, len, tick, page, alloc);
            var end := addr + RoundUp(len, page);
            && (e.ret == -1 <==>
                && !NoOverlap(s, addr, end)
                && (len == 0 || addr % page != 0 || exists i :: tick <= i < e.tick && !alloc(i)))
            && (e.ret != -1 ==> e.ret == 0)
            && (len == 0 || addr % page != 0 ==> e.list == s)
            && (e.ret == 0 && addr <= x < end ==> At(e.list, x) == None)
            && (!(addr <= x < end) ==> At(e.list, x) == At(s, x))
  {
    var end := addr + RoundUp(len, page);
    var bad := Refused(addr, end, page);
    RefusedIff(addr, len, page);
    SweepAt(s, addr, end, bad, alloc, tick, 0, x);
    SweepFailure(s, addr, end, bad, alloc, tick);
  }
}
