/**
  os_range_deep_common of src/common/os_deep_linux.c: making a range durable,
  piece by piece, according to the mappings it crosses.  The system calls are
  recorded in a log; `ok(i)` is the outcome of the i-th of them.
*/
module DeepFlush {
  import opened TrackerList
  import opened Wrappers
  import opened MapTracker

  /** msync of a piece, or a write to the deep_flush file of the region a piece lies in. */
  datatype Action = Msync(addr: nat, len: nat) | FlushRegion(region: int, addr: nat, len: nat)

  /** The actions cover [lo, hi) in ascending order, without gap or overlap, none of them empty. */
  ghost predicate Partition(log: seq<Action>, lo: nat, hi: nat) {
    if log == [] then lo == hi
    else
      var a := log[|log| - 1];
      a.len > 0 && a.addr + a.len == hi && lo <= a.addr && Partition(log[..|log| - 1], lo, a.addr)
  }

  /** The action that a byte of the given mapping needs. */
  predicate Suits(a: Action, k: Option<Kind>) {
    match k
    case None => a.Msync?
    case Some(MapSync) => a.Msync?
    case Some(DevDax(region)) => a.FlushRegion? && a.region == region
    case Some(OtherType) => false
  }

  /** All bytes of the piece have the same mapping, and it is the one the action is for. */
  ghost predicate Right(s: seq<Tracker>, a: Action) {
    a.len > 0 && Suits(a, At(s, a.addr)) && forall x :: a.addr <= x < a.addr + a.len ==> At(s, x) == At(s, a.addr)
  }

  /** Every byte of a partitioned range belongs to exactly one action of the log. */
  lemma {:induction false} PartitionCoversOnce(log: seq<Action>, lo: nat, hi: nat, x: int)
    requires Partition(log, lo, hi) && lo <= x < hi
    ensures exists i :: 0 <= i < |log| && log[i].addr <= x < log[i].addr + log[i].len
    ensures forall i, j ::
              (0 <= i < |log| && 0 <= j < |log| && log[i].addr <= x < log[i].addr + log[i].len
               && log[j].addr <= x < log[j].addr + log[j].len)
              ==> i == j
  {
    var n := |log| - 1;
    assert forall i :: 0 <= i < n ==> log[i] == log[..n][i];
    PartitionBounds(log[..n], lo, log[n].addr);
    if x < log[n].addr {
      PartitionCoversOnce(log[..n], lo, log[n].addr, x);
    } else {
      assert log[n].addr <= x < log[n].addr + log[n].len;
    }
  }

  lemma {:induction false} PartitionBounds(log: seq<Action>, lo: nat, hi: nat)
    requires Partition(log, lo, hi)
    ensures lo <= hi && forall i :: 0 <= i < |log| ==> lo <= log[i].addr && log[i].addr + log[i].len <= hi
  {
    if log != [] {
      var n := |log| - 1;
      PartitionBounds(log[..n], lo, log[n].addr);
      assert forall i :: 0 <= i < n ==> log[i] == log[..n][i];
    }
  }

  /** Before the lowest overlapping tracker, msync is right. */
  lemma MsyncRightInGap(s: seq<Tracker>, k: nat, a: nat, end: nat, len: nat)
    requires WellFormed(s) && k < |s| && Overlaps(s[k], a, end) && NoOverlap(s[..k], a, end)
    requires 0 < len && a + len <= s[k].base
    ensures Right(s, Msync(a, len))
  {
    forall x | a <= x < a + len ensures At(s, x) == None {
      GapUntracked(s, k, a, end, x);
    }
  }

  /** Where nothing overlaps, msync is right. */
  lemma MsyncRightUntracked(s: seq<Tracker>, a: nat, len: nat)
    requires WellFormed(s) && len > 0 && NoOverlap(s, a, a + len)
    ensures Right(s, Msync(a, len))
  {
    NoOverlapMeansUntracked(s, a, a + len);
    assert At(s, a) == None;
  }

  /** Inside a tracker, its own action is right. */
  lemma RightInTracker(s: seq<Tracker>, k: nat, act: Action)
    requires WellFormed(s) && k < |s| && Suits(act, Some(s[k].kind)) && act.len > 0
    requires s[k].base <= act.addr && act.addr + act.len <= s[k].end
    ensures Right(s, act)
  {
    forall x | act.addr <= x < act.addr + act.len ensures At(s, x) == Some(s[k].kind) {
      AtIndex(s, 0, k, x);
    }
  }

  /**
    The state of the walk: the log partitions [lo, hi), every piece got the
    action of its mapping, and all actions but possibly the last succeeded.
  */
  ghost predicate Progress(s: seq<Tracker>, log: seq<Action>, lo: nat, hi: nat, ok: nat -> bool) {
    if log == [] then lo == hi
    else
      var n := |log| - 1;
      && log[n].addr + log[n].len == hi && Right(s, log[n])
      && Progress(s, log[..n], lo, log[n].addr, ok)
      && (n > 0 ==> ok(n - 1))
  }

  lemma {:induction false} ProgressMeans(s: seq<Tracker>, log: seq<Action>, lo: nat, hi: nat, ok: nat -> bool)
    requires Progress(s, log, lo, hi, ok)
    ensures Partition(log, lo, hi)
    ensures forall i :: 0 <= i < |log| ==> Right(s, log[i])
    ensures forall i :: 0 <= i < |log| - 1 ==> ok(i)
    ensures forall i, x :: 0 <= i < |log| && log[i].addr <= x < log[i].addr + log[i].len ==>
              match At(s, x)
              case None => log[i] == Msync(log[i].addr, log[i].len)
              case Some(MapSync) => log[i] == Msync(log[i].addr, log[i].len)
              case Some(DevDax(region)) => log[i] == FlushRegion(region, log[i].addr, log[i].len)
              case Some(OtherType) => false
  {
    if log != [] {
      var n := |log| - 1;
      ProgressMeans(s, log[..n], lo, log[n].addr, ok);
      PartitionBounds(log[..n], lo, log[n].addr);
      assert forall i :: 0 <= i < n ==> log[i] == log[..n][i];
    }
  }

  lemma ProgressSnoc(s: seq<Tracker>, log: seq<Action>, lo: nat, ok: nat -> bool, act: Action)
    requires Progress(s, log, lo, act.addr, ok) && (log != [] ==> ok(|log| - 1)) && Right(s, act)
    ensures Progress(s, log + [act], lo, act.addr + act.len, ok)
  {
    assert (log + [act])[..|log|] == log;
  }

  /** The action os_deep_type takes for a piece of a mapping. */
  function DeepAction(kind: Kind, addr: nat, len: nat): Action
    requires !kind.OtherType?
  {
    if kind.DevDax? then FlushRegion(kind.region, addr, len) else Msync(addr, len)
  }

  /** os_deep_type: act on a piece of a tracked mapping, if its type has a deep action. */
  method DeepType(kind: Kind, addr: nat, len: nat, ok: nat -> bool, log: seq<Action>) returns (ret: int, log': seq<Action>)
    ensures kind.OtherType? ==> ret == -1 && log' == log
    ensures kind.DevDax? ==> log' == log + [FlushRegion(kind.region, addr, len)]
    ensures kind.MapSync? ==> log' == log + [Msync(addr, len)]
    ensures !kind.OtherType? ==> Suits(log'[|log|], Some(kind)) && ret == if ok(|log|) then 0 else -1
  {
    match kind {
      case DevDax(region) =>
        log' := log + [FlushRegion(region, addr, len)];
        ret := if ok(|log|) then 0 else -1;
      case MapSync =>
        log' := log + [Msync(addr, len)];
        ret := if ok(|log|) then 0 else -1;
      case OtherType =>
        return -1, log;
    }
  }

  /** msync of an untracked piece. */
  method SyncPiece(ghost s: seq<Tracker>, lo: nat, a: nat, len: nat, ok: nat -> bool, log: seq<Action>)
    returns (ret: int, log': seq<Action>)
    requires Progress(s, log, lo, a, ok) && (log != [] ==> ok(|log| - 1)) && Right(s, Msync(a, len))
    ensures Progress(s, log', lo, a + len, ok) && log' != []
    ensures ret == if ok(|log'| - 1) then 0 else -1
  {
    ProgressSnoc(s, log, lo, ok, Msync(a, len));
    log' := log + [Msync(a, len)];
    ret := if ok(|log|) then 0 else -1;
  }

  /** os_deep_type on a piece of the tracker at position `k`. */
  method FlushPiece(ghost s: seq<Tracker>, ghost k: nat, t: Tracker, lo: nat, a: nat, len: nat, ok: nat -> bool,
                    log: seq<Action>)
    returns (ret: int, log': seq<Action>, ghost hi: nat)
    requires WellFormed(s) && k < |s| && s[k] == t && t.base <= a && len > 0 && a + len <= t.end
    requires Progress(s, log, lo, a, ok) && (log != [] ==> ok(|log| - 1))
    ensures Progress(s, log', lo, hi, ok) && (ret == 0 || ret == -1)
    ensures ret == 0 ==> hi == a + len && log' != [] && ok(|log'| - 1)
    ensures ret == -1 ==> (hi == a + len && log' != [] && !ok(|log'| - 1)) || (hi == a && At(s, hi) == Some(OtherType))
  {
    if !t.kind.OtherType? {
      RightInTracker(s, k, DeepAction(t.kind, a, len));
      ProgressSnoc(s, log, lo, ok, DeepAction(t.kind, a, len));
    } else {
      AtIndex(s, 0, k, a);
    }
    ret, log' := DeepType(t.kind, a, len, ok, log);
    hi := if t.kind.OtherType? then a else a + len;
  }

  /**
    The loop body for a found tracker: msync up to it, then its own action.  The
    walk goes on with the range [a', a' + l') unless `stop` is set.
  */
  method CrossTracker(ghost s: seq<Tracker>, ghost k: nat, mt: Tracker, lo: nat, a: nat, l: nat, ok: nat -> bool,
                      log: seq<Action>)
    returns (stop: bool, ret: int, log': seq<Action>, a': nat, l': nat, ghost hi: nat)
    requires WellFormed(s) && k < |s| && s[k] == mt && Overlaps(mt, a, a + l) && NoOverlap(s[..k], a, a + l)
    requires l > 0 && Progress(s, log, lo, a, ok) && (log != [] ==> ok(|log| - 1))
    ensures Progress(s, log', lo, hi, ok) && a <= hi <= a + l && (ret == 0 || ret == -1)
    ensures ret == 0 ==> log' != [] && ok(|log'| - 1)
    ensures stop && ret == 0 ==> hi == a + l
    ensures ret == -1 ==> stop && ((log' != [] && !ok(|log'| - 1)) || (hi < a + l && At(s, hi) == Some(OtherType)))
    ensures !stop ==> hi == a' && a' + l' == a + l && 0 < l' < l
  {
    ChainIndex(s, 0, k);
    a', l', log' := a, l, log;
    if mt.base > a' {
      var currLen := mt.base - a';
      if currLen > l' {
        currLen := l';
      }
      MsyncRightInGap(s, k, a', a' + l', currLen);
      ret, log' := SyncPiece(s, lo, a', currLen, ok, log');
      if ret != 0 {
        return true, ret, log', a', l', a' + currLen;
      }
      l' := l' - currLen;
      if l' == 0 {
        return true, 0, log', a', l', a' + currLen;
      }
      a' := mt.base;
    }
    var mtInLen := mt.end - a';
    var persistLen := if l' < mtInLen then l' else mtInLen;
    ret, log', hi := FlushPiece(s, k, mt, lo, a', persistLen, ok, log');
    if ret != 0 {
      stop := true;
      return;
    }
    if mt.end >= a' + l' {
      stop := true;
      return;
    }
    l' := l' - mtInLen;
    a' := mt.end;
    stop := false;
  }

  /**
    os_range_deep_common.  Success means that the log partitions the whole range;
    failure means that the last action failed, or that the walk stopped at a
    mapping whose type has no deep action.
  */
  method RangeDeepCommon(m: Mappings, addr: nat, len: nat, ok: nat -> bool)
    returns (ret: int, log: seq<Action>, ghost hi: nat)
    requires m.Valid()
    ensures addr <= hi <= addr + len && Progress(m.Contents(), log, addr, hi, ok)
    ensures ret == 0 || ret == -1
    ensures ret == 0 <==> hi == addr + len && (log != [] ==> ok(|log| - 1))
    ensures ret == -1 ==> (log != [] && !ok(|log| - 1)) || At(m.Contents(), hi) == Some(OtherType)
  {
    var a: nat, l: nat := addr, len;
    ghost var s := m.Contents();
    log := [];
    while l != 0
      invariant m.Valid() && m.Contents() == s
      invariant addr <= a && a + l == addr + len
      invariant Progress(s, log, addr, a, ok) && (log != [] ==> ok(|log| - 1))
      decreases l
    {
      var found, k := m.Find(a, l);
      if found.None? {
        MsyncRightUntracked(s, a, l);
        ret, log := SyncPiece(s, addr, a, l, ok, log);
        return ret, log, a + l;
      }
      var stop;
      stop, ret, log, a, l, hi := CrossTracker(s, k, found.value, addr, a, l, ok, log);
      if stop {
        return;
      }
    }
    return 0, log, a;
  }
}
