/**
  util_map_hint_unused of src/common/mmap_posix.c: first-fit search for an
  aligned hole in the list of mapped regions.  Addresses are 64-bit; rounding up
  wraps as in the source.
*/
module MapHint {
  import opened Arith

  const MAP_FAILED: int := TWO_64 - 1

  datatype Region = Region(lo: nat, hi: nat) {
    predicate Has(x: int) { lo <= x < hi }
  }

  /** Mapped regions as the system lists them: ascending, disjoint, non-empty. */
  ghost predicate Ascending(s: seq<Region>) {
    && (forall i :: 0 <= i < |s| ==> s[i].lo < s[i].hi < TWO_64)
    && (forall i, j :: 0 <= i < j < |s| ==> s[i].hi <= s[j].lo)
  }

  predicate Conflict(c: int, len: int, r: Region) {
    c < r.hi && r.lo < c + len
  }

  ghost predicate Free(s: seq<Region>, c: int, len: int) {
    forall i :: 0 <= i < |s| ==> !Conflict(c, len, s[i])
  }

  /** A range conflicts with a region exactly when they share a byte. */
  lemma ConflictIff(c: nat, len: nat, r: Region)
    requires len > 0 && r.lo < r.hi
    ensures Conflict(c, len, r) <==> exists x :: r.Has(x) && c <= x < c + len
  {
    if Conflict(c, len, r) {
      var x := if c > r.lo then c else r.lo;
      assert r.Has(x) && c <= x < c + len;
    }
  }

  /** roundup() on a 64-bit address. */
  function RoundUp64(x: nat, align: nat): (r: nat)
    requires 0 < align < TWO_64 && x < TWO_64
    ensures r < TWO_64 && r % align == 0
    ensures x + align - 1 < TWO_64 ==> r == RoundUp(x, align)
    ensures x + align - 1 >= TWO_64 ==> r == 0
  {
    var y := (x + align - 1) % TWO_64;
    if x + align - 1 < TWO_64 then
      RoundUp(x, align)
    else
      assert y / align == 0 by { DivModUnique(y, 0, align, y); }
      y / align * align
  }

  /** The address the search starts from. */
  function Start(minaddr: nat, align: nat, page: nat): nat
    requires 0 < align < TWO_64 && minaddr < TWO_64 && page < TWO_64
  {
    RoundUp64(if minaddr == 0 then page else minaddr, align)
  }

  /** The address asked for: the given one, or the second page. */
  function Asked(minaddr: nat, page: nat): nat { if minaddr == 0 then page else minaddr }

  /** Unless rounding wraps, the search starts at the least aligned address that is not below the one asked for. */
  lemma StartLeast(minaddr: nat, align: nat, page: nat, c: nat)
    requires 0 < align < TWO_64 && minaddr < TWO_64 && page < TWO_64
    requires Asked(minaddr, page) + align - 1 < TWO_64 && Asked(minaddr, page) <= c && c % align == 0
    ensures Start(minaddr, align, page) % align == 0 && Asked(minaddr, page) <= Start(minaddr, align, page) <= c
  {
    RoundUpLeast(Asked(minaddr, page), align, c);
  }

  /** The search starts at or above the requested address exactly when rounding it up does not wrap. */
  lemma StartNotBelowIff(minaddr: nat, align: nat, page: nat)
    requires 0 < align < TWO_64 && 0 < minaddr < TWO_64 && page < TWO_64
    ensures Start(minaddr, align, page) >= minaddr <==> minaddr + align - 1 < TWO_64
  {
  }

  /** When rounding wraps, every address an alignment dividing 2^64 allows lies below the requested one. */
  lemma WrappedStartGoesBelow(minaddr: nat, align: nat, r: nat)
    requires 0 < align < TWO_64 && TWO_64 % align == 0 && minaddr + align - 1 >= TWO_64
    requires r < TWO_64 && r % align == 0
    ensures r < minaddr
  {
    var q, d := TWO_64 / align, r / align;
    assert TWO_64 == q * align && r == d * align;
    assert (q - 1) * align == q * align - align;
    if d >= q {
      MulMonotone(q, d, align);
    } else {
      MulMonotone(d, q - 1, align);
    }
  }

  /** No multiple of `align` lies strictly between an address and its rounding. */
  lemma NothingBetween(hi: nat, align: nat, c: nat)
    requires 0 < align < TWO_64 && hi < TWO_64 && hi <= c < TWO_64 && c % align == 0
    ensures RoundUp64(hi, align) == 0 || RoundUp64(hi, align) <= c
  {
    if hi + align - 1 < TWO_64 {
      RoundUpLeast(hi, align, c);
    }
  }

  /** Without wrap-around, rounding gives the least aligned address at or above; with it, there is none that leaves room. */
  lemma WrapLeavesNoRoom(hi: nat, align: nat, c: nat)
    requires 0 < align < TWO_64 && hi < TWO_64 && TWO_64 % align == 0 && hi + align - 1 >= TWO_64
    requires hi <= c < TWO_64
    ensures c % align != 0
  {
    if c % align == 0 {
      WrappedStartGoesBelow(hi, align, c);
    }
  }

  /** Every aligned candidate from `start` up to `bound` runs into one of the first `n` regions. */
  ghost predicate Rejected(s: seq<Region>, n: nat, start: nat, bound: nat, len: nat, align: nat)
    requires n <= |s| && align > 0
  {
    forall c: nat {:trigger Free(s[..n], c, len)} :: start <= c < bound && c % align == 0 ==> !Free(s[..n], c, len)
  }

  lemma ConflictIsNotFree(s: seq<Region>, i: nat, c: nat, len: nat)
    requires i < |s| && Conflict(c, len, s[i])
    ensures !Free(s, c, len)
  {
  }

  lemma FreePrefix(s: seq<Region>, n: nat, m: nat, c: nat, len: nat)
    requires n <= m <= |s| && Free(s[..m], c, len)
    ensures Free(s[..n], c, len)
  {
    assert forall i :: 0 <= i < n ==> s[..n][i] == s[..m][i];
  }

  /** A region that reaches beyond the current address, with too small a hole before it, rejects everything up to its end. */
  lemma RejectRegion(s: seq<Region>, n: nat, start: nat, raddr: nat, len: nat, align: nat)
    requires n < |s| && 0 < align < TWO_64 && len > 0 && start <= raddr < TWO_64
    requires Rejected(s, n, start, raddr, len, align)
    requires s[n].lo < s[n].hi < TWO_64 && s[n].hi > raddr && s[n].lo < raddr + len
    ensures Rejected(s, n + 1, start, s[n].hi, len, align)
    ensures RoundUp64(s[n].hi, align) != 0 ==> Rejected(s, n + 1, start, RoundUp64(s[n].hi, align), len, align)
  {
    var hi := s[n].hi;
    forall c: nat | start <= c < hi && c % align == 0 ensures !Free(s[..n + 1], c, len) {
      if c < raddr {
        if Free(s[..n + 1], c, len) {
          FreePrefix(s, n, n + 1, c, len);
        }
      } else {
        ConflictIsNotFree(s[..n + 1], n, c, len);
      }
    }
    var up := RoundUp64(hi, align);
    if up != 0 {
      forall c: nat | start <= c < up && c % align == 0 ensures !Free(s[..n + 1], c, len) {
        if c >= hi {
          NothingBetween(hi, align, c);
        }
      }
    }
  }

  lemma KeepRejected(s: seq<Region>, n: nat, start: nat, raddr: nat, len: nat, align: nat)
    requires n < |s| && 0 < align && Rejected(s, n, start, raddr, len, align)
    ensures Rejected(s, n + 1, start, raddr, len, align)
  {
    forall c: nat | start <= c < raddr && c % align == 0 ensures !Free(s[..n + 1], c, len) {
      if Free(s[..n + 1], c, len) {
        FreePrefix(s, n, n + 1, c, len);
      }
    }
  }

  /** No aligned address from `start` up to `bound` is free. */
  ghost predicate NoneFree(s: seq<Region>, start: nat, bound: nat, len: nat, align: nat)
    requires align > 0
  {
    forall c: nat {:trigger Free(s, c, len)} :: start <= c < bound && c % align == 0 ==> !Free(s, c, len)
  }

  /** When rounding the end of a region wraps, the rest of the address space holds no candidate. */
  lemma NoneAbove(s: seq<Region>, n: nat, start: nat, len: nat, align: nat)
    requires Ascending(s) && n < |s| && 0 < align < TWO_64
    requires Rejected(s, n + 1, start, s[n].hi, len, align) && RoundUp64(s[n].hi, align) == 0
    ensures TWO_64 % align == 0 ==> NoneFree(s, start, TWO_64, len, align)
  {
    if TWO_64 % align == 0 {
      forall c: nat | start <= c < TWO_64 && c % align == 0 ensures !Free(s, c, len) {
        if c >= s[n].hi {
          WrapLeavesNoRoom(s[n].hi, align, c);
        } else if Free(s, c, len) {
          assert s[..|s|] == s;
          FreePrefix(s, n + 1, |s|, c, len);
        }
      }
    }
  }

  /** What holds when the scan stops at region `n`, or past the last one. */
  lemma Final(s: seq<Region>, n: nat, start: nat, raddr: nat, len: nat, align: nat)
    requires Ascending(s) && n <= |s| && align > 0 && len > 0 && Rejected(s, n, start, raddr, len, align)
    requires forall j :: 0 <= j < n ==> s[j].hi <= raddr
    requires n < |s| ==> raddr + len <= s[n].lo
    ensures Free(s, raddr, len)
    ensures n < |s| ==> raddr + len <= MAP_FAILED
    ensures NoneFree(s, start, raddr, len, align)
  {
    forall i | 0 <= i < |s| ensures !Conflict(raddr, len, s[i]) {
      if i > n {
        assert s[n].hi <= s[i].lo;
      }
    }
    forall c: nat | start <= c < raddr && c % align == 0 ensures !Free(s, c, len) {
      if Free(s, c, len) {
        assert s[..|s|] == s;
        FreePrefix(s, n, |s|, c, len);
      }
    }
  }

  /**
    The scan over the regions.  It ends at the first free aligned address, or
    (`wrapped`) by rounding past the end of the address space.
  */
  method Scan(regions: seq<Region>, start: nat, len: nat, align: nat) returns (raddr: nat, ghost wrapped: bool, ghost last: bool)
    requires Ascending(regions) && 0 < align < TWO_64 && 0 < len && start < TWO_64 && start % align == 0
    ensures raddr < TWO_64 && raddr % align == 0
    ensures wrapped ==> raddr == 0 && (TWO_64 % align == 0 ==> NoneFree(regions, start, TWO_64, len, align))
    ensures !wrapped ==> start <= raddr && Free(regions, raddr, len) && NoneFree(regions, start, raddr, len, align)
    ensures !wrapped && !last ==> raddr + len <= MAP_FAILED
  {
    raddr, wrapped := start, false;
    var i := 0;
    while i < |regions|
      invariant 0 <= i <= |regions| && raddr < TWO_64 && raddr % align == 0 && start <= raddr
      invariant Rejected(regions, i, start, raddr, len, align)
      invariant forall j :: 0 <= j < i ==> regions[j].hi <= raddr
      decreases |regions| - i
    {
      var lo, hi := regions[i].lo, regions[i].hi;
      if lo > raddr && lo - raddr >= len {
        break;
      }
      if hi > raddr {
        RejectRegion(regions, i, start, raddr, len, align);
        raddr := RoundUp64(hi, align);
      } else {
        KeepRejected(regions, i, start, raddr, len, align);
      }
      if raddr == 0 {
        NoneAbove(regions, i, start, len, align);
        return 0, true, false;
      }
      i := i + 1;
    }
    Final(regions, i, start, raddr, len, align);
    last := i == |regions|;
  }

  /** Nothing aligned lies between the address asked for and the start, so nothing free does. */
  lemma NoneFreeFromAsked(regions: seq<Region>, minaddr: nat, bound: nat, len: nat, align: nat, page: nat)
    requires 0 < align < TWO_64 && minaddr < TWO_64 && page < TWO_64 && Asked(minaddr, page) + align - 1 < TWO_64
    requires NoneFree(regions, Start(minaddr, align, page), bound, len, align)
    ensures NoneFree(regions, Asked(minaddr, page), bound, len, align)
  {
    forall c: nat {:trigger Free(regions, c, len)} | Asked(minaddr, page) <= c < bound && c % align == 0
      ensures !Free(regions, c, len)
    {
      StartLeast(minaddr, align, page, c);
    }
  }

  /**
    First fit: a proper result is aligned and free with room for `len` bytes, and
    the lowest such address not below the one asked for; when rounding that one up
    wraps, the lowest such address of all.  With an alignment that divides 2^64,
    the two failure results mean that there is no such address, except that a
    search that wrapped answers 0 when that is free.
  */
  method HintUnused(regions: seq<Region>, minaddr: nat, len: nat, align: nat, page: nat) returns (r: nat)
    requires Ascending(regions) && 0 < align < TWO_64 && 0 < len < TWO_64 && minaddr < TWO_64 && 0 < page < TWO_64
    ensures r < TWO_64
    ensures r != 0 && r != MAP_FAILED ==> r % align == 0 && r + len <= MAP_FAILED && Free(regions, r, len)
    ensures var asked := if minaddr == 0 then page else minaddr;
            var low := if asked + align - 1 < TWO_64 then asked else 0;
            && (r != 0 && r != MAP_FAILED ==> low <= r && NoneFree(regions, low, r, len, align))
            && (TWO_64 % align == 0 && (low != 0 || !Free(regions, 0, len)) && (r == 0 || r == MAP_FAILED) ==>
                  NoneFree(regions, low, MAP_FAILED - len + 1, len, align))
            && (low == 0 && Free(regions, 0, len) ==> r == 0)
  {
    var raddr := minaddr;
    if raddr == 0 {
      raddr := raddr + page;
    }
    var start := RoundUp64(raddr, align);
    ghost var wrapped, last;
    raddr, wrapped, last := Scan(regions, start, len, align);
    assert 0 % align == 0;
    if Asked(minaddr, page) + align - 1 < TWO_64 {
      ghost var bound := if wrapped then MAP_FAILED - len + 1 else raddr;
      if bound >= 0 && (!wrapped || TWO_64 % align == 0) {
        NoneFreeFromAsked(regions, minaddr, bound, len, align, page);
      }
    }
    if raddr != 0 && MAP_FAILED - raddr < len {
      return MAP_FAILED;
    }
    return raddr;
  }

  /** The wrap is reachable: asked for a 2 MB aligned hole above the last such boundary, the search answers far below it. */
  method WrapExample() returns (r: nat)
    ensures 0 < r < 0xFFFF_FFFF_FFFF_0000
  {
    var regions := [Region(0x1000, 0x2000)];
    r := HintUnused(regions, 0xFFFF_FFFF_FFFF_0000, 0x2000, 0x20_0000, 0x1000);
    assert Conflict(0, 0x2000, regions[0]);
    assert Free(regions, 0x20_0000, 0x2000) && 0x20_0000 % 0x20_0000 == 0;
  }
}
