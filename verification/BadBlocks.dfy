/**
  Bad-block translation: src/common/os_dimm_ndctl.c clips the bad sectors of a
  region to a namespace, and src/common/badblock_linux.c maps the resulting
  blocks through the extents of a file, widened to file-system blocks.

  Offsets and lengths in bytes are 64-bit; a block's length field is 32-bit, and
  so is the sector count of a region bad block.  Block sizes are powers of two,
  for which the masks of the source are remainders.
*/
module BadBlocks {
  import opened Arith

  const SECTOR: int := 512

  datatype Sectors = Sectors(offset: nat, len: nat)

  datatype Block = Block(offset: nat, length: nat)

  datatype Extent = Extent(physical: nat, logical: nat, length: nat)

  predicate Covers(b: Block, x: int) {
    b.offset <= x < b.offset + b.length
  }

  predicate InBlocks(bs: seq<Block>, x: int) {
    exists i :: 0 <= i < |bs| && Covers(bs[i], x)
  }

  lemma InBlocksConcat(a: seq<Block>, b: seq<Block>, x: int)
    ensures InBlocks(a + b, x) <==> InBlocks(a, x) || InBlocks(b, x)
  {
    if InBlocks(a, x) {
      var i :| 0 <= i < |a| && Covers(a[i], x);
      assert (a + b)[i] == a[i];
    }
    if InBlocks(b, x) {
      var i :| 0 <= i < |b| && Covers(b[i], x);
      assert (a + b)[|a| + i] == b[i];
    }
  }

  // ----- clipping to the namespace

  /** First and last byte of a region bad block, as computed: the sector count is shifted in 32 bits. */
  function FirstByte(s: Sectors): nat { s.offset * SECTOR % TWO_64 }

  function LastByte(s: Sectors): nat { (FirstByte(s) + s.len * SECTOR % TWO_32 - 1) % TWO_64 }

  /** The blocks one region bad block contributes: none, or its overlap relative to the namespace. */
  function ClipOne(s: Sectors, nsBeg: nat, nsSize: nat): seq<Block> {
    var nsEnd := (nsBeg + nsSize - 1) % TWO_64;
    var bbBeg, bbEnd := FirstByte(s), LastByte(s);
    if bbBeg > nsEnd || nsBeg > bbEnd then []
    else
      var beg := if bbBeg > nsBeg then bbBeg else nsBeg;
      var end := if bbEnd < nsEnd then bbEnd else nsEnd;
      [Block(beg - nsBeg, (end - beg + 1) % TWO_32)]
  }

  function Clip(ss: seq<Sectors>, nsBeg: nat, nsSize: nat): seq<Block> {
    if ss == [] then [] else Clip(ss[..|ss| - 1], nsBeg, nsSize) + ClipOne(ss[|ss| - 1], nsBeg, nsSize)
  }

  /** The loop body of os_dimm_namespace_get_badblocks. */
  method ClipSectors(s: Sectors, nsBeg: nat, nsSize: nat) returns (out: seq<Block>)
    ensures out == ClipOne(s, nsBeg, nsSize)
  {
    var nsEnd := (nsBeg + nsSize - 1) % TWO_64;
    var bbBeg := s.offset * SECTOR % TWO_64;
    var bbEnd := (bbBeg + s.len * SECTOR % TWO_32 - 1) % TWO_64;
    if bbBeg > nsEnd || nsBeg > bbEnd {
      return [];
    }
    var beg := if bbBeg > nsBeg then bbBeg else nsBeg;
    var end := if bbEnd < nsEnd then bbEnd else nsEnd;
    return [Block(beg - nsBeg, (end - beg + 1) % TWO_32)];
  }

  /** The loop of os_dimm_namespace_get_badblocks. */
  method NamespaceBadBlocks(ss: seq<Sectors>, nsBeg: nat, nsSize: nat) returns (bbv: seq<Block>)
    ensures bbv == Clip(ss, nsBeg, nsSize)
  {
    bbv := [];
    for i := 0 to |ss|
      invariant bbv == Clip(ss[..i], nsBeg, nsSize)
    {
      assert ss[..i + 1][..i] == ss[..i];
      var more := ClipSectors(ss[i], nsBeg, nsSize);
      bbv := bbv + more;
    }
    assert ss[..|ss|] == ss;
  }

  /** The bytes a region bad block really names. */
  predicate Bad(s: Sectors, y: int) {
    s.offset * SECTOR <= y < (s.offset + s.len) * SECTOR
  }

  ghost predicate BadRegionByte(ss: seq<Sectors>, y: int) {
    exists i :: 0 <= i < |ss| && Bad(ss[i], y)
  }

  predicate NamespaceOk(nsBeg: nat, nsSize: nat) {
    0 < nsSize && nsBeg + nsSize <= TWO_64
  }

  /** The block lies in the 64-bit address space. */
  predicate InSpace(s: Sectors) {
    s.offset * SECTOR < TWO_64 && (s.offset + s.len) * SECTOR <= TWO_64
  }

  /** A non-empty block whose byte length the 32-bit shift keeps. */
  predicate Short(s: Sectors) {
    0 < s.len && s.len * SECTOR < TWO_32
  }

  /** The block starts at byte 0 and the 32-bit shift leaves nothing of it, so its last byte wraps to the highest address. */
  predicate LastWraps(s: Sectors) {
    s.offset == 0 && s.len * SECTOR % TWO_32 == 0
  }

  /** How many bytes from its beginning a block at byte 0 makes bad in the namespace. */
  function BadFromStart(len: nat, nsBeg: nat, nsSize: nat): nat {
    if len <= nsBeg then 0 else if nsSize < len - nsBeg then nsSize else len - nsBeg
  }

  /**
    What the 32-bit shift does to the block does not matter to the namespace: it
    loses nothing, or the block does not meet the namespace, or what is left of it
    still reaches the end.  When the last byte wraps, the whole namespace counts as
    bad, with its size cut to 32 bits.
  */
  predicate Harmless(s: Sectors, nsBeg: nat, nsSize: nat) {
    var first, len := s.offset * SECTOR, s.len * SECTOR;
    if LastWraps(s) then nsSize % TWO_32 == BadFromStart(len, nsBeg, nsSize)
    else
      || len < TWO_32
      || first + len <= nsBeg || nsBeg + nsSize <= first
      || nsBeg + nsSize <= first + len % TWO_32
  }

  /** The clipped blocks when the last byte does not wrap: what the shift leaves. */
  lemma ClipOneShifted(s: Sectors, nsBeg: nat, nsSize: nat, x: int)
    requires NamespaceOk(nsBeg, nsSize) && InSpace(s) && !LastWraps(s)
    ensures InBlocks(ClipOne(s, nsBeg, nsSize), x)
            <==> 0 <= x < nsSize && s.offset * SECTOR <= nsBeg + x < s.offset * SECTOR + s.len * SECTOR % TWO_32
    ensures forall b :: b in ClipOne(s, nsBeg, nsSize) ==> b.length < TWO_32 && b.offset + b.length <= nsSize
    ensures Short(s) ==> forall b :: b in ClipOne(s, nsBeg, nsSize) ==> 0 < b.length
  {
    var first, left := s.offset * SECTOR, s.len * SECTOR % TWO_32;
    SmallMod(first, TWO_64);
    SmallMod(first + left - 1, TWO_64);
    SmallMod(nsBeg + nsSize - 1, TWO_64);
    var out := ClipOne(s, nsBeg, nsSize);
    if out != [] {
      var beg := if first > nsBeg then first else nsBeg;
      var end := if first + left < nsBeg + nsSize then first + left else nsBeg + nsSize;
      SmallMod(end - beg, TWO_32);
      assert out == [Block(beg - nsBeg, end - beg)];
      assert InBlocks(out, x) <==> Covers(out[0], x);
    }
  }

  /** The clipped blocks when it does: the namespace from its beginning, with its size cut to 32 bits. */
  lemma ClipOneWrapped(s: Sectors, nsBeg: nat, nsSize: nat, x: int)
    requires NamespaceOk(nsBeg, nsSize) && LastWraps(s)
    ensures ClipOne(s, nsBeg, nsSize) == [Block(0, nsSize % TWO_32)]
    ensures InBlocks(ClipOne(s, nsBeg, nsSize), x) <==> 0 <= x < nsSize % TWO_32
  {
    SmallMod(nsBeg + nsSize - 1, TWO_64);
    var out := ClipOne(s, nsBeg, nsSize);
    assert LastByte(s) == TWO_64 - 1;
    assert InBlocks(out, x) <==> Covers(out[0], x);
  }

  ghost predicate Exact(s: Sectors, nsBeg: nat, nsSize: nat) {
    forall x :: InBlocks(ClipOne(s, nsBeg, nsSize), x) <==> 0 <= x < nsSize && Bad(s, nsBeg + x)
  }

  /** Clipping a bad block is exact if and only if the 32-bit shift is harmless. */
  lemma ExactIff(s: Sectors, nsBeg: nat, nsSize: nat)
    requires NamespaceOk(nsBeg, nsSize) && InSpace(s)
    ensures Exact(s, nsBeg, nsSize) <==> Harmless(s, nsBeg, nsSize)
  {
    if LastWraps(s) {
      ExactIffWrapped(s, nsBeg, nsSize);
    } else {
      ExactIffShifted(s, nsBeg, nsSize);
    }
  }

  lemma ExactIffShifted(s: Sectors, nsBeg: nat, nsSize: nat)
    requires NamespaceOk(nsBeg, nsSize) && InSpace(s) && !LastWraps(s)
    ensures Exact(s, nsBeg, nsSize) <==> Harmless(s, nsBeg, nsSize)
  {
    forall x
      ensures InBlocks(ClipOne(s, nsBeg, nsSize), x)
              <==> 0 <= x < nsSize && s.offset * SECTOR <= nsBeg + x < s.offset * SECTOR + s.len * SECTOR % TWO_32
    {
      ClipOneShifted(s, nsBeg, nsSize, x);
    }
    var first, len := s.offset * SECTOR, s.len * SECTOR;
    if !Harmless(s, nsBeg, nsSize) {
      // The first byte that is lost, or the first byte of the namespace if that lies behind it.
      var y := if first + len % TWO_32 > nsBeg then first + len % TWO_32 else nsBeg;
      assert Bad(s, y) && 0 <= y - nsBeg < nsSize;
      assert !InBlocks(ClipOne(s, nsBeg, nsSize), y - nsBeg);
    }
  }

  lemma ExactIffWrapped(s: Sectors, nsBeg: nat, nsSize: nat)
    requires NamespaceOk(nsBeg, nsSize) && LastWraps(s)
    ensures Exact(s, nsBeg, nsSize) <==> Harmless(s, nsBeg, nsSize)
  {
    var got, bad := nsSize % TWO_32, BadFromStart(s.len * SECTOR, nsBeg, nsSize);
    forall x
      ensures InBlocks(ClipOne(s, nsBeg, nsSize), x) <==> 0 <= x < got
      ensures 0 <= x < nsSize && Bad(s, nsBeg + x) <==> 0 <= x < bad
    {
      ClipOneWrapped(s, nsBeg, nsSize, x);
    }
    if got != bad {
      var x := if got < bad then got else bad;
      assert InBlocks(ClipOne(s, nsBeg, nsSize), x) <==> 0 <= x < got;
    }
  }

  /** The wrap reports good bytes: a bad block of 2^32 bytes at the region's beginning makes a namespace behind it bad. */
  lemma WrapReportsGoodBytes(nsBeg: nat, nsSize: nat)
    requires NamespaceOk(nsBeg, nsSize) && nsBeg >= TWO_32 && nsSize % TWO_32 != 0
    ensures var s := Sectors(0, 0x80_0000);
            !Harmless(s, nsBeg, nsSize) && InBlocks(ClipOne(s, nsBeg, nsSize), 0) && !Bad(s, nsBeg)
  {
    ClipOneWrapped(Sectors(0, 0x80_0000), nsBeg, nsSize, 0);
  }

  /** The shift loses bad bytes: a bad block of 2^32 bytes elsewhere vanishes. */
  lemma ShiftLosesBadBytes()
    ensures var s := Sectors(1, 0x80_0000);
            && !Harmless(s, 0, 0x100_0000_0000)
            && Bad(s, 512) && !InBlocks(ClipOne(s, 0, 0x100_0000_0000), 512)
  {
    ClipOneShifted(Sectors(1, 0x80_0000), 0, 0x100_0000_0000, 512);
  }

  /**
    Clipping is exact: a byte of the namespace is in a returned block if and only
    if the region byte under it is bad.
  */
  lemma {:induction false} ClipExact(ss: seq<Sectors>, nsBeg: nat, nsSize: nat, x: int)
    requires NamespaceOk(nsBeg, nsSize)
    requires forall i :: 0 <= i < |ss| ==> InSpace(ss[i]) && Harmless(ss[i], nsBeg, nsSize)
    ensures InBlocks(Clip(ss, nsBeg, nsSize), x) <==> 0 <= x < nsSize && BadRegionByte(ss, nsBeg + x)
  {
    if ss != [] {
      var n := |ss| - 1;
      ClipExact(ss[..n], nsBeg, nsSize, x);
      ExactIff(ss[n], nsBeg, nsSize);
      InBlocksConcat(Clip(ss[..n], nsBeg, nsSize), ClipOne(ss[n], nsBeg, nsSize), x);
      BadSnoc(ss, nsBeg + x);
    }
  }

  lemma BadSnoc(ss: seq<Sectors>, y: int)
    requires ss != []
    ensures BadRegionByte(ss, y) <==> BadRegionByte(ss[..|ss| - 1], y) || Bad(ss[|ss| - 1], y)
  {
    var n := |ss| - 1;
    if BadRegionByte(ss, y) && !Bad(ss[n], y) {
      var i :| 0 <= i < |ss| && Bad(ss[i], y);
      assert ss[..n][i] == ss[i];
    }
    if BadRegionByte(ss[..n], y) {
      var i :| 0 <= i < n && Bad(ss[..n][i], y);
      assert Bad(ss[i], y);
    }
  }

  /** Every returned block fits its length field and lies in the namespace. */
  lemma {:induction false} ClipWithin(ss: seq<Sectors>, nsBeg: nat, nsSize: nat)
    requires NamespaceOk(nsBeg, nsSize) && forall i :: 0 <= i < |ss| ==> InSpace(ss[i])
    ensures forall b :: b in Clip(ss, nsBeg, nsSize) ==> b.length < TWO_32 && b.offset + b.length <= nsSize
  {
    if ss != [] {
      var n := |ss| - 1;
      ClipWithin(ss[..n], nsBeg, nsSize);
      if LastWraps(ss[n]) {
        ClipOneWrapped(ss[n], nsBeg, nsSize, 0);
      } else {
        ClipOneShifted(ss[n], nsBeg, nsSize, 0);
      }
    }
  }

  /** Nothing is left of a block at sector 0, and nothing of the size of the namespace either. */
  predicate GivesEmpty(s: Sectors, nsSize: nat) {
    LastWraps(s) && nsSize % TWO_32 == 0
  }

  /** A non-empty harmless bad block is clipped to an empty block exactly in that case. */
  lemma EmptyBlockIff(s: Sectors, nsBeg: nat, nsSize: nat)
    requires NamespaceOk(nsBeg, nsSize) && InSpace(s) && Harmless(s, nsBeg, nsSize) && s.len > 0
    ensures Block(0, 0) in ClipOne(s, nsBeg, nsSize) <==> GivesEmpty(s, nsSize)
    ensures !GivesEmpty(s, nsSize) ==> forall b :: b in ClipOne(s, nsBeg, nsSize) ==> 0 < b.length
  {
    if LastWraps(s) {
      ClipOneWrapped(s, nsBeg, nsSize, 0);
    } else {
      NoEmptyShifted(s, nsBeg, nsSize);
    }
  }

  lemma NoEmptyShifted(s: Sectors, nsBeg: nat, nsSize: nat)
    requires NamespaceOk(nsBeg, nsSize) && InSpace(s) && Harmless(s, nsBeg, nsSize) && s.len > 0 && !LastWraps(s)
    ensures forall b :: b in ClipOne(s, nsBeg, nsSize) ==> 0 < b.length
  {
    var first, left := s.offset * SECTOR, s.len * SECTOR % TWO_32;
    SmallMod(first, TWO_64);
    SmallMod(first + left - 1, TWO_64);
    SmallMod(nsBeg + nsSize - 1, TWO_64);
    if ClipOne(s, nsBeg, nsSize) != [] {
      var beg := if first > nsBeg then first else nsBeg;
      var end := if first + left < nsBeg + nsSize then first + left else nsBeg + nsSize;
      SmallMod(end - beg, TWO_32);
    }
  }

  /** A bad block that is clipped exactly and not to an empty block. */
  predicate Proper(s: Sectors, nsBeg: nat, nsSize: nat) {
    InSpace(s) && s.len > 0 && Harmless(s, nsBeg, nsSize) && !GivesEmpty(s, nsSize)
  }

  lemma ShortIsProper(s: Sectors, nsBeg: nat, nsSize: nat)
    requires InSpace(s) && Short(s)
    ensures Proper(s, nsBeg, nsSize)
  {
    SmallMod(s.len * SECTOR, TWO_32);
  }

  lemma {:induction false} ClipProper(ss: seq<Sectors>, nsBeg: nat, nsSize: nat)
    requires NamespaceOk(nsBeg, nsSize) && forall i :: 0 <= i < |ss| ==> Proper(ss[i], nsBeg, nsSize)
    ensures forall b :: b in Clip(ss, nsBeg, nsSize) ==> 0 < b.length
  {
    if ss != [] {
      var n := |ss| - 1;
      ClipProper(ss[..n], nsBeg, nsSize);
      EmptyBlockIff(ss[n], nsBeg, nsSize);
    }
  }
}
