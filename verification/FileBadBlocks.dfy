/**
  The intersection loop of os_badblocks_get in src/common/badblock_linux.c: bad
  blocks of the namespace, mapped through the extents of a file.
*/
module FileBadBlocks {
  import opened Arith
  import opened BadBlocks

  function W64(x: int): nat { x % TWO_64 }

  /** The record for the bytes [beg, end] of an extent: moved to file offsets and widened to whole blocks. */
  function Record(beg: nat, end: nat, e: Extent, blk: nat): Block
    requires blk > 0
  {
    var off := W64(beg + e.logical - e.physical);
    var slack := off % blk;
    Block(off - slack, RoundUp(W64(end - beg + 1) + slack, blk) % TWO_32)
  }

  /** The last physical byte of an extent. */
  function ExtentEnd(e: Extent): nat { W64(e.physical + e.length - 1) }

  /** Whether [beg, end] overlaps the extent, by the source's test. */
  predicate Meets(beg: nat, end: nat, e: Extent) {
    !(beg > ExtentEnd(e) || e.physical > end)
  }

  /** An overlap of a bad block with an extent: its first and last physical byte. */
  datatype Piece = Piece(beg: nat, end: nat, e: Extent)

  function Later(a: nat, b: nat): nat { if a > b then a else b }

  function Sooner(a: nat, b: nat): nat { if a < b then a else b }

  /** The extent loop for one bad block; the bounds stay narrowed after an overlap. */
  function Scan(beg: nat, end: nat, exts: seq<Extent>): seq<Piece>
    decreases exts
  {
    if exts == [] then []
    else if !Meets(beg, end, exts[0]) then Scan(beg, end, exts[1..])
    else
      var b, z := Later(beg, exts[0].physical), Sooner(end, ExtentEnd(exts[0]));
      [Piece(b, z, exts[0])] + Scan(b, z, exts[1..])
  }

  function Records(ps: seq<Piece>, blk: nat): (r: seq<Block>)
    requires blk > 0
    ensures |r| == |ps|
  {
    if ps == [] then []
    else Records(ps[..|ps| - 1], blk) + [Record(ps[|ps| - 1].beg, ps[|ps| - 1].end, ps[|ps| - 1].e, blk)]
  }

  lemma RecordsSnoc(ps: seq<Piece>, p: Piece, blk: nat)
    requires blk > 0
    ensures Records(ps + [p], blk) == Records(ps, blk) + [Record(p.beg, p.end, p.e, blk)]
  {
    assert (ps + [p])[..|ps|] == ps;
  }

  /** The overlaps of one bad block, and the records they become. */
  function ScanPieces(b: Block, exts: seq<Extent>): seq<Piece> {
    Scan(b.offset, W64(b.offset + b.length - 1), exts)
  }

  function ScanBlock(b: Block, exts: seq<Extent>, blk: nat): seq<Block>
    requires blk > 0
  {
    Records(ScanPieces(b, exts), blk)
  }

  function ScanAll(bs: seq<Block>, exts: seq<Extent>, blk: nat): seq<Block>
    requires blk > 0
  {
    if bs == [] then [] else ScanAll(bs[..|bs| - 1], exts, blk) + ScanBlock(bs[|bs| - 1], exts, blk)
  }

  /** The inner loop of os_badblocks_get, over the extents. */
  method ScanExtents(b: Block, exts: seq<Extent>, blk: nat) returns (bbv: seq<Block>)
    requires blk > 0
    ensures bbv == ScanBlock(b, exts, blk)
  {
    bbv := [];
    var bbBeg: nat := b.offset;
    var bbEnd: nat := W64(bbBeg + b.length - 1);
    ghost var goal, done: seq<Piece> := ScanPieces(b, exts), [];
    assert exts[0..] == exts && done + goal == goal;
    for i := 0 to |exts|
      invariant goal == done + Scan(bbBeg, bbEnd, exts[i..])
      invariant bbv == Records(done, blk)
    {
      assert exts[i..][0] == exts[i] && exts[i..][1..] == exts[i + 1..];
      var extBeg, extEnd := exts[i].physical, ExtentEnd(exts[i]);
      if bbBeg > extEnd || extBeg > bbEnd {
        continue;
      }
      bbBeg := if bbBeg > extBeg then bbBeg else extBeg;
      bbEnd := if bbEnd < extEnd then bbEnd else extEnd;
      ghost var p := Piece(bbBeg, bbEnd, exts[i]);
      ghost var rest := Scan(bbBeg, bbEnd, exts[i + 1..]);
      assert done + ([p] + rest) == done + [p] + rest;
      var rec := FormRecord(bbBeg, bbEnd, exts[i], blk);
      RecordsSnoc(done, p, blk);
      bbv, done := bbv + [rec], done + [p];
    }
    assert exts[|exts|..] == [] && done + [] == done;
  }

  /** The loop body once the bounds are narrowed: shift to file offsets, then align offset and length. */
  method FormRecord(bbBeg: nat, bbEnd: nat, e: Extent, blk: nat) returns (rec: Block)
    requires blk > 0
    ensures rec == Record(bbBeg, bbEnd, e, blk)
  {
    var bbLen := W64(bbEnd - bbBeg + 1);
    var bbOff := W64(bbBeg + e.logical - e.physical);
    var notBlockAligned := bbOff % blk;
    if notBlockAligned != 0 {
      bbOff := bbOff - notBlockAligned;
      bbLen := bbLen + notBlockAligned;
    }
    bbLen := RoundUp(bbLen, blk);
    rec := Block(bbOff, bbLen % TWO_32);
  }

  /** The loops of os_badblocks_get. */
  method BadBlocksGet(bs: seq<Block>, exts: seq<Extent>, blk: nat) returns (found: nat, bbv: seq<Block>)
    requires blk > 0
    ensures bbv == ScanAll(bs, exts, blk) && found == |bbv|
  {
    bbv := [];
    for i := 0 to |bs|
      invariant bbv == ScanAll(bs[..i], exts, blk)
    {
      assert bs[..i + 1][..i] == bs[..i];
      var more := ScanExtents(bs[i], exts, blk);
      bbv := bbv + more;
    }
    assert bs[..|bs|] == bs;
    found := |bbv|;
  }

  // ----- what a record is

  predicate ExtentOk(e: Extent) {
    0 < e.length && e.physical + e.length <= TWO_64 && e.logical + e.length <= TWO_64
  }

  ghost predicate ExtentsOk(exts: seq<Extent>) {
    && (forall i :: 0 <= i < |exts| ==> ExtentOk(exts[i]))
    && (forall i, j :: 0 <= i < j < |exts| ==> Apart(exts[i], exts[j]))
  }

  /** Physically disjoint. */
  predicate Apart(a: Extent, b: Extent) {
    a.physical + a.length <= b.physical || b.physical + b.length <= a.physical
  }

  /** The block shares a byte with the extent. */
  predicate Touches(b: Block, e: Extent) {
    b.offset < e.physical + e.length && e.physical < b.offset + b.length
  }

  predicate BlockOk(b: Block) {
    0 < b.length < TWO_32 && b.offset + b.length <= TWO_64
  }

  /** First and last file offset of the overlap of a block with an extent. */
  function FileFirst(b: Block, e: Extent): int {
    (if b.offset > e.physical then b.offset else e.physical) - e.physical + e.logical
  }

  function FileLast(b: Block, e: Extent): int {
    (if b.offset + b.length < e.physical + e.length then b.offset + b.length else e.physical + e.length) - 1
    - e.physical + e.logical
  }

  function DownTo(x: nat, blk: nat): nat
    requires blk > 0
  {
    x - x % blk
  }

  /** The block-aligned hull of a range of file offsets. */
  function Hull(first: nat, last: nat, blk: nat): Block
    requires blk > 0 && first <= last
  {
    HullIsRange(first, last, blk);
    Block(DownTo(first, blk), RoundUp(last + 1, blk) - DownTo(first, blk))
  }

  lemma HullIsRange(first: nat, last: nat, blk: nat)
    requires blk > 0 && first <= last
    ensures DownTo(first, blk) <= first && RoundUp(last + 1, blk) > last
  {
  }

  /** The hull is the least block-aligned range that covers the offsets. */
  lemma HullLeast(first: nat, last: nat, blk: nat, b: Block)
    requires blk > 0 && first <= last
    requires b.offset % blk == 0 && (b.offset + b.length) % blk == 0 && b.offset <= first && last < b.offset + b.length
    ensures var h := Hull(first, last, blk);
            && h.offset % blk == 0 && (h.offset + h.length) % blk == 0
            && b.offset <= h.offset <= first && last < h.offset + h.length <= b.offset + b.length
  {
    RoundUpLeast(last + 1, blk, b.offset + b.length);
    DownGreatest(first, blk, b.offset);
  }

  lemma DownGreatest(x: nat, blk: nat, c: nat)
    requires blk > 0 && c <= x && c % blk == 0
    ensures DownTo(x, blk) % blk == 0 && c <= DownTo(x, blk)
  {
    var q, d := x / blk, c / blk;
    assert x == q * blk + x % blk && c == d * blk;
    DivModUnique(q * blk, q, blk, 0);
    assert (q + 1) * blk == q * blk + blk;
    if d > q {
      MulMonotone(q + 1, d, blk);
    } else {
      MulMonotone(d, q, blk);
    }
  }

  /** Rounding the length up after adding the slack is rounding the end up. */
  lemma RoundFromAligned(first: nat, last: nat, blk: nat)
    requires blk > 0 && first <= last
    ensures RoundUp(last - first + 1 + first % blk, blk) == RoundUp(last + 1, blk) - DownTo(first, blk)
  {
    var d := DownTo(first, blk);
    DownGreatest(first, blk, 0);
    var len := last + 1 - d;
    var r, t := RoundUp(len, blk), RoundUp(last + 1, blk);
    SumAligned(d, r, blk);
    RoundUpLeast(last + 1, blk, d + r);
    DiffAligned(t, d, blk);
    RoundUpLeast(len, blk, t - d);
  }

  // ----- one record for each bad block that meets the file

  lemma ExtentEndIs(e: Extent)
    requires ExtentOk(e)
    ensures ExtentEnd(e) == e.physical + e.length - 1
  {
    SmallMod(e.physical + e.length - 1, TWO_64);
  }

  lemma BlockEndIs(b: Block)
    requires BlockOk(b)
    ensures W64(b.offset + b.length - 1) == b.offset + b.length - 1
  {
    SmallMod(b.offset + b.length - 1, TWO_64);
  }

  /** The record of a piece that starts at file offset `first` and ends at `last` is the hull, its length cut to 32 bits. */
  lemma RecordIsHull(p: Piece, first: nat, last: nat, blk: nat)
    requires blk > 0 && first <= last < TWO_64 && last - first < TWO_32
    requires p.beg + p.e.logical - p.e.physical == first && p.end + p.e.logical - p.e.physical == last
    ensures Record(p.beg, p.end, p.e, blk) == Cut32(Hull(first, last, blk))
  {
    SmallMod(first, TWO_64);
    SmallMod(last - first + 1, TWO_64);
    RoundFromAligned(first, last, blk);
  }

  /** A block whose length has been cut to its 32-bit field. */
  function Cut32(b: Block): Block { Block(b.offset, b.length % TWO_32) }

  /** The position of the first extent a block touches. */
  function FirstTouched(b: Block, exts: seq<Extent>): (k: nat)
    ensures k <= |exts|
    ensures forall i :: 0 <= i < k ==> !Touches(b, exts[i])
    ensures k < |exts| ==> Touches(b, exts[k])
  {
    if exts == [] then 0
    else if Touches(b, exts[0]) then 0
    else
      var k := FirstTouched(b, exts[1..]);
      assert forall i :: 0 < i < k + 1 ==> exts[i] == exts[1..][i - 1];
      k + 1
  }

  lemma {:induction false} ScanMisses(beg: nat, end: nat, exts: seq<Extent>)
    requires forall i :: 0 <= i < |exts| ==> !Meets(beg, end, exts[i])
    ensures Scan(beg, end, exts) == []
    decreases exts
  {
    if exts != [] {
      ScanMisses(beg, end, exts[1..]);
    }
  }

  /** The overlap of a block with an extent it touches. */
  function PieceOf(b: Block, e: Extent): Piece
    requires BlockOk(b) && ExtentOk(e) && Touches(b, e)
  {
    Piece(Later(b.offset, e.physical), Sooner(b.offset + b.length, e.physical + e.length) - 1, e)
  }

  /** A bad block has at most one piece in disjoint extents: its overlap with the first extent it touches. */
  lemma {:induction false} OnePiece(b: Block, exts: seq<Extent>)
    requires BlockOk(b) && ExtentsOk(exts)
    ensures var k := FirstTouched(b, exts);
            ScanPieces(b, exts) == if k == |exts| then [] else [PieceOf(b, exts[k])]
    decreases exts
  {
    if exts != [] {
      BlockEndIs(b);
      ExtentEndIs(exts[0]);
      if Touches(b, exts[0]) {
        NarrowedMisses(b, exts);
      } else {
        assert forall i :: 0 < i < |exts| ==> exts[i] == exts[1..][i - 1];
        OnePiece(b, exts[1..]);
      }
    }
  }

  /** Inside one extent there is nothing left to meet in the others. */
  lemma NarrowedMisses(b: Block, exts: seq<Extent>)
    requires BlockOk(b) && ExtentsOk(exts) && exts != [] && Touches(b, exts[0])
    ensures var p := PieceOf(b, exts[0]); Scan(p.beg, p.end, exts[1..]) == []
  {
    var p := PieceOf(b, exts[0]);
    forall i | 0 <= i < |exts[1..]| ensures !Meets(p.beg, p.end, exts[1..][i]) {
      assert exts[1..][i] == exts[i + 1] && Apart(exts[0], exts[i + 1]);
      ExtentEndIs(exts[i + 1]);
    }
    ScanMisses(p.beg, p.end, exts[1..]);
  }

  lemma FileRange(b: Block, e: Extent)
    requires BlockOk(b) && ExtentOk(e) && Touches(b, e)
    ensures e.logical <= FileFirst(b, e) <= FileLast(b, e) < e.logical + e.length <= TWO_64
    ensures FileLast(b, e) - FileFirst(b, e) < TWO_32
    ensures var p := PieceOf(b, e);
            && p.beg + e.logical - e.physical == FileFirst(b, e)
            && p.end + e.logical - e.physical == FileLast(b, e)
  {
  }

  /** The hull, in the file, of a block's overlap with an extent. */
  ghost function FileHull(b: Block, e: Extent, blk: nat): Block
    requires blk > 0 && BlockOk(b) && ExtentOk(e) && Touches(b, e)
  {
    FileRange(b, e);
    Hull(FileFirst(b, e), FileLast(b, e), blk)
  }

  /**
    A bad block yields no record when it meets no extent, and otherwise exactly
    one: the hull of its overlap with the first extent it meets.
  */
  lemma OneRecord(b: Block, exts: seq<Extent>, blk: nat)
    requires blk > 0 && BlockOk(b) && ExtentsOk(exts)
    ensures var k := FirstTouched(b, exts);
            ScanBlock(b, exts, blk) == if k == |exts| then [] else [Cut32(FileHull(b, exts[k], blk))]
  {
    OnePiece(b, exts);
    var k := FirstTouched(b, exts);
    if k < |exts| {
      var p := PieceOf(b, exts[k]);
      FileRange(b, exts[k]);
      RecordIsHull(p, FileFirst(b, exts[k]), FileLast(b, exts[k]), blk);
      RecordsSnoc([], p, blk);
      assert [] + [p] == [p];
    }
  }

  // ----- coverage

  /** File offset x lies in the extent, on a byte of the block. */
  predicate FileByte(b: Block, e: Extent, x: int) {
    e.logical <= x < e.logical + e.length && Covers(b, x - e.logical + e.physical)
  }

  lemma FileByteIff(b: Block, e: Extent, x: int)
    requires ExtentOk(e) && 0 < b.length
    ensures FileByte(b, e, x) <==> Touches(b, e) && FileFirst(b, e) <= x <= FileLast(b, e)
  {
  }

  /** Every byte of the file that the block makes bad is in the block's own record. */
  ghost predicate OwnCover(b: Block, exts: seq<Extent>, blk: nat)
    requires blk > 0
  {
    forall i, x :: 0 <= i < |exts| && FileByte(b, exts[i], x) ==> InBlocks(ScanBlock(b, exts, blk), x)
  }

  predicate AtMostOne(b: Block, exts: seq<Extent>) {
    forall i, j :: 0 <= i < j < |exts| ==> !(Touches(b, exts[i]) && Touches(b, exts[j]))
  }

  /** The hull of the first overlap fits the 32-bit length field. */
  ghost predicate HullFits(b: Block, exts: seq<Extent>, blk: nat)
    requires blk > 0 && BlockOk(b) && ExtentsOk(exts)
  {
    var k := FirstTouched(b, exts);
    k < |exts| ==> FileHull(b, exts[k], blk).length < TWO_32
  }

  /** The hull contains what it is the hull of. */
  lemma HullCovers(b: Block, e: Extent, blk: nat, x: int)
    requires blk > 0 && BlockOk(b) && ExtentOk(e) && FileByte(b, e, x)
    ensures Touches(b, e) && Covers(FileHull(b, e, blk), x)
  {
    FileByteIff(b, e, x);
    FileRange(b, e);
    HullIsRange(FileFirst(b, e), FileLast(b, e), blk);
  }

  lemma CoveredIfAtMostOne(b: Block, exts: seq<Extent>, blk: nat)
    requires blk > 0 && BlockOk(b) && ExtentsOk(exts) && HullFits(b, exts, blk) && AtMostOne(b, exts)
    ensures OwnCover(b, exts, blk)
  {
    OneRecord(b, exts, blk);
    var k := FirstTouched(b, exts);
    forall i, x | 0 <= i < |exts| && FileByte(b, exts[i], x)
      ensures InBlocks(ScanBlock(b, exts, blk), x)
    {
      HullCovers(b, exts[i], blk, x);
      assert i == k;
      SmallMod(FileHull(b, exts[k], blk).length, TWO_32);
      assert Covers(ScanBlock(b, exts, blk)[0], x);
    }
  }

  predicate AlignedExtent(e: Extent, blk: nat)
    requires blk > 0
  {
    e.logical % blk == 0 && (e.logical + e.length) % blk == 0
  }

  ghost predicate LogicallyApart(exts: seq<Extent>) {
    forall i, j :: 0 <= i < |exts| && 0 <= j < |exts| && i != j ==>
      exts[i].logical + exts[i].length <= exts[j].logical || exts[j].logical + exts[j].length <= exts[i].logical
  }

  /** A record never reaches outside the extent it was made for, when extents consist of whole blocks. */
  lemma HullInsideExtent(b: Block, e: Extent, blk: nat)
    requires blk > 0 && BlockOk(b) && ExtentOk(e) && Touches(b, e) && AlignedExtent(e, blk)
    ensures var h := FileHull(b, e, blk); e.logical <= h.offset && h.offset + h.length <= e.logical + e.length
  {
    FileRange(b, e);
    HullLeast(FileFirst(b, e), FileLast(b, e), blk, Block(e.logical, e.length));
  }

  /** A second extent that a block touches has a bad byte the record of the first misses. */
  lemma SecondExtentMissed(b: Block, exts: seq<Extent>, blk: nat, k: nat, j: nat) returns (x: int)
    requires blk > 0 && BlockOk(b) && ExtentsOk(exts) && LogicallyApart(exts)
    requires k < |exts| && j < |exts| && k != j && Touches(b, exts[k]) && Touches(b, exts[j])
    requires AlignedExtent(exts[k], blk)
    ensures FileByte(b, exts[j], x) && !Covers(Cut32(FileHull(b, exts[k], blk)), x)
  {
    x := FileFirst(b, exts[j]);
    FileRange(b, exts[j]);
    FileByteIff(b, exts[j], x);
    HullInsideExtent(b, exts[k], blk);
    CutShorter(FileHull(b, exts[k], blk));
  }

  lemma CutShorter(b: Block)
    ensures Cut32(b).offset == b.offset && Cut32(b).length <= b.length
  {
  }

  /** A record whose length field overflows misses the last bad byte. */
  lemma LongHullMissed(b: Block, e: Extent, blk: nat)
    requires 0 < blk <= TWO_32 && BlockOk(b) && ExtentOk(e) && Touches(b, e)
    requires FileHull(b, e, blk).length >= TWO_32
    ensures FileByte(b, e, FileLast(b, e)) && !Covers(Cut32(FileHull(b, e, blk)), FileLast(b, e))
  {
    var last := FileLast(b, e);
    FileRange(b, e);
    FileByteIff(b, e, last);
    assert RoundUp(last + 1, blk) - blk < last + 1;
    CutByLimit(FileHull(b, e, blk));
  }

  lemma CutByLimit(b: Block)
    requires b.length >= TWO_32
    ensures Cut32(b).offset == b.offset && Cut32(b).length <= b.length - TWO_32
  {
  }

  lemma TwoExtentsMissed(b: Block, exts: seq<Extent>, blk: nat)
    requires blk > 0 && BlockOk(b) && ExtentsOk(exts) && LogicallyApart(exts) && !AtMostOne(b, exts)
    requires forall i :: 0 <= i < |exts| ==> AlignedExtent(exts[i], blk)
    ensures !OwnCover(b, exts, blk)
  {
    var k := FirstTouched(b, exts);
    var i, j :| 0 <= i < j < |exts| && Touches(b, exts[i]) && Touches(b, exts[j]);
    var other := if i == k then j else i;
    var x := SecondExtentMissed(b, exts, blk, k, other);
    OneRecord(b, exts, blk);
    OnlyRecord(b, exts, blk, Cut32(FileHull(b, exts[k], blk)), other, x);
  }

  lemma LongMissed(b: Block, exts: seq<Extent>, blk: nat)
    requires 0 < blk <= TWO_32 && BlockOk(b) && ExtentsOk(exts) && !HullFits(b, exts, blk)
    ensures !OwnCover(b, exts, blk)
  {
    var k := FirstTouched(b, exts);
    LongHullMissed(b, exts[k], blk);
    OneRecord(b, exts, blk);
    OnlyRecord(b, exts, blk, Cut32(FileHull(b, exts[k], blk)), k, FileLast(b, exts[k]));
  }

  /** A file byte that the one record does not cover is not covered. */
  lemma OnlyRecord(b: Block, exts: seq<Extent>, blk: nat, rec: Block, i: nat, x: int)
    requires blk > 0 && ScanBlock(b, exts, blk) == [rec] && i < |exts| && FileByte(b, exts[i], x) && !Covers(rec, x)
    ensures !OwnCover(b, exts, blk)
  {
    assert !InBlocks(ScanBlock(b, exts, blk), x);
  }

  /**
    For files made of whole blocks the condition is exact: a bad block's own
    record covers all the file bytes it makes bad if and only if it meets at most
    one extent and the widened range fits the length field.
  */
  lemma CoveredIff(b: Block, exts: seq<Extent>, blk: nat)
    requires 0 < blk <= TWO_32 && BlockOk(b) && ExtentsOk(exts)
    requires LogicallyApart(exts) && forall i :: 0 <= i < |exts| ==> AlignedExtent(exts[i], blk)
    ensures OwnCover(b, exts, blk) <==> AtMostOne(b, exts) && HullFits(b, exts, blk)
  {
    if !AtMostOne(b, exts) {
      TwoExtentsMissed(b, exts, blk);
    } else if !HullFits(b, exts, blk) {
      LongMissed(b, exts, blk);
    } else {
      CoveredIfAtMostOne(b, exts, blk);
    }
  }

  lemma {:induction false} InScanAll(bs: seq<Block>, exts: seq<Extent>, blk: nat, i: nat, x: int)
    requires blk > 0 && i < |bs| && InBlocks(ScanBlock(bs[i], exts, blk), x)
    ensures InBlocks(ScanAll(bs, exts, blk), x)
  {
    var n := |bs| - 1;
    InBlocksConcat(ScanAll(bs[..n], exts, blk), ScanBlock(bs[n], exts, blk), x);
    if i < n {
      InScanAll(bs[..n], exts, blk, i, x);
    }
  }

  lemma {:induction false} OutOfScanAll(bs: seq<Block>, exts: seq<Extent>, blk: nat, x: int) returns (i: nat)
    requires blk > 0 && InBlocks(ScanAll(bs, exts, blk), x)
    ensures i < |bs| && InBlocks(ScanBlock(bs[i], exts, blk), x)
  {
    var n := |bs| - 1;
    InBlocksConcat(ScanAll(bs[..n], exts, blk), ScanBlock(bs[n], exts, blk), x);
    if InBlocks(ScanBlock(bs[n], exts, blk), x) {
      i := n;
    } else {
      i := OutOfScanAll(bs[..n], exts, blk, x);
    }
  }

  /** A file byte whose region byte is bad. */
  ghost predicate BadFileByte(ss: seq<Sectors>, nsBeg: nat, exts: seq<Extent>, x: int) {
    exists k :: 0 <= k < |exts| && OnBadByte(ss, nsBeg, exts[k], x)
  }

  ghost predicate OnBadByte(ss: seq<Sectors>, nsBeg: nat, e: Extent, x: int) {
    e.logical <= x < e.logical + e.length && BadRegionByte(ss, nsBeg + (x - e.logical + e.physical))
  }

  ghost predicate InNamespace(exts: seq<Extent>, nsSize: nat) {
    forall k :: 0 <= k < |exts| ==> exts[k].physical + exts[k].length <= nsSize
  }

  /** Every clipped block meets at most one extent, and the widened range fits its length field. */
  ghost predicate EachReported(bs: seq<Block>, exts: seq<Extent>, blk: nat)
    requires blk > 0 && ExtentsOk(exts)
  {
    forall b :: b in bs && BlockOk(b) ==> AtMostOne(b, exts) && HullFits(b, exts, blk)
  }

  /** The clipped block that makes a file byte bad. */
  lemma BlockOfBadByte(ss: seq<Sectors>, nsBeg: nat, nsSize: nat, e: Extent, x: int) returns (i: nat)
    requires NamespaceOk(nsBeg, nsSize) && forall i :: 0 <= i < |ss| ==> InSpace(ss[i]) && Harmless(ss[i], nsBeg, nsSize)
    requires OnBadByte(ss, nsBeg, e, x) && e.physical + e.length <= nsSize
    ensures var bs := Clip(ss, nsBeg, nsSize); i < |bs| && BlockOk(bs[i]) && FileByte(bs[i], e, x)
  {
    var bs := Clip(ss, nsBeg, nsSize);
    var p := x - e.logical + e.physical;
    ClipExact(ss, nsBeg, nsSize, p);
    ClipWithin(ss, nsBeg, nsSize);
    i :| 0 <= i < |bs| && Covers(bs[i], p);
    assert bs[i] in bs;
  }

  /**
    Both stages together: a file byte whose region byte is bad is in a returned
    block, provided every clipped block meets at most one extent and fits.
  */
  lemma BadFileBytesReported(ss: seq<Sectors>, nsBeg: nat, nsSize: nat, exts: seq<Extent>, blk: nat, k: nat, x: int)
    requires NamespaceOk(nsBeg, nsSize) && forall i :: 0 <= i < |ss| ==> InSpace(ss[i]) && Harmless(ss[i], nsBeg, nsSize)
    requires blk > 0 && ExtentsOk(exts) && InNamespace(exts, nsSize) && k < |exts| && OnBadByte(ss, nsBeg, exts[k], x)
    requires EachReported(Clip(ss, nsBeg, nsSize), exts, blk)
    ensures InBlocks(ScanAll(Clip(ss, nsBeg, nsSize), exts, blk), x)
  {
    var bs := Clip(ss, nsBeg, nsSize);
    var i := BlockOfBadByte(ss, nsBeg, nsSize, exts[k], x);
    assert bs[i] in bs;
    CoveredIfAtMostOne(bs[i], exts, blk);
    InScanAll(bs, exts, blk, i, x);
  }

  lemma SameBlockBelow(x: nat, y: nat, blk: nat)
    requires blk > 0 && y - y % blk <= x <= y
    ensures x / blk == y / blk
  {
    DivModUnique(x, y / blk, blk, x - (y - y % blk));
  }

  lemma SameBlockAbove(x: nat, y: nat, r: nat, blk: nat)
    requires blk > 0 && y <= x < r && r % blk == 0 && r - (y + 1) < blk
    ensures x / blk == y / blk
  {
    var m := r / blk;
    assert r == (m - 1) * blk + blk;
    DivModUnique(x, m - 1, blk, x - (m - 1) * blk);
    DivModUnique(y, m - 1, blk, y - (m - 1) * blk);
  }

  /** Every byte of a hull shares a file-system block with a byte of the range it is the hull of. */
  lemma HullTouchesRange(first: nat, last: nat, blk: nat, x: int) returns (y: nat)
    requires blk > 0 && first <= last && Covers(Hull(first, last, blk), x)
    ensures first <= y <= last && y / blk == x / blk
  {
    if x < first {
      y := first;
      SameBlockBelow(x, first, blk);
    } else if x > last {
      y := last;
      SameBlockAbove(x, last, RoundUp(last + 1, blk), blk);
    } else {
      y := x;
    }
  }

  /** Every byte of a bad block's record shares a file-system block with a file byte the block makes bad. */
  lemma RecordTouchesBad(b: Block, exts: seq<Extent>, blk: nat, x: int) returns (k: nat, y: nat)
    requires blk > 0 && BlockOk(b) && ExtentsOk(exts) && InBlocks(ScanBlock(b, exts, blk), x)
    ensures k < |exts| && FileByte(b, exts[k], y) && y / blk == x / blk
  {
    OneRecord(b, exts, blk);
    k := FirstTouched(b, exts);
    FileRange(b, exts[k]);
    CutShorter(FileHull(b, exts[k], blk));
    y := HullTouchesRange(FileFirst(b, exts[k]), FileLast(b, exts[k]), blk, x);
    FileByteIff(b, exts[k], y);
  }

  /** An aligned block that contains a byte contains its whole file-system block. */
  lemma AlignedWhole(h: Block, blk: nat, x: int, y: int)
    requires blk > 0 && h.offset % blk == 0 && (h.offset + h.length) % blk == 0 && Covers(h, y) && x / blk == y / blk
    ensures Covers(h, x)
  {
    var a, c, q := h.offset / blk, (h.offset + h.length) / blk, y / blk;
    assert h.offset == a * blk && h.offset + h.length == c * blk;
    if q < a {
      MulMonotone(q + 1, a, blk);
    }
    if c <= q {
      MulMonotone(c, q, blk);
    }
    MulMonotone(a, q, blk);
    MulMonotone(q + 1, c, blk);
  }

  lemma HullAligned(b: Block, e: Extent, blk: nat)
    requires blk > 0 && BlockOk(b) && ExtentOk(e) && Touches(b, e)
    ensures var h := FileHull(b, e, blk); h.offset % blk == 0 && (h.offset + h.length) % blk == 0
  {
    FileRange(b, e);
    DownGreatest(FileFirst(b, e), blk, 0);
  }

  lemma RecordIsWhole(b: Block, exts: seq<Extent>, blk: nat, x: int, y: int)
    requires blk > 0 && BlockOk(b) && ExtentsOk(exts) && HullFits(b, exts, blk)
    requires InBlocks(ScanBlock(b, exts, blk), y) && x / blk == y / blk
    ensures InBlocks(ScanBlock(b, exts, blk), x)
  {
    OneRecord(b, exts, blk);
    var k := FirstTouched(b, exts);
    var h := FileHull(b, exts[k], blk);
    SmallMod(h.length, TWO_32);
    assert ScanBlock(b, exts, blk) == [h];
    assert Covers(h, y);
    HullAligned(b, exts[k], blk);
    AlignedWhole(h, blk, x, y);
    assert Covers([h][0], x);
  }

  /**
    Both stages together are exact to the file-system block: a file byte is in a
    returned block if and only if its file-system block has a bad byte.
  */
  lemma ReportExact(ss: seq<Sectors>, nsBeg: nat, nsSize: nat, exts: seq<Extent>, blk: nat, x: int)
    requires NamespaceOk(nsBeg, nsSize) && forall i :: 0 <= i < |ss| ==> Proper(ss[i], nsBeg, nsSize)
    requires blk > 0 && ExtentsOk(exts) && InNamespace(exts, nsSize)
    requires EachReported(Clip(ss, nsBeg, nsSize), exts, blk)
    ensures InBlocks(ScanAll(Clip(ss, nsBeg, nsSize), exts, blk), x)
            <==> exists y :: y / blk == x / blk && BadFileByte(ss, nsBeg, exts, y)
  {
    var bs := Clip(ss, nsBeg, nsSize);
    if InBlocks(ScanAll(bs, exts, blk), x) {
      var y := ReportedIsNear(ss, nsBeg, nsSize, exts, blk, x);
    }
    if exists y :: y / blk == x / blk && BadFileByte(ss, nsBeg, exts, y) {
      var y :| y / blk == x / blk && BadFileByte(ss, nsBeg, exts, y);
      var k :| 0 <= k < |exts| && OnBadByte(ss, nsBeg, exts[k], y);
      NearIsReported(ss, nsBeg, nsSize, exts, blk, k, x, y);
    }
  }

  lemma ReportedIsNear(ss: seq<Sectors>, nsBeg: nat, nsSize: nat, exts: seq<Extent>, blk: nat, x: int) returns (y: nat)
    requires NamespaceOk(nsBeg, nsSize) && forall i :: 0 <= i < |ss| ==> Proper(ss[i], nsBeg, nsSize)
    requires blk > 0 && ExtentsOk(exts) && InBlocks(ScanAll(Clip(ss, nsBeg, nsSize), exts, blk), x)
    ensures y / blk == x / blk && BadFileByte(ss, nsBeg, exts, y)
  {
    var bs := Clip(ss, nsBeg, nsSize);
    ClipProper(ss, nsBeg, nsSize);
    ClipWithin(ss, nsBeg, nsSize);
    var i := OutOfScanAll(bs, exts, blk, x);
    assert bs[i] in bs;
    var k;
    k, y := RecordTouchesBad(bs[i], exts, blk, x);
    var p := y - exts[k].logical + exts[k].physical;
    assert Covers(bs[i], p);
    ClipExact(ss, nsBeg, nsSize, p);
    assert OnBadByte(ss, nsBeg, exts[k], y);
  }

  lemma NearIsReported(ss: seq<Sectors>, nsBeg: nat, nsSize: nat, exts: seq<Extent>, blk: nat, k: nat, x: int,
                       y: int)
    requires NamespaceOk(nsBeg, nsSize) && forall i :: 0 <= i < |ss| ==> InSpace(ss[i]) && Harmless(ss[i], nsBeg, nsSize)
    requires blk > 0 && ExtentsOk(exts) && InNamespace(exts, nsSize) && k < |exts| && OnBadByte(ss, nsBeg, exts[k], y)
    requires y / blk == x / blk
    requires EachReported(Clip(ss, nsBeg, nsSize), exts, blk)
    ensures InBlocks(ScanAll(Clip(ss, nsBeg, nsSize), exts, blk), x)
  {
    var bs := Clip(ss, nsBeg, nsSize);
    var i := BlockOfBadByte(ss, nsBeg, nsSize, exts[k], y);
    assert bs[i] in bs;
    CoveredIfAtMostOne(bs[i], exts, blk);
    RecordIsWhole(bs[i], exts, blk, x, y);
    InScanAll(bs, exts, blk, i, x);
  }

  /** The narrowed bounds do lose bad bytes: one bad block over two extents that are adjacent on the medium only. */
  lemma SecondExtentExample()
    ensures var b, exts := Block(0, 8192), [Extent(0, 0, 4096), Extent(4096, 8192, 4096)];
            !AtMostOne(b, exts) && !OwnCover(b, exts, 4096)
  {
    var b, exts := Block(0, 8192), [Extent(0, 0, 4096), Extent(4096, 8192, 4096)];
    assert Touches(b, exts[0]) && Touches(b, exts[1]);
    CoveredIff(b, exts, 4096);
  }

  /** An empty block at offset 0 counts as the whole address space: the first extent of the file is reported whole. */
  lemma {:induction false} EmptyBlockReportsFirst(exts: seq<Extent>, blk: nat)
    requires blk > 0 && ExtentsOk(exts) && exts != []
    ensures ScanBlock(Block(0, 0), exts, blk) == [Record(exts[0].physical, ExtentEnd(exts[0]), exts[0], blk)]
  {
    var e, z := exts[0], W64(-1);
    ExtentEndIs(e);
    forall i | 0 <= i < |exts[1..]| ensures !Meets(e.physical, ExtentEnd(e), exts[1..][i]) {
      ExtentEndIs(exts[i + 1]);
      assert Apart(exts[0], exts[i + 1]);
    }
    ScanMisses(e.physical, ExtentEnd(e), exts[1..]);
    assert Scan(0, z, exts) == [Piece(e.physical, ExtentEnd(e), e)];
    RecordsSnoc([], Piece(e.physical, ExtentEnd(e), e), blk);
    assert [] + [Piece(e.physical, ExtentEnd(e), e)] == [Piece(e.physical, ExtentEnd(e), e)];
  }

  /** Such a block does arise, from a bad block that lies before the namespace. */
  lemma EmptyBlockExample(exts: seq<Extent>, blk: nat)
    requires blk > 0 && ExtentsOk(exts) && exts != []
    ensures var s := Sectors(0, 0x80_0000);
            && (forall y :: TWO_32 <= y < 2 * TWO_32 ==> !Bad(s, y))
            && ScanAll(Clip([s], TWO_32, TWO_32), exts, blk)
               == [Record(exts[0].physical, ExtentEnd(exts[0]), exts[0], blk)]
  {
    var s := Sectors(0, 0x80_0000);
    ClipOneWrapped(s, TWO_32, TWO_32, 0);
    assert [s][..0] == [] && Clip([s], TWO_32, TWO_32) == [] + [Block(0, 0)] == [Block(0, 0)];
    assert [Block(0, 0)][..0] == [];
    EmptyBlockReportsFirst(exts, blk);
  }
}
