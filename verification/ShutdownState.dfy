/**
  The shutdown state record of src/common/shutdown_state.c: its layout and
  checksum, the stores and flushes each operation issues, and the operations
  themselves on a record in memory.

  The reserved bytes of the record are zero throughout, as every operation
  leaves them.  The host is little endian.
*/
module ShutdownState {
  import opened Arith
  import opened Fletcher64
  import opened Wrappers

  type U64 = x: int | 0 <= x < TWO_64
  type U8 = x: int | 0 <= x < 256

  datatype Rec = Rec(usc: U64, uuid: U64, dirty: U8, csum: Csum)

  const NONE: Csum := Csum(0, 0)

  const ZERO: Rec := Rec(0, 0, 0, NONE)

  // ----- checksum

  lemma HalfBelow(x: U64)
    ensures 0 <= x / TWO_32 < TWO_32
  {
  }

  /** The 16 words of the record; the checksum sits in the last two. */
  function Words(r: Rec): (w: seq<U32>)
    ensures |w| == 16
  {
    HalfBelow(r.usc);
    HalfBelow(r.uuid);
    [r.usc % TWO_32, r.usc / TWO_32, r.uuid % TWO_32, r.uuid / TWO_32, r.dirty, 0, 0, 0, 0, 0, 0, 0, 0, 0, r.csum.lo, r.csum.hi]
  }

  /** The layout of the record in memory, low words first. */
  lemma WordsLayout(r: Rec)
    ensures var w := Words(r);
            && w[0] + w[1] * TWO_32 == r.usc && w[2] + w[3] * TWO_32 == r.uuid && w[4] == r.dirty
            && (forall i :: 5 <= i < 14 ==> w[i] == 0)
            && Csum(w[14], w[15]) == r.csum
  {
  }

  const SLOT := 14
  const WORDS := 16

  /** The checksum of a record with the given fields, in closed form. */
  function Digest(usc: U64, uuid: U64, dirty: U8): Csum {
    var lo := (usc % TWO_32 + usc / TWO_32 + uuid % TWO_32 + uuid / TWO_32 + dirty) % TWO_32;
    var hi := (16 * (usc % TWO_32) + 15 * (usc / TWO_32) + 14 * (uuid % TWO_32) + 13 * (uuid / TWO_32) + 12 * dirty) % TWO_32;
    Csum(lo, hi)
  }

  /** What util_checksum computes over the record is the closed form. */
  lemma DigestIsChecksum(r: Rec)
    ensures Checksum(Words(r), SLOT, WORDS) == Digest(r.usc, r.uuid, r.dirty)
  {
    var w := Words(r);
    ClosedFormIff(w, SLOT, WORDS);
    var a, b, c, d, e := w[0], w[1], w[2], w[3], w[4];
    var seen := Seen(w, SLOT, WORDS, 16);
    assert seen == [a, b, c, d, e] + Zeros(11);
    SumsOfHead(a, b, c, d, e);
  }

  function Zeros(n: nat): (z: seq<int>)
    ensures |z| == n && forall i :: 0 <= i < n ==> z[i] == 0
  {
    if n == 0 then [] else [0] + Zeros(n - 1)
  }

  lemma {:induction false} SumsOfZeros(n: nat)
    ensures Sum(Zeros(n)) == 0 && Weighted(Zeros(n)) == 0
  {
    if n > 0 {
      SumsOfZeros(n - 1);
      assert Zeros(n)[1..] == Zeros(n - 1);
    }
  }

  lemma SumsOfCons(x: int, e: seq<int>)
    ensures Sum([x] + e) == x + Sum(e)
    ensures Weighted([x] + e) == (|e| + 1) * x + Weighted(e)
  {
    assert ([x] + e)[1..] == e;
  }

  lemma SumsOfHead(a: int, b: int, c: int, d: int, e: int)
    ensures Sum([a, b, c, d, e] + Zeros(11)) == a + b + c + d + e
    ensures Weighted([a, b, c, d, e] + Zeros(11)) == 16 * a + 15 * b + 14 * c + 13 * d + 12 * e
  {
    var z := Zeros(11);
    SumsOfZeros(11);
    SumsOfCons(e, z);
    SumsOfCons(d, [e] + z);
    SumsOfCons(c, [d] + ([e] + z));
    SumsOfCons(b, [c] + ([d] + ([e] + z)));
    SumsOfCons(a, [b] + ([c] + ([d] + ([e] + z))));
    assert [a] + ([b] + ([c] + ([d] + ([e] + z)))) == [a, b, c, d, e] + z;
  }

  /** The record's checksum is correct. */
  predicate Intact(r: Rec) {
    r.csum == Digest(r.usc, r.uuid, r.dirty)
  }

  /** ... which is what verifying it with util_checksum says. */
  lemma IntactIsVerify(r: Rec)
    ensures Intact(r) <==> Verifies(Words(r), SLOT, WORDS)
  {
    DigestIsChecksum(r);
  }

  /** A 64-bit number is determined by its two words. */
  lemma HalvesDiffer(u: U64, v: U64)
    requires u != v
    ensures u % TWO_32 != v % TWO_32 || u / TWO_32 != v / TWO_32
  {
  }

  /** A change of any one field always shows: an intact record with another count, identity or flag is not intact. */
  lemma FieldsDetected(r: Rec, u: U64, d: U8)
    requires Intact(r)
    ensures u != r.usc ==> !Intact(r.(usc := u))
    ensures u != r.uuid ==> !Intact(r.(uuid := u))
    ensures d != r.dirty ==> !Intact(r.(dirty := d))
  {
    if u != r.usc {
      UscDetected(r, u);
    }
    if u != r.uuid {
      UuidDetected(r, u);
    }
    if d != r.dirty {
      DirtyDetected(r, d);
    }
  }

  lemma UscDetected(r: Rec, u: U64)
    requires Intact(r) && u != r.usc
    ensures !Intact(r.(usc := u))
  {
    var w, v := Words(r), Words(r.(usc := u));
    HalvesDiffer(u, r.usc);
    IntactIsVerify(r);
    IntactIsVerify(r.(usc := u));
    assert v == w[0 := v[0]][1 := v[1]];
    InsertThenCorruptFails(w, SLOT, WORDS, 0, v[0], v[1]);
  }

  lemma UuidDetected(r: Rec, u: U64)
    requires Intact(r) && u != r.uuid
    ensures !Intact(r.(uuid := u))
  {
    var w, v := Words(r), Words(r.(uuid := u));
    HalvesDiffer(u, r.uuid);
    IntactIsVerify(r);
    IntactIsVerify(r.(uuid := u));
    assert v == w[2 := v[2]][3 := v[3]];
    InsertThenCorruptFails(w, SLOT, WORDS, 2, v[2], v[3]);
  }

  lemma DirtyDetected(r: Rec, d: U8)
    requires Intact(r) && d != r.dirty
    ensures !Intact(r.(dirty := d))
  {
    var w, v := Words(r), Words(r.(dirty := d));
    IntactIsVerify(r);
    IntactIsVerify(r.(dirty := d));
    assert v == w[4 := v[4]];
    InsertThenFlipFails(w, SLOT, WORDS, 4, v[4]);
  }

  /** A record of count 7 and identity 5 * 2^32, marked dirty. */
  lemma DigestExample()
    ensures Digest(7, 0x5_0000_0000, 1) == Csum(13, 189)
  {
  }

  /** The dirty flag alone always shows in the checksum. */
  lemma DirtyChangesDigest(usc: U64, uuid: U64)
    ensures Digest(usc, uuid, 0) != Digest(usc, uuid, 1)
  {
    var a := Rec(usc, uuid, 0, NONE);
    var b := Rec(usc, uuid, 1, NONE);
    DigestIsChecksum(a);
    DigestIsChecksum(b);
    OneWordDetected(Words(a), SLOT, WORDS, 4, 1);
    assert Words(b) == Words(a)[4 := 1];
  }

  /** util_is_zeroed: the first byte is zero and the range equals itself shifted by one. */
  predicate IsZeroed(a: seq<U8>) {
    |a| == 0 || (a[0] == 0 && a[..|a| - 1] == a[1..])
  }

  /** ... which holds exactly when every byte is zero. */
  lemma {:induction false} IsZeroedIff(a: seq<U8>)
    ensures IsZeroed(a) <==> forall i :: 0 <= i < |a| ==> a[i] == 0
  {
    if IsZeroed(a) {
      var i := 0;
      while i < |a|
        invariant 0 <= i <= |a|
        invariant forall j :: 0 <= j < i ==> a[j] == 0
      {
        if i > 0 {
          assert a[..|a| - 1][i - 1] == a[1..][i - 1];
        }
        i := i + 1;
      }
    }
  }

  // ----- stores, flushes, and the program each operation runs

  datatype Store = Zero | PutUsc(v: U64) | PutUuid(v: U64) | PutDirty(b: U8) | PutCsum(c: Csum)

  datatype Instr = Do(st: Store) | Flush

  function Apply(r: Rec, st: Store): Rec {
    match st
    case Zero => ZERO
    case PutUsc(v) => r.(usc := v)
    case PutUuid(v) => r.(uuid := v)
    case PutDirty(b) => r.(dirty := b)
    case PutCsum(c) => r.(csum := c)
  }

  /** The record after the stores of a program. */
  function After(r: Rec, p: seq<Instr>): Rec
    decreases p
  {
    if p == [] then r
    else After(if p[0].Do? then Apply(r, p[0].st) else r, p[1..])
  }

  lemma {:induction false} AfterConcat(r: Rec, p: seq<Instr>, q: seq<Instr>)
    ensures After(r, p + q) == After(After(r, p), q)
    decreases p
  {
    if p == [] {
      assert p + q == q;
    } else {
      assert (p + q)[1..] == p[1..] + q;
      AfterConcat(if p[0].Do? then Apply(r, p[0].st) else r, p[1..], q);
    }
  }

  /** A record with the given identity, flag and correct checksum. */
  function Sealed(usc: U64, uuid: U64, dirty: U8): Rec {
    Rec(usc, uuid, dirty, Digest(usc, uuid, dirty))
  }

  function ChecksumProg(r: Rec): seq<Instr> {
    [Do(PutCsum(Digest(r.usc, r.uuid, r.dirty))), Flush]
  }

  function InitProg(): seq<Instr> {
    [Do(Zero), Do(PutCsum(NONE)), Flush]
  }

  function MarkProg(r: Rec, dirty: U8): seq<Instr> {
    [Do(PutDirty(dirty)), Flush] + ChecksumProg(r.(dirty := dirty))
  }

  function ReinitProg(usc: U64, uuid: U64): seq<Instr> {
    InitProg() + [Do(PutUuid(uuid)), Do(PutUsc(usc)), Do(PutDirty(0)), Flush] + ChecksumProg(Rec(usc, uuid, 0, NONE))
  }

  /** shutdown_state_check: the verdict and the program it runs on the pool's record. */
  function Check(curr: Rec, pool: Rec): (int, seq<Instr>) {
    var reinit := ReinitProg(curr.usc, curr.uuid);
    if pool == ZERO && curr != ZERO then (0, reinit)
    else if !Intact(pool) then (0, reinit)
    else if pool.usc == curr.usc && pool.uuid == curr.uuid then
      if pool.dirty == 0 then (0, []) else (0, reinit)
    else if pool.dirty == 0 then (0, reinit)
    else (1, [])
  }

  lemma AfterCons(r: Rec, i: Instr, p: seq<Instr>)
    ensures After(r, [i] + p) == After(if i.Do? then Apply(r, i.st) else r, p)
  {
    assert ([i] + p)[1..] == p;
  }

  lemma AfterReinit(r: Rec, usc: U64, uuid: U64)
    ensures After(r, ReinitProg(usc, uuid)) == Sealed(usc, uuid, 0)
  {
    var a := InitProg();
    var b := [Do(PutUuid(uuid)), Do(PutUsc(usc)), Do(PutDirty(0)), Flush];
    var c := ChecksumProg(Rec(usc, uuid, 0, NONE));
    AfterConcat(r, a + b, c);
    AfterConcat(r, a, b);
    AfterInit(r);
    AfterFields(usc, uuid);
    AfterChecksum(Rec(usc, uuid, 0, NONE));
  }

  lemma AfterInit(r: Rec)
    ensures After(r, InitProg()) == ZERO
  {
    AfterCons(ZERO, Flush, []);
    AfterCons(ZERO, Do(PutCsum(NONE)), [Flush]);
    AfterCons(r, Do(Zero), [Do(PutCsum(NONE)), Flush]);
    assert InitProg() == [Do(Zero)] + ([Do(PutCsum(NONE))] + [Flush]);
  }

  lemma AfterFields(usc: U64, uuid: U64)
    ensures After(ZERO, [Do(PutUuid(uuid)), Do(PutUsc(usc)), Do(PutDirty(0)), Flush]) == Rec(usc, uuid, 0, NONE)
  {
    var p := [Do(PutUuid(uuid)), Do(PutUsc(usc)), Do(PutDirty(0)), Flush];
    AfterCons(Rec(usc, uuid, 0, NONE), Flush, []);
    AfterCons(Rec(usc, uuid, 0, NONE), Do(PutDirty(0)), [Flush]);
    AfterCons(Rec(0, uuid, 0, NONE), Do(PutUsc(usc)), [Do(PutDirty(0)), Flush]);
    AfterCons(ZERO, Do(PutUuid(uuid)), [Do(PutUsc(usc)), Do(PutDirty(0)), Flush]);
    assert p == [Do(PutUuid(uuid))] + ([Do(PutUsc(usc))] + ([Do(PutDirty(0))] + [Flush]));
  }

  lemma AfterChecksum(r: Rec)
    ensures After(r, ChecksumProg(r)) == Sealed(r.usc, r.uuid, r.dirty)
  {
    var c := Digest(r.usc, r.uuid, r.dirty);
    AfterCons(r.(csum := c), Flush, []);
    AfterCons(r, Do(PutCsum(c)), [Flush]);
    assert ChecksumProg(r) == [Do(PutCsum(c))] + [Flush];
  }

  lemma AfterMark(r: Rec, dirty: U8)
    ensures After(r, MarkProg(r, dirty)) == Sealed(r.usc, r.uuid, dirty)
  {
    var p := [Do(PutDirty(dirty)), Flush];
    AfterConcat(r, p, ChecksumProg(r.(dirty := dirty)));
    AfterCons(r.(dirty := dirty), Flush, []);
    AfterCons(r, Do(PutDirty(dirty)), [Flush]);
    assert p == [Do(PutDirty(dirty))] + [Flush];
    AfterChecksum(r.(dirty := dirty));
  }

  /**
    A verdict of 0 leaves the pool with the current identity, a clear flag and a
    correct checksum; a verdict of 1 is given exactly for an intact dirty record
    of another identity, and leaves it alone.
  */
  lemma CheckMeaning(curr: Rec, pool: Rec)
    ensures var (ret, p) := Check(curr, pool);
            && (ret == 0 || ret == 1)
            && (ret == 0 ==> After(pool, p) == Sealed(curr.usc, curr.uuid, 0))
            && (ret == 1 ==> p == [])
            && (ret == 1 <==> Intact(pool) && pool.dirty != 0 && (pool.usc, pool.uuid) != (curr.usc, curr.uuid))
  {
    AfterReinit(pool, curr.usc, curr.uuid);
  }

  // ----- the operations on a record in memory

  /** What adding the parts of a replica accumulates. */
  datatype PartId = PartId(usc: U64, uid: U64)

  /** A checksum as one 64-bit number. */
  function Number(c: Csum): U64 { c.hi * TWO_32 + c.lo }

  /** Its low word is the sum, its high word the weighted sum. */
  lemma NumberHalves(c: Csum)
    ensures Number(c) % TWO_32 == c.lo && Number(c) / TWO_32 == c.hi
  {
    DivModUnique(Number(c), c.hi, TWO_32, c.lo);
  }

  /** The words of the buffer for an identity text of `len` bytes: always room for padding. */
  function PaddedWords(len: nat): nat { (len + (4 - len % 4)) / 4 }

  /** ... from one to four bytes of it. */
  lemma PaddingFits(len: nat)
    ensures len + 1 <= 4 * PaddedWords(len) <= len + 4
  {
  }

  /** What reading a part's counters gives: the count, the length of the identity text, memory for it, its words. */
  datatype Reading = Reading(usc: Option<U64>, uidLen: Option<nat>, gotMemory: bool, uid: Option<seq<U32>>)

  /** The text fills the buffer made for it. */
  predicate ReadingOk(r: Reading) {
    r.uidLen.Some? && r.uid.Some? ==> |r.uid.value| == PaddedWords(r.uidLen.value)
  }

  predicate Complete(r: Reading) {
    r.usc.Some? && r.uidLen.Some? && r.gotMemory && r.uid.Some?
  }

  /** What a part contributes: its count and the checksum of its identity text. */
  function IdOf(r: Reading): PartId
    requires Complete(r)
  {
    PartId(r.usc.value, Number(Checksum(r.uid.value, -1, |r.uid.value|)))
  }

  function Ids(rs: seq<Reading>): (ids: seq<PartId>)
    requires forall i :: 0 <= i < |rs| ==> Complete(rs[i])
    ensures |ids| == |rs| && forall i :: 0 <= i < |rs| ==> ids[i] == IdOf(rs[i])
  {
    if rs == [] then [] else Ids(rs[..|rs| - 1]) + [IdOf(rs[|rs| - 1])]
  }

  function TotalUsc(parts: seq<PartId>): int {
    if parts == [] then 0 else TotalUsc(parts[..|parts| - 1]) + parts[|parts| - 1].usc
  }

  function TotalUid(parts: seq<PartId>): int {
    if parts == [] then 0 else TotalUid(parts[..|parts| - 1]) + parts[|parts| - 1].uid
  }

  /** The same sums, as they are accumulated in 64 bits. */
  function Usc64(parts: seq<PartId>): U64 {
    if parts == [] then 0 else (Usc64(parts[..|parts| - 1]) + parts[|parts| - 1].usc) % TWO_64
  }

  function Uid64(parts: seq<PartId>): U64 {
    if parts == [] then 0 else (Uid64(parts[..|parts| - 1]) + parts[|parts| - 1].uid) % TWO_64
  }

  /** The part of a replica that remembers whether this session set the dirty flag. */
  class Part {
    var sdsDirtyModified: int

    constructor ()
      ensures sdsDirtyModified == 0
    {
      sdsDirtyModified := 0;
    }
  }

  class ShutdownRecord {
    var usc: U64
    var uuid: U64
    var dirty: U8
    var checksum: Csum
    ghost var log: seq<Instr>

    ghost function Value(): Rec
      reads this
    {
      Rec(usc, uuid, dirty, checksum)
    }

    constructor ()
      ensures Value() == ZERO && log == []
    {
      usc, uuid, dirty, checksum, log := 0, 0, 0, NONE, [];
    }

    method StoreChecksum()
      modifies this
      ensures Value() == Sealed(old(usc), old(uuid), old(dirty)) && log == old(log) + ChecksumProg(old(Value()))
    {
      checksum := Digest(usc, uuid, dirty);
      log := log + [Do(PutCsum(checksum)), Flush];
    }

    /** shutdown_state_init */
    method Init()
      modifies this
      ensures Value() == ZERO && log == old(log) + InitProg()
      ensures Value() == After(old(Value()), InitProg())
      ensures usc == 0 && uuid == 0 && dirty == 0 && Intact(Value())
    {
      usc, uuid, dirty, checksum := 0, 0, 0, NONE;
      log := log + [Do(Zero)];
      StoreChecksum();
      assert old(log) + [Do(Zero)] + [Do(PutCsum(NONE)), Flush] == old(log) + InitProg();
      AfterInit(old(Value()));
    }

    /** shutdown_state_set_dirty */
    method SetDirty(part: Part)
      modifies this, part
      ensures part.sdsDirtyModified == 1
      ensures Value() == Sealed(old(usc), old(uuid), 1) && log == old(log) + MarkProg(old(Value()), 1)
      ensures Value() == After(old(Value()), MarkProg(old(Value()), 1))
      ensures usc == old(usc) && uuid == old(uuid) && dirty == 1 && Intact(Value())
    {
      dirty := 1;
      part.sdsDirtyModified := 1;
      log := log + [Do(PutDirty(1)), Flush];
      StoreChecksum();
      assert old(log) + [Do(PutDirty(1)), Flush] + ChecksumProg(old(Value()).(dirty := 1))
          == old(log) + MarkProg(old(Value()), 1);
      AfterMark(old(Value()), 1);
    }

    /** shutdown_state_clear_dirty: works on a copy of the part, so the part keeps its flag. */
    method ClearDirty(part: Part)
      modifies this
      ensures part.sdsDirtyModified != 1 ==> Value() == old(Value()) && log == old(log)
      ensures part.sdsDirtyModified == 1 ==>
                && Value() == Sealed(old(usc), old(uuid), 0) && log == old(log) + MarkProg(old(Value()), 0)
                && Value() == After(old(Value()), MarkProg(old(Value()), 0))
                && usc == old(usc) && uuid == old(uuid) && dirty == 0 && Intact(Value())
    {
      var copied := part.sdsDirtyModified;
      if copied != 1 {
        return;
      }
      dirty := 0;
      copied := 0;
      log := log + [Do(PutDirty(0)), Flush];
      StoreChecksum();
      assert old(log) + [Do(PutDirty(0)), Flush] + ChecksumProg(old(Value()).(dirty := 0))
          == old(log) + MarkProg(old(Value()), 0);
      AfterMark(old(Value()), 0);
    }

    /** shutdown_state_reinit */
    method Reinit(curr: ShutdownRecord)
      requires curr != this
      modifies this
      ensures Value() == Sealed(curr.usc, curr.uuid, 0) && log == old(log) + ReinitProg(curr.usc, curr.uuid)
      ensures Value() == After(old(Value()), ReinitProg(curr.usc, curr.uuid))
      ensures usc == curr.usc && uuid == curr.uuid && dirty == 0 && Intact(Value())
    {
      Init();
      uuid := curr.uuid;
      usc := curr.usc;
      dirty := 0;
      log := log + [Do(PutUuid(curr.uuid)), Do(PutUsc(curr.usc)), Do(PutDirty(0)), Flush];
      StoreChecksum();
      assert old(log) + InitProg() + [Do(PutUuid(curr.uuid)), Do(PutUsc(curr.usc)), Do(PutDirty(0)), Flush]
             + ChecksumProg(Rec(curr.usc, curr.uuid, 0, NONE))
          == old(log) + ReinitProg(curr.usc, curr.uuid);
      AfterReinit(old(Value()), curr.usc, curr.uuid);
    }

    /** shutdown_state_check, on the pool's record. */
    method CheckAgainst(curr: ShutdownRecord) returns (ret: int)
      requires curr != this
      modifies this
      ensures (ret, log) == (Check(curr.Value(), old(Value())).0, old(log) + Check(curr.Value(), old(Value())).1)
      ensures ret == 0 ==> Value() == Sealed(curr.usc, curr.uuid, 0)
      ensures ret != 0 ==> Value() == old(Value())
    {
      assert log + [] == log;
      var poolZeroed := usc == 0 && uuid == 0 && dirty == 0 && checksum == NONE;
      var currZeroed := curr.usc == 0 && curr.uuid == 0 && curr.dirty == 0 && curr.checksum == NONE;
      if poolZeroed && !currZeroed {
        Reinit(curr);
        return 0;
      }
      var isUuidUscCorrect := usc == curr.usc && uuid == curr.uuid;
      var isChecksumCorrect := checksum == Digest(usc, uuid, dirty);
      if !isChecksumCorrect {
        Reinit(curr);
        return 0;
      }
      if isUuidUscCorrect {
        if dirty == 0 {
          return 0;
        }
        Reinit(curr);
        return 0;
      }
      if dirty == 0 {
        Reinit(curr);
        return 0;
      }
      return 1;
    }

    /** shutdown_state_add_part: nothing is stored unless everything could be read. */
    method AddPart(part: Reading) returns (ret: int)
      requires ReadingOk(part)
      modifies this
      ensures ret == if Complete(part) then 0 else 1
      ensures ret != 0 ==> Value() == old(Value()) && log == old(log)
      ensures ret == 0 ==>
                && dirty == old(dirty) && Intact(Value())
                && usc == (old(usc) + IdOf(part).usc) % TWO_64 && uuid == (old(uuid) + IdOf(part).uid) % TWO_64
                && log == old(log) + [Do(PutUsc(usc)), Do(PutUuid(uuid)), Flush] + ChecksumProg(Value())
    {
      if part.usc.None? || part.uidLen.None? || !part.gotMemory || part.uid.None? {
        return 1;
      }
      var tmp := UidChecksum(part.uid.value);
      usc := (usc + part.usc.value) % TWO_64;
      uuid := (uuid + tmp) % TWO_64;
      log := log + [Do(PutUsc(usc)), Do(PutUuid(uuid)), Flush];
      StoreChecksum();
      return 0;
    }
  }

  /** The checksum of the identity text, with its location outside the text. */
  method UidChecksum(text: seq<U32>) returns (sum: U64)
    ensures sum == Number(Checksum(text, -1, |text|))
    ensures Csum(sum % TWO_32, sum / TWO_32) == Pack(text)
  {
    var uid := new U32[|text|](i requires 0 <= i < |text| => text[i]);
    assert uid[..] == text;
    var tmp := new U32[2];
    var _ := UtilChecksumApart(uid, tmp, true, |text|);
    sum := Number(Csum(tmp[0], tmp[1]));
    NumberHalves(Csum(tmp[0], tmp[1]));
    WholeText(text);
  }

  /** Every word of the text counts. */
  lemma WholeText(text: seq<U32>)
    ensures Checksum(text, -1, |text|) == Pack(text)
  {
    ClosedFormIff(text, -1, |text|);
    assert Seen(text, -1, |text|, |text|) == text;
  }

  lemma ModAdd64(a: int, b: int)
    ensures (a % TWO_64 + b) % TWO_64 == (a + b) % TWO_64
  {
    ModAddLeft(a, b, TWO_64);
  }

  /** The record of the current hardware: init, then every part added; given up when a part cannot be read. */
  method CurrentRecord(parts: seq<Reading>) returns (r: ShutdownRecord, ok: bool)
    requires forall i :: 0 <= i < |parts| ==> ReadingOk(parts[i])
    ensures fresh(r) && (ok <==> forall i :: 0 <= i < |parts| ==> Complete(parts[i]))
    ensures ok ==> r.Value() == Sealed(TotalUsc(Ids(parts)) % TWO_64, TotalUid(Ids(parts)) % TWO_64, 0)
  {
    r := new ShutdownRecord();
    r.Init();
    ghost var ids: seq<PartId> := [];
    for i := 0 to |parts|
      invariant fresh(r) && Holds(r.Value(), ids)
      invariant (forall j :: 0 <= j < i ==> Complete(parts[j])) && ids == Ids(parts[..i])
    {
      ok := AddNext(r, parts[i], ids);
      if !ok {
        return r, false;
      }
      IdsSnoc(parts, i);
      ids := ids + [IdOf(parts[i])];
    }
    assert parts[..|parts|] == parts;
    Totals64(ids);
    return r, true;
  }

  /** The record holds the 64-bit sums of the parts, a clear flag and a correct checksum. */
  ghost predicate Holds(r: Rec, ids: seq<PartId>) {
    r == Sealed(Usc64(ids), Uid64(ids), 0)
  }

  method AddNext(r: ShutdownRecord, part: Reading, ghost ids: seq<PartId>) returns (ok: bool)
    requires ReadingOk(part) && Holds(r.Value(), ids)
    modifies r
    ensures ok == Complete(part)
    ensures ok ==> Holds(r.Value(), ids + [IdOf(part)])
  {
    var ret := r.AddPart(part);
    if ret == 0 {
      Snoc64(ids, IdOf(part));
    }
    return ret == 0;
  }

  lemma IdsSnoc(parts: seq<Reading>, i: nat)
    requires i < |parts| && forall j :: 0 <= j <= i ==> Complete(parts[j])
    ensures Ids(parts[..i + 1]) == Ids(parts[..i]) + [IdOf(parts[i])]
  {
    assert parts[..i + 1][..i] == parts[..i];
  }

  lemma Snoc64(ids: seq<PartId>, p: PartId)
    ensures Usc64(ids + [p]) == (Usc64(ids) + p.usc) % TWO_64 && Uid64(ids + [p]) == (Uid64(ids) + p.uid) % TWO_64
  {
    assert (ids + [p])[..|ids|] == ids;
  }

  lemma {:induction false} Totals64(ids: seq<PartId>)
    ensures Usc64(ids) == TotalUsc(ids) % TWO_64 && Uid64(ids) == TotalUid(ids) % TWO_64
  {
    if ids != [] {
      var n := |ids| - 1;
      Totals64(ids[..n]);
      ModAdd64(TotalUsc(ids[..n]), ids[n].usc);
      ModAdd64(TotalUid(ids[..n]), ids[n].uid);
    }
  }
}
