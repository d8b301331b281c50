/**
  util_checksum of src/common/util.c: the Fletcher64 checksum over 32-bit words
  that treats the checksum's own location and a tail of the range as zeros.

  `slot` is the word index of the 64-bit checksum location (negative when it lies
  outside the range), `skip` the word index from which the tail is ignored (the
  word count when nothing is skipped).
*/
module Fletcher64 {
  import opened Arith

  type U32 = x: int | 0 <= x < TWO_32

  // ----- plain and weighted sums

  function Sum(e: seq<int>): int {
    if e == [] then 0 else e[0] + Sum(e[1..])
  }

  /** The closed form of the high half: word i counts |e| - i times. */
  function Weighted(e: seq<int>): int {
    if e == [] then 0 else |e| * e[0] + Weighted(e[1..])
  }

  lemma {:induction false} SumSnoc(e: seq<int>, x: int)
    ensures Sum(e + [x]) == Sum(e) + x
  {
    if e != [] {
      SumSnoc(e[1..], x);
      assert (e + [x])[1..] == e[1..] + [x];
    }
  }

  lemma {:induction false} WeightedSnoc(e: seq<int>, x: int)
    ensures Weighted(e + [x]) == Weighted(e) + Sum(e) + x
  {
    if e != [] {
      WeightedSnoc(e[1..], x);
      assert (e + [x])[1..] == e[1..] + [x];
      assert (|e| + 1) * e[0] == |e| * e[0] + e[0];
    }
  }

  /** Changing one word shifts the two sums by the change, and by the change times its weight. */
  lemma {:induction false} SumsAfterUpdate(e: seq<int>, i: nat, v: int)
    requires i < |e|
    ensures Sum(e[i := v]) == Sum(e) + (v - e[i])
    ensures Weighted(e[i := v]) == Weighted(e) + (|e| - i) * (v - e[i])
  {
    var f := e[i := v];
    if i == 0 {
      assert f[1..] == e[1..];
      assert |e| * v == |e| * e[0] + |e| * (v - e[0]);
    } else {
      SumsAfterUpdate(e[1..], i - 1, v);
      assert f[1..] == e[1..][i - 1 := v];
    }
  }

  // ----- the walk of the loop

  /** Whether the loop treats word `i` as zero and steps over two words. */
  predicate Skips(slot: int, skip: nat, i: nat) {
    i == slot || i >= skip
  }

  /** The word index the loop ends at: the word count `n`, or one more when it steps over the end. */
  function WalkEnd(n: nat, slot: int, skip: nat, i: nat): (r: nat)
    requires i <= n + 1
    ensures n <= r <= n + 1
    decreases n + 1 - i
  {
    if i >= n then i
    else if Skips(slot, skip, i) then WalkEnd(n, slot, skip, i + 2)
    else WalkEnd(n, slot, skip, i + 1)
  }

  /** A word that contributes to the checksum. */
  predicate Counted(slot: int, skip: nat, i: nat) {
    i < skip && !(0 <= slot && (i == slot || i == slot + 1))
  }

  /** The words as the checksum sees them, `n` of them. */
  function Seen(w: seq<U32>, slot: int, skip: nat, n: nat): (e: seq<int>)
    ensures |e| == n
    ensures forall i :: 0 <= i < n ==> e[i] == if i < |w| && Counted(slot, skip, i) then w[i] else 0
  {
    seq(n, i requires 0 <= i => if i < |w| && Counted(slot, skip, i) then w[i] else 0)
  }

  /** A 64-bit checksum, as its low and high word. */
  datatype Csum = Csum(lo: U32, hi: U32)

  /** The checksum of a sequence of seen words. */
  function Pack(e: seq<int>): Csum {
    Csum(Sum(e) % TWO_32, Weighted(e) % TWO_32)
  }

  /** What util_checksum computes. */
  function Checksum(w: seq<U32>, slot: int, skip: nat): Csum {
    Pack(Seen(w, slot, skip, WalkEnd(|w|, slot, skip, 0)))
  }

  /** The number of words the loop steps over two at a time is even, so it does not step over the end of the range. */
  predicate EvenTail(n: nat, slot: int, skip: nat) {
    if 0 <= slot < skip && slot + 1 == n then false
    else if skip >= n then true
    else (n - skip) % 2 == if 0 <= slot && slot + 1 == skip then 1 else 0
  }

  /** The same, from word `i` on. */
  predicate EvenFrom(n: nat, slot: int, skip: nat, i: nat) {
    if i >= skip then (n - i) % 2 == 0
    else if i > n || (i <= slot < skip && slot + 1 == n) then false
    else if skip >= n then true
    else (n - skip) % 2 == if i <= slot && slot + 1 == skip then 1 else 0
  }

  lemma {:induction false} WalkEndIff(n: nat, slot: int, skip: nat, i: nat)
    requires i <= n + 1
    ensures WalkEnd(n, slot, skip, i) == n <==> EvenFrom(n, slot, skip, i)
    decreases n + 1 - i
  {
    if i < n {
      WalkEndIff(n, slot, skip, if Skips(slot, skip, i) then i + 2 else i + 1);
    }
  }

  /** One more zero word adds the low sum to the high one. */
  lemma ExtraStep(e: seq<int>)
    ensures Pack(e + [0]) == Pack(e) <==> Sum(e) % TWO_32 == 0
  {
    SumSnoc(e, 0);
    WeightedSnoc(e, 0);
    AddCongruent(Weighted(e), Sum(e));
  }

  /**
    The checksum is the Fletcher64 closed form over exactly the words of the
    range if and only if the tail is even, or the words sum to zero so that the
    extra step over the end adds nothing.
  */
  lemma ClosedFormIff(w: seq<U32>, slot: int, skip: nat)
    ensures var e := Seen(w, slot, skip, |w|);
            Checksum(w, slot, skip) == Pack(e) <==> EvenTail(|w|, slot, skip) || Sum(e) % TWO_32 == 0
  {
    var e := Seen(w, slot, skip, |w|);
    WalkEndIff(|w|, slot, skip, 0);
    if WalkEnd(|w|, slot, skip, 0) == |w| + 1 {
      assert Seen(w, slot, skip, |w| + 1) == e + [0];
      ExtraStep(e);
    }
  }

  /** An odd tail does change the result: two words, of which the second is skipped. */
  lemma OddTailExample()
    ensures Checksum([1, 0], -1, 1) != Pack(Seen([1, 0], -1, 1, 2))
  {
    ClosedFormIff([1, 0], -1, 1);
    var e := Seen([1, 0], -1, 1, 2);
    assert e[1..][1..] == [] && e[0] == 1 && e[1..][0] == 0;
    assert Sum(e) == 1 + (0 + Sum(e[1..][1..]));
  }

  // ----- error detection

  lemma AddCongruent(t: int, s: int)
    ensures (t + s) % TWO_32 == t % TWO_32 <==> s % TWO_32 == 0
  {
  }

  lemma ModAdd(a: int, b: int)
    ensures (a % TWO_32 + b) % TWO_32 == (a + b) % TWO_32
  {
    ModAddLeft(a, b, TWO_32);
  }

  lemma ModAddBoth(a: int, b: int)
    ensures (a % TWO_32 + b % TWO_32) % TWO_32 == (a + b) % TWO_32
  {
    ModAddLeft(a, b % TWO_32, TWO_32);
    ModAddLeft(b, a, TWO_32);
  }

  lemma SwapWeights(n: int, i: int, j: int, d: int)
    ensures (n - i) * d + (n - j) * (-d) == (j - i) * d
  {
  }

  /** A difference of less than 2^32 in size that is zero modulo 2^32 is zero. */
  lemma CongruentWordsEqual(a: U32, b: U32, x: int, y: int)
    requires x % TWO_32 == y % TWO_32 && x - y == a - b
    ensures a == b
  {
  }

  /** Any change inside two adjacent counted words changes the checksum. */
  lemma TwoWordsDetected(w: seq<U32>, slot: int, skip: nat, i: nat, a: U32, b: U32)
    requires i + 1 < |w| && Counted(slot, skip, i) && Counted(slot, skip, i + 1)
    requires a != w[i] || b != w[i + 1]
    ensures Checksum(w[i := a][i + 1 := b], slot, skip) != Checksum(w, slot, skip)
  {
    var n := WalkEnd(|w|, slot, skip, 0);
    var e := Seen(w, slot, skip, n);
    var f := Seen(w[i := a][i + 1 := b], slot, skip, n);
    assert f == e[i := a][i + 1 := b];
    SumsAfterUpdate(e, i, a);
    SumsAfterUpdate(e[i := a], i + 1, b);
    var da, db, m := a - w[i], b - w[i + 1], n - i - 1;
    assert Sum(f) - Sum(e) == da + db;
    assert Weighted(f) - Weighted(e) == (m + 1) * da + m * db;
    if Pack(e) == Pack(f) {
      CombineCongruences(Sum(f), Sum(e), Weighted(f), Weighted(e), da, db, m);
    }
  }

  /** If da + db and (m + 1) da + m db both vanish modulo 2^32, so does da. */
  lemma CombineCongruences(s': int, s: int, t': int, t: int, da: int, db: int, m: int)
    requires s' % TWO_32 == s % TWO_32 && t' % TWO_32 == t % TWO_32
    requires s' - s == da + db && t' - t == (m + 1) * da + m * db
    requires -TWO_32 < da < TWO_32 && -TWO_32 < db < TWO_32
    ensures da == 0 && db == 0
  {
    var k := Multiple(s', s);
    var l := Multiple(t', t);
    MulAssoc(m, k);
    assert (m + 1) * da + m * db == m * (da + db) + da;
    MultipleInside(l - m * k, da);
  }

  /** Congruent numbers differ by a multiple. */
  lemma Multiple(x: int, y: int) returns (k: int)
    requires x % TWO_32 == y % TWO_32
    ensures x - y == k * TWO_32
  {
    k := x / TWO_32 - y / TWO_32;
  }

  lemma MulAssoc(m: int, k: int)
    ensures m * (k * TWO_32) == (m * k) * TWO_32
  {
  }

  lemma MultipleInside(q: int, d: int)
    requires d == q * TWO_32 && -TWO_32 < d < TWO_32
    ensures d == 0
  {
  }

  /** One changed word is always detected. */
  lemma OneWordDetected(w: seq<U32>, slot: int, skip: nat, i: nat, v: U32)
    requires i < |w| && Counted(slot, skip, i) && v != w[i]
    ensures Checksum(w[i := v], slot, skip) != Checksum(w, slot, skip)
  {
    var n := WalkEnd(|w|, slot, skip, 0);
    var e := Seen(w, slot, skip, n);
    var f := Seen(w[i := v], slot, skip, n);
    assert f == e[i := v];
    SumsAfterUpdate(e, i, v);
    if Pack(e) == Pack(f) {
      CongruentWordsEqual(v, w[i], Sum(f), Sum(e));
    }
  }

  /** Exactly the words before the skip point and outside the slot count: only a change of one of them is seen. */
  lemma WordMattersIff(w: seq<U32>, slot: int, skip: nat, i: nat, v: U32)
    requires i < |w| && v != w[i]
    ensures Checksum(w[i := v], slot, skip) != Checksum(w, slot, skip)
            <==> i < skip && !(slot >= 0 && (i == slot || i == slot + 1))
  {
    if Counted(slot, skip, i) {
      OneWordDetected(w, slot, skip, i, v);
    } else {
      var n := WalkEnd(|w|, slot, skip, 0);
      assert Seen(w[i := v], slot, skip, n) == Seen(w, slot, skip, n);
    }
  }

  /** The checksum of three words: their sum below, and above it their sum with weights three, two and one. */
  lemma ThreeWords(a: U32, b: U32, c: U32)
    ensures Checksum([a, b, c], -1, 3) == Csum((a + b + c) % TWO_32, (3 * a + 2 * b + c) % TWO_32)
  {
    var w: seq<U32> := [a, b, c];
    ClosedFormIff(w, -1, 3);
    var e := Seen(w, -1, 3, 3);
    var f, g := e[1..], e[1..][1..];
    assert e == [a, b, c] && f == [b, c] && g == [c] && g[1..] == [];
    assert Sum(g) == c && Sum(f) == b + c && Sum(e) == a + (b + c);
    assert Weighted(g) == c && Weighted(f) == 2 * b + c && Weighted(e) == 3 * a + (2 * b + c);
  }

  /** Swapping two counted words goes unnoticed exactly when their distance times their difference is a multiple of 2^32. */
  lemma SwapDetectedIff(w: seq<U32>, slot: int, skip: nat, i: nat, j: nat)
    requires i < j < |w| && Counted(slot, skip, i) && Counted(slot, skip, j)
    ensures Checksum(w[i := w[j]][j := w[i]], slot, skip) != Checksum(w, slot, skip)
            <==> (j - i) * (w[j] as int - w[i] as int) % TWO_32 != 0
  {
    var n := WalkEnd(|w|, slot, skip, 0);
    var e := Seen(w, slot, skip, n);
    var f := Seen(w[i := w[j]][j := w[i]], slot, skip, n);
    var d: int := w[j] as int - w[i] as int;
    assert f == e[i := w[j]][j := w[i]];
    SwapSums(e, i, j);
    AddCongruent(Weighted(e), (j - i) * d);
  }

  lemma SwapSums(e: seq<int>, i: nat, j: nat)
    requires i < j < |e|
    ensures var f := e[i := e[j]][j := e[i]];
            Sum(f) == Sum(e) && Weighted(f) == Weighted(e) + (j - i) * (e[j] - e[i])
  {
    SumsAfterUpdate(e, i, e[j]);
    SumsAfterUpdate(e[i := e[j]], j, e[i]);
    SwapWeights(|e|, i, j, e[j] - e[i]);
  }

  // ----- storing and verifying

  /** The value stored at the slot, low word first. */
  function Stored(w: seq<U32>, slot: int): Csum
    requires 0 <= slot && slot + 2 <= |w|
  {
    Csum(w[slot], w[slot + 1])
  }

  /** The range after the checksum `c` has been written at the slot. */
  function Insert(w: seq<U32>, slot: int, c: Csum): seq<U32>
    requires 0 <= slot && slot + 2 <= |w|
  {
    w[slot := c.lo][slot + 1 := c.hi]
  }

  predicate Verifies(w: seq<U32>, slot: int, skip: nat)
    requires 0 <= slot && slot + 2 <= |w|
  {
    Stored(w, slot) == Checksum(w, slot, skip)
  }

  /** What is stored at the slot does not influence the checksum, so inserting it makes the range verify. */
  lemma InsertVerifies(w: seq<U32>, slot: int, skip: nat)
    requires 0 <= slot && slot + 2 <= |w|
    ensures Verifies(Insert(w, slot, Checksum(w, slot, skip)), slot, skip)
  {
    var v := Insert(w, slot, Checksum(w, slot, skip));
    SlotIrrelevant(w, v, slot, skip);
  }

  lemma SlotIrrelevant(w: seq<U32>, v: seq<U32>, slot: int, skip: nat)
    requires 0 <= slot && slot + 2 <= |w| && |v| == |w|
    requires forall i :: 0 <= i < |w| && i != slot && i != slot + 1 ==> w[i] == v[i]
    ensures Checksum(w, slot, skip) == Checksum(v, slot, skip)
  {
    var n := WalkEnd(|w|, slot, skip, 0);
    assert Seen(w, slot, skip, n) == Seen(v, slot, skip, n);
  }

  /** After an insert, any change confined to two adjacent counted words makes verification fail. */
  lemma InsertThenCorruptFails(w: seq<U32>, slot: int, skip: nat, i: nat, a: U32, b: U32)
    requires 0 <= slot && slot + 2 <= |w| && Verifies(w, slot, skip)
    requires i + 1 < |w| && Counted(slot, skip, i) && Counted(slot, skip, i + 1)
    requires a != w[i] || b != w[i + 1]
    ensures !Verifies(w[i := a][i + 1 := b], slot, skip)
  {
    TwoWordsDetected(w, slot, skip, i, a, b);
  }

  /** ... and so does a change of any one counted word. */
  lemma InsertThenFlipFails(w: seq<U32>, slot: int, skip: nat, i: nat, v: U32)
    requires 0 <= slot && slot + 2 <= |w| && Verifies(w, slot, skip)
    requires i < |w| && Counted(slot, skip, i) && v != w[i]
    ensures !Verifies(w[i := v], slot, skip)
  {
    OneWordDetected(w, slot, skip, i, v);
  }

  /** The loop's two accumulators after `p` of the seen words. */
  ghost function LoAt(e: seq<int>, p: nat): (r: int)
    requires p <= |e|
    ensures 0 <= r < TWO_32
  {
    if p == 0 then 0 else (LoAt(e, p - 1) + e[p - 1]) % TWO_32
  }

  ghost function HiAt(e: seq<int>, p: nat): (r: int)
    requires p <= |e|
    ensures 0 <= r < TWO_32
  {
    if p == 0 then 0 else (HiAt(e, p - 1) + LoAt(e, p)) % TWO_32
  }

  /** The accumulators are the closed form modulo 2^32. */
  lemma {:induction false} AccumulatorsAreSums(e: seq<int>, p: nat)
    requires p <= |e|
    ensures LoAt(e, p) == Sum(e[..p]) % TWO_32 && HiAt(e, p) == Weighted(e[..p]) % TWO_32
  {
    if p > 0 {
      AccumulatorsAreSums(e, p - 1);
      assert e[..p] == e[..p - 1] + [e[p - 1]];
      StepWord(e, p - 1);
      SumStep(e[..p - 1], e[p - 1]);
    }
  }

  lemma SumStep(f: seq<int>, x: int)
    ensures Sum(f + [x]) % TWO_32 == (Sum(f) % TWO_32 + x) % TWO_32
    ensures Weighted(f + [x]) % TWO_32 == (Weighted(f) % TWO_32 + Sum(f + [x]) % TWO_32) % TWO_32
  {
    SumSnoc(f, x);
    WeightedSnoc(f, x);
    ModAdd(Sum(f), x);
    ModAddBoth(Weighted(f), Sum(f) + x);
  }

  lemma StepWord(e: seq<int>, p: nat)
    requires p < |e|
    ensures LoAt(e, p + 1) == (LoAt(e, p) + e[p]) % TWO_32
    ensures HiAt(e, p + 1) == (HiAt(e, p) + LoAt(e, p + 1)) % TWO_32
  {
  }

  lemma StepZeros(e: seq<int>, p: nat)
    requires p + 1 < |e| && e[p] == 0 && e[p + 1] == 0
    ensures LoAt(e, p + 2) == LoAt(e, p)
    ensures HiAt(e, p + 2) == ((HiAt(e, p) + LoAt(e, p)) % TWO_32 + LoAt(e, p)) % TWO_32
  {
    SmallMod(LoAt(e, p), TWO_32);
    StepWord(e, p);
    StepWord(e, p + 1);
  }

  lemma WordRound(e: seq<int>, p: nat, lo: int, hi: int, x: int)
    requires p < |e| && lo == LoAt(e, p) && hi == HiAt(e, p) && x == e[p]
    ensures (lo + x) % TWO_32 == LoAt(e, p + 1) && (hi + (lo + x) % TWO_32) % TWO_32 == HiAt(e, p + 1)
  {
    StepWord(e, p);
  }

  lemma ZeroRound(e: seq<int>, p: nat, lo: int, hi: int)
    requires p + 1 < |e| && e[p] == 0 && e[p + 1] == 0 && lo == LoAt(e, p) && hi == HiAt(e, p)
    ensures lo == LoAt(e, p + 2) && ((hi + lo) % TWO_32 + lo) % TWO_32 == HiAt(e, p + 2)
  {
    StepZeros(e, p);
  }

  /** The loop is at word `p` on its way to `n`, and not inside the slot. */
  ghost predicate OnWalk(len: nat, slot: int, skip: nat, p: nat, n: nat) {
    p <= n && n <= len + 1 && WalkEnd(len, slot, skip, p) == n && (p < skip && slot >= 0 ==> p != slot + 1)
  }

  lemma WalkStep(w: seq<U32>, slot: int, skip: nat, p: nat, n: nat)
    requires p < |w| && OnWalk(|w|, slot, skip, p, n)
    ensures var e := Seen(w, slot, skip, n);
            if Skips(slot, skip, p)
            then OnWalk(|w|, slot, skip, p + 2, n) && p + 1 < n && e[p] == 0 && e[p + 1] == 0
            else OnWalk(|w|, slot, skip, p + 1, n) && p < n && e[p] == w[p]
  {
    var next := if Skips(slot, skip, p) then p + 2 else p + 1;
    assert WalkEnd(|w|, slot, skip, p) == WalkEnd(|w|, slot, skip, next);
    assert next >= |w| ==> WalkEnd(|w|, slot, skip, next) == next;
  }

  /** The loop of util_checksum. */
  method Compute(buf: array<U32>, slot: int, skip: nat) returns (csum: Csum)
    ensures csum == Checksum(buf[..], slot, skip)
  {
    ghost var n := WalkEnd(buf.Length, slot, skip, 0);
    ghost var e := Seen(buf[..], slot, skip, n);
    var p: nat, lo: int, hi: int := 0, 0, 0;
    while p < buf.Length
      invariant OnWalk(buf.Length, slot, skip, p, n)
      invariant lo == LoAt(e, p) && hi == HiAt(e, p)
      decreases buf.Length - p
    {
      WalkStep(buf[..], slot, skip, p, n);
      if p == slot || p >= skip {
        ZeroRound(e, p, lo, hi);
        p := p + 1;
        hi := (hi + lo) % TWO_32;
        p := p + 1;
        hi := (hi + lo) % TWO_32;
      } else {
        WordRound(e, p, lo, hi, buf[p]);
        lo := (lo + buf[p]) % TWO_32;
        p := p + 1;
        hi := (hi + lo) % TWO_32;
      }
    }
    assert e[..p] == e;
    AccumulatorsAreSums(e, p);
    csum := Csum(lo, hi);
  }

  /**
    util_checksum with the checksum location inside the range: insert stores the
    checksum there and changes nothing else, verify compares and changes nothing.
  */
  method UtilChecksum(buf: array<U32>, slot: nat, insert: bool, skip: nat) returns (ok: bool)
    requires slot + 2 <= buf.Length
    modifies buf
    ensures insert ==> ok && buf[..] == Insert(old(buf[..]), slot, Checksum(old(buf[..]), slot, skip))
    ensures insert ==> Verifies(buf[..], slot, skip)
    ensures insert ==>
              && buf[slot] == Checksum(old(buf[..]), slot, skip).lo && buf[slot + 1] == Checksum(old(buf[..]), slot, skip).hi
              && forall i :: 0 <= i < buf.Length && i != slot && i != slot + 1 ==> buf[i] == old(buf[i])
    ensures !insert ==> buf[..] == old(buf[..]) && ok == Verifies(buf[..], slot, skip)
  {
    var csum := Compute(buf, slot, skip);
    InsertVerifies(buf[..], slot, skip);
    if insert {
      buf[slot] := csum.lo;
      buf[slot + 1] := csum.hi;
      return true;
    }
    return Csum(buf[slot], buf[slot + 1]) == csum;
  }

  /** util_checksum with the checksum location outside the range: every word before the skip point counts. */
  method UtilChecksumApart(buf: array<U32>, cell: array<U32>, insert: bool, skip: nat) returns (ok: bool)
    requires cell != buf && cell.Length == 2
    modifies cell
    ensures insert ==> ok && Csum(cell[0], cell[1]) == Checksum(buf[..], -1, skip)
    ensures insert ==> cell[0] == Checksum(buf[..], -1, skip).lo && cell[1] == Checksum(buf[..], -1, skip).hi
    ensures !insert ==> cell[..] == old(cell[..])
    ensures !insert ==> (ok <==> Csum(cell[0], cell[1]) == Checksum(buf[..], -1, skip))
  {
    var csum := Compute(buf, -1, skip);
    if insert {
      cell[0] := csum.lo;
      cell[1] := csum.hi;
      return true;
    }
    return Csum(cell[0], cell[1]) == csum;
  }
}
