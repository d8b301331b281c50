/**
  Option-vector expansion of src/benchmarks/clo_vec.cpp on values: a list of
  argument structures (byte strings) is multiplied by the value list of one
  option after the other, so that it ends up holding every combination.
*/
module CloExpand {
  import opened Arith

  type Byte = x: int | 0 <= x < 256

  type Bytes = seq<Byte>

  /** A command-line option: its field in the argument structure, and the values given for it. */
  datatype Opt = Opt(off: nat, size: nat, values: seq<Bytes>)

  function Overwrite(s: Bytes, off: nat, v: Bytes): (r: Bytes)
    requires off + |v| <= |s|
    ensures |r| == |s|
  {
    s[..off] + v + s[off + |v|..]
  }

  predicate OptOk(o: Opt, size: nat) {
    o.off + o.size <= size && |o.values| > 0 && forall i :: 0 <= i < |o.values| ==> |o.values[i]| == o.size
  }

  predicate Sized(c: seq<Bytes>, size: nat) {
    forall i :: 0 <= i < |c| ==> |c[i]| == size
  }

  /** Remainder and quotient of an index into `n` copies of `len` entries. */
  lemma IndexParts(i: nat, len: nat, n: nat)
    requires len > 0 && i < len * n
    ensures 0 <= i % len < len && 0 <= i / len < n && i == i / len * len + i % len
  {
    assert n * len == len * n;
    if i / len >= n {
      MulMonotone(n, i / len, len);
    }
  }

  /** clo_vec_memcpy_list on values: the entries repeated once for each value, which is written into the field. */
  function Expand(c: seq<Bytes>, size: nat, o: Opt): (r: seq<Bytes>)
    requires |c| > 0 && Sized(c, size) && OptOk(o, size)
    ensures |r| == |c| * |o.values| > 0 && Sized(r, size)
  {
    var n := |c| * |o.values|;
    MulMonotone(1, |o.values|, |c|);
    seq(n, i requires 0 <= i < n => (IndexParts(i, |c|, |o.values|); Overwrite(c[i % |c|], o.off, o.values[i / |c|])))
  }

  lemma ExpandAt(c: seq<Bytes>, size: nat, o: Opt, i: nat)
    requires |c| > 0 && Sized(c, size) && OptOk(o, size) && i < |c| * |o.values|
    ensures 0 <= i % |c| < |c| && 0 <= i / |c| < |o.values|
    ensures Expand(c, size, o)[i] == Overwrite(c[i % |c|], o.off, o.values[i / |c|])
  {
    IndexParts(i, |c|, |o.values|);
  }

  function Zeros(n: nat): (z: Bytes)
    ensures |z| == n && forall i :: 0 <= i < n ==> z[i] == 0
  {
    seq(n, _ => 0)
  }

  ghost predicate AllOk(opts: seq<Opt>, size: nat) {
    forall j :: 0 <= j < |opts| ==> OptOk(opts[j], size)
  }

  predicate Disjoint(a: Opt, b: Opt) {
    a.off + a.size <= b.off || b.off + b.size <= a.off
  }

  ghost predicate FieldsDisjoint(opts: seq<Opt>) {
    forall i, j :: 0 <= i < j < |opts| ==> Disjoint(opts[i], opts[j])
  }

  /** The vector after processing the options in order, from one cleared structure. */
  function Process(opts: seq<Opt>, size: nat): (r: seq<Bytes>)
    requires AllOk(opts, size)
    ensures |r| > 0 && Sized(r, size)
  {
    if opts == [] then [Zeros(size)]
    else Expand(Process(opts[..|opts| - 1], size), size, opts[|opts| - 1])
  }

  /** The product of the first `j` value counts. */
  function Stride(opts: seq<Opt>, j: nat): nat
    requires j <= |opts|
  {
    if j == 0 then 1 else Stride(opts, j - 1) * |opts[j - 1].values|
  }

  lemma {:induction false} StridePrefix(opts: seq<Opt>, n: nat, j: nat)
    requires j <= n <= |opts|
    ensures Stride(opts[..n], j) == Stride(opts, j)
  {
    if j > 0 {
      StridePrefix(opts, n, j - 1);
      assert opts[..n][j - 1] == opts[j - 1];
    }
  }

  lemma {:induction false} StridePositive(opts: seq<Opt>, size: nat, j: nat)
    requires AllOk(opts, size) && j <= |opts|
    ensures Stride(opts, j) > 0
  {
    if j > 0 {
      StridePositive(opts, size, j - 1);
      MulMonotone(1, |opts[j - 1].values|, Stride(opts, j - 1));
    }
  }

  /** The number of entries is the product of the value counts. */
  lemma {:induction false} EntryCount(opts: seq<Opt>, size: nat)
    requires AllOk(opts, size)
    ensures |Process(opts, size)| == Stride(opts, |opts|)
  {
    if opts != [] {
      var n := |opts| - 1;
      EntryCount(opts[..n], size);
      StridePrefix(opts, n, n);
    }
  }

  /** Which value of option `j` entry `i` carries. */
  function Digit(opts: seq<Opt>, i: nat, j: nat): nat
    requires j < |opts| && Stride(opts, j) > 0 && |opts[j].values| > 0
  {
    i / Stride(opts, j) % |opts[j].values|
  }

  // ----- mixed-radix arithmetic

  /** Taking the index modulo a later stride does not change an earlier digit. */
  lemma DigitSurvives(i: nat, a: nat, b: nat, m: nat)
    requires a > 0 && b > 0 && m > 0
    ensures a * b * m > 0 && i % (a * b * m) / a % b == i / a % b
  {
    MulMonotone(1, b, a);
    MulMonotone(1, m, a * b);
    var p := a * b * m;
    var k, y := i / p, i % p;
    assert i == k * p + y;
    // i / a == k * (b * m) + y / a
    assert k * p == k * (b * m) * a;
    var t := k * (b * m);
    assert i == (t + y / a) * a + y % a by {
      assert y == y / a * a + y % a;
      assert (t + y / a) * a == t * a + y / a * a;
    }
    DivModUnique(i, t + y / a, a, y % a);
    // (t + y / a) % b == y / a % b, because b divides t
    var u := y / a;
    assert t == k * m * b;
    assert t + u == (k * m + u / b) * b + u % b by {
      assert u == u / b * b + u % b;
      assert (k * m + u / b) * b == k * m * b + u / b * b;
    }
    DivModUnique(t + u, k * m + u / b, b, u % b);
  }

  /** A later stride is a multiple of an earlier one times its value count. */
  lemma {:induction false} StrideFactor(opts: seq<Opt>, size: nat, j: nat, n: nat) returns (m: nat)
    requires AllOk(opts, size) && j < n <= |opts|
    ensures m > 0 && Stride(opts, n) == Stride(opts, j) * |opts[j].values| * m
  {
    if n == j + 1 {
      m := 1;
    } else {
      var m' := StrideFactor(opts, size, j, n - 1);
      m := m' * |opts[n - 1].values|;
      MulMonotone(1, |opts[n - 1].values|, m');
      var s := Stride(opts, j) * |opts[j].values|;
      assert s * m' * |opts[n - 1].values| == s * m;
    }
  }

  // ----- what each entry holds

  function Field(s: Bytes, o: Opt): Bytes
    requires o.off + o.size <= |s|
  {
    s[o.off..o.off + o.size]
  }

  lemma OverwriteOwn(s: Bytes, o: Opt, v: Bytes)
    requires o.off + o.size <= |s| && |v| == o.size
    ensures Field(Overwrite(s, o.off, v), o) == v
  {
  }

  lemma OverwriteOther(s: Bytes, o: Opt, p: Opt, v: Bytes)
    requires o.off + o.size <= |s| && |v| == o.size && p.off + p.size <= |s| && Disjoint(o, p)
    ensures Field(Overwrite(s, o.off, v), p) == Field(s, p)
  {
    var r := Overwrite(s, o.off, v);
    forall i | 0 <= i < p.size ensures Field(r, p)[i] == Field(s, p)[i] {
      assert Field(r, p)[i] == r[p.off + i] && Field(s, p)[i] == s[p.off + i];
    }
  }

  /** Entry i carries, in the field of option j, the value with number (i / product of earlier counts) mod count. */
  lemma {:induction false} EntryField(opts: seq<Opt>, size: nat, i: nat, j: nat)
    requires AllOk(opts, size) && FieldsDisjoint(opts) && i < |Process(opts, size)| && j < |opts|
    ensures Stride(opts, j) > 0
    ensures Field(Process(opts, size)[i], opts[j]) == opts[j].values[i / Stride(opts, j) % |opts[j].values|]
  {
    StridePositive(opts, size, j);
    var n := |opts| - 1;
    var p := Process(opts[..n], size);
    var o := opts[n];
    ExpandAt(p, size, o, i);
    EntryCount(opts[..n], size);
    StridePrefix(opts, n, n);
    var v := o.values[i / |p|];
    if j == n {
      OverwriteOwn(p[i % |p|], o, v);
      DivModUnique(i / |p|, 0, |o.values|, i / |p|);
    } else {
      assert opts[..n][j] == opts[j] && Disjoint(opts[j], opts[n]);
      forall a, b | 0 <= a < b < n ensures Disjoint(opts[..n][a], opts[..n][b]) {
        assert Disjoint(opts[a], opts[b]);
      }
      EntryField(opts[..n], size, i % |p|, j);
      OverwriteOther(p[i % |p|], o, opts[j], v);
      StridePrefix(opts, n, j);
      var m := StrideFactor(opts, size, j, n);
      DigitSurvives(i, Stride(opts, j), |opts[j].values|, m);
    }
  }

  /** Bytes outside every field stay cleared. */
  lemma {:induction false} OutsideUntouched(opts: seq<Opt>, size: nat, i: nat, x: nat)
    requires AllOk(opts, size) && i < |Process(opts, size)| && x < size
    requires forall j :: 0 <= j < |opts| ==> !(opts[j].off <= x < opts[j].off + opts[j].size)
    ensures Process(opts, size)[i][x] == 0
  {
    if opts != [] {
      var n := |opts| - 1;
      var p := Process(opts[..n], size);
      ExpandAt(p, size, opts[n], i);
      forall j | 0 <= j < n ensures !(opts[..n][j].off <= x < opts[..n][j].off + opts[..n][j].size) {
        assert opts[..n][j] == opts[j];
      }
      OutsideUntouched(opts[..n], size, i % |p|, x);
    }
  }

  // ----- every combination exactly once

  /** A choice of one value number for each of the first n options. */
  ghost predicate Choice(opts: seq<Opt>, d: seq<nat>, n: nat) {
    n <= |opts| && |d| == |opts| && forall j :: 0 <= j < n ==> d[j] < |opts[j].values|
  }

  /** The index a choice is found at. */
  function IndexOf(opts: seq<Opt>, d: seq<nat>, n: nat): nat
    requires n <= |opts| && |d| == |opts|
  {
    if n == 0 then 0 else IndexOf(opts, d, n - 1) + d[n - 1] * Stride(opts, n - 1)
  }

  lemma {:induction false} IndexBelow(opts: seq<Opt>, d: seq<nat>, n: nat)
    requires Choice(opts, d, n)
    ensures IndexOf(opts, d, n) < Stride(opts, n)
  {
    if n > 0 {
      IndexBelow(opts, d, n - 1);
      var s, c := Stride(opts, n - 1), |opts[n - 1].values|;
      MulMonotone(d[n - 1], c - 1, s);
      assert (c - 1) * s + s == s * c;
    }
  }

  /** The entry found at a choice's index carries exactly that choice. */
  lemma {:induction false} IndexHasDigits(opts: seq<Opt>, size: nat, d: seq<nat>, n: nat, j: nat)
    requires AllOk(opts, size) && Choice(opts, d, n) && j < n
    ensures Stride(opts, j) > 0 && Digit(opts, IndexOf(opts, d, n), j) == d[j]
  {
    StridePositive(opts, size, j);
    var s, c := Stride(opts, n - 1), |opts[n - 1].values|;
    StridePositive(opts, size, n - 1);
    var low := IndexOf(opts, d, n - 1);
    IndexBelow(opts, d, n - 1);
    var i := IndexOf(opts, d, n);
    assert i == d[n - 1] * s + low;
    DivModUnique(i, d[n - 1], s, low);
    if j == n - 1 {
      DivModUnique(d[j], 0, c, d[j]);
    } else {
      IndexHasDigits(opts, size, d, n - 1, j);
      var m := StrideFactor(opts, size, j, n - 1);
      DigitSurvives(i, Stride(opts, j), |opts[j].values|, m);
    }
  }

  /** The digits of an index, as a choice. */
  ghost predicate HasDigits(opts: seq<Opt>, size: nat, i: nat, d: seq<nat>, n: nat)
    requires AllOk(opts, size) && n <= |opts| && |d| == |opts|
  {
    forall j :: 0 <= j < n ==> Stride(opts, j) > 0 && d[j] == Digit(opts, i, j)
  }

  /** Conversely an index is determined by its digits. */
  lemma {:induction false} DigitsDetermine(opts: seq<Opt>, size: nat, i: nat, d: seq<nat>, n: nat)
    requires AllOk(opts, size) && n <= |opts| && |d| == |opts| && HasDigits(opts, size, i, d, n)
    ensures Stride(opts, n) > 0 && i % Stride(opts, n) == IndexOf(opts, d, n)
  {
    StridePositive(opts, size, n);
    if n > 0 {
      DigitsDetermine(opts, size, i, d, n - 1);
      StridePositive(opts, size, n - 1);
      DivModProduct(i, Stride(opts, n - 1), |opts[n - 1].values|);
    }
  }

  /**
    The expansion enumerates the Cartesian product: for every choice of value
    numbers there is exactly one entry whose fields carry the chosen values'
    numbers.
  */
  lemma EveryCombinationOnce(opts: seq<Opt>, size: nat, d: seq<nat>)
    requires AllOk(opts, size) && FieldsDisjoint(opts) && Choice(opts, d, |opts|)
    ensures var i := IndexOf(opts, d, |opts|);
            && i < |Process(opts, size)|
            && (forall j :: 0 <= j < |opts| ==> Field(Process(opts, size)[i], opts[j]) == opts[j].values[d[j]])
            && (forall k :: 0 <= k < |Process(opts, size)| && HasDigits(opts, size, k, d, |opts|) ==> k == i)
  {
    var n := |opts|;
    var i := IndexOf(opts, d, n);
    IndexBelow(opts, d, n);
    EntryCount(opts, size);
    forall j | 0 <= j < n ensures Field(Process(opts, size)[i], opts[j]) == opts[j].values[d[j]] {
      EntryField(opts, size, i, j);
      IndexHasDigits(opts, size, d, n, j);
    }
    forall k | 0 <= k < |Process(opts, size)| && HasDigits(opts, size, k, d, n) ensures k == i {
      DigitsDetermine(opts, size, k, d, n);
      DivModUnique(k, 0, Stride(opts, n), k);
    }
  }

  /** No option has the same value twice. */
  ghost predicate DistinctValues(opts: seq<Opt>) {
    forall j, a, b :: 0 <= j < |opts| && 0 <= a < b < |opts[j].values| ==> opts[j].values[a] != opts[j].values[b]
  }

  /** With distinct values, the entry that holds the chosen values in its fields is unique. */
  lemma OnlyEntryWith(opts: seq<Opt>, size: nat, d: seq<nat>, k: nat)
    requires AllOk(opts, size) && FieldsDisjoint(opts) && Choice(opts, d, |opts|) && DistinctValues(opts)
    requires k < |Process(opts, size)|
    ensures (forall j :: 0 <= j < |opts| ==> Field(Process(opts, size)[k], opts[j]) == opts[j].values[d[j]])
            <==> k == IndexOf(opts, d, |opts|)
  {
    EveryCombinationOnce(opts, size, d);
    if forall j :: 0 <= j < |opts| ==> Field(Process(opts, size)[k], opts[j]) == opts[j].values[d[j]] {
      forall j | 0 <= j < |opts| ensures Stride(opts, j) > 0 && d[j] == Digit(opts, k, j) {
        EntryField(opts, size, k, j);
        SameValue(opts[j].values, d[j], Digit(opts, k, j));
      }
      assert HasDigits(opts, size, k, d, |opts|);
    }
  }

  lemma SameValue(values: seq<Bytes>, a: nat, b: nat)
    requires a < |values| && b < |values| && values[a] == values[b]
    requires forall i, j :: 0 <= i < j < |values| ==> values[i] != values[j]
    ensures a == b
  {
  }

  /** Two options: the first one's values alternate fastest. */
  lemma TwoOptions(a: Opt, b: Opt, size: nat, i: nat)
    requires OptOk(a, size) && OptOk(b, size) && Disjoint(a, b) && i < |a.values| * |b.values|
    ensures AllOk([a, b], size) && |Process([a, b], size)| == |a.values| * |b.values|
    ensures 0 <= i / |a.values| < |b.values|
    ensures Field(Process([a, b], size)[i], a) == a.values[i % |a.values|]
    ensures Field(Process([a, b], size)[i], b) == b.values[i / |a.values|]
  {
    var opts := [a, b];
    assert opts[0] == a && opts[1] == b;
    EntryCount(opts, size);
    assert Stride(opts, 0) == 1 && Stride(opts, 1) == |a.values| && Stride(opts, 2) == |a.values| * |b.values|;
    IndexParts(i, |a.values|, |b.values|);
    EntryField(opts, size, i, 0);
    EntryField(opts, size, i, 1);
    DivModUnique(i / |a.values|, 0, |b.values|, i / |a.values|);
  }
}
