/**
  The option vector of src/benchmarks/clo_vec.cpp on the heap: a list of separately
  allocated argument buffers that is grown and overwritten in place.
*/
module CloVec {
  import opened Arith
  import opened CloExpand

  /** memcpy of a value into a buffer. */
  method CopyInto(a: array<Byte>, off: nat, v: Bytes)
    requires off + |v| <= a.Length
    modifies a
    ensures a[..] == Overwrite(old(a[..]), off, v)
  {
    for i := 0 to |v|
      invariant forall k :: 0 <= k < a.Length ==> a[k] == if off <= k < off + i then v[k - off] else old(a[k])
    {
      a[off + i] := v[i];
    }
    ghost var r := Overwrite(old(a[..]), off, v);
    assert forall k :: 0 <= k < a.Length ==> a[k] == r[k];
  }

  /** A new buffer with the contents of another. */
  method Duplicate(src: array<Byte>) returns (buf: array<Byte>)
    ensures fresh(buf) && buf[..] == src[..]
  {
    buf := new Byte[src.Length];
    for k := 0 to src.Length
      invariant forall j :: 0 <= j < k ==> buf[j] == src[j]
    {
      buf[k] := src[k];
    }
  }

  /** Entry j of the endless repetition of `c`. */
  ghost function Rotated(c: seq<Bytes>, j: nat): Bytes
    requires |c| > 0
  {
    if j < |c| then c[j] else Rotated(c, j - |c|)
  }

  lemma {:induction false} RotatedMod(c: seq<Bytes>, j: nat)
    requires |c| > 0
    ensures Rotated(c, j) == c[j % |c|] == Rotated(c, j % |c|)
  {
    if j < |c| {
      DivModUnique(j, 0, |c|, j);
    } else {
      RotatedMod(c, j - |c|);
      var q, r := (j - |c|) / |c|, (j - |c|) % |c|;
      assert (q + 1) * |c| == q * |c| + |c|;
      DivModUnique(j, q + 1, |c|, r);
    }
  }

  class CloVec {
    const size: nat
    var args: seq<array<Byte>>
    var nargs: nat

    /** Separate buffers of the right size; the first `nargs` of them are in use. */
    ghost predicate Shape()
      reads this, args
    {
      && 0 < nargs <= |args|
      && (forall i :: 0 <= i < |args| ==> args[i].Length == size)
      && (forall i, j :: 0 <= i < j < |args| ==> args[i] != args[j])
    }

    ghost predicate Valid()
      reads this, args
    {
      Shape() && nargs == |args|
    }

    ghost function Contents(): (c: seq<Bytes>)
      reads this, args
      ensures |c| == |args| && forall i :: 0 <= i < |args| ==> c[i] == args[i][..]
    {
      seq(|args|, i requires 0 <= i < |args| reads this, args => args[i][..])
    }

    /** clo_vec_alloc */
    constructor (size: nat)
      ensures Valid() && this.size == size && fresh(args) && Contents() == [Zeros(size)]
    {
      this.size := size;
      var first := new Byte[size](_ => 0);
      args := [first];
      nargs := 1;
      new;
      assert first[..] == Zeros(size);
    }

    /** clo_vec_get_args: walk the list to the i-th buffer. */
    method GetArgs(i: nat) returns (a: array?<Byte>)
      requires Shape()
      ensures i >= nargs ==> a == null
      ensures i < nargs ==> a == args[i]
    {
      if i >= nargs {
        return null;
      }
      var c := 0;
      while c < |args|
        invariant c <= i < |args|
        decreases |args| - c
      {
        if c == i {
          return args[c];
        }
        c := c + 1;
      }
      return null;
    }

    /** The entries beyond the first are a rotation of `c`. */
    ghost predicate Rotates(c: seq<Bytes>)
      reads this, args
    {
      |c| > 0 && forall j :: 0 <= j < |args| ==> args[j][..] == Rotated(c, j)
    }

    /** clo_vec_grow: append copies of the present entries, in rotation. */
    method Grow(newLen: nat)
      requires Valid() && newLen >= nargs
      modifies this
      ensures Valid() && nargs == newLen
      ensures |args| >= |old(args)| && args[..|old(args)|] == old(args)
      ensures forall j :: |old(args)| <= j < |args| ==> fresh(args[j])
      ensures Rotates(old(Contents()))
    {
      var more := newLen - nargs;
      ghost var c := Contents();
      ghost var was := args;
      for i := 0 to more
        invariant nargs == old(nargs) == |was| && |args| == nargs + i && args[..nargs] == was
        invariant forall j :: nargs <= j < |args| ==> fresh(args[j])
        invariant Shape() && Rotates(c)
      {
        AppendCopy(i, c);
        assert args[..nargs] == was;
      }
      nargs := newLen;
    }

    /** One round of the growing loop: a copy of entry i mod nargs goes to the end of the list. */
    method AppendCopy(i: nat, ghost c: seq<Bytes>)
      requires Shape() && Rotates(c) && |args| == nargs + i && nargs == |c|
      modifies this`args
      ensures Shape() && Rotates(c) && |args| == |old(args)| + 1
      ensures args[..|old(args)|] == old(args) && fresh(args[|old(args)|])
    {
      ghost var m := i % nargs;
      var src := GetArgs(i % nargs);
      assert src[..] == Rotated(c, m);
      RotatedMod(c, i);
      var buf := Duplicate(src);
      Append(buf, c);
    }

    method Append(buf: array<Byte>, ghost c: seq<Bytes>)
      requires Shape() && Rotates(c) && buf !in args && buf.Length == size && buf[..] == Rotated(c, |args|)
      modifies this`args
      ensures Shape() && Rotates(c) && args == old(args) + [buf]
    {
      args := args + [buf];
    }

    /** The inner loop of clo_vec_memcpy_list: one value into the field of a range of entries. */
    method WriteRange(lo: nat, hi: nat, off: nat, v: Bytes)
      requires Valid() && lo <= hi <= nargs && off + |v| <= size
      modifies args
      ensures Valid()
      ensures forall j :: 0 <= j < nargs ==>
                args[j][..] == if lo <= j < hi then Overwrite(old(Contents())[j], off, v) else old(Contents())[j]
    {
      ghost var c := Contents();
      for i := lo to hi
        invariant forall j :: 0 <= j < nargs ==>
                    args[j][..] == if lo <= j < i then Overwrite(c[j], off, v) else c[j]
      {
        var a := GetArgs(i);
        CopyInto(a, off, v);
      }
    }

    /** clo_vec_memcpy: one value into the field of every entry. */
    method Memcpy(off: nat, v: Bytes) returns (ret: int)
      requires Valid()
      modifies args
      ensures Valid()
      ensures off + |v| > size ==> ret == -1 && Contents() == old(Contents())
      ensures off + |v| <= size ==>
                ret == 0 && forall j :: 0 <= j < nargs ==> args[j][..] == Overwrite(old(Contents())[j], off, v)
    {
      if off + |v| > size {
        return -1;
      }
      WriteRange(0, nargs, off, v);
      return 0;
    }

    /** The value loop of clo_vec_memcpy_list, on a vector that already has room: value k goes to the k-th stretch. */
    method WriteValues(len: nat, o: Opt, ghost c: seq<Bytes>, ghost goal: seq<Bytes>)
      requires Valid() && len == |c| > 0 && Sized(c, size) && OptOk(o, size)
      requires Rotates(c) && |goal| == nargs && InStretches(goal, c, size, o)
      modifies args
      ensures Valid() && Contents() == goal
    {
      var lo: nat := 0;
      for k := 0 to |o.values|
        invariant Valid() && lo == Stretches(k, len)
        invariant WrittenUpTo(goal, c, lo)
      {
        StretchesMonotone(k + 1, |o.values|, len);
        WriteStretch(k, lo, len, o, c, goal);
        lo := lo + len;
      }
    }

    /** The entries below `lo` have reached their goal, the others are still copies. */
    ghost predicate WrittenUpTo(goal: seq<Bytes>, c: seq<Bytes>, lo: nat)
      reads this, args
    {
      |c| > 0 && |goal| == |args| && forall j :: 0 <= j < |args| ==> args[j][..] == if j < lo then goal[j] else Rotated(c, j)
    }

    /** One value of the list, into its stretch of entries. */
    method WriteStretch(k: nat, lo: nat, len: nat, o: Opt, ghost c: seq<Bytes>, ghost goal: seq<Bytes>)
      requires Valid() && len == |c| > 0 && Sized(c, size) && OptOk(o, size) && k < |o.values|
      requires lo == Stretches(k, len) && lo + len <= nargs && WrittenUpTo(goal, c, lo)
      requires InStretch(goal, c, size, o, k)
      modifies args
      ensures Valid() && WrittenUpTo(goal, c, lo + len)
    {
      WriteRange(lo, lo + len, o.off, o.values[k]);
    }

    /** clo_vec_memcpy_list: a structure-sized step of the expansion, or -1 and no change when the field does not fit. */
    method MemcpyList(o: Opt) returns (ret: int)
      requires Valid() && forall i :: 0 <= i < |o.values| ==> |o.values[i]| == o.size
      modifies this, args
      ensures Valid()
      ensures forall j :: 0 <= j < |args| ==> args[j] in old(args) || fresh(args[j])
      ensures o.off + o.size > size ==> ret == -1 && Contents() == old(Contents())
      ensures o.off + o.size <= size ==> ret == 0
      ensures o.off + o.size <= size && o.values == [] ==> Contents() == old(Contents())
      ensures OptOk(o, size) ==> Sized(old(Contents()), size) && Contents() == Expand(old(Contents()), size, o)
    {
      if o.off + o.size > size {
        return -1;
      }
      ghost var c := Contents();
      var len := nargs;
      if |o.values| == 0 {
        return 0;
      }
      if |o.values| > 1 {
        MulMonotone(1, |o.values|, len);
        Grow(nargs * |o.values|);
      }
      assert forall j :: 0 <= j < |args| ==> args[j] in old(args) || fresh(args[j]);
      ExpandInStretches(c, size, o);
      WriteValues(len, o, c, Expand(c, size, o));
      return 0;
    }
  }

  /** Where the k-th stretch of `len` entries begins. */
  ghost function Stretches(k: nat, len: nat): nat {
    if k == 0 then 0 else Stretches(k - 1, len) + len
  }

  lemma {:induction false} StretchesIsProduct(k: nat, len: nat)
    ensures Stretches(k, len) == k * len == len * k
  {
    if k > 0 {
      StretchesIsProduct(k - 1, len);
      assert (k - 1) * len + len == k * len;
    }
  }

  lemma {:induction false} StretchesMonotone(k: nat, n: nat, len: nat)
    requires k <= n
    ensures Stretches(k, len) <= Stretches(n, len)
  {
    if k < n {
      StretchesMonotone(k, n - 1, len);
    }
  }

  /** In its k-th stretch `goal` holds the entries of `c` with value k written into the field. */
  ghost predicate InStretch(goal: seq<Bytes>, c: seq<Bytes>, size: nat, o: Opt, k: nat)
    requires |c| > 0 && Sized(c, size) && OptOk(o, size) && k < |o.values|
  {
    forall j :: Stretches(k, |c|) <= j < Stretches(k, |c|) + |c| && j < |goal| ==>
      |Rotated(c, j)| == size && goal[j] == Overwrite(Rotated(c, j), o.off, o.values[k])
  }

  ghost predicate InStretches(goal: seq<Bytes>, c: seq<Bytes>, size: nat, o: Opt)
    requires |c| > 0 && Sized(c, size) && OptOk(o, size)
  {
    |goal| == Stretches(|o.values|, |c|) && forall k :: 0 <= k < |o.values| ==> InStretch(goal, c, size, o, k)
  }

  /** The expansion is made of stretches, one for each value. */
  lemma ExpandInStretches(c: seq<Bytes>, size: nat, o: Opt)
    requires |c| > 0 && Sized(c, size) && OptOk(o, size)
    ensures InStretches(Expand(c, size, o), c, size, o) && |Expand(c, size, o)| == |c| * |o.values|
  {
    StretchesIsProduct(|o.values|, |c|);
    forall k | 0 <= k < |o.values| ensures InStretch(Expand(c, size, o), c, size, o, k) {
      forall j | Stretches(k, |c|) <= j < Stretches(k, |c|) + |c| && j < |Expand(c, size, o)|
        ensures |Rotated(c, j)| == size && Expand(c, size, o)[j] == Overwrite(Rotated(c, j), o.off, o.values[k])
      {
        StretchesIsProduct(k, |c|);
        DivModUnique(j, k, |c|, j - k * |c|);
        RotatedMod(c, j);
        ExpandAt(c, size, o, j);
      }
    }
  }

  /** Processing a list of options on the heap is the expansion of the options' product. */
  method ProcessOptions(opts: seq<Opt>, size: nat) returns (v: CloVec)
    requires AllOk(opts, size)
    ensures v.Valid() && v.size == size && v.Contents() == Process(opts, size)
  {
    v := new CloVec(size);
    for i := 0 to |opts|
      invariant v.Valid() && v.size == size && fresh(v) && fresh(v.args)
      invariant AllOk(opts[..i], size) && v.Contents() == Process(opts[..i], size)
    {
      assert AllOk(opts[..i + 1], size) && opts[..i + 1][..i] == opts[..i];
      var ret := v.MemcpyList(opts[i]);
    }
    assert opts[..|opts|] == opts;
  }
}
