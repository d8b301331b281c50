/**
  Range evaluation of src/benchmarks/clo.cpp for unsigned values: the range
  first:<type><step>:last as a list of values.  Values are 64-bit and wrap.
*/
module CloRange {
  import opened Arith
  import opened Wrappers

  datatype StepType = Plus | Minus | Times | Divide | Unknown

  /** clo_check_range_params */
  function CheckRangeParams(step: nat, t: StepType): int {
    match t
    case Plus => if step == 0 then -1 else 0
    case Minus => if step == 0 then -1 else 0
    case Times => if step == 0 || step == 1 then -1 else 0
    case Divide => if step == 0 || step == 1 then -1 else 0
    case Unknown => -1
  }

  /** The next value in the direction of the range is strictly further on. */
  predicate Moves(v: nat, step: nat, t: StepType) {
    match t
    case Plus => v + step > v
    case Minus => v - step < v
    case Times => v * step > v
    case Divide => step > 0 && v / step < v
    case Unknown => false
  }

  /** The parameter check accepts exactly the steps that move every positive value. */
  lemma AcceptedIff(step: nat, t: StepType)
    ensures CheckRangeParams(step, t) == 0 || CheckRangeParams(step, t) == -1
    ensures CheckRangeParams(step, t) == 0 <==> forall v: nat :: v > 0 ==> Moves(v, step, t)
  {
    if CheckRangeParams(step, t) == 0 {
      forall v: nat | v > 0 ensures Moves(v, step, t) {
        if t == Times {
          MulMonotone(2, step, v);
        } else if t == Divide {
          QuotientSmaller(v, step);
        }
      }
    } else {
      assert !Moves(1, step, t);
    }
  }

  lemma QuotientSmaller(v: nat, s: nat)
    requires v > 0 && s > 1
    ensures v / s < v
  {
    MulMonotone(2, s, v / s);
  }

  /** The next value as the loop computes it, or none when it returns. */
  function NextValue(t: StepType, curr: nat, s: nat, l: nat): Option<nat>
    requires t == Divide ==> s > 0
  {
    match t
    case Plus => var n := (curr + s) % TWO_64; if n > l then None else Some(n)
    case Minus => if curr < s then None else if curr - s < l then None else Some(curr - s)
    case Times => var n := curr * s % TWO_64; if n > l then None else Some(n)
    case Divide => if curr / s < l then None else Some(curr / s)
    case Unknown => None
  }

  // ----- the range without wrap-around

  /** The next value of the progression, without wrap-around. */
  function Beyond(t: StepType, curr: nat, s: nat): int
    requires t == Divide ==> s > 0
  {
    match t
    case Plus => curr + s
    case Minus => curr - s
    case Times => curr * s
    case Divide => curr / s
    case Unknown => curr
  }

  predicate Upward(t: StepType) { t == Plus || t == Times }

  /** The next value exists and does not pass the last. */
  predicate InRange(t: StepType, curr: nat, s: nat, l: nat)
    requires t == Divide ==> s > 0
  {
    t != Unknown && if Upward(t) then Beyond(t, curr, s) <= l else Beyond(t, curr, s) >= l
  }

  /** Accepted parameters, and a progression that moves. */
  predicate Sane(t: StepType, first: nat, s: nat, l: nat) {
    CheckRangeParams(s, t) == 0 && (t == Times ==> first >= 1) && (t == Divide ==> l >= 1)
  }

  lemma SaneMoves(t: StepType, curr: nat, s: nat, l: nat)
    requires Sane(t, curr, s, l) && InRange(t, curr, s, l)
    ensures Upward(t) ==> curr < Beyond(t, curr, s) <= l
    ensures !Upward(t) ==> 0 <= l <= Beyond(t, curr, s) < curr
    ensures Sane(t, Beyond(t, curr, s), s, l)
  {
    match t
    case Times => MulMonotone(2, s, curr);
    case Divide =>
      var q := curr / s;
      assert curr == q * s + curr % s;
      MulMonotone(2, s, q);
      assert q * s == s * q;
    case Plus =>
    case Minus =>
  }

  /** The first value and its continuation up to the last that does not pass `l`. */
  function Ideal(t: StepType, curr: nat, s: nat, l: nat): (r: seq<nat>)
    requires Sane(t, curr, s, l)
    ensures |r| > 0
    decreases if Upward(t) then l - curr else curr
  {
    if InRange(t, curr, s, l) then
      SaneMoves(t, curr, s, l);
      [curr] + Ideal(t, Beyond(t, curr, s), s, l)
    else [curr]
  }

  function Pow(b: nat, e: nat): nat {
    if e == 0 then 1 else b * Pow(b, e - 1)
  }

  lemma {:induction false} PowPositive(b: nat, e: nat)
    requires b > 0
    ensures Pow(b, e) > 0
  {
    if e > 0 {
      PowPositive(b, e - 1);
      MulMonotone(1, b, Pow(b, e - 1));
    }
  }

  /** The k-th term of the progression. */
  function Term(t: StepType, first: nat, s: nat, k: nat): int
    requires t == Divide ==> s > 0
  {
    match t
    case Plus => first + k * s
    case Minus => first - k * s
    case Times => first * Pow(s, k)
    case Divide => PowPositive(s, k); first / Pow(s, k)
    case Unknown => first
  }

  /** Term k + 1 of a progression is term k of the progression from the next value. */
  lemma TermShift(t: StepType, first: nat, s: nat, k: nat)
    requires t != Unknown && (t == Divide ==> s > 0) && Beyond(t, first, s) >= 0
    ensures Term(t, first, s, k + 1) == Term(t, Beyond(t, first, s), s, k)
  {
    match t
    case Plus => assert (k + 1) * s == k * s + s;
    case Minus => assert (k + 1) * s == k * s + s;
    case Times => assert first * (s * Pow(s, k)) == first * s * Pow(s, k);
    case Divide =>
      PowPositive(s, k);
      DivModProduct(first, s, Pow(s, k));
  }

  lemma {:induction false} IdealTerms(t: StepType, first: nat, s: nat, l: nat, k: nat)
    requires Sane(t, first, s, l) && k < |Ideal(t, first, s, l)|
    ensures Ideal(t, first, s, l)[k] == Term(t, first, s, k)
    ensures k > 0 ==> if Upward(t) then Ideal(t, first, s, l)[k] <= l else Ideal(t, first, s, l)[k] >= l
    ensures k == |Ideal(t, first, s, l)| - 1 ==> !InRange(t, Ideal(t, first, s, l)[k], s, l)
    decreases k
  {
    var r := Ideal(t, first, s, l);
    if InRange(t, first, s, l) {
      SaneMoves(t, first, s, l);
      var n := Beyond(t, first, s);
      if k > 0 {
        IdealTerms(t, n, s, l, k - 1);
        TermShift(t, first, s, k - 1);
        assert r[k] == Ideal(t, n, s, l)[k - 1];
      }
    }
    if k == 0 {
      PowPositive(s, 0);
    }
  }

  /**
    The ideal range is the maximal arithmetic or geometric continuation: entry k
    is the k-th term, every entry after the first is within `l`, and the term
    after the last entry is not.
  */
  lemma IdealIsMaximal(t: StepType, first: nat, s: nat, l: nat, k: nat)
    requires Sane(t, first, s, l) && k < |Ideal(t, first, s, l)|
    ensures var r := Ideal(t, first, s, l);
            var up := t == Plus || t == Times;
            && r[k] == Term(t, first, s, k)
            && (k > 0 ==> if up then r[k] <= l else r[k] >= l)
            && (k == |r| - 1 ==> if up then Term(t, first, s, k + 1) > l else Term(t, first, s, k + 1) < l)
  {
    IdealTerms(t, first, s, l, k);
    TermNext(t, first, s, k);
  }

  /** The last value of the ideal range. */
  function LastOf(t: StepType, first: nat, s: nat, l: nat): nat
    requires Sane(t, first, s, l)
  {
    Ideal(t, first, s, l)[|Ideal(t, first, s, l)| - 1]
  }

  /** The first value past the range is still seen as past it after 64-bit truncation. */
  predicate StopsInTime(t: StepType, first: nat, s: nat, l: nat)
    requires Sane(t, first, s, l)
  {
    Upward(t) ==> Beyond(t, LastOf(t, first, s, l), s) % TWO_64 > l
  }

  /** A range that ends early enough for nothing to wrap. */
  lemma NoWrapStopsInTime(t: StepType, first: nat, s: nat, l: nat)
    requires Sane(t, first, s, l) && first <= l && (t == Plus ==> l + s < TWO_64) && (t == Times ==> l * s < TWO_64)
    ensures StopsInTime(t, first, s, l)
  {
    var n := |Ideal(t, first, s, l)| - 1;
    IdealTerms(t, first, s, l, n);
    var m := LastOf(t, first, s, l);
    assert m <= l || !Upward(t);
    if t == Times {
      MulMonotone(m, l, s);
      SmallMod(m * s, TWO_64);
    } else if t == Plus {
      SmallMod(m + s, TWO_64);
    }
  }

  /** Inside the range the loop computes the true next value; at its end, it stops exactly if the truncated value shows it. */
  lemma NextIsBeyond(t: StepType, curr: nat, s: nat, l: nat)
    requires Sane(t, curr, s, l) && l < TWO_64
    ensures InRange(t, curr, s, l) ==> NextValue(t, curr, s, l) == Some(Beyond(t, curr, s))
    ensures !InRange(t, curr, s, l) ==>
              (NextValue(t, curr, s, l) == None <==> (Upward(t) ==> Beyond(t, curr, s) % TWO_64 > l))
  {
    match t
    case Plus =>
      if curr + s <= l {
        SmallMod(curr + s, TWO_64);
      }
    case Times =>
      var product := curr * s;
      MulMonotone(0, curr, s);
      if product <= l {
        SmallMod(product, TWO_64);
      }
    case Minus =>
    case Divide =>
  }

  lemma LastShift(t: StepType, curr: nat, s: nat, l: nat)
    requires Sane(t, curr, s, l)
    ensures InRange(t, curr, s, l) ==>
              && Sane(t, Beyond(t, curr, s), s, l)
              && LastOf(t, curr, s, l) == LastOf(t, Beyond(t, curr, s), s, l)
    ensures !InRange(t, curr, s, l) ==> LastOf(t, curr, s, l) == curr
  {
    if InRange(t, curr, s, l) {
      SaneMoves(t, curr, s, l);
    }
  }

  /** The switch in the loop: whether it returns, and otherwise the new current value. */
  method Advance(t: StepType, curr: nat, step: nat, last: nat) returns (stop: bool, next: nat)
    requires t == Divide ==> step > 0
    ensures NextValue(t, curr, step, last) == if stop then None else Some(next)
  {
    next := curr;
    match t {
      case Plus =>
        next := (curr + step) % TWO_64;
        return next > last, next;
      case Minus =>
        if curr < step {
          return true, next;
        }
        next := curr - step;
        return next < last, next;
      case Times =>
        next := curr * step % TWO_64;
        return next > last, next;
      case Divide =>
        next := curr / step;
        return next < last, next;
      case Unknown =>
        return true, next;
    }
  }

  /** From `curr` on the loop emits exactly `rest` and returns. */
  ghost predicate OnTrack(t: StepType, curr: nat, s: nat, l: nat, rest: seq<nat>)
    requires t == Divide ==> s > 0
    decreases rest
  {
    && rest != [] && rest[0] == curr
    && match NextValue(t, curr, s, l)
       case None => rest[1..] == []
       case Some(n) => OnTrack(t, n, s, l, rest[1..])
  }

  /** A range that stops in time is emitted as it should be. */
  lemma {:induction false} IdealOnTrack(t: StepType, curr: nat, s: nat, l: nat)
    requires Sane(t, curr, s, l) && l < TWO_64 && StopsInTime(t, curr, s, l)
    ensures OnTrack(t, curr, s, l, Ideal(t, curr, s, l))
    decreases |Ideal(t, curr, s, l)|
  {
    NextIsBeyond(t, curr, s, l);
    LastShift(t, curr, s, l);
    if InRange(t, curr, s, l) {
      IdealOnTrack(t, Beyond(t, curr, s), s, l);
    }
  }

  /** What the loop emits is determined. */
  lemma {:induction false} OnTrackUnique(t: StepType, curr: nat, s: nat, l: nat, a: seq<nat>, b: seq<nat>)
    requires (t == Divide ==> s > 0) && OnTrack(t, curr, s, l, a) && OnTrack(t, curr, s, l, b)
    ensures a == b
    decreases a
  {
    if a[1..] != [] {
      OnTrackUnique(t, NextValue(t, curr, s, l).value, s, l, a[1..], b[1..]);
    }
    assert a == [a[0]] + a[1..] && b == [b[0]] + b[1..];
  }

  lemma {:induction false} OnTrackFrom(t: StepType, curr: nat, s: nat, l: nat, vals: seq<nat>, k: nat)
    requires (t == Divide ==> s > 0) && OnTrack(t, curr, s, l, vals) && k < |vals|
    ensures OnTrack(t, vals[k], s, l, vals[k..])
    decreases k
  {
    if k > 0 {
      OnTrackFrom(t, NextValue(t, curr, s, l).value, s, l, vals[1..], k - 1);
      assert vals[1..][k - 1..] == vals[k..];
    }
  }

  /** The k-th term of the progression in 64 bits. */
  function Term64(t: StepType, first: nat, s: nat, k: nat): int
    requires t == Divide ==> s > 0
  {
    if Upward(t) then Term(t, first, s, k) % TWO_64 else Term(t, first, s, k)
  }

  /** The value passes the last one, in the direction of the range. */
  predicate Passes(t: StepType, v: int, l: nat) {
    if Upward(t) then v > l else v < l
  }

  lemma ModStep(x: nat, s: nat)
    ensures (x % TWO_64 + s) % TWO_64 == (x + s) % TWO_64 && x % TWO_64 * s % TWO_64 == x * s % TWO_64
  {
    ModAddLeft(x, s, TWO_64);
    ModMulLeft(x, s, TWO_64);
  }

  lemma TermNext(t: StepType, first: nat, s: nat, k: nat)
    requires t != Unknown && (t == Divide ==> s > 0) && Term(t, first, s, k) >= 0
    ensures Term(t, first, s, k + 1) == Beyond(t, Term(t, first, s, k), s)
  {
    match t
    case Plus => assert (k + 1) * s == k * s + s;
    case Minus => assert (k + 1) * s == k * s + s;
    case Times => assert first * (s * Pow(s, k)) == first * Pow(s, k) * s;
    case Divide =>
      PowPositive(s, k);
      DivModProduct(first, Pow(s, k), s);
      assert Pow(s, k + 1) == Pow(s, k) * s;
  }

  /** One round of the loop, on the terms. */
  lemma NextIsTerm(t: StepType, first: nat, s: nat, l: nat, k: nat, curr: nat)
    requires t != Unknown && (t == Divide ==> s > 0) && first < TWO_64
    requires curr == Term64(t, first, s, k) && Term(t, first, s, k) >= 0
    ensures var next := Term64(t, first, s, k + 1);
            NextValue(t, curr, s, l) == if Passes(t, next, l) then None else Some(next)
  {
    TermNext(t, first, s, k);
    if Upward(t) {
      ModStep(Term(t, first, s, k), s);
    }
  }

  lemma UpwardTerm(t: StepType, first: nat, s: nat, k: nat)
    requires Upward(t)
    ensures Term(t, first, s, k) >= 0
  {
    if t == Times {
      MulMonotone(0, Pow(s, k), first);
    } else {
      MulMonotone(0, k, s);
    }
  }

  /**
    Whatever the parameters: a loop that returns has emitted the terms of the
    progression in 64 bits, none but the first past the last value, up to the
    first term that is past it.
  */
  lemma {:induction false} EmitsTerms(t: StepType, first: nat, s: nat, l: nat, vals: seq<nat>, k: nat)
    requires t != Unknown && (t == Divide ==> s > 0) && first < TWO_64 && OnTrack(t, first, s, l, vals) && k < |vals|
    ensures vals[k] == Term64(t, first, s, k) && Term(t, first, s, k) >= 0
    ensures k > 0 ==> if t == Plus || t == Times then vals[k] <= l else vals[k] >= l
    ensures k == |vals| - 1 ==>
              var next := Term64(t, first, s, k + 1);
              if t == Plus || t == Times then next > l else next < l
    decreases k
  {
    if k == 0 {
      FirstTerm(t, first, s);
    } else {
      EmitsTerms(t, first, s, l, vals, k - 1);
      OnTrackFrom(t, first, s, l, vals, k - 1);
      NextIsTerm(t, first, s, l, k - 1, vals[k - 1]);
      assert vals[k - 1..][1..] == vals[k..];
      if Upward(t) {
        UpwardTerm(t, first, s, k);
      }
    }
    OnTrackFrom(t, first, s, l, vals, k);
    NextIsTerm(t, first, s, l, k, vals[k]);
    assert k == |vals| - 1 ==> vals[k..][1..] == [];
  }

  lemma FirstTerm(t: StepType, first: nat, s: nat)
    requires (t == Divide ==> s > 0) && first < TWO_64
    ensures Term(t, first, s, 0) == first && Term64(t, first, s, 0) == first
  {
    SmallMod(first, TWO_64);
  }

  /** The loop of clo_eval_range_uint. */
  method Emit(first: nat, step: nat, last: nat, t: StepType, ghost goal: seq<nat>) returns (vals: seq<nat>)
    requires (t == Divide ==> step > 0) && OnTrack(t, first, step, last, goal)
    ensures vals == goal
  {
    var curr := first;
    vals := [];
    ghost var rest := goal;
    while true
      invariant OnTrack(t, curr, step, last, rest) && goal == vals + rest
      decreases |rest|
    {
      var stop, next := Advance(t, curr, step, last);
      vals := vals + [curr];
      rest := rest[1..];
      if stop {
        return;
      }
      curr := next;
    }
  }

  /** The loop returns at all. */
  ghost predicate Returns(t: StepType, first: nat, s: nat, l: nat)
    requires t == Divide ==> s > 0
  {
    exists vals :: OnTrack(t, first, s, l, vals)
  }

  /** clo_eval_range_uint, for ranges whose loop ends. */
  method EvalRangeUint(first: nat, step: nat, last: nat, t: StepType) returns (ret: int, vals: seq<nat>)
    requires first < TWO_64 && last < TWO_64 && (t == Divide ==> step > 0) && Returns(t, first, step, last)
    ensures ret == if t == Unknown then -1 else 0
    ensures OnTrack(t, first, step, last, vals)
    ensures Sane(t, first, step, last) && StopsInTime(t, first, step, last) ==> vals == Ideal(t, first, step, last)
  {
    ghost var goal :| OnTrack(t, first, step, last, goal);
    vals := Emit(first, step, last, t, goal);
    if Sane(t, first, step, last) && StopsInTime(t, first, step, last) {
      IdealOnTrack(t, first, step, last);
      OnTrackUnique(t, first, step, last, goal, Ideal(t, first, step, last));
    }
    ret := if t == Unknown then -1 else 0;
  }

  /** From its i-th term the loop gets to return, if some later term is past the last value. */
  lemma {:induction false} ReturnsFrom(t: StepType, first: nat, s: nat, l: nat, i: nat, k: nat) returns (vals: seq<nat>)
    requires t != Unknown && (t == Divide ==> s > 0) && first < TWO_64
    requires i < k && Term(t, first, s, i) >= 0 && Passes(t, Term64(t, first, s, k), l)
    ensures OnTrack(t, Term64(t, first, s, i), s, l, vals)
    decreases k - i
  {
    var curr := Term64(t, first, s, i);
    NextIsTerm(t, first, s, l, i, curr);
    if Passes(t, Term64(t, first, s, i + 1), l) {
      vals := [curr];
    } else {
      if Upward(t) {
        UpwardTerm(t, first, s, i + 1);
      }
      var rest := ReturnsFrom(t, first, s, l, i + 1, k);
      vals := [curr] + rest;
      assert vals[1..] == rest;
    }
  }

  /** The loop returns exactly when some later term of the progression, in 64 bits, is past the last value. */
  lemma ReturnsIff(t: StepType, first: nat, s: nat, l: nat)
    requires t != Unknown && (t == Divide ==> s > 0) && first < TWO_64
    ensures Returns(t, first, s, l) <==> exists k: nat :: k > 0 && Passes(t, Term64(t, first, s, k), l)
  {
    if Returns(t, first, s, l) {
      var vals :| OnTrack(t, first, s, l, vals);
      EmitsTerms(t, first, s, l, vals, |vals| - 1);
      assert Passes(t, Term64(t, first, s, |vals|), l);
    }
    if exists k: nat :: k > 0 && Passes(t, Term64(t, first, s, k), l) {
      var k: nat :| k > 0 && Passes(t, Term64(t, first, s, k), l);
      FirstTerm(t, first, s);
      var vals := ReturnsFrom(t, first, s, l, 0, k);
    }
  }

  // ----- sums

  /** The last value of a sum range, in closed form. */
  lemma {:induction false} LastOfSum(first: nat, s: nat, l: nat)
    requires s > 0 && first <= l
    ensures LastOf(Plus, first, s, l) == first + (l - first) / s * s
    decreases l - first
  {
    LastShift(Plus, first, s, l);
    if first + s <= l {
      LastOfSum(first + s, s, l);
      var q, r := (l - first - s) / s, (l - first - s) % s;
      assert l - first == (q + 1) * s + r;
      DivModUnique(l - first, q + 1, s, r);
      assert (q + 1) * s == q * s + s;
    } else {
      DivModUnique(l - first, 0, s, l - first);
    }
  }

  /** A sum range is evaluated exactly if and only if the first value past it does not wrap. */
  lemma SumStopsIff(first: nat, s: nat, l: nat)
    requires 0 < s < TWO_64 && first <= l < TWO_64
    ensures StopsInTime(Plus, first, s, l) <==> first + ((l - first) / s + 1) * s < TWO_64
  {
    LastOfSum(first, s, l);
    var q, r := (l - first) / s, (l - first) % s;
    assert (q + 1) * s == q * s + s;
    var past := first + q * s + s;
    assert l < past <= l + s;
    if past < TWO_64 {
      SmallMod(past, TWO_64);
    } else {
      DivModUnique(past, 1, TWO_64, past - TWO_64);
    }
  }

  // ----- when the loop is right

  /** The values the loop emits in at most `fuel` rounds, and whether it has returned by then. */
  function Emitted(t: StepType, curr: nat, s: nat, l: nat, fuel: nat): (seq<nat>, bool)
    requires t == Divide ==> s > 0
    decreases fuel
  {
    if fuel == 0 then ([], false)
    else
      match NextValue(t, curr, s, l)
      case None => ([curr], true)
      case Some(n) => var (r, b) := Emitted(t, n, s, l, fuel - 1); ([curr] + r, b)
  }

  /** Returning, seen round by round. */
  lemma {:induction false} EmittedIffOnTrack(t: StepType, curr: nat, s: nat, l: nat, vals: seq<nat>)
    requires t == Divide ==> s > 0
    ensures OnTrack(t, curr, s, l, vals) <==> Emitted(t, curr, s, l, |vals|) == (vals, true)
    decreases vals
  {
    if vals != [] {
      assert vals == [vals[0]] + vals[1..];
      match NextValue(t, curr, s, l)
      case None =>
        assert Emitted(t, curr, s, l, |vals|) == ([curr], true);
        assert vals[1..] == [] && vals[0] == curr <==> vals == [curr];
      case Some(n) =>
        EmittedIffOnTrack(t, n, s, l, vals[1..]);
        var r := Emitted(t, n, s, l, |vals| - 1).0;
        assert ([curr] + r)[1..] == r;
    }
  }

  /** The loop returns with exactly the ideal range if and only if the first value past it survives truncation as such. */
  lemma ExactIff(t: StepType, first: nat, s: nat, l: nat)
    requires Sane(t, first, s, l) && l < TWO_64
    ensures (exists fuel: nat :: Emitted(t, first, s, l, fuel) == (Ideal(t, first, s, l), true))
            <==> StopsInTime(t, first, s, l)
  {
    var ideal := Ideal(t, first, s, l);
    if StopsInTime(t, first, s, l) {
      RightIfStops(t, first, s, l);
      assert Emitted(t, first, s, l, |ideal|) == (ideal, true);
    } else {
      forall fuel: nat ensures Emitted(t, first, s, l, fuel) != (ideal, true) {
        WrongIfRunsOn(t, first, s, l, fuel);
      }
    }
  }

  lemma {:induction false} RightIfStops(t: StepType, curr: nat, s: nat, l: nat)
    requires Sane(t, curr, s, l) && l < TWO_64 && StopsInTime(t, curr, s, l)
    ensures Emitted(t, curr, s, l, |Ideal(t, curr, s, l)|) == (Ideal(t, curr, s, l), true)
    decreases |Ideal(t, curr, s, l)|
  {
    NextIsBeyond(t, curr, s, l);
    LastShift(t, curr, s, l);
    if InRange(t, curr, s, l) {
      RightIfStops(t, Beyond(t, curr, s), s, l);
    }
  }

  lemma {:induction false} WrongIfRunsOn(t: StepType, curr: nat, s: nat, l: nat, fuel: nat)
    requires Sane(t, curr, s, l) && l < TWO_64 && !StopsInTime(t, curr, s, l)
    ensures Emitted(t, curr, s, l, fuel) != (Ideal(t, curr, s, l), true)
    decreases |Ideal(t, curr, s, l)|
  {
    NextIsBeyond(t, curr, s, l);
    LastShift(t, curr, s, l);
    if fuel > 0 {
      if InRange(t, curr, s, l) {
        var n := Beyond(t, curr, s);
        WrongIfRunsOn(t, n, s, l, fuel - 1);
        var (r, b) := Emitted(t, n, s, l, fuel - 1);
        assert ([curr] + r)[1..] == r && ([curr] + Ideal(t, n, s, l))[1..] == Ideal(t, n, s, l);
      } else {
        var n := NextValue(t, curr, s, l).value;
        EmitsOrRunsOn(t, n, s, l, fuel - 1);
      }
    }
  }

  lemma EmitsOrRunsOn(t: StepType, curr: nat, s: nat, l: nat, fuel: nat)
    requires t == Divide ==> s > 0
    ensures var (r, b) := Emitted(t, curr, s, l, fuel); b ==> |r| > 0
  {
  }

  lemma {:induction false} ZeroNotYet(t: StepType, curr: nat, s: nat, l: nat, fuel: nat)
    requires (t == Times && curr == 0) || (t == Divide && l == 0 && s > 0)
    ensures !Emitted(t, curr, s, l, fuel).1
    decreases fuel
  {
    if fuel > 0 {
      var n := NextValue(t, curr, s, l).value;
      ZeroNotYet(t, n, s, l, fuel - 1);
    }
  }

  /** A product range from zero, and a quotient range down to zero, never return. */
  lemma ZeroNeverReturns(t: StepType, first: nat, s: nat, l: nat)
    requires (t == Times && first == 0) || (t == Divide && l == 0 && s > 0)
    ensures !Returns(t, first, s, l)
  {
    forall vals ensures !OnTrack(t, first, s, l, vals) {
      ZeroNotYet(t, first, s, l, |vals|);
      EmittedIffOnTrack(t, first, s, l, vals);
    }
  }

  lemma {:induction false} FullRangeNotYet(t: StepType, curr: nat, s: nat, fuel: nat)
    requires Upward(t)
    ensures !Emitted(t, curr, s, TWO_64 - 1, fuel).1
    decreases fuel
  {
    if fuel > 0 {
      FullRangeNotYet(t, NextValue(t, curr, s, TWO_64 - 1).value, s, fuel - 1);
    }
  }

  /** Up to the greatest 64-bit value no sum and no product is past the last, so the loop never returns. */
  lemma FullRangeNeverReturns(t: StepType, first: nat, s: nat)
    requires Upward(t)
    ensures !Returns(t, first, s, TWO_64 - 1)
  {
    var l := TWO_64 - 1;
    forall vals ensures !OnTrack(t, first, s, l, vals) {
      FullRangeNotYet(t, first, s, |vals|);
      EmittedIffOnTrack(t, first, s, l, vals);
    }
  }

  /** Accepted parameters do not exclude such a range. */
  lemma FullRangeExample()
    ensures var s := 0x8000_0000_0000_0000;
            && Sane(Plus, 1, s, TWO_64 - 1) && !StopsInTime(Plus, 1, s, TWO_64 - 1) && !Returns(Plus, 1, s, TWO_64 - 1)
  {
    var s := 0x8000_0000_0000_0000;
    FullRangeNeverReturns(Plus, 1, s);
    assert Ideal(Plus, 1, s, TWO_64 - 1) == [1, 1 + s];
  }
}
