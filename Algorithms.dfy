/** Adjacent-element reduce and scans: algorithms that combine each element of
    a range with its neighbour, then accumulate the combined values. */
module AdjacentAlgorithms {

  // ---------------------------------------------------------------------------
  // Reference definitions
  // ---------------------------------------------------------------------------

  /** The left fold: f(...f(f(acc, us[0]), us[1])..., us[|us|-1]). */
  function FoldLeft<A, U>(f: (A, U) -> A, acc: A, us: seq<U>): A
    decreases |us|
  {
    if us == [] then acc else FoldLeft(f, f(acc, us[0]), us[1..])
  }

  /** transform(xs[i], xs[i+1]) for every adjacent pair, in order. */
  function AdjacentPairs<T, U>(xs: seq<T>, transform: (T, T) -> U): (us: seq<U>)
    requires |xs| >= 1
    ensures |us| == |xs| - 1
  {
    seq(|xs| - 1, i requires 0 <= i < |xs| - 1 => transform(xs[i], xs[i + 1]))
  }

  lemma {:induction false} FoldLeftSnoc<A, U>(f: (A, U) -> A, acc: A, us: seq<U>, u: U)
    ensures FoldLeft(f, acc, us + [u]) == f(FoldLeft(f, acc, us), u)
    decreases |us|
  {
    if us != [] {
      assert (us + [u])[1..] == us[1..] + [u];
      FoldLeftSnoc(f, f(acc, us[0]), us[1..], u);
    }
  }

  // ---------------------------------------------------------------------------
  // adjacent_reduce
  // ---------------------------------------------------------------------------

  /** std::transform_reduce over [first, first + |first|) and a second range
      starting at `second`, evaluated left to right: the accumulator meets
      transform(first[0], second[0]), then transform(first[1], second[1]), ... */
  function TransformReduce<T, A, U>(first: seq<T>, second: seq<T>, init: A,
                                    reduce: (A, U) -> A, transform: (T, T) -> U): A
    requires |first| <= |second|
    decreases |first|
  {
    if first == [] then init
    else TransformReduce(first[1..], second[1..], reduce(init, transform(first[0], second[0])), reduce, transform)
  }

  /** adjacent_reduce(begin, end, accInit, reduce, transform): transform_reduce of
      [begin, end - 1) against [begin + 1, end). The `--end` needs a non-empty range. */
  function AdjacentReduce<T, A, U>(xs: seq<T>, accInit: A, reduce: (A, U) -> A, transform: (T, T) -> U): A
    requires |xs| >= 1
  {
    TransformReduce(xs[..|xs| - 1], xs[1..], accInit, reduce, transform)
  }

  lemma {:induction false} TransformReduceIsFold<T, A, U>(first: seq<T>, second: seq<T>, init: A,
                                                          reduce: (A, U) -> A, transform: (T, T) -> U)
    requires |first| <= |second|
    ensures TransformReduce(first, second, init, reduce, transform)
         == FoldLeft(reduce, init, seq(|first|, i requires 0 <= i < |first| => transform(first[i], second[i])))
    decreases |first|
  {
    var us := seq(|first|, i requires 0 <= i < |first| => transform(first[i], second[i]));
    if first != [] {
      TransformReduceIsFold(first[1..], second[1..], reduce(init, transform(first[0], second[0])), reduce, transform);
      assert us[1..] == seq(|first| - 1, i requires 0 <= i < |first| - 1 => transform(first[1..][i], second[1..][i]));
    }
  }

  /** adjacent_reduce is the left fold of `reduce`, from accInit, over
      transform(xs[i], xs[i+1]) for i = 0 .. |xs| - 2. */
  lemma AdjacentReduceIsFold<T, A, U>(xs: seq<T>, accInit: A, reduce: (A, U) -> A, transform: (T, T) -> U)
    requires |xs| >= 1
    ensures AdjacentReduce(xs, accInit, reduce, transform) == FoldLeft(reduce, accInit, AdjacentPairs(xs, transform))
  {
    var first, second := xs[..|xs| - 1], xs[1..];
    TransformReduceIsFold(first, second, accInit, reduce, transform);
    assert seq(|first|, i requires 0 <= i < |first| => transform(first[i], second[i])) == AdjacentPairs(xs, transform);
  }

  /** On a one-element range [begin, end - 1) is empty: accInit comes back unchanged. */
  lemma AdjacentReduceSingle<T, A, U>(x: T, accInit: A, reduce: (A, U) -> A, transform: (T, T) -> U)
    ensures AdjacentReduce([x], accInit, reduce, transform) == accInit
  {
  }

  /** Appending an element folds one more pair, (last, new), into the result. */
  lemma AdjacentReduceSnoc<T, A, U>(xs: seq<T>, y: T, accInit: A, reduce: (A, U) -> A, transform: (T, T) -> U)
    requires |xs| >= 1
    ensures AdjacentReduce(xs + [y], accInit, reduce, transform)
         == reduce(AdjacentReduce(xs, accInit, reduce, transform), transform(xs[|xs| - 1], y))
  {
    AdjacentReduceIsFold(xs, accInit, reduce, transform);
    AdjacentReduceIsFold(xs + [y], accInit, reduce, transform);
    assert AdjacentPairs(xs + [y], transform) == AdjacentPairs(xs, transform) + [transform(xs[|xs| - 1], y)];
    FoldLeftSnoc(reduce, accInit, AdjacentPairs(xs, transform), transform(xs[|xs| - 1], y));
  }

  // ---------------------------------------------------------------------------
  // adjacent_inclusive_scan
  // ---------------------------------------------------------------------------

  /** What adjacent_inclusive_scan writes for input xs: the first element, then
      each previous output combined with transformOp(current, previous). */
  function InclusiveScan<T, U>(xs: seq<T>, accOp: (T, U) -> T, transformOp: (T, T) -> U): (r: seq<T>)
    ensures |r| == |xs|
    decreases |xs|
  {
    if |xs| <= 1 then xs
    else
      var p := InclusiveScan(xs[..|xs| - 1], accOp, transformOp);
      p + [accOp(p[|p| - 1], transformOp(xs[|xs| - 1], xs[|xs| - 2]))]
  }

  /** The scan of a prefix is the prefix of the scan. */
  lemma {:induction false} InclusiveScanPrefix<T, U>(xs: seq<T>, k: nat, accOp: (T, U) -> T, transformOp: (T, T) -> U)
    requires k <= |xs|
    ensures InclusiveScan(xs[..k], accOp, transformOp) == InclusiveScan(xs, accOp, transformOp)[..k]
    decreases |xs|
  {
    if k < |xs| {
      var init := xs[..|xs| - 1];
      assert init[..k] == xs[..k];
      InclusiveScanPrefix(init, k, accOp, transformOp);
    } else {
      assert xs[..k] == xs;
    }
  }

  /** Element by element: out[0] = xs[0] and out[i] = accOp(out[i-1], transformOp(xs[i], xs[i-1])). */
  lemma InclusiveScanAt<T, U>(xs: seq<T>, accOp: (T, U) -> T, transformOp: (T, T) -> U)
    ensures var r := InclusiveScan(xs, accOp, transformOp);
      && (|xs| > 0 ==> r[0] == xs[0])
      && forall i :: 1 <= i < |xs| ==> r[i] == accOp(r[i - 1], transformOp(xs[i], xs[i - 1]))
  {
    var r := InclusiveScan(xs, accOp, transformOp);
    if |xs| > 0 {
      InclusiveScanPrefix(xs, 1, accOp, transformOp);
      assert xs[..1] == [xs[0]];
    }
    forall i | 1 <= i < |xs|
      ensures r[i] == accOp(r[i - 1], transformOp(xs[i], xs[i - 1]))
    {
      InclusiveScanStep(xs, i, accOp, transformOp);
    }
  }

  lemma {:induction false} InclusiveScanStep<T, U>(xs: seq<T>, i: nat, accOp: (T, U) -> T, transformOp: (T, T) -> U)
    requires 1 <= i < |xs|
    ensures var r := InclusiveScan(xs, accOp, transformOp);
      r[i] == accOp(r[i - 1], transformOp(xs[i], xs[i - 1]))
    decreases |xs|
  {
    if i < |xs| - 1 {
      var init := xs[..|xs| - 1];
      InclusiveScanStep(init, i, accOp, transformOp);
      assert init[i] == xs[i] && init[i - 1] == xs[i - 1];
    }
  }

  /** adjacent_inclusive_scan(begin, end, out, accOp, transformOp), with the input
      range given as xs and the output iterator as position `out` of `buffer`.
      Returns the position one past the last element written. */
  method AdjacentInclusiveScan<T, U>(xs: seq<T>, buffer: array<T>, out: nat,
                                     accOp: (T, U) -> T, transformOp: (T, T) -> U) returns (outEnd: nat)
    requires out + |xs| <= buffer.Length
    modifies buffer
    ensures outEnd == out + |xs|
    ensures buffer[out..outEnd] == InclusiveScan(xs, accOp, transformOp)
    ensures forall j :: 0 <= j < buffer.Length && !(out <= j < outEnd) ==> buffer[j] == old(buffer[j])
  {
    ghost var r := InclusiveScan(xs, accOp, transformOp);
    outEnd := out;
    if xs != [] {
      InclusiveScanAt(xs, accOp, transformOp);
      var prev := xs[0];
      var acc := xs[0];
      buffer[outEnd] := prev;
      var begin := 1;
      while begin != |xs|
        invariant 1 <= begin <= |xs|
        invariant outEnd == out + begin - 1
        invariant prev == xs[begin - 1]
        invariant forall j :: 0 <= j < begin ==> buffer[out + j] == r[j]
        invariant acc == r[begin - 1]
        invariant forall j :: 0 <= j < buffer.Length && !(out <= j < out + |xs|) ==> buffer[j] == old(buffer[j])
      {
        acc := accOp(acc, transformOp(xs[begin], prev));
        outEnd := outEnd + 1;
        buffer[outEnd] := acc;
        prev := xs[begin];
        begin := begin + 1;
      }
      outEnd := outEnd + 1;
      assert forall j :: 0 <= j < |xs| ==> buffer[out..outEnd][j] == r[j];
    }
  }

  // ---------------------------------------------------------------------------
  // adjacent_exclusive_scan
  // ---------------------------------------------------------------------------

  /** What adjacent_exclusive_scan writes for input xs: accInit, then
      accOp(accInit, xs[0]), then each previous output combined with
      transformOp(xs[i], xs[i-1]) for i = 1 .. |xs| - 2. A one-element input is
      outside the algorithm's contract (after `--end` the loop would run past it). */
  function ExclusiveScan<T>(xs: seq<T>, accInit: T, accOp: (T, T) -> T, transformOp: (T, T) -> T): (r: seq<T>)
    requires |xs| != 1
    ensures |r| == |xs|
    decreases |xs|
  {
    if xs == [] then []
    else if |xs| == 2 then [accInit, accOp(accInit, xs[0])]
    else
      var p := ExclusiveScan(xs[..|xs| - 1], accInit, accOp, transformOp);
      p + [accOp(p[|p| - 1], transformOp(xs[|xs| - 2], xs[|xs| - 3]))]
  }

  lemma {:induction false} ExclusiveScanPrefix<T>(xs: seq<T>, k: nat, accInit: T, accOp: (T, T) -> T, transformOp: (T, T) -> T)
    requires 2 <= k <= |xs|
    ensures ExclusiveScan(xs[..k], accInit, accOp, transformOp) == ExclusiveScan(xs, accInit, accOp, transformOp)[..k]
    decreases |xs|
  {
    if k < |xs| {
      var init := xs[..|xs| - 1];
      assert init[..k] == xs[..k];
      ExclusiveScanPrefix(init, k, accInit, accOp, transformOp);
    } else {
      assert xs[..k] == xs;
    }
  }

  /** Element by element: out[0] = accInit, out[1] = accOp(accInit, xs[0]) and
      out[i+1] = accOp(out[i], transformOp(xs[i], xs[i-1])) for 1 <= i <= |xs| - 2. */
  lemma ExclusiveScanAt<T>(xs: seq<T>, accInit: T, accOp: (T, T) -> T, transformOp: (T, T) -> T)
    requires |xs| >= 2
    ensures var r := ExclusiveScan(xs, accInit, accOp, transformOp);
      && r[0] == accInit
      && r[1] == accOp(accInit, xs[0])
      && forall i :: 1 <= i <= |xs| - 2 ==> r[i + 1] == accOp(r[i], transformOp(xs[i], xs[i - 1]))
  {
    var r := ExclusiveScan(xs, accInit, accOp, transformOp);
    ExclusiveScanPrefix(xs, 2, accInit, accOp, transformOp);
    assert xs[..2] == [xs[0], xs[1]];
    forall i | 1 <= i <= |xs| - 2
      ensures r[i + 1] == accOp(r[i], transformOp(xs[i], xs[i - 1]))
    {
      ExclusiveScanStep(xs, i, accInit, accOp, transformOp);
    }
  }

  lemma {:induction false} ExclusiveScanStep<T>(xs: seq<T>, i: nat, accInit: T, accOp: (T, T) -> T, transformOp: (T, T) -> T)
    requires 1 <= i <= |xs| - 2
    ensures var r := ExclusiveScan(xs, accInit, accOp, transformOp);
      r[i + 1] == accOp(r[i], transformOp(xs[i], xs[i - 1]))
    decreases |xs|
  {
    if i < |xs| - 2 {
      var init := xs[..|xs| - 1];
      ExclusiveScanStep(init, i, accInit, accOp, transformOp);
      assert init[i] == xs[i] && init[i - 1] == xs[i - 1];
    }
  }

  /** The last input element is never read: replacing it changes nothing. */
  lemma ExclusiveScanIgnoresLast<T>(xs: seq<T>, y: T, accInit: T, accOp: (T, T) -> T, transformOp: (T, T) -> T)
    requires |xs| >= 2
    ensures ExclusiveScan(xs[..|xs| - 1] + [y], accInit, accOp, transformOp) == ExclusiveScan(xs, accInit, accOp, transformOp)
  {
    var ys := xs[..|xs| - 1] + [y];
    assert ys[..|ys| - 1] == xs[..|xs| - 1];
    if |xs| > 2 {
      assert ys[|ys| - 2] == xs[|xs| - 2] && ys[|ys| - 3] == xs[|xs| - 3];
    }
  }

  /** When accInit is a left identity of accOp for xs[0] (0 for +), the exclusive
      scan is the inclusive scan shifted right by one, after the initial value:
      exclusive out[i+1] == inclusive out[i] for 0 <= i <= |xs| - 2. */
  lemma {:induction false} ExclusiveIsShiftedInclusive<T>(xs: seq<T>, accInit: T, accOp: (T, T) -> T, transformOp: (T, T) -> T)
    requires |xs| >= 2
    requires accOp(accInit, xs[0]) == xs[0]
    ensures ExclusiveScan(xs, accInit, accOp, transformOp) == [accInit] + InclusiveScan(xs[..|xs| - 1], accOp, transformOp)
    decreases |xs|
  {
    if |xs| > 2 {
      var init := xs[..|xs| - 1];
      ExclusiveIsShiftedInclusive(init, accInit, accOp, transformOp);
      assert init[..|init| - 1] == xs[..|xs| - 2];
    } else {
      assert xs[..1] == [xs[0]];
    }
  }

  /** The source's own example: with + and initial value 0 the exclusive scan
      is 0 followed by the inclusive scan of all but the last element. */
  lemma ExclusiveIsShiftedInclusiveSum(xs: seq<int>, transformOp: (int, int) -> int)
    requires |xs| >= 2
    ensures var plus := (a: int, b: int) => a + b;
      forall i :: 0 <= i <= |xs| - 2 ==>
        ExclusiveScan(xs, 0, plus, transformOp)[i + 1] == InclusiveScan(xs, plus, transformOp)[i]
  {
    var plus := (a: int, b: int) => a + b;
    ExclusiveIsShiftedInclusive(xs, 0, plus, transformOp);
    InclusiveScanPrefix(xs, |xs| - 1, plus, transformOp);
  }

  /** adjacent_exclusive_scan(begin, end, out, accInit, accOp, transformOp), with the
      input range as xs and the output iterator as position `out` of `buffer`.
      Returns the position one past the last element written. */
  method AdjacentExclusiveScan<T>(xs: seq<T>, buffer: array<T>, out: nat, accInit: T,
                                  accOp: (T, T) -> T, transformOp: (T, T) -> T) returns (outEnd: nat)
    requires |xs| != 1
    requires out + |xs| <= buffer.Length
    modifies buffer
    ensures outEnd == out + |xs|
    ensures buffer[out..outEnd] == ExclusiveScan(xs, accInit, accOp, transformOp)
    ensures forall j :: 0 <= j < buffer.Length && !(out <= j < outEnd) ==> buffer[j] == old(buffer[j])
  {
    ghost var r := ExclusiveScan(xs, accInit, accOp, transformOp);
    outEnd := out;
    if xs != [] {
      ExclusiveScanAt(xs, accInit, accOp, transformOp);
      var prev := xs[0];
      var acc := accInit;
      buffer[outEnd] := acc;
      acc := accOp(acc, xs[0]);
      outEnd := outEnd + 1;
      buffer[outEnd] := acc;
      var end := |xs| - 1;
      var begin := 1;
      while begin != end
        invariant 1 <= begin <= end
        invariant outEnd == out + begin
        invariant prev == xs[begin - 1]
        invariant forall j :: 0 <= j <= begin ==> buffer[out + j] == r[j]
        invariant acc == r[begin]
        invariant forall j :: 0 <= j < buffer.Length && !(out <= j < out + |xs|) ==> buffer[j] == old(buffer[j])
      {
        acc := accOp(acc, transformOp(xs[begin], prev));
        outEnd := outEnd + 1;
        buffer[outEnd] := acc;
        prev := xs[begin];
        begin := begin + 1;
      }
      outEnd := outEnd + 1;
      assert forall j :: 0 <= j < |xs| ==> buffer[out..outEnd][j] == r[j];
    }
  }
}
