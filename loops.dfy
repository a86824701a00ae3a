/**
 * The two loop shapes the scripts share: a list comprehension with a filter,
 * and a loop whose passes each either emit a value, emit nothing, or raise an
 * exception that ends the loop.
 */
module Loops {
  import opened Wrappers

  predicate StrictlyIncreasing(pos: seq<nat>) {
    forall a, b :: 0 <= a < b < |pos| ==> pos[a] < pos[b]
  }

  // ---------------------------------------------------------------------------
  // [x for x in xs if p(x)]
  // ---------------------------------------------------------------------------

  /** `[x for x in xs if p(x)]`, built the way a loop builds it: element by element. */
  function Filter<T>(p: T -> bool, xs: seq<T>): seq<T>
    decreases |xs|
  {
    if xs == [] then []
    else
      var init := Filter(p, xs[..|xs| - 1]);
      if p(xs[|xs| - 1]) then init + [xs[|xs| - 1]] else init
  }

  /** The filtered list is at most as long as the list, and each of its elements passes. */
  lemma {:induction false} FilterKeeps<T>(p: T -> bool, xs: seq<T>)
    ensures |Filter(p, xs)| <= |xs|
    ensures forall k :: 0 <= k < |Filter(p, xs)| ==> p(Filter(p, xs)[k])
    decreases |xs|
  {
    if xs != [] {
      FilterKeeps(p, xs[..|xs| - 1]);
    }
  }

  /** The filtered list is the subsequence of the passing elements: element `k`
      is `xs[pos[k]]`, the positions increase, and every passing position is
      among them. */
  lemma {:induction false} FilterInOrder<T>(p: T -> bool, xs: seq<T>) returns (pos: seq<nat>)
    ensures var r := Filter(p, xs);
            && |pos| == |r| && StrictlyIncreasing(pos)
            && (forall k :: 0 <= k < |pos| ==> pos[k] < |xs| && xs[pos[k]] == r[k])
            && (forall i :: 0 <= i < |xs| && p(xs[i]) ==> i in pos)
    decreases |xs|
  {
    if xs == [] {
      pos := [];
    } else {
      var n := |xs| - 1;
      var init := xs[..n];
      var prev := FilterInOrder(p, init);
      assert forall i :: 0 <= i < n ==> init[i] == xs[i];
      var r := Filter(p, init);
      if p(xs[n]) {
        pos := prev + [n];
        assert Filter(p, xs) == r + [xs[n]];
      } else {
        pos := prev;
        assert Filter(p, xs) == r;
      }
    }
  }

  /** Filtering a concatenation filters each part. */
  lemma {:induction false} FilterAppend<T>(p: T -> bool, xs: seq<T>, ys: seq<T>)
    ensures Filter(p, xs + ys) == Filter(p, xs) + Filter(p, ys)
    decreases |ys|
  {
    if ys == [] {
      assert xs + ys == xs;
    } else {
      var n := |ys| - 1;
      assert (xs + ys)[..|xs + ys| - 1] == xs + ys[..n];
      FilterAppend(p, xs, ys[..n]);
    }
  }

  // ---------------------------------------------------------------------------
  // for x in xs: out.extend(f(x))
  // ---------------------------------------------------------------------------

  /** The list a loop builds by extending it with `f(x)` for every `x` of `xs` in turn. */
  function Concat<T, U>(f: T -> seq<U>, xs: seq<T>): seq<U>
    decreases |xs|
  {
    if xs == [] then [] else Concat(f, xs[..|xs| - 1]) + f(xs[|xs| - 1])
  }

  /** Extending over a concatenation extends over each part in turn. */
  lemma {:induction false} ConcatAppend<T, U>(f: T -> seq<U>, xs: seq<T>, ys: seq<T>)
    ensures Concat(f, xs + ys) == Concat(f, xs) + Concat(f, ys)
    decreases |ys|
  {
    if ys == [] {
      assert xs + ys == xs;
    } else {
      var n := |ys| - 1;
      assert (xs + ys)[..|xs + ys| - 1] == xs + ys[..n];
      assert (xs + ys)[|xs + ys| - 1] == ys[n];
      ConcatAppend(f, xs, ys[..n]);
    }
  }

  /** When every part holds only elements with property `p`, so does the whole. */
  lemma {:induction false} ConcatEvery<T, U>(f: T -> seq<U>, xs: seq<T>, p: U -> bool)
    requires forall i, k :: 0 <= i < |xs| && 0 <= k < |f(xs[i])| ==> p(f(xs[i])[k])
    ensures forall k :: 0 <= k < |Concat(f, xs)| ==> p(Concat(f, xs)[k])
    decreases |xs|
  {
    if xs != [] {
      var n := |xs| - 1;
      assert forall i :: 0 <= i < n ==> xs[..n][i] == xs[i];
      ConcatEvery(f, xs[..n], p);
      var prev := Concat(f, xs[..n]);
      forall k | 0 <= k < |Concat(f, xs)| ensures p(Concat(f, xs)[k]) {
        if k >= |prev| {
          assert Concat(f, xs)[k] == f(xs[n])[k - |prev|];
        }
      }
    }
  }

  // ---------------------------------------------------------------------------
  // A loop whose passes emit, skip or raise
  // ---------------------------------------------------------------------------

  /** A run of the loop over the outcomes of its passes in order: the emitted
      values, or the first exception (which ends the loop). */
  function Gather<R, E>(outs: seq<Result<Option<R>, E>>): Result<seq<R>, E>
    decreases |outs|
  {
    if outs == [] then Success([])
    else match Gather(outs[..|outs| - 1])
      case Failure(e) => Failure(e)
      case Success(prev) =>
        match outs[|outs| - 1]
        case Failure(e) => Failure(e)
        case Success(None) => Success(prev)
        case Success(Some(x)) => Success(prev + [x])
  }

  /** Once a prefix raised, the whole run raised the same exception. */
  lemma {:induction false} GatherFailureSticks<R, E>(outs: seq<Result<Option<R>, E>>, n: nat)
    requires n <= |outs| && Gather(outs[..n]).Failure?
    ensures Gather(outs) == Gather(outs[..n])
    decreases |outs| - n
  {
    if n < |outs| {
      assert outs[..n + 1][..n] == outs[..n];
      GatherFailureSticks(outs, n + 1);
    } else {
      assert outs[..n] == outs;
    }
  }

  /** The first pass that raises decides the outcome of the whole run. */
  lemma GatherFailsAt<R, E>(outs: seq<Result<Option<R>, E>>, i: nat)
    requires i < |outs| && Gather(outs[..i]).Success? && outs[i].Failure?
    ensures Gather(outs) == Failure(outs[i].error)
  {
    assert outs[..i + 1][..i] == outs[..i];
    GatherFailureSticks(outs, i + 1);
  }

  /** The run raises exactly when some pass raised, and then it raises what the
      first such pass raised. */
  lemma {:induction false} GatherFailsIff<R, E>(outs: seq<Result<Option<R>, E>>)
    ensures Gather(outs).Failure? <==> exists i :: 0 <= i < |outs| && outs[i].Failure?
    ensures Gather(outs).Failure? ==>
              exists i :: 0 <= i < |outs| && outs[i].Failure? && Gather(outs).error == outs[i].error
                          && forall j :: 0 <= j < i ==> outs[j].Success?
    decreases |outs|
  {
    if outs != [] {
      var n := |outs| - 1;
      var init := outs[..n];
      GatherFailsIff(init);
      assert forall i :: 0 <= i < n ==> init[i] == outs[i];
      if Gather(init).Success? && outs[n].Failure? {
        assert Gather(outs).error == outs[n].error;
        assert forall j :: 0 <= j < n ==> outs[j].Success?;
      }
    }
  }

  /** The values of a run that did not raise are those of the emitting passes,
      in order: value `k` comes from pass `pos[k]`, the positions increase, and
      every emitting pass is among them. */
  lemma {:induction false} GatherInOrder<R, E>(outs: seq<Result<Option<R>, E>>) returns (pos: seq<nat>)
    requires Gather(outs).Success?
    ensures var vals := Gather(outs).value;
            && |pos| == |vals| <= |outs| && StrictlyIncreasing(pos)
            && (forall k :: 0 <= k < |pos| ==> pos[k] < |outs| && outs[pos[k]] == Success(Some(vals[k])))
            && (forall i :: 0 <= i < |outs| && outs[i].Success? && outs[i].value.Some? ==> i in pos)
    decreases |outs|
  {
    if outs == [] {
      pos := [];
    } else {
      var n := |outs| - 1;
      var init := outs[..n];
      var prev := GatherInOrder(init);
      assert forall i :: 0 <= i < n ==> init[i] == outs[i];
      var vals := Gather(init).value;
      if outs[n].value.Some? {
        pos := prev + [n];
        assert Gather(outs).value == vals + [outs[n].value.value];
      } else {
        pos := prev;
        assert Gather(outs).value == vals;
      }
    }
  }

  // ---------------------------------------------------------------------------
  // A loop whose passes each extend the result or raise
  // ---------------------------------------------------------------------------

  /** A run of the loop over the outcomes of its passes: the concatenation of
      the blocks they add, or the first exception (which ends the loop). */
  function Flatten<U, E>(outs: seq<Result<seq<U>, E>>): Result<seq<U>, E>
    decreases |outs|
  {
    if outs == [] then Success([])
    else match Flatten(outs[..|outs| - 1])
      case Failure(e) => Failure(e)
      case Success(prev) =>
        match outs[|outs| - 1]
        case Failure(e) => Failure(e)
        case Success(block) => Success(prev + block)
  }

  /** Once a prefix raised, the whole run raised the same exception. */
  lemma {:induction false} FlattenFailureSticks<U, E>(outs: seq<Result<seq<U>, E>>, n: nat)
    requires n <= |outs| && Flatten(outs[..n]).Failure?
    ensures Flatten(outs) == Flatten(outs[..n])
    decreases |outs| - n
  {
    if n < |outs| {
      assert outs[..n + 1][..n] == outs[..n];
      FlattenFailureSticks(outs, n + 1);
    } else {
      assert outs[..n] == outs;
    }
  }

  /** A pass that adds a block after a run that has not raised extends the run by that block. */
  lemma FlattenExtends<U, E>(outs: seq<Result<seq<U>, E>>, i: nat)
    requires i < |outs| && Flatten(outs[..i]).Success? && outs[i].Success?
    ensures Flatten(outs[..i + 1]) == Success(Flatten(outs[..i]).value + outs[i].value)
  {
    assert outs[..i + 1][..i] == outs[..i];
  }

  /** The first pass that raises decides the outcome of the whole run. */
  lemma FlattenFailsAt<U, E>(outs: seq<Result<seq<U>, E>>, i: nat)
    requires i < |outs| && Flatten(outs[..i]).Success? && outs[i].Failure?
    ensures Flatten(outs[..i + 1]) == Failure(outs[i].error)
    ensures Flatten(outs) == Failure(outs[i].error)
  {
    assert outs[..i + 1][..i] == outs[..i];
    FlattenFailureSticks(outs, i + 1);
  }

  /** `k * t`, by repeated addition. */
  function Times(k: nat, t: nat): nat {
    if t == 0 then 0 else Times(k, t - 1) + k
  }

  lemma {:induction false} TimesIsProduct(k: nat, t: nat)
    ensures Times(k, t) == k * t
  {
    if t > 0 {
      TimesIsProduct(k, t - 1);
      assert k * t == k * (t - 1) + k;
    }
  }

  /** A run that did not raise went through every prefix without raising,
      and what a prefix built is the start of what the run built. */
  lemma {:induction false} FlattenPrefix<U, E>(outs: seq<Result<seq<U>, E>>, m: nat)
    requires m <= |outs| && Flatten(outs).Success?
    ensures Flatten(outs[..m]).Success? && Flatten(outs[..m]).value <= Flatten(outs).value
    decreases |outs|
  {
    if m == |outs| {
      assert outs[..m] == outs;
    } else {
      var n := |outs| - 1;
      assert outs[..n][..m] == outs[..m];
      FlattenPrefix(outs[..n], m);
    }
  }

  /** When every pass adds `k` elements, a run that did not raise went through
      every pass and holds `k` elements per pass. */
  lemma {:induction false} FlattenLength<U, E>(outs: seq<Result<seq<U>, E>>, k: nat)
    requires Flatten(outs).Success?
    requires forall t :: 0 <= t < |outs| && outs[t].Success? ==> |outs[t].value| == k
    ensures forall t :: 0 <= t < |outs| ==> outs[t].Success?
    ensures |Flatten(outs).value| == Times(k, |outs|)
    decreases |outs|
  {
    if outs != [] {
      var n := |outs| - 1;
      assert forall t :: 0 <= t < n ==> outs[..n][t] == outs[t];
      FlattenLength(outs[..n], k);
    }
  }

  /** ... and pass `t`'s block sits at offset `k * t`. */
  lemma FlattenBlock<U, E>(outs: seq<Result<seq<U>, E>>, k: nat, t: nat)
    requires t < |outs| && Flatten(outs).Success?
    requires forall t :: 0 <= t < |outs| && outs[t].Success? ==> |outs[t].value| == k
    ensures outs[t].Success? && Times(k, t + 1) <= |Flatten(outs).value|
    ensures Flatten(outs).value[Times(k, t)..Times(k, t + 1)] == outs[t].value
  {
    var all := Flatten(outs).value;
    FlattenPrefix(outs, t + 1);
    var upto := outs[..t + 1];
    assert upto[..t] == outs[..t];
    assert upto[t] == outs[t];
    FlattenLength(upto, k);
    FlattenLength(outs[..t], k);
    assert Flatten(upto).value == Flatten(outs[..t]).value + outs[t].value;
    assert all[..Times(k, t + 1)] == Flatten(upto).value;
  }
}
