/** Processing a sequence item by item, where each item appends zero or more
    outputs: the shape of the span loop, which appends at most one record
    per span. */
module Runs {

  /** The outputs of `f` on `xs`, item after item. */
  function Concat<T, R>(f: T -> seq<R>, xs: seq<T>): seq<R> {
    if |xs| == 0 then [] else Concat(f, xs[..|xs| - 1]) + f(xs[|xs| - 1])
  }

  /** The indices of the items on which `f` produced something, in order. */
  function Hits<T, R>(f: T -> seq<R>, xs: seq<T>): seq<nat> {
    if |xs| == 0 then []
    else
      var n := |xs| - 1;
      Hits(f, xs[..n]) + (if f(xs[n]) != [] then [n] else [])
  }

  /** `idx` lists distinct indices below `n` in increasing order. */
  ghost predicate StrictlyIncreasingBelow(idx: seq<nat>, n: nat) {
    && (forall j :: 0 <= j < |idx| ==> idx[j] < n)
    && (forall j, k :: 0 <= j < k < |idx| ==> idx[j] < idx[k])
  }

  lemma {:induction false} ConcatAppend<T, R>(f: T -> seq<R>, a: seq<T>, b: seq<T>)
    ensures Concat(f, a + b) == Concat(f, a) + Concat(f, b)
    decreases |b|
  {
    if |b| == 0 {
      assert a + b == a;
    } else {
      var b', last := b[..|b| - 1], b[|b| - 1];
      assert (a + b)[..|a + b| - 1] == a + b';
      assert (a + b)[|a + b| - 1] == last;
      ConcatAppend(f, a, b');
    }
  }

  lemma {:induction false} HitsIncreasing<T, R>(f: T -> seq<R>, xs: seq<T>)
    ensures StrictlyIncreasingBelow(Hits(f, xs), |xs|)
    decreases |xs|
  {
    if |xs| > 0 {
      var n := |xs| - 1;
      var before := Hits(f, xs[..n]);
      var here: seq<nat> := if f(xs[n]) != [] then [n] else [];
      assert Hits(f, xs) == before + here;
      HitsIncreasing(f, xs[..n]);
      forall j, k | 0 <= j < k < |before + here|
        ensures (before + here)[j] < (before + here)[k]
      {
        if k >= |before| {
          assert (before + here)[k] == n;
        }
      }
    }
  }

  /** An index is listed exactly when its item produced output. */
  lemma {:induction false} HitsExactly<T, R>(f: T -> seq<R>, xs: seq<T>)
    ensures forall i :: 0 <= i < |xs| ==> (i in Hits(f, xs) <==> f(xs[i]) != [])
    decreases |xs|
  {
    if |xs| > 0 {
      var n := |xs| - 1;
      var init := xs[..n];
      var before := Hits(f, init);
      var here: seq<nat> := if f(xs[n]) != [] then [n] else [];
      assert Hits(f, xs) == before + here;
      HitsExactly(f, init);
      HitsIncreasing(f, init);
      forall i | 0 <= i < |xs|
        ensures i in before + here <==> f(xs[i]) != []
      {
        if i < n {
          assert init[i] == xs[i];
          assert i in before + here <==> i in before;
        } else {
          assert n !in before;
        }
      }
    }
  }

  /** When every item produces at most one output, output `j` is exactly
      what item `Hits[j]` produced. */
  lemma {:induction false} ConcatAtHits<T, R>(f: T -> seq<R>, xs: seq<T>)
    requires forall x :: |f(x)| <= 1
    ensures |Concat(f, xs)| == |Hits(f, xs)|
    ensures var out, idx := Concat(f, xs), Hits(f, xs);
      forall j :: 0 <= j < |idx| ==> idx[j] < |xs| && [out[j]] == f(xs[idx[j]])
    decreases |xs|
  {
    if |xs| > 0 {
      var n := |xs| - 1;
      var init := xs[..n];
      var produced := f(xs[n]);
      var here: seq<nat> := if produced != [] then [n] else [];
      var out, idx := Concat(f, init), Hits(f, init);
      assert Concat(f, xs) == out + produced;
      assert Hits(f, xs) == idx + here;
      ConcatAtHits(f, init);
      forall j | 0 <= j < |idx + here|
        ensures (idx + here)[j] < |xs| && [(out + produced)[j]] == f(xs[(idx + here)[j]])
      {
        if j < |idx| {
          assert init[idx[j]] == xs[idx[j]];
        }
      }
    }
  }

  /** When every item produces at most one output, there are no more
      outputs than items. */
  lemma {:induction false} ConcatShort<T, R>(f: T -> seq<R>, xs: seq<T>)
    requires forall x :: |f(x)| <= 1
    ensures |Concat(f, xs)| <= |xs|
    decreases |xs|
  {
    if |xs| > 0 {
      ConcatShort(f, xs[..|xs| - 1]);
    }
  }

  /** Processing one more item appends exactly that item's outputs. */
  lemma ConcatSnoc<T, R>(f: T -> seq<R>, xs: seq<T>, x: T)
    ensures Concat(f, xs + [x]) == Concat(f, xs) + f(x)
  {
    assert (xs + [x])[..|xs|] == xs;
  }

  /** An output occurs exactly when some item produced it. */
  lemma {:induction false} InConcat<T, R>(f: T -> seq<R>, xs: seq<T>, y: R)
    ensures y in Concat(f, xs) <==> exists i :: 0 <= i < |xs| && y in f(xs[i])
    decreases |xs|
  {
    if |xs| > 0 {
      var n := |xs| - 1;
      var init := xs[..n];
      InConcat(f, init, y);
      assert Concat(f, xs) == Concat(f, init) + f(xs[n]);
      if y in Concat(f, init) {
        var i :| 0 <= i < |init| && y in f(init[i]);
        assert xs[i] == init[i];
      }
      if exists i :: 0 <= i < |xs| && y in f(xs[i]) {
        var i :| 0 <= i < |xs| && y in f(xs[i]);
        if i < n {
          assert init[i] == xs[i];
        }
      }
    }
  }
}
