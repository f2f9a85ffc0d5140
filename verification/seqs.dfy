/** Sequence combinators used by the git-output helpers. */
module Seqs {

  import opened Wrappers

  /** The values `f` yields over `xs`, in order, skipping the elements it maps to `None`. */
  function FilterMap<T, U>(f: T -> Option<U>, xs: seq<T>): (ys: seq<U>)
    ensures |ys| <= |xs|
  {
    if |xs| == 0 then []
    else
      var rest := FilterMap(f, xs[1..]);
      if f(xs[0]).Some? then [f(xs[0]).value] + rest else rest
  }

  /** `FilterMap` distributes over concatenation, so it keeps the order of its input. */
  lemma {:induction false} FilterMapAppend<T, U>(f: T -> Option<U>, a: seq<T>, b: seq<T>)
    ensures FilterMap(f, a + b) == FilterMap(f, a) + FilterMap(f, b)
    decreases |a|
  {
    if |a| > 0 {
      assert (a + b)[1..] == a[1..] + b;
      FilterMapAppend(f, a[1..], b);
    } else {
      assert a + b == b;
    }
  }

  lemma FilterMapSingle<T, U>(f: T -> Option<U>, x: T)
    ensures FilterMap(f, [x]) == if f(x).Some? then [f(x).value] else []
  {
    assert [x][1..] == [];
  }

  /** Every value `f` yields for some element is in the output. */
  lemma {:induction false} FilterMapComplete<T, U>(f: T -> Option<U>, xs: seq<T>, i: nat)
    requires i < |xs| && f(xs[i]).Some?
    ensures f(xs[i]).value in FilterMap(f, xs)
    decreases i
  {
    if i > 0 {
      assert xs[1..][i - 1] == xs[i];
      FilterMapComplete(f, xs[1..], i - 1);
    }
  }

  /** Every output value comes from some element. */
  lemma {:induction false} FilterMapSound<T, U>(f: T -> Option<U>, xs: seq<T>, y: U) returns (i: nat)
    requires y in FilterMap(f, xs)
    ensures i < |xs| && f(xs[i]) == Some(y)
    decreases |xs|
  {
    if f(xs[0]) == Some(y) {
      i := 0;
    } else {
      var k := FilterMapSound(f, xs[1..], y);
      assert xs[1..][k] == xs[k + 1];
      i := k + 1;
    }
  }

  /** A value is in the output exactly when `f` yields it for some element. */
  lemma FilterMapMembership<T, U>(f: T -> Option<U>, xs: seq<T>, y: U)
    ensures y in FilterMap(f, xs) <==> exists i :: 0 <= i < |xs| && f(xs[i]) == Some(y)
  {
    if y in FilterMap(f, xs) {
      var i := FilterMapSound(f, xs, y);
    }
    if exists i :: 0 <= i < |xs| && f(xs[i]) == Some(y) {
      var i :| 0 <= i < |xs| && f(xs[i]) == Some(y);
      FilterMapComplete(f, xs, i);
    }
  }

  /** The first value `f` yields over `xs`, in order. */
  function FirstSome<T, U>(f: T -> Option<U>, xs: seq<T>): Option<U>
  {
    if |xs| == 0 then None
    else if f(xs[0]).Some? then f(xs[0])
    else FirstSome(f, xs[1..])
  }

  /** Nothing is found exactly when `f` yields nothing for any element. */
  lemma {:induction false} FirstSomeNone<T, U>(f: T -> Option<U>, xs: seq<T>)
    ensures FirstSome(f, xs).None? <==> forall j :: 0 <= j < |xs| ==> f(xs[j]).None?
    decreases |xs|
  {
    if |xs| > 0 {
      FirstSomeNone(f, xs[1..]);
      assert forall j :: 1 <= j < |xs| ==> xs[1..][j - 1] == xs[j];
    }
  }

  /** What `f` yields at the first element it yields anything for is what is found. */
  lemma {:induction false} FirstSomeAt<T, U>(f: T -> Option<U>, xs: seq<T>, k: nat)
    requires k < |xs| && f(xs[k]).Some?
    requires forall j :: 0 <= j < k ==> f(xs[j]).None?
    ensures FirstSome(f, xs) == f(xs[k])
    decreases k
  {
    if k > 0 {
      assert f(xs[0]).None?;
      assert xs[1..][k - 1] == xs[k];
      assert forall j :: 0 <= j < k - 1 ==> xs[1..][j] == xs[j + 1];
      FirstSomeAt(f, xs[1..], k - 1);
    }
  }

  /** Where the first value comes from. */
  lemma {:induction false} FirstSomeIndex<T, U>(f: T -> Option<U>, xs: seq<T>) returns (k: nat)
    requires FirstSome(f, xs).Some?
    ensures k < |xs| && f(xs[k]) == FirstSome(f, xs)
    ensures forall j :: 0 <= j < k ==> f(xs[j]).None?
    decreases |xs|
  {
    if f(xs[0]).Some? {
      k := 0;
    } else {
      var i := FirstSomeIndex(f, xs[1..]);
      assert forall j :: 1 <= j <= i ==> xs[1..][j - 1] == xs[j];
      k := i + 1;
    }
  }

  /** Once a prefix yields a value the rest is never consulted; otherwise the rest decides. */
  lemma {:induction false} FirstSomeAppend<T, U>(f: T -> Option<U>, a: seq<T>, b: seq<T>)
    ensures FirstSome(f, a + b) == if FirstSome(f, a).Some? then FirstSome(f, a) else FirstSome(f, b)
    decreases |a|
  {
    if |a| == 0 {
      assert a + b == b;
    } else {
      assert (a + b)[0] == a[0];
      assert (a + b)[1..] == a[1..] + b;
      FirstSomeAppend(f, a[1..], b);
    }
  }
}
