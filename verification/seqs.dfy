/** Sequence combinators shared by the jobs: a job's output is the
    concatenation, in row order, of what it decides for each row. */
module Seqs {

  /** The concatenation of f(x) over xs, in order. */
  function FlatMap<R, T>(xs: seq<R>, f: R -> seq<T>): seq<T>
    decreases |xs|
  {
    if |xs| == 0 then [] else FlatMap(xs[..|xs| - 1], f) + f(xs[|xs| - 1])
  }

  /** An element of a FlatMap comes from the piece of some element, and every
      piece is in it. */
  lemma {:induction false} FlatMapMembers<R, T(!new)>(xs: seq<R>, f: R -> seq<T>)
    ensures forall y :: y in FlatMap(xs, f) <==> exists i :: 0 <= i < |xs| && y in f(xs[i])
    decreases |xs|
  {
    if |xs| > 0 {
      var init := xs[..|xs| - 1];
      FlatMapMembers(init, f);
      assert forall i :: 0 <= i < |init| ==> init[i] == xs[i];
    }
  }

  /** A FlatMap of empty pieces is empty. */
  lemma {:induction false} FlatMapNil<R, T>(xs: seq<R>, f: R -> seq<T>)
    requires forall i :: 0 <= i < |xs| ==> f(xs[i]) == []
    ensures FlatMap(xs, f) == []
    decreases |xs|
  {
    if |xs| > 0 {
      FlatMapNil(xs[..|xs| - 1], f);
    }
  }

  /** FlatMap over one more element. */
  lemma FlatMapSnoc<R, T(!new)>(xs: seq<R>, x: R, f: R -> seq<T>)
    ensures FlatMap(xs + [x], f) == FlatMap(xs, f) + f(x)
  {
    assert (xs + [x])[..|xs|] == xs;
  }

  /** FlatMap over a prefix one element longer. */
  lemma FlatMapStep<R, T(!new)>(xs: seq<R>, i: nat, f: R -> seq<T>)
    requires i < |xs|
    ensures FlatMap(xs[..i + 1], f) == FlatMap(xs[..i], f) + f(xs[i])
  {
    assert xs[..i + 1] == xs[..i] + [xs[i]];
    FlatMapSnoc(xs[..i], xs[i], f);
  }

  /** The elements of xs that satisfy k, in order. */
  function Keep<T>(xs: seq<T>, k: T -> bool): (r: seq<T>)
    ensures |r| <= |xs|
    decreases |xs|
  {
    if |xs| == 0 then []
    else Keep(xs[..|xs| - 1], k) + (if k(xs[|xs| - 1]) then [xs[|xs| - 1]] else [])
  }

  lemma KeepSingle<T>(x: T, k: T -> bool)
    ensures Keep([x], k) == if k(x) then [x] else []
  {
    assert [x][..0] == [];
  }

  /** Keep holds exactly the elements that satisfy k. */
  lemma {:induction false} KeepMembers<T(!new)>(xs: seq<T>, k: T -> bool)
    ensures forall y :: y in Keep(xs, k) <==> y in xs && k(y)
    decreases |xs|
  {
    if |xs| > 0 {
      var init := xs[..|xs| - 1];
      KeepMembers(init, k);
      assert xs == init + [xs[|xs| - 1]];
    }
  }

  lemma {:induction false} KeepAppend<T(!new)>(a: seq<T>, b: seq<T>, k: T -> bool)
    ensures Keep(a + b, k) == Keep(a, k) + Keep(b, k)
    decreases |b|
  {
    if |b| > 0 {
      var binit := b[..|b| - 1];
      assert (a + b)[..|a + b| - 1] == a + binit;
      KeepAppend(a, binit, k);
    } else {
      assert a + b == a;
    }
  }

  /** Filtering a FlatMap is the FlatMap of the filtered pieces. */
  lemma {:induction false} KeepFlatMap<R, T(!new)>(xs: seq<R>, f: R -> seq<T>, g: R -> seq<T>, k: T -> bool)
    requires forall x :: g(x) == Keep(f(x), k)
    ensures Keep(FlatMap(xs, f), k) == FlatMap(xs, g)
    decreases |xs|
  {
    if |xs| > 0 {
      var init := xs[..|xs| - 1];
      KeepFlatMap(init, f, g, k);
      KeepAppend(FlatMap(init, f), f(xs[|xs| - 1]), k);
    }
  }

  /** Position i holds the only element of xs that satisfies k. */
  predicate OnlyAt<T>(xs: seq<T>, k: T -> bool, i: int)
  {
    && 0 <= i < |xs| && k(xs[i])
    && forall j :: 0 <= j < |xs| && j != i ==> !k(xs[j])
  }

  /** Keep finds nothing exactly when no element satisfies k. */
  lemma KeepEmpty<T(!new)>(xs: seq<T>, k: T -> bool)
    ensures Keep(xs, k) == [] <==> forall j :: 0 <= j < |xs| ==> !k(xs[j])
  {
    KeepMembers(xs, k);
    if Keep(xs, k) != [] {
      assert Keep(xs, k)[0] in Keep(xs, k);
    }
    if exists j :: 0 <= j < |xs| && k(xs[j]) {
      var j :| 0 <= j < |xs| && k(xs[j]);
      assert xs[j] in Keep(xs, k);
    }
  }

  /** `len(list(filter(k, xs))) == 1` holds exactly when one position of xs
      satisfies k. */
  lemma {:induction false} KeepOne<T(!new)>(xs: seq<T>, k: T -> bool)
    ensures |Keep(xs, k)| == 1 <==> exists i :: OnlyAt(xs, k, i)
    decreases |xs|
  {
    if |xs| > 0 {
      var n := |xs| - 1;
      var init := xs[..n];
      KeepOne(init, k);
      KeepEmpty(init, k);
      assert forall j :: 0 <= j < n ==> init[j] == xs[j];
      if k(xs[n]) {
        if |Keep(xs, k)| == 1 {
          assert OnlyAt(xs, k, n);
        }
        if exists i :: OnlyAt(xs, k, i) {
          var i :| OnlyAt(xs, k, i);
          assert i == n;
        }
      } else {
        if exists i :: OnlyAt(init, k, i) {
          var i :| OnlyAt(init, k, i);
          assert OnlyAt(xs, k, i);
        }
        if exists i :: OnlyAt(xs, k, i) {
          var i :| OnlyAt(xs, k, i);
          assert OnlyAt(init, k, i);
        }
      }
    }
  }
}
