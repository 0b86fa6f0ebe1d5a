/** Rust's `Option` and `Result`, as the model's return and input types. */
module Basics {

  datatype Option<+T> = None | Some(value: T)

  datatype Result<+T, +E> = Ok(value: T) | Err(error: E)

  /** The elements an option holds: none or exactly one. */
  function AsSeq<T>(o: Option<T>): (s: seq<T>)
    ensures o.None? <==> s == []
    ensures o.Some? ==> s == [o.value]
  {
    match o
    case None => []
    case Some(v) => [v]
  }

  /** `filter_map`: the values `f` gives for the elements of `xs`, in order. */
  function FilterMap<T, U>(xs: seq<T>, f: T -> Option<U>): seq<U>
  {
    if xs == [] then [] else FilterMap(xs[..|xs| - 1], f) + AsSeq(f(xs[|xs| - 1]))
  }

  lemma {:induction false} FilterMapConcat<T, U>(a: seq<T>, b: seq<T>, f: T -> Option<U>)
    ensures FilterMap(a + b, f) == FilterMap(a, f) + FilterMap(b, f)
    decreases |b|
  {
    if b == [] {
      assert a + b == a;
    } else {
      var c := a + b;
      assert c[..|c| - 1] == a + b[..|b| - 1];
      FilterMapConcat(a, b[..|b| - 1], f);
    }
  }

  lemma {:induction false} FilterMapMembership<T, U>(xs: seq<T>, f: T -> Option<U>, y: U)
    ensures y in FilterMap(xs, f) <==> exists j :: 0 <= j < |xs| && f(xs[j]) == Some(y)
  {
    if xs != [] {
      var init := xs[..|xs| - 1];
      FilterMapMembership(init, f, y);
      if exists j :: 0 <= j < |init| && f(init[j]) == Some(y) {
        var j :| 0 <= j < |init| && f(init[j]) == Some(y);
        assert xs[j] == init[j];
      }
      if exists j :: 0 <= j < |xs| && f(xs[j]) == Some(y) {
        var j :| 0 <= j < |xs| && f(xs[j]) == Some(y);
        if j < |init| {
          assert init[j] == xs[j];
        }
      }
    }
  }

  /** An element for which `f` gives nothing can be removed without effect. */
  lemma FilterMapSkip<T, U>(a: seq<T>, x: T, b: seq<T>, f: T -> Option<U>)
    requires f(x) == None
    ensures FilterMap(a + [x] + b, f) == FilterMap(a + b, f)
  {
    var ax := a + [x];
    assert ax[..|ax| - 1] == a;
    assert FilterMap(ax, f) == FilterMap(a, f) + [];
    FilterMapConcat(ax, b, f);
    FilterMapConcat(a, b, f);
  }

  /** One step of a loop that builds `FilterMap` from the left. */
  lemma FilterMapStep<T, U>(xs: seq<T>, i: nat, f: T -> Option<U>)
    requires i < |xs|
    ensures FilterMap(xs[..i + 1], f) == FilterMap(xs[..i], f) + AsSeq(f(xs[i]))
  {
    assert xs[..i + 1][..i] == xs[..i];
  }
}
