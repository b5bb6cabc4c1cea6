/** Turning sequences into sets, and images of sets under a function,
    with the cardinality facts the archive and dedup properties rest on. */
module Sets {

  /** Python's `set(xs)`: the distinct elements of `xs`. */
  function ToSet<T(!new)>(xs: seq<T>): (s: set<T>)
    ensures forall x :: x in s <==> x in xs
    ensures |s| <= |xs|
  {
    if xs == [] then {}
    else ToSet(xs[..|xs| - 1]) + {xs[|xs| - 1]}
  }

  /** The set of values `f` takes on `s`. */
  function Image<A, B>(s: set<A>, f: A -> B): set<B>
  {
    set x | x in s :: f(x)
  }

  /** An image is never larger than the set it is taken of. */
  lemma {:induction false} ImageNoLarger<A, B>(s: set<A>, f: A -> B)
    ensures |Image(s, f)| <= |s|
    decreases |s|
  {
    if s != {} {
      var x :| x in s;
      var rest := s - {x};
      ImageNoLarger(rest, f);
      assert Image(s, f) == Image(rest, f) + {f(x)};
    }
  }

  /** Two distinct elements with the same value under `f` make the image
      strictly smaller than the set. */
  lemma ImageShrinksOnCollision<A, B>(s: set<A>, f: A -> B, x: A, y: A)
    requires x in s && y in s && x != y && f(x) == f(y)
    ensures |Image(s, f)| < |s|
  {
    var rest := s - {x};
    assert f(x) in Image(rest, f) by { assert y in rest; }
    assert Image(s, f) == Image(rest, f);
    ImageNoLarger(rest, f);
  }

  /** A function that never maps two elements to one value keeps the size. */
  lemma {:induction false} ImageOfInjective<A, B>(s: set<A>, f: A -> B)
    requires forall x, y :: x in s && y in s && f(x) == f(y) ==> x == y
    ensures |Image(s, f)| == |s|
    decreases |s|
  {
    if s != {} {
      var x :| x in s;
      var rest := s - {x};
      ImageOfInjective(rest, f);
      assert f(x) !in Image(rest, f);
      assert Image(s, f) == Image(rest, f) + {f(x)};
    }
  }
}
