/**
 * The sequence operations the Rust code gets from its standard library and from
 * iterator adaptors: `Vec::reverse`, collecting fallible results into a `Result`
 * (stopping at the first error), and keeping the elements a test selects.
 *
 * `TryMap`, `FilterMap` and `Kept` recurse on the LAST element, so that one more
 * step of a front-to-back loop unfolds them by definition.
 */
module SeqOps {
  import opened Wrappers

  /** `Vec::reverse`: the same elements, the last one first. */
  function Reverse<T>(s: seq<T>): (r: seq<T>)
    ensures |r| == |s|
    ensures forall i :: 0 <= i < |s| ==> r[i] == s[|s| - 1 - i]
  {
    if s == [] then [] else Reverse(s[1..]) + [s[0]]
  }

  /**
   * Applies `f` to every element in order and collects the results; the first
   * failure stops the collection and becomes the result.
   */
  function TryMap<A, B, E>(f: A -> Result<B, E>, s: seq<A>): Result<seq<B>, E>
    decreases |s|
  {
    if s == [] then Success([])
    else
      match TryMap(f, s[..|s| - 1])
      case Failure(e) => Failure(e)
      case Success(done) =>
        match f(s[|s| - 1])
        case Failure(e) => Failure(e)
        case Success(b) => Success(done + [b])
  }

  /** The position of the first element on which `f` fails, or `|s|` if there is none. */
  function FirstFailure<A, B, E>(f: A -> Result<B, E>, s: seq<A>): (n: nat)
    ensures n <= |s|
    ensures forall i :: 0 <= i < n ==> f(s[i]).Success?
    ensures n < |s| ==> f(s[n]).Failure?
  {
    if s == [] || f(s[0]).Failure? then 0 else 1 + FirstFailure(f, s[1..])
  }

  /**
   * What `TryMap` computes: it succeeds exactly when `f` succeeds on every element,
   * and then holds `f`'s results in order; otherwise it carries the error of the
   * first element on which `f` fails.
   */
  lemma {:induction false} TryMapSpec<A, B, E>(f: A -> Result<B, E>, s: seq<A>)
    ensures TryMap(f, s).Success? <==> forall i :: 0 <= i < |s| ==> f(s[i]).Success?
    ensures TryMap(f, s).Success? <==> FirstFailure(f, s) == |s|
    ensures TryMap(f, s).Success? ==>
              |TryMap(f, s).value| == |s| &&
              forall i :: 0 <= i < |s| ==> TryMap(f, s).value[i] == f(s[i]).value
    ensures TryMap(f, s).Failure? ==>
              FirstFailure(f, s) < |s| && TryMap(f, s).error == f(s[FirstFailure(f, s)]).error
  {
    if s != [] {
      var front := s[..|s| - 1];
      TryMapSpec(f, front);
      assert forall i :: 0 <= i < |front| ==> front[i] == s[i];
      var n := FirstFailure(f, front);
      if n < |front| {
        assert FirstFailure(f, s) == n;
      }
    }
  }

  /** The elements `f` keeps, mapped by `f`, in their original order. */
  function FilterMap<A, B>(f: A -> Option<B>, s: seq<A>): seq<B>
    decreases |s|
  {
    if s == [] then []
    else
      FilterMap(f, s[..|s| - 1]) +
      match f(s[|s| - 1])
      case Some(b) => [b]
      case None => []
  }

  /** The positions of the elements `f` keeps, in increasing order. */
  function Kept<A, B>(f: A -> Option<B>, s: seq<A>): seq<nat>
    decreases |s|
  {
    if s == [] then []
    else Kept(f, s[..|s| - 1]) + if f(s[|s| - 1]).Some? then [|s| - 1] else []
  }

  /**
   * `FilterMap` keeps exactly the elements `f` accepts, each once, in input order:
   * its j-th result is `f`'s value at the j-th kept position, the kept positions
   * increase strictly, and a position is kept exactly when `f` accepts its element.
   */
  lemma {:induction false} FilterMapKept<A, B>(f: A -> Option<B>, s: seq<A>)
    ensures |FilterMap(f, s)| == |Kept(f, s)| <= |s|
    ensures forall j :: 0 <= j < |Kept(f, s)| ==>
              Kept(f, s)[j] < |s| && f(s[Kept(f, s)[j]]) == Some(FilterMap(f, s)[j])
    ensures forall j, j' :: 0 <= j < j' < |Kept(f, s)| ==> Kept(f, s)[j] < Kept(f, s)[j']
    ensures forall i :: 0 <= i < |s| ==> (f(s[i]).Some? <==> i in Kept(f, s))
  {
    if s != [] {
      var n := |s| - 1;
      var front := s[..n];
      FilterMapKept(f, front);
      assert forall i :: 0 <= i < n ==> front[i] == s[i];
      var kf, ks := Kept(f, front), Kept(f, s);
      var mf, ms := FilterMap(f, front), FilterMap(f, s);
      if f(s[n]).Some? {
        assert ks == kf + [n] && ms == mf + [f(s[n]).value];
      } else {
        assert ks == kf && ms == mf;
      }
      forall i | 0 <= i < |s|
        ensures f(s[i]).Some? <==> i in ks
      {
        if i < n {
          assert i in kf <==> i in ks;
        }
      }
    }
  }

  /** Filtering a concatenation filters each part. */
  lemma {:induction false} FilterMapAppend<A, B>(f: A -> Option<B>, a: seq<A>, b: seq<A>)
    ensures FilterMap(f, a + b) == FilterMap(f, a) + FilterMap(f, b)
    decreases |b|
  {
    if b != [] {
      var front := b[..|b| - 1];
      FilterMapAppend(f, a, front);
      assert (a + b)[..|a + b| - 1] == a + front;
      assert (a + b)[|a + b| - 1] == b[|b| - 1];
      var tail := match f(b[|b| - 1]) case Some(x) => [x] case None => [];
      assert FilterMap(f, a + b) == FilterMap(f, a + front) + tail;
      assert FilterMap(f, b) == FilterMap(f, front) + tail;
    } else {
      assert a + b == a;
    }
  }
}
