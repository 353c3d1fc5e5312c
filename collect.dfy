/**
 * The handlers' loop shape: `.each` over a sequence of elements, pushing at most one
 * record per element. `FilterMap(xs, f)` is the array after the loop, where `f` says
 * what (if anything) one element pushes.
 */
module Collect {
  import opened Wrappers

  /** What one element pushes: nothing, or one record. */
  function Pushed<A, B>(x: A, f: A -> Option<B>): seq<B>
  {
    match f(x)
    case Some(y) => [y]
    case None => []
  }

  function FilterMap<A, B>(xs: seq<A>, f: A -> Option<B>): seq<B>
    decreases |xs|
  {
    if xs == [] then [] else FilterMap(xs[..|xs| - 1], f) + Pushed(xs[|xs| - 1], f)
  }

  /** One more loop iteration appends what the next element pushes. */
  lemma FilterMapSnoc<A, B>(xs: seq<A>, f: A -> Option<B>, i: nat)
    requires i < |xs|
    ensures FilterMap(xs[..i + 1], f) == FilterMap(xs[..i], f) + Pushed(xs[i], f)
  {
    assert xs[..i + 1][..i] == xs[..i];
  }

  /** The loop distributes over concatenation: records come out in element order. */
  lemma {:induction false} FilterMapAppend<A, B>(a: seq<A>, b: seq<A>, f: A -> Option<B>)
    ensures FilterMap(a + b, f) == FilterMap(a, f) + FilterMap(b, f)
    decreases |b|
  {
    if b == [] {
      assert a + b == a;
    } else {
      var b' := b[..|b| - 1];
      assert (a + b)[..|a + b| - 1] == a + b';
      assert (a + b)[|a + b| - 1] == b[|b| - 1];
      FilterMapAppend(a, b', f);
    }
  }

  /** A record is pushed exactly when some element yields it. */
  lemma {:induction false} FilterMapMembers<A, B>(xs: seq<A>, f: A -> Option<B>)
    ensures forall y :: y in FilterMap(xs, f) <==> exists i :: 0 <= i < |xs| && f(xs[i]) == Some(y)
    decreases |xs|
  {
    if xs != [] {
      var p := xs[..|xs| - 1];
      FilterMapMembers(p, f);
      forall y ensures y in FilterMap(xs, f) <==> exists i :: 0 <= i < |xs| && f(xs[i]) == Some(y) {
        if y in FilterMap(p, f) {
          var i :| 0 <= i < |p| && f(p[i]) == Some(y);
          assert xs[i] == p[i];
        }
        if exists i :: 0 <= i < |xs| && f(xs[i]) == Some(y) {
          var i :| 0 <= i < |xs| && f(xs[i]) == Some(y);
          if i < |p| {
            assert p[i] == xs[i];
          }
        }
      }
    }
  }

  predicate AllPush<A, B>(xs: seq<A>, f: A -> Option<B>)
  {
    forall i :: 0 <= i < |xs| ==> f(xs[i]).Some?
  }

  /** The array is never longer than the input, and as long exactly when every element pushes. */
  lemma {:induction false} FilterMapLength<A, B>(xs: seq<A>, f: A -> Option<B>)
    ensures |FilterMap(xs, f)| <= |xs|
    ensures |FilterMap(xs, f)| == |xs| <==> AllPush(xs, f)
    ensures |FilterMap(xs, f)| == 0 <==> forall i :: 0 <= i < |xs| ==> f(xs[i]).None?
    decreases |xs|
  {
    if xs != [] {
      var p, x := xs[..|xs| - 1], xs[|xs| - 1];
      FilterMapLength(p, f);
      assert forall i :: 0 <= i < |p| ==> xs[i] == p[i];
      assert |FilterMap(xs, f)| == |FilterMap(p, f)| + |Pushed(x, f)|;
    }
  }

  lemma AppendAssoc<B>(a: seq<B>, b: seq<B>, c: seq<B>)
    ensures (a + b) + c == a + (b + c)
  {
  }

  lemma PrefixSnoc<B>(xs: seq<B>, i: nat)
    requires i < |xs|
    ensures xs[..i + 1] == xs[..i] + [xs[i]]
    ensures xs[..i + 1][..i] == xs[..i]
  {
  }
}
