/** Sequences without repetitions. */
module Sequences {

  predicate Distinct<T(==)>(xs: seq<T>) { forall i, j | 0 <= i < j < |xs| :: xs[i] != xs[j] }

  /** The elements of a sequence, each where it first occurs. */
  function Firsts<T(==)>(xs: seq<T>): seq<T> {
    if xs == [] then []
    else
      var f, x := Firsts(xs[..|xs| - 1]), xs[|xs| - 1];
      if x in f then f else f + [x]
  }

  lemma FirstsSnoc<T>(xs: seq<T>, x: T)
    ensures Firsts(xs + [x]) == if x in Firsts(xs) then Firsts(xs) else Firsts(xs) + [x]
  {
    assert (xs + [x])[..|xs|] == xs;
  }

  /** Nothing is lost, nothing is kept twice. */
  lemma {:induction false} FirstsKeep<T>(xs: seq<T>)
    ensures Distinct(Firsts(xs)) && forall x :: x in Firsts(xs) <==> x in xs
    decreases |xs|
  {
    if xs != [] {
      var ys, x := xs[..|xs| - 1], xs[|xs| - 1];
      FirstsKeep(ys);
      FirstsSnoc(ys, x);
      assert xs == ys + [x];
    }
  }

  lemma {:induction false} FirstsOfDistinct<T>(xs: seq<T>)
    requires Distinct(xs)
    ensures Firsts(xs) == xs
    decreases |xs|
  {
    if xs != [] {
      var ys, x := xs[..|xs| - 1], xs[|xs| - 1];
      FirstsOfDistinct(ys);
      FirstsSnoc(ys, x);
      assert xs == ys + [x];
      assert x !in ys;
    }
  }

  /** Of two elements, the one that occurs first is kept first. */
  lemma {:induction false} FirstsInOrder<T>(xs: seq<T>, i: nat, j: nat)
    requires i < j < |xs| && xs[i] !in xs[..i] && xs[j] !in xs[..j]
    ensures exists p, q | 0 <= p < q < |Firsts(xs)| :: Firsts(xs)[p] == xs[i] && Firsts(xs)[q] == xs[j]
    decreases |xs|
  {
    var ys, x := xs[..|xs| - 1], xs[|xs| - 1];
    assert xs == ys + [x];
    FirstsSnoc(ys, x);
    FirstsKeep(ys);
    hide Firsts;
    if j < |ys| {
      assert xs[..i] == ys[..i] && xs[..j] == ys[..j];
      FirstsInOrder(ys, i, j);
      var p, q :| 0 <= p < q < |Firsts(ys)| && Firsts(ys)[p] == xs[i] && Firsts(ys)[q] == xs[j];
      assert Firsts(xs)[p] == xs[i] && Firsts(xs)[q] == xs[j];
    } else {
      assert xs[..j] == ys && ys[i] in ys;
      var p :| 0 <= p < |Firsts(ys)| && Firsts(ys)[p] == xs[i];
      assert Firsts(xs)[p] == xs[i] && Firsts(xs)[|Firsts(ys)|] == xs[j];
    }
  }

  lemma MoveOver<T>(a: seq<T>, x: T, b: seq<T>)
    ensures a + ([x] + b) == (a + [x]) + b
  {
  }
}
