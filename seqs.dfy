/** Searching in sequences, and small facts about them that the solver does not find cheaply on its own. */
module Seqs {
  import opened Wrappers

  /** Concatenation is associative. */
  lemma AppendAssoc<T>(a: seq<T>, b: seq<T>, c: seq<T>)
    ensures a + (b + c) == a + b + c
  {
  }

  /** The empty sequence is a left unit of concatenation. */
  lemma EmptyLeft<T>(a: seq<T>)
    ensures [] + a == a
  {
  }

  /** A text split as `p + b`, with `b` split again as `e + c`, regrouped after a prefix. */
  lemma Regroup<T>(done: seq<T>, a: seq<T>, p: seq<T>, b: seq<T>, e: seq<T>, c: seq<T>)
    requires a == p + b && b == e + c
    ensures done + a == done + p + e + c
  {
  }

  /**
   * `memchr(x, &s[from..])`: how far past `from` the first `x` at or after
   * `from` lies, if there is one.
   */
  function FindFrom<T(==)>(x: T, s: seq<T>, from: nat): (r: Option<nat>)
    requires from <= |s|
    ensures r.Some? ==> (from + r.value < |s| && s[from + r.value] == x
                         && forall k | from <= k < from + r.value :: s[k] != x)
    ensures r.None? <==> forall k | from <= k < |s| :: s[k] != x
    decreases |s| - from
  {
    if from == |s| then None
    else if s[from] == x then Some(0)
    else match FindFrom(x, s, from + 1)
      case None => None
      case Some(i) => Some(i + 1)
  }

  /** The search gives the same offset after something is put in front. */
  lemma {:induction false} FindFromShift<T>(x: T, a: seq<T>, b: seq<T>, from: nat)
    requires from <= |b|
    ensures FindFrom(x, a + b, |a| + from) == FindFrom(x, b, from)
    decreases |b| - from
  {
    if from < |b| {
      assert (a + b)[|a| + from] == b[from];
      FindFromShift(x, a, b, from + 1);
    }
  }
}
