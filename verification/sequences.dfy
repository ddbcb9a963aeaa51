/** Sequence-level vocabulary shared by the three list models: the abstract
    value of a list is the sequence of the values met when walking it from
    the head. */
module Sequences {

  /** The sequence read back to front. Defined by peeling off the LAST
      element, which matches how the list reversals build their result: the
      next node visited is put in front of what has been reversed so far. */
  function Reverse<T>(s: seq<T>): (r: seq<T>)
    ensures |r| == |s|
    ensures forall k :: 0 <= k < |s| ==> r[k] == s[|s| - 1 - k]
  {
    if s == [] then [] else [s[|s| - 1]] + Reverse(s[..|s| - 1])
  }

  /** Reversing one more element of a prefix puts that element in front. */
  lemma {:induction false} ReversePrefixStep<T>(s: seq<T>, i: nat)
    requires i < |s|
    ensures Reverse(s[..i + 1]) == [s[i]] + Reverse(s[..i])
  {
    assert s[..i + 1][..i] == s[..i];
  }

  /** Reversal is its own inverse, including on the empty and one-element
      sequences. */
  lemma {:induction false} ReverseInvolution<T>(s: seq<T>)
    ensures Reverse(Reverse(s)) == s
  {
    var rr := Reverse(Reverse(s));
    assert |rr| == |s|;
    forall k | 0 <= k < |s|
      ensures rr[k] == s[k]
    {
      assert rr[k] == Reverse(s)[|s| - 1 - k];
    }
  }

  /** `x` inserted so that it ends up at position `i`. */
  function InsertAt<T>(s: seq<T>, i: nat, x: T): (r: seq<T>)
    requires i <= |s|
    ensures |r| == |s| + 1 && r[i] == x
    ensures forall k :: 0 <= k < i ==> r[k] == s[k]
    ensures forall k :: i < k < |r| ==> r[k] == s[k - 1]
  {
    s[..i] + [x] + s[i..]
  }

  /** The element at position `i` taken out, the others kept in order. */
  function RemoveAt<T>(s: seq<T>, i: nat): (r: seq<T>)
    requires i < |s|
    ensures |r| == |s| - 1
    ensures forall k :: 0 <= k < i ==> r[k] == s[k]
    ensures forall k :: i <= k < |r| ==> r[k] == s[k + 1]
  {
    s[..i] + s[i + 1..]
  }

  /** `f` applied to every element, order and length kept. */
  function Map<T, U>(f: T -> U, s: seq<T>): (r: seq<U>)
    ensures |r| == |s|
    ensures forall k :: 0 <= k < |s| ==> r[k] == f(s[k])
  {
    if s == [] then [] else [f(s[0])] + Map(f, s[1..])
  }

  /** The position a C `insert_at_index` or `delete_at_index` acts on. The
      cursor loop `for (i = 0; i < index - 1 && ...; i++)` does not run at
      all for a negative `index` (above `INT_MIN`, where `index - 1`
      overflows), so such an index acts like 1. */
  function EffectivePosition(index: int): nat
  {
    if index < 0 then 1 else index
  }

  /** No element occurs twice. */
  predicate Distinct<T(==)>(s: seq<T>)
  {
    forall i, j :: 0 <= i < |s| && 0 <= j < |s| && i != j ==> s[i] != s[j]
  }

  lemma DistinctInsert<T>(s: seq<T>, i: nat, x: T)
    requires Distinct(s) && x !in s && i <= |s|
    ensures Distinct(InsertAt(s, i, x))
  {
  }

  lemma DistinctRemove<T>(s: seq<T>, i: nat)
    requires Distinct(s) && i < |s|
    ensures Distinct(RemoveAt(s, i))
  {
  }

  lemma DistinctReverse<T>(s: seq<T>)
    requires Distinct(s)
    ensures Distinct(Reverse(s))
  {
  }
}
