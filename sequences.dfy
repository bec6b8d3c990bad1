/**
 * The meaning of the vector's operations on its live contents, written on
 * plain sequences. Every mutating operation of the vector is specified by
 * one of these functions applied to the contents it had before the call;
 * the lemmas relate the functions to one another (an insert undone by a
 * remove, a run of pushes undone by as many pops).
 */
module SeqModel {

  /** `n` copies of `x`. */
  function Repeat<T>(x: T, n: nat): (r: seq<T>)
    ensures |r| == n
    ensures forall j :: 0 <= j < n ==> r[j] == x
  {
    seq(n, _ => x)
  }

  /** `s` with `x` placed at position `i`, everything from `i` on moved one place right. */
  function InsertAt<T>(s: seq<T>, i: nat, x: T): (r: seq<T>)
    requires i <= |s|
    ensures |r| == |s| + 1
    ensures r[i] == x
    ensures forall j :: 0 <= j < i ==> r[j] == s[j]
    ensures forall j :: i <= j < |s| ==> r[j + 1] == s[j]
  {
    s[..i] + [x] + s[i..]
  }

  /** `s` without the element at position `i`, everything after it moved one place left. */
  function RemoveAt<T>(s: seq<T>, i: nat): (r: seq<T>)
    requires i < |s|
    ensures |r| == |s| - 1
    ensures forall j :: 0 <= j < i ==> r[j] == s[j]
    ensures forall j :: i <= j < |r| ==> r[j] == s[j + 1]
  {
    s[..i] + s[i + 1..]
  }

  /** `s` with the whole of `t` placed at position `i`. */
  function InsertRange<T>(s: seq<T>, i: nat, t: seq<T>): (r: seq<T>)
    requires i <= |s|
    ensures |r| == |s| + |t|
    ensures r[..i] == s[..i] && r[i..i + |t|] == t && r[i + |t|..] == s[i..]
  {
    s[..i] + t + s[i..]
  }

  /** `s` without the `n` elements that start at position `i`. */
  function EraseRange<T>(s: seq<T>, i: nat, n: nat): (r: seq<T>)
    requires i + n <= |s|
    ensures |r| == |s| - n
    ensures forall j :: 0 <= j < i ==> r[j] == s[j]
    ensures forall j :: i <= j < |r| ==> r[j] == s[j + n]
  {
    s[..i] + s[i + n..]
  }

  /** `s` with the `n` positions from `i` on overwritten by `x`. */
  function FillRange<T>(s: seq<T>, i: nat, n: nat, x: T): (r: seq<T>)
    requires i + n <= |s|
    ensures |r| == |s|
    ensures forall j :: 0 <= j < |s| ==> r[j] == if i <= j < i + n then x else s[j]
  {
    s[..i] + Repeat(x, n) + s[i + n..]
  }

  /** `s` read back to front. */
  function Reverse<T>(s: seq<T>): (r: seq<T>)
    ensures |r| == |s|
    ensures forall j :: 0 <= j < |s| ==> r[j] == s[|s| - 1 - j]
  {
    if s == [] then [] else [s[|s| - 1]] + Reverse(s[..|s| - 1])
  }

  /**
   * The values that `n` pops in a row return, in the order they return
   * them, starting from contents `s`: each pop yields the current last
   * element and removes it.
   */
  function Pops<T>(s: seq<T>, n: nat): (r: seq<T>)
    requires n <= |s|
    ensures |r| == n
    ensures forall j :: 0 <= j < n ==> r[j] == s[|s| - 1 - j]
  {
    if n == 0 then [] else [s[|s| - 1]] + Pops(s[..|s| - 1], n - 1)
  }

  /** One pop more than `n` returns, last, the element `n` places from the end. */
  lemma PopsStep<T>(s: seq<T>, n: nat)
    requires n < |s|
    ensures Pops(s, n + 1) == Pops(s, n) + [s[|s| - 1 - n]]
  {
  }

  /** A remove at the position of an insert undoes the insert. */
  lemma InsertThenRemove<T>(s: seq<T>, i: nat, x: T)
    requires i <= |s|
    ensures RemoveAt(InsertAt(s, i, x), i) == s
  {
  }

  /** Erasing the range an insert of `t` created undoes the insert. */
  lemma InsertRangeThenErase<T>(s: seq<T>, i: nat, t: seq<T>)
    requires i <= |s|
    ensures EraseRange(InsertRange(s, i, t), i, |t|) == s
  {
  }

  /** Removing one element is erasing a range of length one. */
  lemma RemoveIsEraseOfOne<T>(s: seq<T>, i: nat)
    requires i < |s|
    ensures RemoveAt(s, i) == EraseRange(s, i, 1)
  {
  }

  /**
   * Pushing the values of `xs` one by one onto contents `s` and then
   * popping as many times returns the values in reverse order of their
   * pushes, and the contents are `s` again. The pointwise contracts of
   * `Pops` and `Reverse` give this directly; automatic induction is
   * switched off because it only makes the proof search costlier.
   */
  lemma {:induction false} PushesThenPops<T>(s: seq<T>, xs: seq<T>)
    ensures Pops(s + xs, |xs|) == Reverse(xs)
    ensures (s + xs)[..|s + xs| - |xs|] == s
  {
  }
}
