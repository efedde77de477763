/** Ordered-list primitives on which the root list, the children lists and
    the listener lists are edited. Each is the value-level reading of a Go
    slice idiom (`copy` + reslice for a removal, `append` + `copy` for an
    insertion, a `range` loop that stops at the first match).
 */
module Seqs {

  /** The list with the element at `i` deleted; later elements shift left. */
  function RemoveAt<T>(s: seq<T>, i: nat): (r: seq<T>)
    requires i < |s|
    ensures |r| == |s| - 1
    ensures forall j :: 0 <= j < i ==> r[j] == s[j]
    ensures forall j :: i <= j < |r| ==> r[j] == s[j + 1]
  {
    s[..i] + s[i + 1..]
  }

  /** The list with `x` placed at position `i`; later elements shift right. */
  function InsertAt<T>(s: seq<T>, i: nat, x: T): (r: seq<T>)
    requires i <= |s|
    ensures |r| == |s| + 1
    ensures r[i] == x
    ensures forall j :: 0 <= j < i ==> r[j] == s[j]
    ensures forall j :: i < j < |r| ==> r[j] == s[j - 1]
  {
    s[..i] + [x] + s[i..]
  }

  /** Position of the first occurrence of `x`, or -1 when there is none. */
  function IndexOf<T(==)>(s: seq<T>, x: T): (r: int)
    ensures r == -1 <==> x !in s
    ensures r != -1 ==> 0 <= r < |s| && s[r] == x
    ensures forall j :: 0 <= j < r ==> s[j] != x
    decreases |s|
  {
    if |s| == 0 then -1
    else if s[0] == x then 0
    else
      var k := IndexOf(s[1..], x);
      if k == -1 then -1 else k + 1
  }

  /** The list with the first occurrence of `x` removed (unchanged when absent). */
  function RemoveFirst<T(==)>(s: seq<T>, x: T): (r: seq<T>)
    ensures x !in s ==> r == s
    ensures x in s ==> |r| == |s| - 1
  {
    var i := IndexOf(s, x);
    if i == -1 then s else RemoveAt(s, i)
  }

  /** Re-inserting a removed element at its old position restores the list. */
  lemma InsertRemovedRestores<T>(s: seq<T>, i: nat)
    requires i < |s|
    ensures InsertAt(RemoveAt(s, i), i, s[i]) == s
  {
    var t := InsertAt(RemoveAt(s, i), i, s[i]);
    assert forall j :: 0 <= j < |s| ==> t[j] == s[j];
  }

  /** Removing the first occurrence of an element that was appended to a list
      not containing it drops exactly that appended element. */
  lemma RemoveFirstOfAppended<T>(s: seq<T>, x: T)
    requires x !in s
    ensures RemoveFirst(s + [x], x) == s
  {
    assert IndexOf(s + [x], x) == |s|;
  }

  /** The list in reverse order: position `i` holds position `|s| - 1 - i`. */
  function Reverse<T>(s: seq<T>): (r: seq<T>)
    ensures |r| == |s|
  {
    seq(|s|, i requires 0 <= i < |s| => s[|s| - 1 - i])
  }

  /** Reversing the last `k` elements of `u` gives its last element
      followed by the reversed last `k - 1` elements of the rest `u1`. */
  lemma ReversePop<T>(u: seq<T>, u1: seq<T>, x: T, xs: seq<T>, k: nat)
    requires 0 < k <= |u| && u1 == u[..|u| - 1] && x == u[|u| - 1]
    requires xs == Reverse(u1[|u| - k..])
    ensures [x] + xs == Reverse(u[|u| - k..])
  {
    var s := u[|u| - k..];
    assert s[|s| - 1] == x;
    assert s[..|s| - 1] == u1[|u| - k..];
  }
}
