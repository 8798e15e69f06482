/** Generic sequence facts used by the list operations of the rename window:
    in-order sub-sequences and `List.RemoveAll`. */
module Seqs {

  /** `a` can be obtained from `b` by deleting elements, keeping the order of the rest. */
  predicate IsSubsequence<T(==)>(a: seq<T>, b: seq<T>)
  {
    if |a| == 0 then true
    else if |b| == 0 then false
    else (a[0] == b[0] && IsSubsequence(a[1..], b[1..])) || IsSubsequence(a, b[1..])
  }

  /** `List.RemoveAll(drop)`: the elements of `s` that `drop` does not select, in their order. */
  function RemoveAll<T(==,!new)>(s: seq<T>, drop: T -> bool): (r: seq<T>)
    ensures forall x :: x in r <==> x in s && !drop(x)
    ensures forall x :: multiset(r)[x] == if drop(x) then 0 else multiset(s)[x]
    ensures IsSubsequence(r, s)
  {
    if |s| == 0 then []
    else
      assert s == [s[0]] + s[1..];
      if drop(s[0]) then RemoveAll(s[1..], drop)
      else [s[0]] + RemoveAll(s[1..], drop)
  }

  /** Two concatenations with equally long first parts agree part by part. */
  lemma ConcatSplit<T>(a: seq<T>, b: seq<T>, c: seq<T>, d: seq<T>)
    requires a + b == c + d && |a| == |c|
    ensures a == c && b == d
  {
    assert a == (a + b)[..|a|] && c == (c + d)[..|c|];
    assert b == (a + b)[|a|..] && d == (c + d)[|c|..];
  }

  /** A sub-sequence of a sub-sequence is a sub-sequence. */
  lemma {:induction false} SubsequenceTrans<T>(a: seq<T>, b: seq<T>, c: seq<T>)
    requires IsSubsequence(a, b) && IsSubsequence(b, c)
    ensures IsSubsequence(a, c)
    decreases |c|
  {
    if |a| != 0 {
      if a[0] == b[0] && IsSubsequence(a[1..], b[1..]) {
        if b[0] == c[0] && IsSubsequence(b[1..], c[1..]) {
          SubsequenceTrans(a[1..], b[1..], c[1..]);
        } else {
          SubsequenceTrans(a, b, c[1..]);
        }
      } else {
        if b[0] == c[0] && IsSubsequence(b[1..], c[1..]) {
          SubsequenceTrans(a, b[1..], c[1..]);
        } else {
          SubsequenceTrans(a, b, c[1..]);
        }
      }
    }
  }

  lemma {:induction false} SubsequenceRefl<T>(a: seq<T>)
    ensures IsSubsequence(a, a)
  {
    if |a| != 0 {
      SubsequenceRefl(a[1..]);
    }
  }
}
