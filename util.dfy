/** Small helpers shared by the scheduler modules. */
module Util {

  /** A possibly-absent value; `None` stands for a NULL pointer in the scheduler. */
  datatype Option<T> = None | Some(value: T)

  /** No element occurs twice. */
  predicate Distinct<T(==)>(s: seq<T>) {
    forall i, j :: 0 <= i < j < |s| ==> s[i] != s[j]
  }

  /** Position of the first occurrence of `x` in `s`. */
  function IndexOf<T(==)>(s: seq<T>, x: T): (i: nat)
    requires x in s
    ensures i < |s| && s[i] == x
    ensures forall j :: 0 <= j < i ==> s[j] != x
  {
    if s[0] == x then 0 else 1 + IndexOf(s[1..], x)
  }

  /** `n` copies of `x`. */
  function Repeat<T>(x: T, n: nat): (r: seq<T>)
    ensures |r| == n && forall k :: 0 <= k < n ==> r[k] == x
  {
    seq(n, _ => x)
  }

  /** Every element of a sub-multiset of `b` occurs in `b`. */
  lemma SubBagMembers<T>(a: seq<T>, b: seq<T>)
    requires multiset(a) <= multiset(b)
    ensures forall x :: x in a ==> x in b
  {
    forall x | x in a ensures x in b {
      assert x in multiset(a);
    }
  }

  /** Unlinking one element keeps the others distinct and shifts those after it down by one. */
  lemma UnlinkKeepsDistinct<T>(s: seq<T>, d: nat) returns (r: seq<T>)
    requires Distinct(s) && d < |s|
    ensures r == s[..d] + s[d + 1..] && |r| == |s| - 1
    ensures forall j :: 0 <= j < d ==> r[j] == s[j]
    ensures forall j :: d <= j < |r| ==> r[j] == s[j + 1]
    ensures Distinct(r)
  {
    r := s[..d] + s[d + 1..];
    assert forall j :: 0 <= j < |r| ==> r[j] == s[if j < d then j else j + 1];
  }
}
