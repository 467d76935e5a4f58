/** The two query operators the rental manager uses on stored rentals:
    a filtered read of the store (`GetAll(filter)`) and `Any`. */
module Queries {

  /** The elements of `s` that satisfy `p`, in their original order. */
  function Where<T(!new)>(s: seq<T>, p: T -> bool): (r: seq<T>)
    ensures |r| <= |s|
    ensures forall x :: x in r <==> x in s && p(x)
    ensures forall x :: multiset(r)[x] == if p(x) then multiset(s)[x] else 0
  {
    if s == [] then []
    else
      assert s == [s[0]] + s[1..];
      (if p(s[0]) then [s[0]] else []) + Where(s[1..], p)
  }

  /** Does some element of `s` satisfy `p`? */
  function Any<T>(s: seq<T>, p: T -> bool): (b: bool)
    ensures b <==> exists i :: 0 <= i < |s| && p(s[i])
  {
    if s == [] then false
    else
      assert forall i :: 1 <= i < |s| ==> s[i] == s[1..][i - 1];
      p(s[0]) || Any(s[1..], p)
  }
}
