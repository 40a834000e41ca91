/** Counting the elements of a sequence that satisfy a predicate. */
module Counting {

  function Count<T>(s: seq<T>, p: T -> bool): (c: nat)
    ensures c <= |s|
  {
    if s == [] then 0
    else Count(s[..|s| - 1], p) + (if p(s[|s| - 1]) then 1 else 0)
  }

  /** The count is the number of positions that satisfy the predicate. */
  lemma {:induction false} CountIsSize<T>(s: seq<T>, p: T -> bool, at: set<int>)
    requires forall i :: i in at <==> 0 <= i < |s| && p(s[i])
    ensures |at| == Count(s, p)
  {
    if s != [] {
      var n := |s| - 1;
      CountIsSize(s[..n], p, at - {n});
      assert at == (at - {n}) + (if p(s[n]) then {n} else {});
    } else {
      forall i ensures i !in at { }
    }
  }

  lemma {:induction false} CountUpdate<T>(s: seq<T>, i: nat, x: T, p: T -> bool)
    requires i < |s|
    ensures Count(s[i := x], p) + (if p(s[i]) then 1 else 0)
         == Count(s, p) + (if p(x) then 1 else 0)
  {
    var n := |s| - 1;
    if i < n {
      CountUpdate(s[..n], i, x, p);
      assert s[i := x][..n] == s[..n][i := x];
    } else {
      assert s[i := x][..n] == s[..n];
    }
  }

  lemma {:induction false} CountPositive<T>(s: seq<T>, i: nat, p: T -> bool)
    requires i < |s| && p(s[i])
    ensures Count(s, p) > 0
  {
    if i < |s| - 1 { CountPositive(s[..|s| - 1], i, p); }
  }

  lemma {:induction false} CountNone<T>(s: seq<T>, p: T -> bool)
    ensures (forall i :: 0 <= i < |s| ==> !p(s[i])) <==> Count(s, p) == 0
  {
    if Count(s, p) == 0 {
      forall i | 0 <= i < |s| ensures !p(s[i]) {
        if p(s[i]) { CountPositive(s, i, p); }
      }
    } else {
      var i := CountWitness(s, p);
    }
  }

  lemma {:induction false} CountWitness<T>(s: seq<T>, p: T -> bool) returns (i: nat)
    requires Count(s, p) > 0
    ensures i < |s| && p(s[i])
  {
    if p(s[|s| - 1]) {
      i := |s| - 1;
    } else {
      i := CountWitness(s[..|s| - 1], p);
    }
  }

  lemma {:induction false} CountGap<T>(s: seq<T>, p: T -> bool) returns (i: nat)
    requires Count(s, p) < |s|
    ensures i < |s| && !p(s[i])
  {
    if !p(s[|s| - 1]) {
      i := |s| - 1;
    } else {
      i := CountGap(s[..|s| - 1], p);
    }
  }

  lemma CountSame<T>(s: seq<T>, p: T -> bool, q: T -> bool)
    requires forall x :: x in s ==> (p(x) <==> q(x))
    ensures Count(s, p) == Count(s, q)
  {
    CountWeaker(s, p, q);
    CountWeaker(s, q, p);
  }

  lemma {:induction false} CountWeaker<T>(s: seq<T>, p: T -> bool, q: T -> bool)
    requires forall x :: x in s && p(x) ==> q(x)
    ensures Count(s, p) <= Count(s, q)
  {
    if s != [] { CountWeaker(s[..|s| - 1], p, q); }
  }
}
