/** A step taken over and over. */
module Iteration {

  function Iterate<S>(f: S -> S, n: nat, s: S): S
    decreases n
  {
    if n == 0 then s else Iterate(f, n - 1, f(s))
  }

  lemma {:induction false} IterateLast<S>(f: S -> S, n: nat, s: S)
    ensures Iterate(f, n + 1, s) == f(Iterate(f, n, s))
  {
    if n > 0 { IterateLast(f, n - 1, f(s)); }
  }

  lemma {:induction false} IterateKeeps<S>(f: S -> S, kept: S -> bool, n: nat, s: S)
    requires kept(s) && forall x :: kept(x) ==> kept(f(x))
    ensures kept(Iterate(f, n, s))
    decreases n
  {
    if n > 0 { IterateKeeps(f, kept, n - 1, f(s)); }
  }

  lemma {:induction false} FixedPoint<S>(f: S -> S, n: nat, s: S)
    requires f(s) == s
    ensures Iterate(f, n, s) == s
  {
    if n > 0 { FixedPoint(f, n - 1, s); }
  }
}
