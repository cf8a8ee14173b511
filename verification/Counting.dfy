/** How many threads are in a given phase, for any number of threads. */
module Counting {
  /** The number of positions of `s` that hold `p`. */
  function Count<P(==)>(s: seq<P>, p: P): nat {
    if s == [] then 0 else (if s[0] == p then 1 else 0) + Count(s[1..], p)
  }

  /** 1 if `x` is `p`, the share of one thread in the count of `p`. */
  function One<P(==)>(x: P, p: P): nat {
    if x == p then 1 else 0
  }

  lemma {:induction false} CountUpdate<P>(s: seq<P>, t: nat, x: P, p: P)
    requires t < |s|
    ensures Count(s[t := x], p) == Count(s, p) - One(s[t], p) + One(x, p)
  {
    if t == 0 {
      assert s[t := x][1..] == s[1..];
    } else {
      assert s[t := x][1..] == s[1..][t - 1 := x];
      CountUpdate(s[1..], t - 1, x, p);
    }
  }

  lemma {:induction false} CountAppend<P>(s: seq<P>, x: P, p: P)
    ensures Count(s + [x], p) == Count(s, p) + One(x, p)
  {
    if s == [] {
    } else {
      assert (s + [x])[1..] == s[1..] + [x];
      CountAppend(s[1..], x, p);
    }
  }

  lemma {:induction false} CountPositive<P>(s: seq<P>, p: P)
    ensures Count(s, p) > 0 <==> p in s
  {
    if s == [] {
    } else {
      CountPositive(s[1..], p);
    }
  }

  lemma {:induction false} CountAt<P>(s: seq<P>, t: nat)
    requires t < |s|
    ensures Count(s, s[t]) > 0
  {
    CountPositive(s, s[t]);
  }

  /** Distinct phases share the threads. */
  lemma {:induction false} CountsFit<P>(s: seq<P>, p: P, q: P)
    requires p != q
    ensures Count(s, p) + Count(s, q) <= |s|
  {
    if s == [] {
    } else {
      CountsFit(s[1..], p, q);
    }
  }
}
