/** Cutting a sequence into pieces of a fixed size. */
module Pieces {

  /** Consecutive pieces of `n` elements; the last one may be shorter. */
  function Cut<T>(s: seq<T>, n: nat): seq<seq<T>>
    requires n > 0
    decreases |s|
  {
    if s == [] then []
    else if |s| <= n then [s]
    else [s[..n]] + Cut(s[n..], n)
  }

  function Concat<T>(pieces: seq<seq<T>>): seq<T> {
    if pieces == [] then [] else pieces[0] + Concat(pieces[1..])
  }

  /** `k` is `x / n`, rounded up. */
  ghost predicate IsCeil(k: int, x: int, n: int)
  {
    (k - 1) * n < x <= k * n
  }

  /** Cutting loses nothing, and every piece but the last is full. */
  lemma {:induction false} CutKeeps<T>(s: seq<T>, n: nat)
    requires n > 0
    ensures Concat(Cut(s, n)) == s
    ensures forall i | 0 <= i < |Cut(s, n)| :: 1 <= |Cut(s, n)[i]| <= n
    ensures forall i | 0 <= i < |Cut(s, n)| - 1 :: |Cut(s, n)[i]| == n
    decreases |s|
  {
    if s == [] {
    } else if |s| <= n {
      assert Cut(s, n)[1..] == [];
      assert Concat(Cut(s, n)) == s + [];
    } else {
      CutKeeps(s[n..], n);
      assert Cut(s, n)[1..] == Cut(s[n..], n);
      assert s[..n] + s[n..] == s;
    }
  }

  lemma {:induction false} CutCount<T>(s: seq<T>, n: nat)
    requires n > 0
    ensures IsCeil(|Cut(s, n)|, |s|, n)
    decreases |s|
  {
    if |s| > n {
      CutCount(s[n..], n);
      CeilStep(|Cut(s[n..], n)|, |s| - n, n);
    }
  }

  lemma {:induction false} CeilStep(k: int, x: int, n: int)
    requires IsCeil(k, x, n)
    ensures IsCeil(k + 1, x + n, n)
  {
    assert (k + 1) * n == k * n + n;
    assert (k - 1) * n == k * n - n;
  }

  lemma {:induction false} ConcatAppend<T>(a: seq<seq<T>>, b: seq<seq<T>>)
    ensures Concat(a + b) == Concat(a) + Concat(b)
    decreases |a|
  {
    if a == [] {
      assert a + b == b;
    } else {
      ConcatAppend(a[1..], b);
      assert (a + b)[1..] == a[1..] + b;
    }
  }

}
