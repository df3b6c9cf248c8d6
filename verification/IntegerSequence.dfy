/** The compile-time integer sequence that is built by halving. */
module IntegerSequence {

  /** concat_integer_sequence: the second sequence is shifted by the length of the first. */
  function Concat(a: seq<nat>, b: seq<nat>): seq<nat> {
    a + seq(|b|, i requires 0 <= i < |b| => |a| + b[i])
  }

  /** make_integer_sequence */
  function Make(n: nat): seq<nat> {
    if n == 0 then []
    else if n == 1 then [0]
    else Concat(Make(n / 2), Make(n - n / 2))
  }

  function UpTo(n: nat): seq<nat> {
    seq(n, i => i)
  }

  /** The result is 0, 1, .., n - 1. */
  lemma {:induction false} MakeIsUpTo(n: nat)
    ensures Make(n) == UpTo(n)
    ensures |Make(n)| == n && forall i :: 0 <= i < n ==> Make(n)[i] == i
  {
    if n >= 2 {
      MakeIsUpTo(n / 2);
      MakeIsUpTo(n - n / 2);
      ConcatUpTo(n / 2, n - n / 2);
    }
  }

  lemma ConcatUpTo(m: nat, n: nat)
    ensures Concat(UpTo(m), UpTo(n)) == UpTo(m + n)
  {
  }

  /** Depth of the template recursion. */
  function Depth(n: nat): nat {
    if n < 2 then 0
    else 1 + if Depth(n / 2) > Depth(n - n / 2) then Depth(n / 2) else Depth(n - n / 2)
  }

  function Pow2(k: nat): nat {
    if k == 0 then 1 else 2 * Pow2(k - 1)
  }

  /** Both halves are built, but the larger one decides. */
  lemma {:induction false} DepthIsMonotone(m: nat, n: nat)
    requires m <= n
    ensures Depth(m) <= Depth(n)
    decreases n
  {
    if m >= 2 {
      DepthIsMonotone(m / 2, n / 2);
      DepthIsMonotone(m - m / 2, n - n / 2);
      DepthIsMonotone(n / 2, n - n / 2);
      DepthIsMonotone(m / 2, m - m / 2);
    }
  }

  /** The depth is the ceiling of the binary logarithm: the least k with n <= 2^k. */
  lemma {:induction false} DepthIsLogarithm(n: nat)
    requires n >= 1
    ensures n <= Pow2(Depth(n))
    ensures forall k: nat :: n <= Pow2(k) ==> Depth(n) <= k
  {
    hide Depth;
    if n >= 2 {
      LargerHalfDecides(n);
      var half := n - n / 2;
      DepthIsLogarithm(half);
      forall k: nat | n <= Pow2(k)
        ensures Depth(n) <= k
      {
        assert k > 0 && half <= Pow2(k - 1);
      }
    } else {
      DepthOfOne();
    }
  }

  lemma DepthOfOne()
    ensures Depth(1) == 0
  {
  }

  lemma LargerHalfDecides(n: nat)
    requires n >= 2
    ensures Depth(n) == 1 + Depth(n - n / 2)
  {
    DepthIsMonotone(n / 2, n - n / 2);
  }
}
