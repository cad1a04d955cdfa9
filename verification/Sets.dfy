/** Finite sets of numbers, and the runs of consecutive ones that blocks of frames are. */
module Sets {

  predicate Within(x: nat, p: nat, n: nat) {
    p <= x < p + n
  }

  /** The run of n numbers from p. */
  function Block(p: nat, n: nat): (s: set<nat>)
    ensures forall x: nat :: x in s <==> p <= x < p + n
  {
    set x: nat | x < p + n && Within(x, p, n)
  }

  lemma {:induction false} BlockSize(p: nat, n: nat)
    ensures |Block(p, n)| == n
  {
    if n == 0 {
      assert Block(p, n) == {};
    } else {
      assert Block(p, n) == Block(p, n - 1) + {p + n - 1};
      BlockSize(p, n - 1);
    }
  }

  lemma SubsetSize(a: set<nat>, b: set<nat>)
    requires a <= b
    ensures |b - a| == |b| - |a|
  {
    assert b == a + (b - a);
  }
}
