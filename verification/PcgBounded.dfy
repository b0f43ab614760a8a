/** bounded_rand of base/pcg-random/pcg_extras.hpp: why rejecting the words below the threshold makes every
    result equally likely. */
module PcgBounded {
  import opened Modular
  import opened Bits

  /** The threshold, computed in words of w bits: (2^w - bound) % bound. */
  function Threshold(w: nat, bound: nat): (t: nat)
    requires 0 < bound < Pow2(w)
    ensures t < bound
  {
    (Pow2(w) - bound) % bound
  }

  /** The largest word is accepted for every bound. */
  lemma ThresholdSmall(w: nat, bound: nat)
    requires 0 < bound < Pow2(w)
    ensures Threshold(w, bound) <= Pow2(w) - 1
  {
  }

  /** How many words of [lo, hi) have remainder v. */
  function Hits(lo: nat, hi: nat, bound: nat, v: nat): nat
    requires lo <= hi && bound > 0
    decreases hi
  {
    if lo == hi then 0 else Hits(lo, hi - 1, bound, v) + (if (hi - 1) % bound == v then 1 else 0)
  }

  lemma {:induction false} HitsSplit(lo: nat, mid: nat, hi: nat, bound: nat, v: nat)
    requires lo <= mid <= hi && bound > 0
    ensures Hits(lo, hi, bound, v) == Hits(lo, mid, bound, v) + Hits(mid, hi, bound, v)
    decreases hi
  {
    if mid < hi {
      HitsSplit(lo, mid, hi - 1, bound, v);
    }
  }

  lemma {:induction false} HitsBelowBound(n: nat, bound: nat, v: nat)
    requires n <= bound && bound > 0
    ensures Hits(0, n, bound, v) == if v < n then 1 else 0
    decreases n
  {
    if n > 0 {
      HitsBelowBound(n - 1, bound, v);
      ModSmall(n - 1, bound);
    }
  }

  /** Any bound consecutive words contain each remainder exactly once. */
  lemma {:induction false} HitsInBlock(lo: nat, bound: nat, v: nat)
    requires v < bound
    ensures Hits(lo, lo + bound, bound, v) == 1
    decreases lo
  {
    if lo == 0 {
      HitsBelowBound(bound, bound, v);
    } else {
      HitsInBlock(lo - 1, bound, v);
      HitsSplit(lo - 1, lo, lo - 1 + bound, bound, v);
      HitsSplit(lo, lo + bound - 1, lo + bound, bound, v);
      assert Hits(lo - 1, lo, bound, v) == if (lo - 1) % bound == v then 1 else 0 by {
        assert Hits(lo - 1, lo - 1, bound, v) == 0;
      }
      assert Hits(lo + bound - 1, lo + bound, bound, v) == if (lo + bound - 1) % bound == v then 1 else 0 by {
        assert Hits(lo + bound - 1, lo + bound - 1, bound, v) == 0;
      }
      ModEqual(lo + bound - 1, lo - 1, bound, 1);
    }
  }

  lemma {:induction false} HitsInBlocks(lo: nat, q: nat, bound: nat, v: nat)
    requires v < bound
    ensures Hits(lo, lo + bound * q, bound, v) == q
    decreases q
  {
    if q > 0 {
      HitsInBlocks(lo, q - 1, bound, v);
      assert bound * q == bound * (q - 1) + bound;
      HitsSplit(lo, lo + bound * (q - 1), lo + bound * q, bound, v);
      HitsInBlock(lo + bound * (q - 1), bound, v);
    }
  }

  /** The accepted words split evenly into whole blocks. */
  lemma ThresholdValue(w: nat, bound: nat)
    requires 0 < bound < Pow2(w)
    ensures Threshold(w, bound) == Pow2(w) % bound
    ensures Pow2(w) == Threshold(w, bound) + bound * (Pow2(w) / bound)
    ensures Pow2(w) / bound >= 0
  {
    hide Pow2;
    ModEqual(Pow2(w), Pow2(w) - bound, bound, 1);
    DivNonneg(Pow2(w), bound);
  }

  /** Among the accepted words every result below the bound has exactly floor(2^w / bound) preimages. */
  lemma Unbiased(w: nat, bound: nat, v: nat)
    requires v < bound < Pow2(w)
    ensures Threshold(w, bound) <= Pow2(w)
    ensures Hits(Threshold(w, bound), Pow2(w), bound, v) == Pow2(w) / bound
  {
    ThresholdValue(w, bound);
    HitsInBlocks(Threshold(w, bound), Pow2(w) / bound, bound, v);
  }

  /** The set of accepted words that give v, whose size the counting function computes. */
  lemma {:induction false} HitsCountsSet(lo: nat, hi: nat, bound: nat, v: nat)
    requires lo <= hi && bound > 0
    ensures |set r: nat | lo <= r < hi && r % bound == v| == Hits(lo, hi, bound, v)
    decreases hi
  {
    var all := set r: nat | lo <= r < hi && r % bound == v;
    if lo == hi {
      assert all == {};
    } else {
      HitsCountsSet(lo, hi - 1, bound, v);
      var fewer := set r: nat | lo <= r < hi - 1 && r % bound == v;
      if (hi - 1) % bound == v {
        assert all == fewer + {hi - 1};
      } else {
        assert all == fewer;
      }
    }
  }
}
