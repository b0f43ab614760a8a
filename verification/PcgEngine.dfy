/** The engine class of base/pcg-random/pcg_random.hpp, with the stream constants and bounded_rand. */
module PcgEngine {
  import opened Modular
  import opened Bits
  import opened Pcg
  import opened PcgDistance
  import opened PcgPeriod
  import opened PcgOutput
  import opened PcgBounded
  import opened PcgTruncated

  lemma StreamOdd(x: nat, w: nat)
    requires w >= 1 && x < Pow2(w)
    ensures Or(x, 1) % 2 == 1 && Or(x, 1) < Pow2(w)
  {
    OrBelow(x, 1, w);
  }

  /** The increment selected by a stream number: shifted left with the low bit set, hence odd. */
  function StreamIncrement(stream: nat, w: nat): (inc: nat)
    requires w >= 1
    ensures inc % 2 == 1 && inc < Pow2(w)
  {
    StreamOdd(Shl(stream, 1, w), w);
    Or(Shl(stream, 1, w), 1)
  }

  /** The increment as a number: of a stream, what fits in the word counts, and that is what stream() gives back. */
  lemma StreamNumber(stream: nat, w: nat)
    requires w >= 1
    ensures StreamIncrement(stream, w) == (2 * stream + 1) % Pow2(w)
    ensures Shr(StreamIncrement(stream, w), 1) == stream % Pow2(w - 1)
  {
    hide Or;
    var half, low := Pow2(w - 1), stream % Pow2(w - 1);
    var q := stream / half;
    assert Pow2(1) == 2 && Pow2(w) == 2 * half;
    assert stream == half * q + low;
    assert 2 * stream == q * (2 * half) + 2 * low;
    DivModUnique(2 * stream, 2 * half, q, 2 * low);
    OddResidue(stream, half);
    assert Shl(stream, 1, w) == low * Pow2(1);
    OrAdds(low, 1, 1);
  }

  /** Two streams have the same increment exactly if they agree modulo 2^(w-1): each of the 2^(w-1) streams has its
      own. */
  lemma StreamsDistinct(stream: nat, other: nat, w: nat)
    requires w >= 1
    ensures StreamIncrement(stream, w) == StreamIncrement(other, w) <==> stream % Pow2(w - 1) == other % Pow2(w - 1)
  {
    hide StreamIncrement;
    StreamNumber(stream, w);
    StreamNumber(other, w);
    OddResidue(stream, Pow2(w - 1));
    OddResidue(other, Pow2(w - 1));
  }

  lemma OddResidue(x: nat, half: nat)
    requires half > 0
    ensures (2 * x + 1) % (2 * half) == 2 * (x % half) + 1
  {
    var q, low := x / half, x % half;
    assert 2 * x == q * (2 * half) + 2 * low;
    DivModUnique(2 * x + 1, 2 * half, q, 2 * low + 1);
  }

  /** The output of draw number j from state x on: of the state before its step or of the one after. */
  ghost function Draw(m: nat, p: nat, w: nat, x: nat, output: nat -> nat, previous: bool, j: nat): nat {
    output(Iterate(m, p, w, if previous then j else j + 1, x))
  }

  class Engine {
    const w: nat
    const mcg: bool
    const multiplier: nat
    var increment: nat
    var state: nat

    ghost predicate Valid()
      reads this
    {
      Params(mcg, multiplier, increment) && multiplier < Pow2(w) && increment < Pow2(w) && ValidState(mcg, w, state)
    }

    /** The state after n more steps. */
    ghost function After(n: nat): nat
      reads this
    {
      Iterate(multiplier, increment, w, n, state)
    }

    constructor (w: nat, mcg: bool, multiplier: nat, increment: nat, seed: nat)
      requires Params(mcg, multiplier, increment) && multiplier < Pow2(w) && increment < Pow2(w) && seed < Pow2(w)
      requires mcg ==> w >= 2
      ensures Valid() && this.w == w && this.mcg == mcg && this.multiplier == multiplier && this.increment == increment
      ensures state == if mcg then Or(seed, 3) else Step(multiplier, increment, w, (seed + increment) % Pow2(w))
    {
      this.w, this.mcg, this.multiplier, this.increment := w, mcg, multiplier, increment;
      if mcg {
        state := Or(seed, 3);
      } else {
        state := Step(multiplier, increment, w, (seed + increment) % Pow2(w));
      }
      new;
      if mcg {
        LowBitsSet(seed, w);
      }
    }

    /** specific_stream::set_stream keeps the generator at full period. */
    method SetStream(stream: nat)
      requires Valid() && !mcg && w >= 1
      modifies this`increment
      ensures Valid() && increment == StreamIncrement(stream, w)
    {
      increment := StreamIncrement(stream, w);
    }

    method BaseGenerate0() returns (previous: nat)
      requires Valid()
      modifies this`state
      ensures Valid() && previous == old(state) && state == old(After(1))
    {
      hide Params, ValidState;
      StepValid(mcg, multiplier, increment, w, state);
      IterateUnfold(multiplier, increment, w, 1, state);
      IterateUnfold(multiplier, increment, w, 0, Step(multiplier, increment, w, state));
      previous := state;
      state := Step(multiplier, increment, w, state);
    }

    /** Jump ahead: as delta single steps. */
    method AdvanceBy(delta: nat)
      requires Valid() && delta < Pow2(w)
      modifies this`state
      ensures Valid() && state == old(After(delta))
    {
      hide Params;
      IterateValid(mcg, multiplier, increment, w, delta, state);
      state := Advance(state, delta, multiplier, increment, w);
    }

    /** Jump back: the state from which delta steps lead to where we were. */
    method Backstep(delta: nat)
      requires Valid() && delta < Pow2(w)
      modifies this`state
      ensures Valid() && After(delta) == old(state)
    {
      ghost var s := state;
      BackAndForth(mcg, multiplier, increment, w, delta, s);
      AdvanceBy(Negated(delta, w));
    }

    ghost function Drawn(output: nat -> nat, previous: bool, j: nat): nat
      reads this
    {
      Draw(multiplier, increment, w, state, output, previous, j)
    }

    /** operator(): one step, with the output function applied to the old or the new state. */
    method Generate(output: nat -> nat, outputPrevious: bool) returns (r: nat)
      requires Valid()
      modifies this`state
      ensures Valid() && state == old(After(1)) && r == old(Drawn(output, outputPrevious, 0))
    {
      hide Params, ValidState, Iterate;
      IterateUnfold(multiplier, increment, w, 0, state);
      var old_state := BaseGenerate0();
      r := output(if outputPrevious then old_state else state);
    }

    /** How many steps lead from here to a state with the target's bits under the mask, below the period. Under the full
        mask it is the least number of steps to the target. */
    method DistanceTo(target: nat, mask: nat) returns (d: nat)
      requires Valid() && ValidState(mcg, w, target)
      ensures d < Pow2(w - LowBit(mcg)) && And(After(d), mask) == And(target, mask)
      ensures mask == Pow2(w) - 1 ==> After(d) == target && forall e: nat :: e < d ==> After(e) != target
    {
      d := Distance(state, target, multiplier, increment, w, mcg, mask);
      forall e: nat | mask == Pow2(w) - 1 && e < d ensures After(e) != target {
        if After(e) == target {
          DistanceUnique(mcg, multiplier, increment, w, state, e, d);
        }
      }
    }

    /** bounded_rand for any output function with results of `bits` bits. The rejection loop ends, within one period,
        exactly when some valid state has an accepted output; accepted is such a state. */
    method BoundedRand(bound: nat, bits: nat, output: nat -> nat, outputPrevious: bool, ghost accepted: nat)
      returns (result: nat, ghost draws: nat)
      requires Valid() && 0 < bound < Pow2(bits)
      requires ValidState(mcg, w, accepted) && output(accepted) >= Threshold(bits, bound)
      modifies this`state
      ensures Valid() && 1 <= draws <= Pow2(w - LowBit(mcg)) && state == old(After(draws))
      ensures old(Drawn(output, outputPrevious, draws - 1)) >= Threshold(bits, bound)
      ensures result == old(Drawn(output, outputPrevious, draws - 1)) % bound < bound
      ensures forall j: nat :: j + 1 < draws ==> old(Drawn(output, outputPrevious, j)) < Threshold(bits, bound)
    {
      hide Params, ValidState, Iterate, Threshold, Pow2;
      var threshold := Threshold(bits, bound);
      ghost var last := ReachedAfter(mcg, multiplier, increment, w, if outputPrevious then 0 else 1, state, accepted);
      ghost var start := state;
      IterateUnfold(multiplier, increment, w, 0, start);
      var raw := 0;
      draws := 0;
      var done := false;
      while !done
        invariant Valid() && increment == old(increment) && state == Iterate(multiplier, increment, w, draws, start)
        invariant done ==> 1 <= draws && raw >= threshold
        invariant done ==> raw == Draw(multiplier, increment, w, start, output, outputPrevious, draws - 1)
        invariant (if done then draws - 1 else draws) <= last
        invariant forall j: nat :: j < (if done then draws - 1 else draws) ==>
          Draw(multiplier, increment, w, start, output, outputPrevious, j) < threshold
        decreases last + 1 - draws, !done
      {
        IterateAdd(multiplier, increment, w, draws, 1, start);
        DrawLater(multiplier, increment, w, start, output, outputPrevious, draws);
        raw := Generate(output, outputPrevious);
        done := raw >= threshold;
        draws := draws + 1;
      }
      result := raw % bound;
    }

    /** bounded_rand of the generators in use with half as many result bits as state bits, such as pcg32 and pcg64: it
        always ends within one period. */
    method BoundedHalf(bound: nat, r: nat, mixin: Mixin, outputPrevious: bool) returns (result: nat, ghost draws: nat)
      requires Valid() && Sizes(w, r) && 0 < bound < Pow2(r)
      modifies this`state
      ensures Valid() && 1 <= draws <= Pow2(w - LowBit(mcg)) && state == old(After(draws))
      ensures var raw := old(Drawn(HalfFunction(mixin, w, r), outputPrevious, draws - 1));
        raw >= Threshold(r, bound) && result == raw % bound < bound
      ensures forall j: nat :: j + 1 < draws ==>
        old(Drawn(HalfFunction(mixin, w, r), outputPrevious, j)) < Threshold(r, bound)
    {
      hide HalfOutput, Threshold, ValidState, Params, Iterate, Pow2;
      ghost var accepted := HalfAccepts(mixin, mcg, w, r, bound);
      result, draws := BoundedRand(bound, r, HalfFunction(mixin, w, r), outputPrevious, accepted);
    }
  }

  lemma DrawLater(m: nat, p: nat, w: nat, x: nat, output: nat -> nat, previous: bool, j: nat)
    ensures Draw(m, p, w, Iterate(m, p, w, j, x), output, previous, 0) == Draw(m, p, w, x, output, previous, j)
  {
    hide Iterate;
    IterateAdd(m, p, w, j, if previous then 0 else 1, x);
  }

  /** If no valid state has an accepted output, no draw is ever accepted. */
  lemma NeverAccepted(mcg: bool, m: nat, p: nat, w: nat, x: nat, output: nat -> nat, previous: bool, t: nat, j: nat)
    requires Params(mcg, m, p) && ValidState(mcg, w, x)
    requires forall y: nat :: ValidState(mcg, w, y) ==> output(y) < t
    ensures Draw(m, p, w, x, output, previous, j) < t
  {
    IterateValid(mcg, m, p, w, if previous then j else j + 1, x);
  }

  /** Every valid state is met within one period, also when looking at the states some steps later. */
  lemma ReachedAfter(mcg: bool, m: nat, p: nat, w: nat, offset: nat, x: nat, target: nat) returns (n: nat)
    requires Params(mcg, m, p) && ValidState(mcg, w, x) && ValidState(mcg, w, target)
    ensures n < Pow2(w - LowBit(mcg)) && Iterate(m, p, w, n + offset, x) == target
  {
    IterateValid(mcg, m, p, w, offset, x);
    var y := Iterate(m, p, w, offset, x);
    SameLowBits(mcg, w, y, target);
    hide Params, ValidState, Iterate;
    n := Reaches(mcg, m, p, w, 0, y, target);
    IterateAdd(m, p, w, offset, n, x);
  }

  lemma SameLowBits(mcg: bool, w: nat, x: nat, y: nat)
    requires ValidState(mcg, w, x) && ValidState(mcg, w, y)
    ensures x % Pow2(LowBit(mcg)) == y % Pow2(LowBit(mcg)) && LowBit(mcg) <= w
  {
    assert Pow2(2) == 4;
  }

  lemma BackAndForth(mcg: bool, m: nat, p: nat, w: nat, delta: nat, x: nat)
    requires Params(mcg, m, p) && ValidState(mcg, w, x) && delta < Pow2(w)
    ensures Iterate(m, p, w, delta, Iterate(m, p, w, Negated(delta, w), x)) == x
  {
    hide Params, Iterate, Pow2, Negated;
    MultiplierOdd(mcg, m, p);
    NegatedValue(delta, w);
    IterateAdd(m, p, w, Negated(delta, w), delta, x);
    FullTurn(m, p, w, x);
    IterateUnfold(m, p, w, 0, x);
  }

  /** RXS-M-XS on a generator with an increment always has an accepted output: the state whose output is the largest
      word. */
  lemma RxsAccepts(w: nat, bound: nat, outputMultiplier: nat, outputInverse: nat) returns (accepted: nat)
    requires w >= 8 && 0 < bound < Pow2(w) && outputMultiplier * outputInverse % Pow2(w) == 1
    ensures ValidState(false, w, accepted) && Output(accepted, w, outputMultiplier) >= Threshold(w, bound)
  {
    accepted := Unoutput(Pow2(w) - 1, w, outputInverse);
    OutputInverts(Pow2(w) - 1, w, outputMultiplier, outputInverse);
    ThresholdSmall(w, bound);
  }
}
