/**
 The font-size search at the heart of FontFitTextView.refitText.

 The view looks for the text size at which the rendered text just fits a
 target width. It keeps a bracket [lo, hi] that starts at [2, 100] pixels and
 halves it until it is no wider than 0.5 pixels. At each step the midpoint is
 measured: a midpoint whose text is at least as wide as the target becomes
 the new `hi`, any other midpoint becomes the new `lo`. The size finally
 applied is `lo`.

 refitText computes in 32-bit floats. Every value the search reaches is
 2 plus a multiple of 98/256, a dyadic rational with few significant bits, so
 the model uses exact `real`s and loses nothing. The measurement of the text
 at a size (the paint object's `measureText` after `setTextSize`) is a
 function parameter.
 */
module FontFit {

  /** Rendered width, in pixels, of a text drawn at a given size in pixels. */
  type Measure = (string, real) -> real

  /** The fixed search bracket and the width at which the search stops. */
  const MinSize: real := 2.0
  const MaxSize: real := 100.0
  const Threshold: real := 0.5

  /** The number of halvings that takes the bracket from 98 wide to at most 0.5. */
  const Rounds: nat := 8

  datatype Bracket = Bracket(lo: real, hi: real) {
    function Width(): real { hi - lo }
  }

  const Initial: Bracket := Bracket(MinSize, MaxSize)

  /** 2 to the power -k. */
  function Halves(k: nat): (r: real)
    ensures r > 0.0
  {
    if k == 0 then 1.0 else Halves(k - 1) / 2.0
  }

  /** Width of the bracket after `k` halvings of the initial one, which is
      MaxSize - MinSize = 98 wide (written as a literal to keep the
      arithmetic linear). */
  function WidthAfter(k: nat): real {
    98.0 * Halves(k)
  }

  /** Text drawn at `size` is strictly narrower than the target: the search
      treats such a size as "too small", every other one as "too big". */
  predicate Fits(m: Measure, text: string, target: int, size: real) {
    m(text, size) < target as real
  }

  /** The measurement grows (weakly) with the size, for this text. */
  ghost predicate Monotone(m: Measure, text: string) {
    forall x: real, y: real :: x <= y ==> m(text, x) <= m(text, y)
  }

  /** What the search keeps true of its bracket: it lies inside [2, 100], its
      lower end is 2 or a size that fits, and its upper end is 100 or a size
      that does not fit. */
  predicate Separates(m: Measure, text: string, target: int, b: Bracket) {
    && MinSize <= b.lo < b.hi <= MaxSize
    && (b.lo == MinSize || Fits(m, text, target, b.lo))
    && (b.hi == MaxSize || !Fits(m, text, target, b.hi))
  }

  /** One round of the search: measure the midpoint; a midpoint whose text is
      at least as wide as the target becomes the new upper end, any other
      midpoint the new lower end. */
  function Step(m: Measure, text: string, target: int, b: Bracket): Bracket {
    var mid := (b.hi + b.lo) / 2.0;
    if !Fits(m, text, target, mid) then Bracket(b.lo, mid) else Bracket(mid, b.hi)
  }

  /** One round moves exactly one end of the bracket to the midpoint, halving
      it, and the moved end lands on its proper side of the target. */
  lemma StepHalvesAndSeparates(m: Measure, text: string, target: int, b: Bracket)
    requires b.lo < b.hi
    ensures var r := Step(m, text, target, b);
      && b.lo <= r.lo < r.hi <= b.hi
      && r.Width() == b.Width() / 2.0
      && (r.lo == b.lo) != (r.hi == b.hi)
      && (r.lo == b.lo || Fits(m, text, target, r.lo))
      && (r.hi == b.hi || !Fits(m, text, target, r.hi))
      && (Separates(m, text, target, b) ==> Separates(m, text, target, r))
  {
  }

  /** The bracket after `k` rounds of the search, with no stopping test: the
      reference against which the loop of SearchSize is checked. */
  function Iterate(m: Measure, text: string, target: int, k: nat): (r: Bracket)
    ensures Separates(m, text, target, r)
    ensures r.Width() == WidthAfter(k)
    decreases k
  {
    if k == 0 then Initial
    else
      var prev := Iterate(m, text, target, k - 1);
      StepHalvesAndSeparates(m, text, target, prev);
      WidthHalves(k - 1);
      Step(m, text, target, prev)
  }

  lemma WidthHalves(k: nat)
    ensures WidthAfter(k + 1) == WidthAfter(k) / 2.0
  {
  }

  lemma {:induction false} HalvesDecreasing(i: nat, j: nat)
    requires i <= j
    ensures Halves(j) <= Halves(i)
    decreases j
  {
    if i < j {
      HalvesDecreasing(i, j - 1);
    }
  }

  /** The loop guard `hi - lo > 0.5` holds after exactly the first `Rounds`
      halvings and fails from then on, whatever the text and the target. */
  lemma LoopGuardHoldsBeforeRounds(k: nat)
    ensures WidthAfter(k) > Threshold <==> k < Rounds
  {
    if k < Rounds {
      HalvesDecreasing(k, Rounds - 1);
      assert Halves(Rounds - 1) == 1.0 / 128.0;
    } else {
      HalvesDecreasing(Rounds, k);
      assert Halves(Rounds) == 1.0 / 256.0;
    }
  }

  /** The bracket the search ends with. */
  function FitBracket(m: Measure, text: string, target: int): (r: Bracket)
    ensures MinSize <= r.lo < r.hi <= MaxSize
    ensures r.Width() == 98.0 / 256.0
    ensures r.Width() <= Threshold < 2.0 * r.Width()
    ensures r.lo == MinSize || Fits(m, text, target, r.lo)
    ensures r.hi == MaxSize || !Fits(m, text, target, r.hi)
  {
    assert Halves(Rounds) == 1.0 / 256.0;
    Iterate(m, text, target, Rounds)
  }

  /** The size refitText applies for a positive offered width. */
  function FitSize(m: Measure, text: string, target: int): real {
    FitBracket(m, text, target).lo
  }

  /**
   The loop of refitText. `rounds` is a ghost count of iterations; since a
   `real` cannot serve as a termination measure, the loop terminates because
   the count rises towards `Rounds`.
   */
  method SearchSize(m: Measure, text: string, target: int) returns (size: real, ghost rounds: nat)
    ensures size == FitSize(m, text, target)
    ensures rounds == Rounds
    ensures MinSize <= size < MaxSize
    ensures size == MinSize || Fits(m, text, target, size)
  {
    var b := Initial;
    rounds := 0;
    // Iterate's contract carries the search invariant (2 <= lo < hi <= 100,
    // each end on its side of the target) and the width 98 / 2^rounds.
    while b.hi - b.lo > Threshold
      invariant rounds <= Rounds
      invariant b == Iterate(m, text, target, rounds)
      decreases Rounds - rounds
    {
      LoopGuardHoldsBeforeRounds(rounds);
      b := Step(m, text, target, b);
      rounds := rounds + 1;
    }
    LoopGuardHoldsBeforeRounds(rounds);
    size := b.lo;
  }

  /** With a monotone measurement no fitting size in the bracket lies more than
      the threshold above the result, and every size below the result fits
      unless the result is the lower bound. */
  lemma MonotoneFitIsNearMaximal(m: Measure, text: string, target: int, s: real)
    requires Monotone(m, text)
    ensures s <= MaxSize && Fits(m, text, target, s) ==> s < FitSize(m, text, target) + Threshold
    ensures FitSize(m, text, target) > MinSize && s <= FitSize(m, text, target) ==> Fits(m, text, target, s)
  {
    var b := FitBracket(m, text, target);
    assert b.hi <= s ==> m(text, b.hi) <= m(text, s);
    assert s <= b.lo ==> m(text, s) <= m(text, b.lo);
  }

  /** When no size fits, the lower end of the bracket never moves. */
  lemma NothingFitsGivesMinimum(m: Measure, text: string, target: int)
    requires forall s: real :: !Fits(m, text, target, s)
    ensures FitSize(m, text, target) == MinSize
  {
    var b := FitBracket(m, text, target);
    assert !Fits(m, text, target, b.lo);
  }

  /** A non-positive target with a non-negative measurement leaves the result
      at the lower bound 2. */
  lemma NonPositiveTargetGivesMinimum(m: Measure, text: string, target: int)
    requires target <= 0
    requires forall s: real :: m(text, s) >= 0.0
    ensures FitSize(m, text, target) == MinSize
  {
    forall s: real ensures !Fits(m, text, target, s) {
      assert m(text, s) >= 0.0;
    }
    NothingFitsGivesMinimum(m, text, target);
  }

  /** When every size fits, the upper end never moves and the result is one
      final bracket width below 100, not 100 itself. */
  lemma EverythingFitsGivesTop(m: Measure, text: string, target: int)
    requires forall s: real :: Fits(m, text, target, s)
    ensures FitSize(m, text, target) == MaxSize - WidthAfter(Rounds)
    ensures FitSize(m, text, target) == 99.6171875
  {
    var b := FitBracket(m, text, target);
    assert Fits(m, text, target, b.hi);
    assert Halves(Rounds) == 1.0 / 256.0;
    assert b == Iterate(m, text, target, Rounds);
  }

  /** Text 5 pixels wide per unit of size, 200 pixels offered and 10 pixels of
      padding on each side: the result lies within the threshold below 36. */
  lemma LinearMeasureScenario()
    ensures var r := FitSize((t: string, s: real) => 5.0 * s, "Hello", 200 - 10 - 10);
      35.5 < r < 36.0
  {
    var m := (t: string, s: real) => 5.0 * s;
    var b := FitBracket(m, "Hello", 180);
    assert b.hi >= 36.0;
  }

  /** A measurement that is always 1 pixel fits every size. */
  lemma ConstantMeasureScenario()
    ensures FitSize((t: string, s: real) => 1.0, "Hello", 180) == 99.6171875
  {
    EverythingFitsGivesTop((t: string, s: real) => 1.0, "Hello", 180);
  }
}
