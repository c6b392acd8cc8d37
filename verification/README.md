# FontFitTextView font fitting, in Dafny

This project models `FontFitTextView`, an Android text label that shrinks its
font so that one line of text fits the width its parent offers. The core is
`refitText`. It ignores a width that is zero or negative. Otherwise it
subtracts the left and right padding to get a target width and runs a binary
search for the text size over the fixed bracket [2, 100] pixels. At each step
it measures the text at the bracket's midpoint: a midpoint whose rendering is
at least as wide as the target becomes the new upper end, any other midpoint
the new lower end. It stops once the bracket is no wider than 0.5 pixels and
applies the lower end as the text size. Three lifecycle hooks call it:

- `onMeasure` fits to the width the parent offers. It reports that width with the height the host computed before fitting.
- `onTextChanged` fits the new text to the view's current width.
- `onSizeChanged` fits again only when the width changed.

Files:

- `font_fit.dfy`, module `FontFit`. It holds the search: the bracket, one round (`Step`), the reference iteration (`Iterate`), the final bracket (`FitBracket`) and the loop itself (`SearchSize`). It also holds the lemmas about the result.
- `text_view.dfy`, module `FontFitTextView`. It holds the view state the fitting touches, `refitText` (both as the function `Refit` and the method `RefitText`), and the three hooks.

Modelling choices:

- Sizes are exact `real`s. Every value the search reaches is 2 plus a multiple of 98/256, which a 32-bit float holds exactly. So the float loop and the real loop take the same branches.
- The measurement of the text at a size is a parameter `m: (string, real) -> real`. It stands for the paint object's `measureText` after `setTextSize`. Correctness of the result is proved under an explicit monotonicity hypothesis (`Monotone`).
- `real` cannot serve as a termination measure. So the loop carries a ghost round count, and `SearchSize` proves that the count ends at exactly 8, whatever the text and the target.
- Two details of the code are narrower than the widget's stated aim of "the largest size that fits", and the model follows the code:
  - The chosen size is in [2, 100), not [2, 100]. It is never 100 itself: when everything fits, it is 100 − 98/256 = 99.6171875.
  - A size "fits" only when its rendering is strictly narrower than the target. A rendering exactly as wide as the target counts as too big.

## Model

| member | source | states |
|---|---|---|
| FontFit.StepHalvesAndSeparates | test.java:54-59 | One round moves exactly one end of the bracket to the midpoint, halving the bracket. A new upper end does not fit, a new lower end fits, and the search invariant is preserved. |
| FontFit.Iterate | test.java:53-60 | After k rounds from [2, 100] the bracket satisfies 2 <= lo < hi <= 100. Its width is exactly 98 / 2^k. lo is 2 or a size that fits, and hi is 100 or a size that does not fit. |
| FontFit.LoopGuardHoldsBeforeRounds | test.java:49-53 | The guard "width > 0.5" holds after k rounds if and only if k < 8, so the loop runs exactly 8 times for every text and target. |
| FontFit.FitBracket | test.java:53-61 | The final bracket lies in [2, 100] and is exactly 98/256 wide. That is at most the 0.5 threshold, and one round fewer would not be. Its lower end is 2 or fits; its upper end is 100 or does not fit. |
| FontFit.SearchSize | test.java:47-61 | The while loop over the bracket computes exactly the reference result, after exactly 8 rounds (ghost count). The applied size is in [2, 100) and is 2 or a size that fits. |
| FontFit.MonotoneFitIsNearMaximal | test.java:53-61 | For a monotone measurement, every fitting size up to 100 is less than the result plus 0.5. Every size up to the result fits, unless the result is 2. |
| FontFit.NothingFitsGivesMinimum | test.java:56-61 | If no size fits, the lower end never moves and the applied size is 2. |
| FontFit.NonPositiveTargetGivesMinimum | test.java:46-61 | A target of zero or less, with a non-negative measurement, gives size 2. The search still runs. |
| FontFit.EverythingFitsGivesTop | test.java:53-61 | If every size fits, the upper end never moves and the size is 100 − 98/256 = 99.6171875, not 100. |
| FontFit.LinearMeasureScenario | test.java:46-61 | With width 5·size, 200 offered and 10 padding on each side (target 180), the size lies strictly between 35.5 and 36. |
| FontFit.ConstantMeasureScenario | test.java:53-61 | With a measurement that is always 1 and target 180, the size is 99.6171875. |
| FontFitTextView.Refit | test.java:42-61 | Only the text size can change. A width <= 0 leaves the view as it is. A positive width gives a size in [2, 100) that is 2 or fits the padded target. |
| FontFitTextView.RefitText | test.java:42-62 | The method with the guard and the loop produces exactly the view `Refit` describes. |
| FontFitTextView.OnMeasure | test.java:75-82 | Fits the view's text to the width the parent offers. Reports (offered width, height captured before fitting). |
| FontFitTextView.OnTextChanged | test.java:99-101 | Fits the new text to the view's current width, not to an offered one. |
| FontFitTextView.OnSizeChanged | test.java:117-121 | Leaves the view unchanged when the width did not change, whatever the heights. Otherwise fits the view's text to the new width w. |
| FontFitTextView.RefitIsIdempotent | test.java:42-62 | Fitting twice with the same inputs gives what fitting once gave, because the chosen size does not depend on the previous size. |
| FontFitTextView.PaddingWiderThanOfferGivesMinimum | test.java:44-61 | A positive offered width that the paddings cover gives a target of zero or less. It passes the guard, and with a non-negative measurement the size is 2. |

## Left out

- Android framework types (`TextView`, `Paint`, `TypedValue`, `MeasureSpec`, `AttributeSet`, `Context`) are not modelled. Neither are the constructors and `initialise` (test.java:14-31), which only copy the view's paint into a scratch paint. The scratch paint's measurement is the parameter `m`.
- `MeasureSpec.getSize` decoding in `onMeasure` is not modelled. The offered width and the height from the host's measure pass are parameters.
- The host updating `getWidth()` after layout is not modelled. The hooks read the view's `width` and never write it.
- FontFit.SearchSize: does not model IEEE float rounding. Reachable sizes are dyadic and exact in float, but the conversion of a very large integer target (beyond 2^24) to float in the comparison is not modelled.
- FontFitTextView.RefitText: does not model 32-bit wrap-around of `textWidth - paddingLeft - paddingRight`; the subtraction is on unbounded integers.
- The game code in test.cs, test2.cs and test3.cs is not modelled. That code is a camera, a game-object manager and math helpers. It is built on float and matrix arithmetic, `new Random()` and console output, with no logic of the widget.
- Behaviour across calls is not modelled, because the view keeps no state between fits beyond its text size.
