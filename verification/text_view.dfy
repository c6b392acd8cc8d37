/**
 The FontFitTextView widget: refitText with its guard against a width that is
 not yet known, and the three lifecycle hooks that call it.

 The Android view is reduced to the state the fitting reads and writes. The
 host toolkit supplies the measurement of the text (a `Measure`), the width a
 parent offers in a measure pass, and the height its own measure pass
 computed; those become parameters.
 */
module FontFitTextView {
  import opened FontFit

  /** What refitText and the hooks read or write on the view: its current
      text, its text size in pixels, its left and right padding, and its
      current laid-out width (getWidth). */
  datatype View = View(text: string, textSize: real, paddingLeft: int, paddingRight: int, width: int)

  /** The measured width and height a measure pass reports. */
  datatype Dimensions = Dimensions(width: int, height: int)

  /** The width the text must fit: the offered width less both paddings. It
      may be zero or negative, and the search runs all the same. */
  function TargetWidth(v: View, textWidth: int): int {
    textWidth - v.paddingLeft - v.paddingRight
  }

  /** The effect of refitText on the view. */
  function Refit(v: View, m: Measure, text: string, textWidth: int): (r: View)
    ensures r == v.(textSize := r.textSize)
    ensures textWidth <= 0 ==> r == v
    ensures textWidth > 0 ==> MinSize <= r.textSize < MaxSize
    ensures textWidth > 0 ==> r.textSize == MinSize || Fits(m, text, TargetWidth(v, textWidth), r.textSize)
  {
    if textWidth <= 0 then v
    else v.(textSize := FitSize(m, text, TargetWidth(v, textWidth)))
  }

  /** refitText: nothing happens for a non-positive width; otherwise the
      bracket search runs against the padded target and its lower end becomes
      the text size. */
  method RefitText(v: View, m: Measure, text: string, textWidth: int) returns (r: View)
    ensures r == Refit(v, m, text, textWidth)
  {
    if textWidth <= 0 {
      return v;
    }
    var targetWidth := textWidth - v.paddingLeft - v.paddingRight;
    var size;
    ghost var rounds;
    size, rounds := SearchSize(m, text, targetWidth);
    assert targetWidth == TargetWidth(v, textWidth);
    r := v.(textSize := size);
  }

  /** onMeasure: after the host's own measure pass has produced `hostHeight`,
      fit the view's text to the width the parent offers and report that
      width with the height captured before fitting. */
  method OnMeasure(v: View, m: Measure, parentWidth: int, hostHeight: int) returns (r: View, measured: Dimensions)
    ensures r == Refit(v, m, v.text, parentWidth)
    ensures measured == Dimensions(parentWidth, hostHeight)
  {
    var height := hostHeight;
    r := RefitText(v, m, v.text, parentWidth);
    measured := Dimensions(parentWidth, height);
  }

  /** onTextChanged: fit the new text to the view's current width. */
  method OnTextChanged(v: View, m: Measure, text: string) returns (r: View)
    ensures r == Refit(v, m, text, v.width)
  {
    r := RefitText(v, m, text, v.width);
  }

  /** onSizeChanged: fit the view's text to the new width, but only when the
      width changed; a change of height alone leaves the view as it is. */
  method OnSizeChanged(v: View, m: Measure, w: int, h: int, oldw: int, oldh: int) returns (r: View)
    ensures w == oldw ==> r == v
    ensures w != oldw ==> r == Refit(v, m, v.text, w)
  {
    r := v;
    if w != oldw {
      r := RefitText(v, m, v.text, w);
    }
  }

  /** The size refitText chooses does not depend on the size the view had, so
      fitting twice with the same inputs gives what fitting once gave. */
  lemma RefitIsIdempotent(v: View, m: Measure, text: string, textWidth: int)
    ensures Refit(Refit(v, m, text, textWidth), m, text, textWidth) == Refit(v, m, text, textWidth)
  {
    var once := Refit(v, m, text, textWidth);
    assert TargetWidth(once, textWidth) == TargetWidth(v, textWidth);
  }

  /** Padding at least as wide as a positive offered width leaves a target of
      zero or less; the search still runs and, with a non-negative
      measurement, settles on the lower bound 2. */
  lemma PaddingWiderThanOfferGivesMinimum(v: View, m: Measure, text: string, textWidth: int)
    requires 0 < textWidth <= v.paddingLeft + v.paddingRight
    requires forall s: real :: m(text, s) >= 0.0
    ensures Refit(v, m, text, textWidth).textSize == MinSize
  {
    NonPositiveTargetGivesMinimum(m, text, TargetWidth(v, textWidth));
  }
}
