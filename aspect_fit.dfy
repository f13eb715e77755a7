/** AspectFitResizer: the choice of the size an image is resized to
    (`resizeImageWithAspectRatio`). The pixel interpolation itself is not
    modelled; only the target dimensions are. Arithmetic is exact, with the
    corrective factor 1.2 written as 6/5. */
module AspectFit {
  import opened Rounding

  datatype Size = Size(width: int, height: int)

  /** `newWidth`: round(maxHeight / h * w * 1.2), the width that keeps the
      corrected aspect ratio when the image fills the full height. */
  function NewWidth(w: int, h: int, maxHeight: int): (r: int)
    requires w > 0 && h > 0
    ensures maxHeight >= 0 ==> r >= 0
    ensures maxHeight >= 0 ==> 5 * h * (2 * r - 1) <= 12 * maxHeight * w < 5 * h * (2 * r + 1)
  {
    ScaledProduct(maxHeight, w, 6);
    Round(maxHeight * w * 6, 5 * h)
  }

  /** `newHeight` before the parity fix: round(maxWidth / w * h / 1.2), the
      height that keeps the corrected aspect ratio at the full width. */
  function NewHeight(w: int, h: int, maxWidth: int): (r: int)
    requires w > 0 && h > 0
    ensures maxWidth >= 0 ==> r >= 0
    ensures maxWidth >= 0 ==> 6 * w * (2 * r - 1) <= 10 * maxWidth * h < 6 * w * (2 * r + 1)
  {
    ScaledProduct(maxWidth, h, 5);
    Round(maxWidth * h * 5, 6 * w)
  }

  lemma ScaledProduct(a: int, b: int, k: int)
    requires b > 0 && k > 0
    ensures a >= 0 ==> a * b * k >= 0
    ensures 2 * (a * b * k) == 2 * k * a * b
  {
    if a >= 0 {
      MulMono(b, 0, a);
    }
  }

  /** The parity fix `if (newHeight % 2 == 1) newHeight -= 1;` with C's
      truncating `%`: a positive odd height loses one row, nothing else changes. */
  function MakeEven(n: int): (r: int)
    ensures r == n || r == n - 1
    ensures n >= 0 ==> 0 <= r && r % 2 == 0
    ensures n % 2 == 0 ==> r == n
    ensures n < 0 ==> r == n
  {
    if TruncRem(n, 2) == 1 then n - 1 else n
  }

  /** The size passed to `resize`: the full height if the matching width fits,
      otherwise the full width with the (evened) matching height. Either way
      the width is within bounds and one of the two bounds is met exactly. */
  function TargetSize(w: int, h: int, maxWidth: int, maxHeight: int): (s: Size)
    requires w > 0 && h > 0
    ensures s.width <= maxWidth
    ensures s.width == maxWidth || s.height == maxHeight
  {
    var newWidth := NewWidth(w, h, maxHeight);
    var newHeight := MakeEven(NewHeight(w, h, maxWidth));
    if newWidth <= maxWidth then Size(newWidth, maxHeight) else Size(maxWidth, newHeight)
  }

  /** Which branch is taken and what the chosen size means: in the first the
      width is the nearest integer to maxHeight * 1.2 * w / h; in the second the
      height is the nearest integer to maxWidth * h / (1.2 * w), or one less. */
  lemma TargetAspect(w: int, h: int, maxWidth: int, maxHeight: int)
    requires w > 0 && h > 0 && maxWidth >= 0 && maxHeight >= 0
    ensures var s := TargetSize(w, h, maxWidth, maxHeight);
      if NewWidth(w, h, maxHeight) <= maxWidth then
        s.height == maxHeight &&
        5 * h * (2 * s.width - 1) <= 12 * maxHeight * w < 5 * h * (2 * s.width + 1)
      else
        s.width == maxWidth &&
        s.height % 2 == 0 &&
        (s.height == NewHeight(w, h, maxWidth) || s.height == NewHeight(w, h, maxWidth) - 1) &&
        6 * w * (2 * s.height - 1) <= 10 * maxWidth * h < 6 * w * (2 * s.height + 3)
  {
    var s := TargetSize(w, h, maxWidth, maxHeight);
    if NewWidth(w, h, maxHeight) > maxWidth {
      var r := NewHeight(w, h, maxWidth);
      assert s.height == r || s.height == r - 1;
      assert 6 * w * (2 * s.height - 1) <= 6 * w * (2 * r - 1) by { MulMono(6 * w, 2 * s.height - 1, 2 * r - 1); }
      assert 6 * w * (2 * r + 1) <= 6 * w * (2 * s.height + 3) by { MulMono(6 * w, 2 * r + 1, 2 * s.height + 3); }
    }
  }

  /** The doc comment's promise: the chosen size fits the window. */
  lemma TargetFits(w: int, h: int, maxWidth: int, maxHeight: int)
    requires w > 0 && h > 0 && maxWidth >= 0 && maxHeight >= 0
    ensures var s := TargetSize(w, h, maxWidth, maxHeight);
      0 <= s.width <= maxWidth && 0 <= s.height <= maxHeight
  {
    var nw := NewWidth(w, h, maxHeight);
    if nw > maxWidth {
      HeightFitsWhenWidthOverflows(w, h, maxWidth, maxHeight, nw, NewHeight(w, h, maxWidth));
    }
  }

  /** A width that overflows maxWidth at full height means that the matching
      height at full width stays within maxHeight. */
  lemma HeightFitsWhenWidthOverflows(w: int, h: int, maxWidth: int, maxHeight: int, nw: int, nh: int)
    requires w > 0 && h > 0
    requires 5 * h * (2 * nw - 1) <= 12 * maxHeight * w
    requires 6 * w * (2 * nh - 1) <= 10 * maxWidth * h
    requires nw > maxWidth
    ensures nh <= maxHeight
  {
    var x, y := maxHeight * w, maxWidth * h;
    MulMono(5 * h, 2 * maxWidth + 1, 2 * nw - 1);
    assert 5 * h * (2 * maxWidth + 1) == 10 * y + 5 * h;
    assert 6 * w * (2 * maxHeight + 1) == 12 * x + 6 * w;
    assert 6 * w * (2 * nh - 1) < 6 * w * (2 * maxHeight + 1);
    MulCancel(6 * w, 2 * nh - 1, 2 * maxHeight + 1);
  }

  /** With an even maxHeight, as `getMaxImageSize` always gives, the chosen
      height is even, so the rows pair up into character cells. */
  lemma {:induction false} TargetEven(w: int, h: int, maxWidth: int, maxHeight: int)
    requires w > 0 && h > 0 && maxWidth >= 0 && maxHeight % 2 == 0
    ensures TargetSize(w, h, maxWidth, maxHeight).height % 2 == 0
  {
    var nh := NewHeight(w, h, maxWidth);
    assert nh >= 0;
  }

  /** Fitting is not idempotent: fitting an already fitted image again
      stretches its width by the corrective factor once more. */
  lemma RefitStretchesAgain()
    ensures TargetSize(100, 100, 200, 100) == Size(120, 100)
    ensures TargetSize(120, 100, 200, 100) == Size(144, 100)
  {
  }

  /** Nothing keeps the chosen size positive: a very tall, narrow image gets
      width 0 and a very wide, flat one gets height 0. */
  lemma DegenerateTargets()
    ensures TargetSize(1, 1000, 80, 100) == Size(0, 100)
    ensures TargetSize(1000, 1, 80, 100) == Size(80, 0)
  {
  }

  /** Only the full-width branch makes the height even: with an odd maxHeight
      the full-height branch keeps it odd, while the full-width branch still
      gives an even height. */
  lemma OddBoundHeights()
    ensures TargetSize(100, 100, 200, 101) == Size(121, 101)
    ensures TargetSize(1000, 1, 80, 101) == Size(80, 0)
  {
  }

  lemma MulMono(c: int, a: int, b: int)
    requires c >= 0 && a <= b
    ensures c * a <= c * b
  {
  }

  lemma MulCancel(c: int, a: int, b: int)
    requires c > 0 && c * a < c * b
    ensures a < b
  {
    if a >= b {
      MulMono(c, b, a);
      assert false;
    }
  }
}
