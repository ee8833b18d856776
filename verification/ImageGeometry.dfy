/** Fitting an image into a target size, and cutting the padding off again. */
module ImageGeometry {
  import opened Arithmetic

  /** An image of this size is pasted at (x, y). */
  datatype Placement = Placement(width: nat, height: nat, x: nat, y: nat)

  /** The part of a tensor that is kept: rows from top to bottom, columns from left to right. */
  datatype Crop = Crop(top: nat, bottom: nat, left: nat, right: nat)

  function Ceil(a: nat, b: nat): nat
    requires b > 0
  {
    (a + b - 1) / b
  }

  function Min(a: nat, b: nat): nat
  {
    if a < b then a else b
  }

  /** The sizing of resize_and_pad_image. */
  function ResizeAndPad(width: nat, height: nat, targetWidth: nat, targetHeight: nat): Placement
    requires width > 0 && height > 0
  {
    // targetWidth / width < targetHeight / height
    if targetWidth * height < targetHeight * width then
      var h := Min(Ceil(height * targetWidth, width), targetHeight);
      Placement(targetWidth, h, 0, (targetHeight - h) / 2)
    else
      var w := Min(Ceil(width * targetHeight, height), targetWidth);
      Placement(w, targetHeight, (targetWidth - w) / 2, 0)
  }

  /** side scaled by numerator / denominator, rounded down; it fits the limit that the branch guarantees. */
  function ScaledDown(side: nat, numerator: nat, denominator: nat, limit: nat): (n: nat)
    requires denominator > 0 && numerator * side <= denominator * limit
    ensures n <= limit
  {
    UnpaddedFits(side, numerator, denominator, limit);
    side * numerator / denominator
  }

  /** unpad_image, on a tensor of the given current size. */
  function Unpad(width: nat, height: nat, currentWidth: nat, currentHeight: nat): Crop
    requires width > 0 && height > 0
  {
    // width / height > currentWidth / currentHeight
    if width * currentHeight > currentWidth * height then
      var padding := (currentHeight - ScaledDown(height, currentWidth, width, currentHeight)) / 2;
      Crop(padding, currentHeight - padding, 0, currentWidth)
    else
      var padding := (currentWidth - ScaledDown(width, currentHeight, height, currentWidth)) / 2;
      Crop(0, currentHeight, padding, currentWidth - padding)
  }

  /** The scaled side is no longer than the side it has to fit. */
  lemma UnpaddedFits(side: nat, currentOther: nat, other: nat, current: nat)
    requires other > 0 && currentOther * side <= other * current
    ensures side * currentOther / other <= current
  {
    Quotient(side * currentOther, other);
    var q := side * currentOther / other;
    if q > current {
      ProductGrows(current + 1, q, other);
    }
  }

  lemma Quotient(a: nat, b: nat)
    requires b > 0
    ensures (a / b) * b <= a < (a / b) * b + b
  {
  }

  /** Rounding up gives at most one more than rounding down, and exactly that when the division leaves a rest. */
  lemma CeilAndFloor(a: nat, b: nat)
    requires b > 0
    ensures Ceil(a, b) == a / b + if a % b == 0 then 0 else 1
  {
    var q, r := a / b, a % b;
    assert a == q * b + r;
    if r == 0 {
      UniqueQuotient(a + b - 1, b, q, b - 1);
    } else {
      assert (q + 1) * b == q * b + b;
      UniqueQuotient(a + b - 1, b, q + 1, r - 1);
    }
  }

  lemma UniqueQuotient(a: nat, b: nat, q: nat, r: nat)
    requires b > 0 && a == q * b + r && r < b
    ensures a / b == q
  {
    var p := a / b;
    Quotient(a, b);
    assert (p + 1) * b == p * b + b && (q + 1) * b == q * b + b;
    if p < q {
      ProductGrows(p + 1, q, b);
    } else if p > q {
      ProductGrows(q + 1, p, b);
    }
  }

  /** Padding keeps the proportions of the image up to one line: the side that does not fill the target is the
      smallest that is not too short; the image fits, and lies in the middle, up to one line further to the front. */
  lemma PadKeepsProportions(width: nat, height: nat, targetWidth: nat, targetHeight: nat)
    requires width > 0 && height > 0
    ensures var place := ResizeAndPad(width, height, targetWidth, targetHeight);
      && place.x + place.width <= targetWidth && place.y + place.height <= targetHeight
      && place.x <= targetWidth - place.width - place.x <= place.x + 1
      && place.y <= targetHeight - place.height - place.y <= place.y + 1
      && if targetWidth * height < targetHeight * width then
          place.width == targetWidth && IsLeast(place.height, height * targetWidth, width)
        else place.height == targetHeight && IsLeast(place.width, width * targetHeight, height)
  {
    if targetWidth * height < targetHeight * width {
      LeastFits(height * targetWidth, width, targetHeight);
    } else {
      LeastFits(width * targetHeight, height, targetWidth);
    }
  }

  /** n is the smallest number that gives at least a when multiplied by b. */
  ghost predicate IsLeast(n: nat, a: nat, b: nat)
  {
    a <= n * b && forall m: nat :: a <= m * b ==> n <= m
  }

  lemma LeastFits(a: nat, b: nat, limit: nat)
    requires b > 0 && a <= limit * b
    ensures IsLeast(Ceil(a, b), a, b) && Ceil(a, b) <= limit
  {
    CeilAndFloor(a, b);
    var n := Ceil(a, b);
    Bracketed(a, b, n);
    forall m: nat | a <= m * b ensures n <= m {
      if m < n { ProductGrows(m, n - 1, b); }
    }
  }

  lemma Bracketed(a: nat, b: nat, n: nat)
    requires b > 0 && n == a / b + if a % b == 0 then 0 else 1
    ensures a <= n * b && (n > 0 ==> (n - 1) * b < a)
  {
    var q := a / b;
    assert a == q * b + a % b && (q + 1) * b == q * b + b && (q - 1) * b == q * b - b;
  }

  /** Unpadding looks at the same side as padding did. */
  lemma SameBranch(width: nat, height: nat, targetWidth: nat, targetHeight: nat)
    requires width > 0 && height > 0
    ensures var place := ResizeAndPad(width, height, targetWidth, targetHeight);
      var crop := Unpad(width, height, targetWidth, targetHeight);
      if targetWidth * height < targetHeight * width
      then place.x == 0 && place.width == targetWidth && crop.left == 0 && crop.right == targetWidth
      else place.y == 0 && place.height == targetHeight && crop.top == 0 && crop.bottom == targetHeight
  {
  }

  /** How the kept lines [cut, target - cut) lie relative to the image lines [start, start + size). */
  ghost predicate NearlyInverse(start: nat, size: nat, cut: nat, target: nat, exact: bool)
    requires cut <= target
  {
    && start + size <= target
    && start <= cut <= start + 1
    && start + size <= target - cut <= start + size + 1
    && (cut == start && target - cut == start + size <==> exact)
  }

  /** One side: a length of up / down is rounded up when padding and down when unpadding. */
  lemma SideNearlyInverse(up: nat, down: nat, target: nat)
    requires down > 0 && (up / down < target || (up % down == 0 && up / down <= target))
    ensures var size := Min(Ceil(up, down), target);
      var start, cut := (target - size) / 2, (target - up / down) / 2;
      NearlyInverse(start, size, cut, target,
        if up % down == 0 then (target - up / down) % 2 == 0 else (target - up / down) % 2 == 1)
  {
    CeilAndFloor(up, down);
  }

  /** On a tensor of the target size, unpadding drops at most one image line at the leading edge and keeps at most
      one line of padding at the trailing edge; it gives back exactly the image under the stated condition. */
  lemma UnpadInvertsPad(width: nat, height: nat, targetWidth: nat, targetHeight: nat)
    requires width > 0 && height > 0
    ensures var place := ResizeAndPad(width, height, targetWidth, targetHeight);
      var crop := Unpad(width, height, targetWidth, targetHeight);
      if targetWidth * height < targetHeight * width then
        var up := height * targetWidth;
        NearlyInverse(place.y, place.height, crop.top, targetHeight,
          if up % width == 0 then (targetHeight - up / width) % 2 == 0 else (targetHeight - up / width) % 2 == 1)
      else
        var up := width * targetHeight;
        NearlyInverse(place.x, place.width, crop.left, targetWidth,
          if up % height == 0 then (targetWidth - up / height) % 2 == 0 else (targetWidth - up / height) % 2 == 1)
  {
    if targetWidth * height < targetHeight * width {
      BelowTarget(height * targetWidth, width, targetHeight);
      SideNearlyInverse(height * targetWidth, width, targetHeight);
    } else {
      AtMostTarget(width * targetHeight, height, targetWidth);
      SideNearlyInverse(width * targetHeight, height, targetWidth);
    }
  }

  /** One line of padding is kept on the right, and the only line of an image is lost. */
  lemma UnpadMissesPad()
    ensures ResizeAndPad(1, 1, 2, 1) == Placement(1, 1, 0, 0) && Unpad(1, 1, 2, 1) == Crop(0, 1, 0, 2)
    ensures ResizeAndPad(1, 2, 2, 1) == Placement(1, 1, 0, 0) && Unpad(1, 2, 2, 1) == Crop(0, 1, 1, 1)
  {
  }

  lemma BelowTarget(up: nat, down: nat, target: nat)
    requires down > 0 && up < target * down
    ensures up / down < target
  {
    Quotient(up, down);
    if up / down >= target { ProductGrows(target, up / down, down); }
  }

  lemma AtMostTarget(up: nat, down: nat, target: nat)
    requires down > 0 && up <= target * down
    ensures up / down < target || (up % down == 0 && up / down <= target)
  {
    if up == target * down {
      UniqueQuotient(up, down, target, 0);
    } else {
      BelowTarget(up, down, target);
    }
  }

  /** unpad_image_shape: the size of what unpad_image keeps. */
  function UnpadShape(width: nat, height: nat, currentWidth: nat, currentHeight: nat): (shape: (int, int))
    requires width > 0 && height > 0
    ensures var crop := Unpad(width, height, currentWidth, currentHeight);
      shape == (crop.bottom - crop.top, crop.right - crop.left)
  {
    if width * currentHeight > currentWidth * height then
      var padding := (currentHeight - height * currentWidth / width) / 2;
      (currentHeight - 2 * padding, currentWidth)
    else
      var padding := (currentWidth - width * currentHeight / height) / 2;
      (currentHeight, currentWidth - 2 * padding)
  }
}
