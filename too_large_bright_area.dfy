/**
 * The too-large-bright-area classifier
 * (hit_analysis/classification/artifact/too_large_bright_area.py): the share of the
 * image's pixels at or above a brightness threshold, in thousandths, flags the record
 * when it exceeds `bac`.
 */
module TooLargeBrightArea {
  import opened Wrappers
  import opened Raster
  import opened Records
  import opened ImageUtils

  /**
   * `area * 1000 / (width * height)`, computed as an exact rational. Python divides in
   * floating point, so its result is this value rounded to the nearest double.
   */
  function PerMille(area: int, width: int, height: int): real
    requires width > 0 && height > 0
  {
    (area * 1000) as real / (width * height) as real
  }

  /**
   * The share scaled to thousandths: multiplied back by the pixel count it gives
   * `area * 1000`, and for an area no larger than the image it lies in [0, 1000].
   */
  lemma PerMilleSpec(area: int, width: int, height: int)
    requires width > 0 && height > 0
    ensures PerMille(area, width, height) * (width * height) as real == (area * 1000) as real
    ensures 0 <= area <= width * height ==> 0.0 <= PerMille(area, width, height) <= 1000.0
    ensures area == 0 ==> PerMille(area, width, height) == 0.0
    ensures area == width * height ==> PerMille(area, width, height) == 1000.0
  {
    var a, n := (area * 1000) as real, (width * height) as real;
    assert width * height >= 1 by {
      assert width * height >= width * 1;
    }
    QuotientBounds(a, n, 1000.0);
    if area == width * height {
      assert a == 1000.0 * n;
    }
  }

  /** Dividing by a positive `n`: the quotient times `n` gives back `a`, and bounds on `a` carry over. */
  lemma QuotientBounds(a: real, n: real, k: real)
    requires n > 0.0
    ensures (a / n) * n == a
    ensures 0.0 <= a ==> 0.0 <= a / n
    ensures a <= k * n ==> a / n <= k
    ensures a == k * n ==> a / n == k
  {
    var q := a / n;
    assert q * n == a;
    assert (q - k) * n == a - k * n;
  }

  /** A smaller area never gives a larger share. */
  lemma PerMilleMonotone(area: int, area': int, width: int, height: int)
    requires width > 0 && height > 0 && area' <= area
    ensures PerMille(area', width, height) <= PerMille(area, width, height)
  {
  }

  /** What the classification leaves in a record whose share is `p`. */
  function BrightAreaOutcome(m: Marks, p: real, bac: real): Marks
  {
    if p > bac then MarkTooLargeBrightArea(m, p) else m
  }

  /**
   * too_large_bright_area_classify: asserts that the record holds an image and a
   * stored count for `threshold`; the share is taken over the decoded image's size,
   * and when it exceeds `bac` (strictly) the record gets classified = 'artifact' and
   * artifact_too_large_bright_area = the share. Otherwise nothing is written.
   */
  method TooLargeBrightAreaClassify(d: Hit, threshold: int, bac: real) returns (r: Result<(), string>)
    modifies d`marks
    ensures (d.image.None? || threshold !in d.brighterCount) ==>
      r == Err("AssertionError") && d.marks == old(d.marks)
    ensures (d.image.Some? && threshold in d.brighterCount) ==>
      r == Ok(()) &&
      d.marks == BrightAreaOutcome(old(d.marks),
        PerMille(d.brighterCount[threshold], d.image.value.width, d.image.value.height), bac)
  {
    if d.image.None? || threshold !in d.brighterCount {
      return Err("AssertionError");
    }
    var width, height := d.image.value.width, d.image.value.height;
    var area := d.brighterCount[threshold];
    var p := (area * 1000) as real / (width * height) as real;
    if p > bac {
      d.marks := MarkTooLargeBrightArea(d.marks, p);
    }
    r := Ok(());
  }

  /**
   * too_large_bright_area: counts the pixels at or above `threshold` first (storing
   * the count), then classifies on that count; the share is then in [0, 1000]. Only a
   * record without an image fails, in the count.
   */
  method TooLargeBrightAreaRun(d: Hit, threshold: int, bac: real, value: Pixel -> int := GetBrightestChannel)
    returns (r: Result<(), string>)
    modifies d`brighterCount, d`marks
    ensures d.image.None? ==>
      r == Err("AssertionError") && d.marks == old(d.marks) && d.brighterCount == old(d.brighterCount)
    ensures d.image.Some? ==>
      var img := d.image.value;
      var area := CountAtLeast(Flat(img.rows), threshold, value);
      && r == Ok(())
      && d.brighterCount == old(d.brighterCount)[threshold := area]
      && 0.0 <= PerMille(area, img.width, img.height) <= 1000.0
      && d.marks == BrightAreaOutcome(old(d.marks), PerMille(area, img.width, img.height), bac)
  {
    var counted := CountOfBrightestPixels(d, threshold, value);
    if counted.Err? {
      return Err(counted.error);
    }
    StoredCountBounds(d.image.value, threshold, value);
    PerMilleSpec(counted.value, d.image.value.width, d.image.value.height);
    r := TooLargeBrightAreaClassify(d, threshold, bac);
  }

  /**
   * The share never exceeds 1000, so a `bac` of 1000 or more never flags a record;
   * a negative `bac` flags every record with an image; and raising the threshold can
   * only lower the share, so a record flagged at a higher threshold is flagged at a
   * lower one.
   */
  lemma BrightAreaFlagging(img: Img, threshold: int, higher: int, value: Pixel -> int, bac: real, m: Marks)
    requires threshold <= higher
    ensures var p := PerMille(CountAtLeast(Flat(img.rows), threshold, value), img.width, img.height);
      && (bac >= 1000.0 ==> BrightAreaOutcome(m, p, bac) == m)
      && (bac < 0.0 ==> BrightAreaOutcome(m, p, bac) == MarkTooLargeBrightArea(m, p))
    ensures PerMille(CountAtLeast(Flat(img.rows), higher, value), img.width, img.height) > bac ==>
      PerMille(CountAtLeast(Flat(img.rows), threshold, value), img.width, img.height) > bac
  {
    var area := CountAtLeast(Flat(img.rows), threshold, value);
    StoredCountBounds(img, threshold, value);
    PerMilleSpec(area, img.width, img.height);
    CountAtLeastSpec(Flat(img.rows), threshold, higher, value);
    PerMilleMonotone(area, CountAtLeast(Flat(img.rows), higher, value), img.width, img.height);
  }
}
