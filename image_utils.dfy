/**
 * Per-record photometry (hit_analysis/image/image_utils.py): loading the decoded
 * frame, the darkest and brightest non-black value, and the count of pixels at or
 * above a threshold.
 */
module ImageUtils {
  import opened Wrappers
  import opened Raster
  import opened Records

  /** get_brightest_channel: the largest of R, G and B; alpha plays no part. */
  function GetBrightestChannel(p: Pixel): (r: int)
    ensures r >= p.0 as int && r >= p.1 as int && r >= p.2 as int
    ensures r == p.0 as int || r == p.1 as int || r == p.2 as int
  {
    var (red, green, blue, _) := p;
    var rg := if red < green then green else red;
    if rg < blue then blue as int else rg as int
  }

  /**
   * The `(darkness, brightest)` accumulators after scanning `ps` in order, starting
   * from (255, 0) and skipping every pixel the parser maps to 0.
   */
  function DarknessBrightest(ps: seq<Pixel>, value: Pixel -> int): (int, int)
  {
    if ps == [] then (255, 0)
    else
      var (darkness, brightest) := DarknessBrightest(ps[..|ps| - 1], value);
      var g := value(ps[|ps| - 1]);
      if g != 0 then (if darkness < g then darkness else g, if brightest < g then g else brightest)
      else (darkness, brightest)
  }

  /** The number of pixels of `ps` whose value is at least `threshold`. */
  function CountAtLeast(ps: seq<Pixel>, threshold: int, value: Pixel -> int): int
  {
    if ps == [] then 0
    else CountAtLeast(ps[..|ps| - 1], threshold, value) + if value(ps[|ps| - 1]) >= threshold then 1 else 0
  }

  /**
   * brightest is the maximum and darkness the minimum of the non-zero values,
   * capped by the start values 0 and 255; with no non-zero value the result is (255, 0).
   */
  lemma {:induction false} DarknessBrightestSpec(ps: seq<Pixel>, value: Pixel -> int)
    ensures DarknessBrightest(ps, value).0 <= 255 && DarknessBrightest(ps, value).1 >= 0
    ensures forall i :: 0 <= i < |ps| && value(ps[i]) != 0 ==>
      DarknessBrightest(ps, value).0 <= value(ps[i]) <= DarknessBrightest(ps, value).1
    ensures DarknessBrightest(ps, value).0 == 255 ||
      exists i :: 0 <= i < |ps| && value(ps[i]) != 0 && value(ps[i]) == DarknessBrightest(ps, value).0
    ensures DarknessBrightest(ps, value).1 == 0 ||
      exists i :: 0 <= i < |ps| && value(ps[i]) != 0 && value(ps[i]) == DarknessBrightest(ps, value).1
    ensures (forall i :: 0 <= i < |ps| ==> value(ps[i]) == 0) ==> DarknessBrightest(ps, value) == (255, 0)
    decreases |ps|
  {
    if ps != [] {
      var init := ps[..|ps| - 1];
      DarknessBrightestSpec(init, value);
      assert forall i :: 0 <= i < |init| ==> init[i] == ps[i];
      var (dk, br) := DarknessBrightest(init, value);
      var g := value(ps[|ps| - 1]);
      if dk != 255 {
        var i :| 0 <= i < |init| && value(init[i]) != 0 && value(init[i]) == dk;
        assert value(ps[i]) == dk;
      }
      if br != 0 {
        var i :| 0 <= i < |init| && value(init[i]) != 0 && value(init[i]) == br;
        assert value(ps[i]) == br;
      }
    }
  }

  /**
   * With the default parser every value is a channel value, so both results lie in
   * 0..255, and darkness <= brightest as soon as one pixel is not black.
   */
  lemma BrightestChannelBounds(ps: seq<Pixel>)
    ensures 0 <= DarknessBrightest(ps, GetBrightestChannel).0 <= 255
    ensures 0 <= DarknessBrightest(ps, GetBrightestChannel).1 <= 255
    ensures (exists i :: 0 <= i < |ps| && GetBrightestChannel(ps[i]) != 0) ==>
      DarknessBrightest(ps, GetBrightestChannel).0 <= DarknessBrightest(ps, GetBrightestChannel).1
  {
    DarknessBrightestSpec(ps, GetBrightestChannel);
    var (dk, br) := DarknessBrightest(ps, GetBrightestChannel);
    if dk != 255 {
      var i :| 0 <= i < |ps| && GetBrightestChannel(ps[i]) != 0 && GetBrightestChannel(ps[i]) == dk;
    }
    if br != 0 {
      var i :| 0 <= i < |ps| && GetBrightestChannel(ps[i]) != 0 && GetBrightestChannel(ps[i]) == br;
    }
  }

  /**
   * The count lies between 0 and the number of pixels, reaches both ends exactly when
   * no or every pixel qualifies, and a higher threshold never counts more pixels.
   */
  lemma {:induction false} CountAtLeastSpec(ps: seq<Pixel>, threshold: int, higher: int, value: Pixel -> int)
    requires threshold <= higher
    ensures 0 <= CountAtLeast(ps, threshold, value) <= |ps|
    ensures CountAtLeast(ps, threshold, value) == 0 <==> forall i :: 0 <= i < |ps| ==> value(ps[i]) < threshold
    ensures CountAtLeast(ps, threshold, value) == |ps| <==> forall i :: 0 <= i < |ps| ==> value(ps[i]) >= threshold
    ensures CountAtLeast(ps, higher, value) <= CountAtLeast(ps, threshold, value)
    decreases |ps|
  {
    if ps != [] {
      var init := ps[..|ps| - 1];
      CountAtLeastSpec(init, threshold, higher, value);
      CountAtLeastSpec(init, higher, higher, value);
      assert forall i :: 0 <= i < |init| ==> init[i] == ps[i];
      assert ps == init + [ps[|ps| - 1]];
    }
  }

  lemma DarknessBrightestSnoc(ps: seq<Pixel>, p: Pixel, value: Pixel -> int)
    ensures DarknessBrightest(ps + [p], value) ==
      var (darkness, brightest) := DarknessBrightest(ps, value);
      var g := value(p);
      if g != 0 then (if darkness < g then darkness else g, if brightest < g then g else brightest)
      else (darkness, brightest)
  {
    assert (ps + [p])[..|ps|] == ps;
  }

  lemma CountAtLeastSnoc(ps: seq<Pixel>, p: Pixel, threshold: int, value: Pixel -> int)
    ensures CountAtLeast(ps + [p], threshold, value) ==
      CountAtLeast(ps, threshold, value) + if value(p) >= threshold then 1 else 0
  {
    assert (ps + [p])[..|ps|] == ps;
  }

  /** The nested `for cy ...: for cx ...` scan of measure_darkness_brightest. */
  method ScanDarknessBrightest(img: Img, value: Pixel -> int) returns (darkness: int, brightest: int)
    ensures (darkness, brightest) == DarknessBrightest(Flat(img.rows), value)
  {
    darkness, brightest := 255, 0;
    var cy := 0;
    while cy < img.height
      invariant 0 <= cy <= img.height
      invariant (darkness, brightest) == DarknessBrightest(Flat(img.rows[..cy]), value)
    {
      var row := img.rows[cy];
      var cx := 0;
      assert Flat(img.rows[..cy]) + row[..cx] == Flat(img.rows[..cy]);
      while cx < img.width
        invariant 0 <= cx <= img.width
        invariant (darkness, brightest) == DarknessBrightest(Flat(img.rows[..cy]) + row[..cx], value)
      {
        var g := value(row[cx]);
        DarknessBrightestSnoc(Flat(img.rows[..cy]) + row[..cx], row[cx], value);
        assert Flat(img.rows[..cy]) + row[..cx + 1] == Flat(img.rows[..cy]) + row[..cx] + [row[cx]];
        if g != 0 {
          brightest := if brightest < g then g else brightest;
          darkness := if darkness < g then darkness else g;
        }
        cx := cx + 1;
      }
      FlatSnoc(img.rows, cy);
      assert row[..cx] == row;
      cy := cy + 1;
    }
    assert img.rows[..cy] == img.rows;
  }

  /** The nested scan of count_of_brightest_pixels. */
  method ScanBrighterCount(img: Img, threshold: int, value: Pixel -> int) returns (count: int)
    ensures count == CountAtLeast(Flat(img.rows), threshold, value)
  {
    count := 0;
    var cy := 0;
    while cy < img.height
      invariant 0 <= cy <= img.height
      invariant count == CountAtLeast(Flat(img.rows[..cy]), threshold, value)
    {
      var row := img.rows[cy];
      var cx := 0;
      assert Flat(img.rows[..cy]) + row[..cx] == Flat(img.rows[..cy]);
      while cx < img.width
        invariant 0 <= cx <= img.width
        invariant count == CountAtLeast(Flat(img.rows[..cy]) + row[..cx], threshold, value)
      {
        CountAtLeastSnoc(Flat(img.rows[..cy]) + row[..cx], row[cx], threshold, value);
        assert Flat(img.rows[..cy]) + row[..cx + 1] == Flat(img.rows[..cy]) + row[..cx] + [row[cx]];
        if value(row[cx]) >= threshold {
          count := count + 1;
        }
        cx := cx + 1;
      }
      FlatSnoc(img.rows, cy);
      assert row[..cx] == row;
      cy := cy + 1;
    }
    assert img.rows[..cy] == img.rows;
  }

  /**
   * measure_darkness_brightest: an assertion failure without an image; otherwise the
   * scan's result, stored in image_darkness and image_brightest and returned.
   */
  method MeasureDarknessBrightest(d: Hit, value: Pixel -> int := GetBrightestChannel) returns (r: Result<(int, int), string>)
    modifies d`darkness, d`brightest
    ensures d.image.None? ==> r == Err("AssertionError") && d.darkness == old(d.darkness) && d.brightest == old(d.brightest)
    ensures d.image.Some? ==> r == Ok(DarknessBrightest(Flat(d.image.value.rows), value))
    ensures d.image.Some? ==> d.darkness == Some(r.value.0) && d.brightest == Some(r.value.1)
  {
    if d.image.None? {
      return Err("AssertionError");
    }
    var darkness, brightest := ScanDarknessBrightest(d.image.value, value);
    d.darkness, d.brightest := Some(darkness), Some(brightest);
    r := Ok((darkness, brightest));
  }

  /**
   * count_of_brightest_pixels: an assertion failure without an image; otherwise the
   * count, stored under image_brighter_count_<threshold> and returned.
   */
  method CountOfBrightestPixels(d: Hit, threshold: int, value: Pixel -> int := GetBrightestChannel) returns (r: Result<int, string>)
    modifies d`brighterCount
    ensures d.image.None? ==> r == Err("AssertionError") && d.brighterCount == old(d.brighterCount)
    ensures d.image.Some? ==> r == Ok(CountAtLeast(Flat(d.image.value.rows), threshold, value))
    ensures d.image.Some? ==> d.brighterCount == old(d.brighterCount)[threshold := r.value]
  {
    if d.image.None? {
      return Err("AssertionError");
    }
    var count := ScanBrighterCount(d.image.value, threshold, value);
    d.brighterCount := d.brighterCount[threshold := count];
    r := Ok(count);
  }

  /**
   * The count a record stores lies between 0 and the number of pixels of its image.
   */
  lemma StoredCountBounds(img: Img, threshold: int, value: Pixel -> int)
    ensures 0 <= CountAtLeast(Flat(img.rows), threshold, value) <= img.width * img.height
  {
    CountAtLeastSpec(Flat(img.rows), threshold, threshold, value);
    FlatLength(img.rows, img.width);
  }

  /**
   * The frame bytes load_image works from: frame_decoded when present, otherwise the
   * base64 decoding of frame_content (a TypeError when that is absent).
   */
  function FrameBytes(frameDecoded: Option<Bytes>, frameContent: Option<string>,
                      decodeBase64: string -> Option<Bytes>): Result<Bytes, string>
  {
    if frameDecoded.Some? then Ok(frameDecoded.value)
    else if frameContent.None? then Err("TypeError")
    else match decodeBase64(frameContent.value)
      case None => Err("binascii.Error")
      case Some(b) => Ok(b)
  }

  /**
   * load_image: fills frame_decoded from frame_content when it is missing, opens the
   * bytes as an RGBA image, stores it under `image` and returns it.
   */
  method LoadImage(d: Hit, decodeBase64: string -> Option<Bytes>, open: Bytes -> Option<Img>) returns (r: Result<Img, string>)
    modifies d`frameDecoded, d`image
    ensures var fb := FrameBytes(old(d.frameDecoded), d.frameContent, decodeBase64);
      && d.frameDecoded == (if fb.Ok? then Some(fb.value) else old(d.frameDecoded))
      && (fb.Err? ==> r == Err(fb.error))
      && (fb.Ok? && open(fb.value).None? ==> r == Err("UnidentifiedImageError"))
      && (fb.Ok? && open(fb.value).Some? ==> r == Ok(open(fb.value).value))
    ensures d.image == (if r.Ok? then Some(r.value) else old(d.image))
    ensures var fb := FrameBytes(old(d.frameDecoded), d.frameContent, decodeBase64);
      fb.Ok? ==> FrameBytes(d.frameDecoded, d.frameContent, decodeBase64) == fb
  {
    var fb := FrameBytes(d.frameDecoded, d.frameContent, decodeBase64);
    if fb.Err? {
      return Err(fb.error);
    }
    d.frameDecoded := Some(fb.value);
    var img := open(fb.value);
    if img.None? {
      return Err("UnidentifiedImageError");
    }
    d.image := img;
    r := Ok(img.value);
  }

  /**
   * load_image run twice on one record: the second call finds frame_decoded, opens the
   * same bytes and returns what the first returned, and the record ends as one call
   * leaves it.
   */
  method LoadImageStable(d: Hit, decodeBase64: string -> Option<Bytes>, open: Bytes -> Option<Img>)
    returns (first: Result<Img, string>, second: Result<Img, string>)
    modifies d`frameDecoded, d`image
    ensures second == first
    ensures var fb := FrameBytes(old(d.frameDecoded), d.frameContent, decodeBase64);
      d.frameDecoded == (if fb.Ok? then Some(fb.value) else old(d.frameDecoded))
    ensures d.image == (if first.Ok? then Some(first.value) else old(d.image))
  {
    first := LoadImage(d, decodeBase64, open);
    second := LoadImage(d, decodeBase64, open);
  }

  /**
   * detection_load_parser: False, with the record untouched, when frame_content is
   * absent or empty; otherwise the image is loaded and the answer is True.
   */
  method DetectionLoadParser(d: Hit, decodeBase64: string -> Option<Bytes>, open: Bytes -> Option<Img>) returns (r: Result<bool, string>)
    modifies d`frameDecoded, d`image
    ensures d.frameContent.None? || d.frameContent == Some("") ==>
      r == Ok(false) && d.frameDecoded == old(d.frameDecoded) && d.image == old(d.image)
    ensures d.frameContent.Some? && d.frameContent != Some("") ==>
      var fb := FrameBytes(old(d.frameDecoded), d.frameContent, decodeBase64);
      && (r.Ok? <==> fb.Ok? && open(fb.value).Some?)
      && (r.Ok? ==> r.value && d.image == Some(open(fb.value).value))
      && (r.Err? ==> d.image == old(d.image) && r.error == (if fb.Err? then fb.error else "UnidentifiedImageError"))
      && d.frameDecoded == (if fb.Ok? then Some(fb.value) else old(d.frameDecoded))
  {
    if d.frameContent.None? || d.frameContent == Some("") {
      return Ok(false);
    }
    var loaded := LoadImage(d, decodeBase64, open);
    r := if loaded.Ok? then Ok(true) else Err(loaded.error);
  }
}
