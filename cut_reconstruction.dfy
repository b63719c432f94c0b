/**
 * Reconstruction of frames cut by early CREDO Detector apps
 * (hit_analysis/image/cut_reconstruction.py): the crops of one original frame are
 * pasted onto a black canvas, last record first, each followed by a one-pixel border
 * copy, and then every record is cut out again.
 */
module CutReconstruction {
  import opened Wrappers
  import opened Raster
  import opened Records
  import opened Grouping

  // ---------------------------------------------------------------------------
  // The anchor of a crop.

  /** The `(mg, fx, fy)` accumulators of the scan. */
  type Choice = (int, int, int)

  /**
   * Scanning row `cy` (its first |row| pixels) from the choice `acc`: a pixel replaces
   * the current choice only when its gray value is strictly larger than mg.
   */
  function ScanRow(row: seq<Pixel>, cy: int, acc: Choice, gray: Pixel -> int): Choice
  {
    if row == [] then acc
    else
      var (mg, fx, fy) := ScanRow(row[..|row| - 1], cy, acc, gray);
      var g := gray(row[|row| - 1]);
      if mg < g then (g, |row| - 1, cy) else (mg, fx, fy)
  }

  /** The scan over the first |rows| rows, from mg = 0 at (0, 0). */
  function ScanRows(rows: seq<seq<Pixel>>, gray: Pixel -> int): Choice
  {
    if rows == [] then (0, 0, 0)
    else ScanRow(rows[|rows| - 1], |rows| - 1, ScanRows(rows[..|rows| - 1], gray), gray)
  }

  /**
   * Within one row the choice only grows; it moves only to the first pixel of that
   * row with the row's largest gray value, and only when that value beats mg.
   */
  lemma {:induction false} ScanRowSpec(row: seq<Pixel>, cy: int, acc: Choice, gray: Pixel -> int)
    ensures var (mg, fx, fy) := ScanRow(row, cy, acc, gray);
      && mg >= acc.0
      && (forall cx :: 0 <= cx < |row| ==> gray(row[cx]) <= mg)
      && (mg == acc.0 ==> (fx, fy) == (acc.1, acc.2))
      && (mg > acc.0 ==>
            && fy == cy && 0 <= fx < |row| && gray(row[fx]) == mg
            && forall cx :: 0 <= cx < fx ==> gray(row[cx]) < mg)
    decreases |row|
  {
    if row != [] {
      var init := row[..|row| - 1];
      ScanRowSpec(init, cy, acc, gray);
      assert forall cx :: 0 <= cx < |init| ==> init[cx] == row[cx];
    }
  }

  /**
   * Over whole rows of width w: every gray value is at most mg; when mg > 0 the choice
   * is the first pixel in row-major order with that value; otherwise it is (0, 0).
   */
  lemma {:induction false} ScanRowsSpec(rows: seq<seq<Pixel>>, w: int, gray: Pixel -> int)
    requires w >= 1 && forall r :: 0 <= r < |rows| ==> |rows[r]| == w
    ensures var (mg, fx, fy) := ScanRows(rows, gray);
      && mg >= 0
      && (forall cy, cx :: 0 <= cy < |rows| && 0 <= cx < w ==> gray(rows[cy][cx]) <= mg)
      && (mg == 0 ==> (fx, fy) == (0, 0))
      && (mg > 0 ==>
            && 0 <= fy < |rows| && 0 <= fx < w && gray(rows[fy][fx]) == mg
            && forall cy, cx :: 0 <= cy < |rows| && 0 <= cx < w && (cy < fy || (cy == fy && cx < fx)) ==>
                 gray(rows[cy][cx]) < mg)
    decreases |rows|
  {
    if rows != [] {
      var init := rows[..|rows| - 1];
      ScanRowsSpec(init, w, gray);
      assert forall r :: 0 <= r < |init| ==> init[r] == rows[r];
      ScanRowSpec(rows[|rows| - 1], |rows| - 1, ScanRows(init, gray), gray);
    }
  }

  /**
   * `(fx, fy)`: the centre `(w // 2, h // 2)` of a square crop, otherwise the choice
   * of the scan.
   */
  function Anchor(img: Img, gray: Pixel -> int): XY
  {
    if img.width == img.height then (img.width / 2, img.height / 2)
    else
      var (_, fx, fy) := ScanRows(img.rows, gray);
      (fx, fy)
  }

  /**
   * A non-square crop anchors inside the image, on the first pixel in row-major order
   * whose gray value is strictly maximal and positive; when every pixel is 0 it
   * anchors at (0, 0).
   */
  lemma AnchorSpec(img: Img, gray: Pixel -> int)
    requires img.width != img.height
    ensures var (fx, fy) := Anchor(img, gray);
      && 0 <= fx < img.width && 0 <= fy < img.height
      && ((exists cy, cx :: 0 <= cy < img.height && 0 <= cx < img.width && gray(img.rows[cy][cx]) > 0) ==>
            && gray(img.rows[fy][fx]) > 0
            && (forall cy, cx :: 0 <= cy < img.height && 0 <= cx < img.width ==>
                  gray(img.rows[cy][cx]) <= gray(img.rows[fy][fx]))
            && (forall cy, cx :: 0 <= cy < img.height && 0 <= cx < img.width && (cy < fy || (cy == fy && cx < fx)) ==>
                  gray(img.rows[cy][cx]) < gray(img.rows[fy][fx])))
      && ((forall cy, cx :: 0 <= cy < img.height && 0 <= cx < img.width ==> gray(img.rows[cy][cx]) <= 0) ==>
            (fx, fy) == (0, 0))
  {
    ScanRowsSpec(img.rows, img.width, gray);
  }

  /** The scan of append_to_frame for a non-square crop, with its `mg`, `fx`, `fy` accumulators. */
  method BrightestAnchor(img: Img, gray: Pixel -> int) returns (fx: int, fy: int)
    requires img.width != img.height
    ensures (fx, fy) == Anchor(img, gray)
  {
    var mg := 0;
    fx, fy := 0, 0;
    var cy := 0;
    while cy < img.height
      invariant 0 <= cy <= img.height
      invariant (mg, fx, fy) == ScanRows(img.rows[..cy], gray)
    {
      var row := img.rows[cy];
      ghost var acc := (mg, fx, fy);
      assert img.rows[..cy + 1][..cy] == img.rows[..cy];
      var cx := 0;
      while cx < img.width
        invariant 0 <= cx <= img.width
        invariant (mg, fx, fy) == ScanRow(row[..cx], cy, acc, gray)
      {
        var g := gray(row[cx]);
        assert row[..cx + 1][..cx] == row[..cx];
        if mg < g {
          mg, fx, fy := g, cx, cy;
        }
        cx := cx + 1;
      }
      assert row[..cx] == row;
      cy := cy + 1;
    }
    assert img.rows[..cy] == img.rows;
  }

  // ---------------------------------------------------------------------------
  // Pasting one crop onto the canvas.

  /** Where a crop lands: its image and the canvas position of its top-left corner. */
  datatype Placement = Placement(img: Img, ox: int, oy: int)

  /** `crop_x, crop_y = x - fx, y - fy` */
  function Place(img: Img, x: int, y: int, gray: Pixel -> int): Placement
  {
    var (fx, fy) := Anchor(img, gray);
    Placement(img, x - fx, y - fy)
  }

  /**
   * The crop lies on a W x H canvas. Its one-pixel border may fall off the right or
   * bottom edge; CopyBorder clips it there.
   */
  predicate Fits(p: Placement, W: int, H: int)
  {
    0 <= p.ox && p.ox + p.img.width <= W && 0 <= p.oy && p.oy + p.img.height <= H
  }

  /**
   * Canvas pixel (X, Y) after append_to_frame when it was `prev` before: the crop
   * itself, then the column to its right copied from its last column, the row below
   * copied from its last row, and the corner below-right from its last pixel.
   */
  function Appended(prev: Pixel, p: Placement, X: int, Y: int): Pixel
  {
    var w, h := p.img.width, p.img.height;
    if p.ox <= X < p.ox + w && p.oy <= Y < p.oy + h then p.img.rows[Y - p.oy][X - p.ox]
    else if X == p.ox + w && p.oy <= Y < p.oy + h then p.img.rows[Y - p.oy][w - 1]
    else if p.ox <= X < p.ox + w && Y == p.oy + h then p.img.rows[h - 1][X - p.ox]
    else if X == p.ox + w && Y == p.oy + h then p.img.rows[h - 1][w - 1]
    else prev
  }

  /** The crop grown by its one-pixel border to the right and below. */
  predicate InBordered(p: Placement, X: int, Y: int)
  {
    p.ox <= X <= p.ox + p.img.width && p.oy <= Y <= p.oy + p.img.height
  }

  function Min(a: int, b: int): int { if a < b then a else b }

  /**
   * Seen as a whole, one paste shows, inside the bordered rectangle, the crop with
   * its last column and last row repeated once, and leaves every other pixel alone.
   */
  lemma AppendedBordered(prev: Pixel, p: Placement, X: int, Y: int)
    ensures InBordered(p, X, Y) ==>
      Appended(prev, p, X, Y) == p.img.rows[Min(Y - p.oy, p.img.height - 1)][Min(X - p.ox, p.img.width - 1)]
    ensures !InBordered(p, X, Y) ==> Appended(prev, p, X, Y) == prev
  {
  }

  predicate InCrop(p: Placement, X: int, Y: int)
  {
    p.ox <= X < p.ox + p.img.width && p.oy <= Y < p.oy + p.img.height
  }

  /** `image.paste(hit_img, box)` for a box inside the canvas. */
  method PasteCrop(canvas: array2<Pixel>, p: Placement)
    requires Fits(p, canvas.Length0, canvas.Length1)
    modifies canvas
    ensures forall X, Y :: 0 <= X < canvas.Length0 && 0 <= Y < canvas.Length1 ==>
      canvas[X, Y] == if InCrop(p, X, Y) then p.img.rows[Y - p.oy][X - p.ox] else old(canvas[X, Y])
  {
    var img, ox, oy := p.img, p.ox, p.oy;
    forall X, Y | 0 <= X < canvas.Length0 && 0 <= Y < canvas.Length1 && InCrop(p, X, Y) {
      canvas[X, Y] := img.rows[Y - oy][X - ox];
    }
  }

  /**
   * The three border pastes of append_to_frame: the column right of the crop from its
   * last column, the row below from its last row, the corner from its last pixel;
   * each clipped where it falls off the canvas.
   */
  method CopyBorder(canvas: array2<Pixel>, p: Placement)
    requires Fits(p, canvas.Length0, canvas.Length1)
    modifies canvas
    ensures forall X, Y :: 0 <= X < canvas.Length0 && 0 <= Y < canvas.Length1 ==>
      canvas[X, Y] == if InBordered(p, X, Y) && !InCrop(p, X, Y)
        then old(canvas[Min(X, p.ox + p.img.width - 1), Min(Y, p.oy + p.img.height - 1)])
        else old(canvas[X, Y])
  {
    var W, H := canvas.Length0, canvas.Length1;
    var right, below := p.ox + p.img.width, p.oy + p.img.height;
    forall X, Y | 0 <= X < W && 0 <= Y < H && X == right && p.oy <= Y < below {
      canvas[X, Y] := canvas[X - 1, Y];
    }
    forall X, Y | 0 <= X < W && 0 <= Y < H && p.ox <= X < right && Y == below {
      canvas[X, Y] := canvas[X, Y - 1];
    }
    if right < W && below < H {
      canvas[right, below] := canvas[right - 1, below - 1];
    }
  }

  /**
   * append_to_frame: pastes the crop at (x - fx, y - fy), copies the border, sets
   * crop_x, crop_y and crop_size, and sets edge for a non-square crop.
   */
  method AppendToFrame(canvas: array2<Pixel>, d: Hit, gray: Pixel -> int)
    requires d.image.Some?
    requires Fits(Place(d.image.value, d.x, d.y, gray), canvas.Length0, canvas.Length1)
    modifies canvas, d`edge, d`cropX, d`cropY, d`cropSize
    ensures var p := Place(d.image.value, d.x, d.y, gray);
      forall X, Y :: 0 <= X < canvas.Length0 && 0 <= Y < canvas.Length1 ==>
        canvas[X, Y] == Appended(old(canvas[X, Y]), p, X, Y)
    ensures d.cropX == Some(Place(d.image.value, d.x, d.y, gray).ox)
    ensures d.cropY == Some(Place(d.image.value, d.x, d.y, gray).oy)
    ensures d.cropSize == Some((d.image.value.width, d.image.value.height))
    ensures d.edge == (old(d.edge) || d.image.value.width != d.image.value.height)
  {
    var img := d.image.value;
    var w, h := img.width, img.height;
    var fx, fy;
    if w == h {
      fx, fy := w / 2, h / 2;
    } else {
      d.edge := true;
      fx, fy := BrightestAnchor(img, gray);
    }
    var p := Placement(img, d.x - fx, d.y - fy);
    assert p == Place(img, d.x, d.y, gray);
    PasteCrop(canvas, p);
    CopyBorder(canvas, p);
    forall X, Y | 0 <= X < canvas.Length0 && 0 <= Y < canvas.Length1
      ensures canvas[X, Y] == Appended(old(canvas[X, Y]), p, X, Y)
    {
      AppendedBordered(old(canvas[X, Y]), p, X, Y);
    }
    d.cropX, d.cropY, d.cropSize := Some(p.ox), Some(p.oy), Some((w, h));
  }

  // ---------------------------------------------------------------------------
  // Cutting a record out again.

  /** A w x h rectangle at (x, y) that lies on the canvas. */
  predicate CropFits(canvas: array2<Pixel>, x: int, y: int, w: int, h: int)
  {
    1 <= w && 1 <= h && 0 <= x && x + w <= canvas.Length0 && 0 <= y && y + h <= canvas.Length1
  }

  /** `image.crop((x, y, x + w, y + h))`: row cy, column cx is canvas pixel (x + cx, y + cy). */
  function CanvasCrop(canvas: array2<Pixel>, x: int, y: int, w: int, h: int): (img: Img)
    requires CropFits(canvas, x, y, w, h)
    reads canvas
    ensures img.width == w && img.height == h
    ensures forall cy, cx :: 0 <= cy < h && 0 <= cx < w ==> img.rows[cy][cx] == canvas[x + cx, y + cy]
  {
    Image(w, h, seq(h, cy requires 0 <= cy < h reads canvas =>
      seq(w, cx requires 0 <= cx < w reads canvas => canvas[x + cx, y + cy])))
  }

  /**
   * replace_from_frame: the record's image becomes the canvas rectangle at
   * (crop_x, crop_y) of size crop_size, and frame_decoded its PNG encoding.
   */
  method ReplaceFromFrame(canvas: array2<Pixel>, d: Hit, encode: Img -> Bytes)
    requires d.cropX.Some? && d.cropY.Some? && d.cropSize.Some?
    requires CropFits(canvas, d.cropX.value, d.cropY.value, d.cropSize.value.0, d.cropSize.value.1)
    modifies d`image, d`frameDecoded
    ensures d.image == Some(CanvasCrop(canvas, d.cropX.value, d.cropY.value, d.cropSize.value.0, d.cropSize.value.1))
    ensures d.frameDecoded == Some(encode(d.image.value))
  {
    var (w, h) := d.cropSize.value;
    var img := CanvasCrop(canvas, d.cropX.value, d.cropY.value, w, h);
    d.image := Some(img);
    d.frameDecoded := Some(encode(img));
  }

  // ---------------------------------------------------------------------------
  // The whole frame.

  /** Canvas pixel (X, Y) once the crops `ps` have been pasted onto black, the last one first. */
  function Composite(ps: seq<Placement>, X: int, Y: int): Pixel
  {
    if ps == [] then Black else Appended(Composite(ps[1..], X, Y), ps[0], X, Y)
  }

  /** The rectangle of `p` cut out of the composite of `ps`. */
  function CompositeCrop(ps: seq<Placement>, p: Placement): (img: Img)
    ensures img.width == p.img.width && img.height == p.img.height
    ensures forall cy, cx :: 0 <= cy < img.height && 0 <= cx < img.width ==>
      img.rows[cy][cx] == Composite(ps, p.ox + cx, p.oy + cy)
  {
    var w, h := p.img.width, p.img.height;
    var rows := seq(h, cy requires 0 <= cy < h => seq(w, cx requires 0 <= cx < w => Composite(ps, p.ox + cx, p.oy + cy)));
    assert Image(w, h, rows).Valid();
    Image(w, h, rows)
  }

  /** Every record of the list holds an image. */
  predicate AllLoaded(ds: seq<Hit>)
    reads Objects(ds)
  {
    forall i :: 0 <= i < |ds| ==> ds[i].image.Some?
  }

  /** Where each record's crop lands. */
  function Placements(ds: seq<Hit>, gray: Pixel -> int): (ps: seq<Placement>)
    requires AllLoaded(ds)
    reads Objects(ds)
    ensures |ps| == |ds|
    ensures forall i :: 0 <= i < |ds| ==> ps[i] == Place(ds[i].image.value, ds[i].x, ds[i].y, gray)
  {
    if ds == [] then [] else [Place(ds[0].image.value, ds[0].x, ds[0].y, gray)] + Placements(ds[1..], gray)
  }

  /**
   * The reverse loop of do_reconstruct on a black canvas: for each record from the
   * last to the first, frame_decoded_orig := frame_decoded, then append_to_frame.
   */
  method AppendAll(canvas: array2<Pixel>, ds: seq<Hit>, gray: Pixel -> int, ghost ps: seq<Placement>)
    requires NoDuplicates(ds) && AllLoaded(ds) && ps == Placements(ds, gray)
    requires forall i :: 0 <= i < |ds| ==> Fits(ps[i], canvas.Length0, canvas.Length1)
    requires forall X, Y :: 0 <= X < canvas.Length0 && 0 <= Y < canvas.Length1 ==> canvas[X, Y] == Black
    modifies canvas, Objects(ds)`frameDecodedOrig, Objects(ds)`edge
    modifies Objects(ds)`cropX, Objects(ds)`cropY, Objects(ds)`cropSize
    ensures forall X, Y :: 0 <= X < canvas.Length0 && 0 <= Y < canvas.Length1 ==>
      canvas[X, Y] == Composite(ps, X, Y)
    ensures forall i :: 0 <= i < |ds| ==>
      && ds[i].frameDecodedOrig == old(ds[i].frameDecoded)
      && ds[i].cropX == Some(ps[i].ox) && ds[i].cropY == Some(ps[i].oy)
      && ds[i].cropSize == Some((ps[i].img.width, ps[i].img.height))
      && ds[i].edge == (old(ds[i].edge) || ps[i].img.width != ps[i].img.height)
  {
    var k := |ds|;
    assert ps[k..] == [];
    while k > 0
      invariant 0 <= k <= |ds|
      invariant forall X, Y :: 0 <= X < canvas.Length0 && 0 <= Y < canvas.Length1 ==>
        canvas[X, Y] == Composite(ps[k..], X, Y)
      invariant forall i :: 0 <= i < k ==> ds[i].edge == old(ds[i].edge)
      invariant forall i :: k <= i < |ds| ==>
        && ds[i].frameDecodedOrig == old(ds[i].frameDecoded)
        && ds[i].cropX == Some(ps[i].ox) && ds[i].cropY == Some(ps[i].oy)
        && ds[i].cropSize == Some((ps[i].img.width, ps[i].img.height))
        && ds[i].edge == (old(ds[i].edge) || ps[i].img.width != ps[i].img.height)
    {
      k := k - 1;
      var d := ds[k];
      d.frameDecodedOrig := d.frameDecoded;
      AppendToFrame(canvas, d, gray);
      assert ps[k..][1..] == ps[k + 1..];
    }
  }

  /** The forward loop of do_reconstruct: replace_from_frame for every record. */
  method ReplaceAll(canvas: array2<Pixel>, ds: seq<Hit>, ghost ps: seq<Placement>, encode: Img -> Bytes)
    requires NoDuplicates(ds) && |ps| == |ds|
    requires forall i :: 0 <= i < |ds| ==> Fits(ps[i], canvas.Length0, canvas.Length1)
    requires forall i :: 0 <= i < |ds| ==>
      ds[i].cropX == Some(ps[i].ox) && ds[i].cropY == Some(ps[i].oy) &&
      ds[i].cropSize == Some((ps[i].img.width, ps[i].img.height))
    requires forall X, Y :: 0 <= X < canvas.Length0 && 0 <= Y < canvas.Length1 ==>
      canvas[X, Y] == Composite(ps, X, Y)
    modifies Objects(ds)`image, Objects(ds)`frameDecoded
    ensures forall i :: 0 <= i < |ds| ==>
      ds[i].image == Some(CompositeCrop(ps, ps[i])) && ds[i].frameDecoded == Some(encode(ds[i].image.value))
  {
    for i := 0 to |ds|
      invariant forall j :: 0 <= j < i ==>
        ds[j].image == Some(CompositeCrop(ps, ps[j])) && ds[j].frameDecoded == Some(encode(ds[j].image.value))
    {
      ReplaceFromFrame(canvas, ds[i], encode);
      var p := ps[i];
      var cut, composite := CanvasCrop(canvas, p.ox, p.oy, p.img.width, p.img.height), CompositeCrop(ps, p);
      assert cut.rows == composite.rows by {
        forall cy | 0 <= cy < p.img.height ensures cut.rows[cy] == composite.rows[cy] {
          assert forall cx :: 0 <= cx < p.img.width ==> cut.rows[cy][cx] == composite.rows[cy][cx];
        }
      }
    }
  }

  /**
   * The reconstruction is possible: every crop lands on the first record's canvas (its
   * border may be clipped at the right or bottom edge).
   */
  predicate Reconstructible(ds: seq<Hit>, gray: Pixel -> int)
    reads Objects(ds)
  {
    && |ds| > 0 && NoDuplicates(ds) && AllLoaded(ds)
    && 0 <= ds[0].width && 0 <= ds[0].height
    && forall i :: 0 <= i < |ds| ==> Fits(Placements(ds, gray)[i], ds[0].width, ds[0].height)
  }

  /**
   * do_reconstruct: with at most one record nothing changes. Otherwise, on a black
   * canvas of the first record's declared width x height, the crops are appended from
   * the last record to the first, each record keeping its old frame_decoded as
   * frame_decoded_orig, and then every record is cut out again.
   */
  method DoReconstruct(ds: seq<Hit>, gray: Pixel -> int, encode: Img -> Bytes)
    requires |ds| > 1 ==> Reconstructible(ds, gray)
    modifies Objects(ds)`frameDecodedOrig, Objects(ds)`edge, Objects(ds)`cropX, Objects(ds)`cropY
    modifies Objects(ds)`cropSize, Objects(ds)`image, Objects(ds)`frameDecoded
    ensures |ds| <= 1 ==> unchanged(Objects(ds))
    ensures |ds| > 1 ==> forall i :: 0 <= i < |ds| ==>
      var ps := old(Placements(ds, gray));
      && ds[i].frameDecodedOrig == old(ds[i].frameDecoded)
      && ds[i].image == Some(CompositeCrop(ps, ps[i]))
      && ds[i].frameDecoded == Some(encode(ds[i].image.value))
      && ds[i].cropX == Some(ps[i].ox) && ds[i].cropY == Some(ps[i].oy)
      && ds[i].cropSize == Some((ps[i].img.width, ps[i].img.height))
      && ds[i].edge == (old(ds[i].edge) || ps[i].img.width != ps[i].img.height)
  {
    if |ds| <= 1 {
      return;
    }
    ghost var ps := Placements(ds, gray);
    var canvas := new Pixel[ds[0].width, ds[0].height]((X, Y) => Black);
    AppendAll(canvas, ds, gray, ps);
    ReplaceAll(canvas, ds, ps, encode);
  }

  // ---------------------------------------------------------------------------
  // What the reconstruction achieves.

  /**
   * Each canvas pixel shows the first record, in list order, whose bordered crop
   * reaches it: that crop's pixel, its last column or row repeated on the border.
   */
  lemma {:induction false} CompositeFirstCover(ps: seq<Placement>, j: int, X: int, Y: int)
    requires 0 <= j < |ps| && InBordered(ps[j], X, Y)
    requires forall l :: 0 <= l < j ==> !InBordered(ps[l], X, Y)
    ensures Composite(ps, X, Y) ==
      ps[j].img.rows[Min(Y - ps[j].oy, ps[j].img.height - 1)][Min(X - ps[j].ox, ps[j].img.width - 1)]
    decreases j
  {
    AppendedBordered(Composite(ps[1..], X, Y), ps[0], X, Y);
    if j > 0 {
      CompositeFirstCover(ps[1..], j - 1, X, Y);
    }
  }

  /** A pixel no bordered crop reaches stays black. */
  lemma {:induction false} CompositeUncovered(ps: seq<Placement>, X: int, Y: int)
    requires forall l :: 0 <= l < |ps| ==> !InBordered(ps[l], X, Y)
    ensures Composite(ps, X, Y) == Black
    decreases |ps|
  {
    if ps != [] {
      AppendedBordered(Composite(ps[1..], X, Y), ps[0], X, Y);
      CompositeUncovered(ps[1..], X, Y);
    }
  }

  /** A record keeps its own pixel wherever no earlier record's bordered crop reaches. */
  lemma OwnPixelKept(ps: seq<Placement>, i: int, cx: int, cy: int)
    requires 0 <= i < |ps| && 0 <= cy < ps[i].img.height && 0 <= cx < ps[i].img.width
    requires forall l :: 0 <= l < i ==> !InBordered(ps[l], ps[i].ox + cx, ps[i].oy + cy)
    ensures CompositeCrop(ps, ps[i]).rows[cy][cx] == ps[i].img.rows[cy][cx]
  {
    CompositeFirstCover(ps, i, ps[i].ox + cx, ps[i].oy + cy);
  }

  /**
   * Where the crop of an earlier record j covers it (and nothing before j reaches),
   * record i shows j's pixel: the black fill of its cut frame is replaced.
   */
  lemma OverlapFilled(ps: seq<Placement>, i: int, j: int, cx: int, cy: int)
    requires 0 <= j < i < |ps| && 0 <= cy < ps[i].img.height && 0 <= cx < ps[i].img.width
    requires InCrop(ps[j], ps[i].ox + cx, ps[i].oy + cy)
    requires forall l :: 0 <= l < j ==> !InBordered(ps[l], ps[i].ox + cx, ps[i].oy + cy)
    ensures CompositeCrop(ps, ps[i]).rows[cy][cx] ==
      ps[j].img.rows[ps[i].oy + cy - ps[j].oy][ps[i].ox + cx - ps[j].ox]
  {
    CompositeFirstCover(ps, j, ps[i].ox + cx, ps[i].oy + cy);
  }

  /** The first record, pasted last, gets exactly its own image back. */
  lemma FirstRecordRestored(ps: seq<Placement>)
    requires |ps| >= 1
    ensures CompositeCrop(ps, ps[0]) == ps[0].img
  {
    var p := ps[0];
    var cut := CompositeCrop(ps, p);
    forall cy | 0 <= cy < p.img.height ensures cut.rows[cy] == p.img.rows[cy] {
      forall cx | 0 <= cx < p.img.width ensures cut.rows[cy][cx] == p.img.rows[cy][cx] {
        OwnPixelKept(ps, 0, cx, cy);
      }
    }
  }

  /** The red channel, as a gray conversion for the example below. */
  function Red(px: Pixel): int { px.0 as int }

  const Dim: Pixel := (10, 0, 0, 255)
  const Bright: Pixel := (20, 0, 0, 255)

  /**
   * Reconstruction is not idempotent for non-square crops. A crop cut out of the
   * composite can anchor elsewhere than the crop it replaced, so a second run places it
   * differently. Two 2 x 1 crops on a 10 x 1 canvas: A = [Dim, Black] at x = 5 and
   * B = [Black, Bright] at x = 6. A first run gives B the crop [Dim, Black]. A second
   * run on those crops anchors B at its left pixel, places it at 6 instead of 5, and
   * gives it [Black, Black].
   */
  lemma ReconstructionNotIdempotent()
    ensures var a: Img, b: Img := Image(2, 1, [[Dim, Black]]), Image(2, 1, [[Black, Bright]]);
      var ps := [Place(a, 5, 0, Red), Place(b, 6, 0, Red)];
      var b1 := CompositeCrop(ps, ps[1]);
      var qs := [Place(CompositeCrop(ps, ps[0]), 5, 0, Red), Place(b1, 6, 0, Red)];
      && Fits(ps[0], 10, 1) && Fits(ps[1], 10, 1) && Fits(qs[0], 10, 1) && Fits(qs[1], 10, 1)
      && b1 == Image(2, 1, [[Dim, Black]])
      && CompositeCrop(qs, qs[1]) == Image(2, 1, [[Black, Black]])
  {
    var a: Img, b: Img := Image(2, 1, [[Dim, Black]]), Image(2, 1, [[Black, Bright]]);
    assert ScanRows(a.rows, Red) == (10, 0, 0) by {
      var row := a.rows[0];
      assert a.rows[..0] == [] && row[..1][..0] == [];
      assert ScanRow(row[..1], 0, (0, 0, 0), Red) == (10, 0, 0);
      assert ScanRow(row, 0, (0, 0, 0), Red) == (10, 0, 0);
    }
    assert ScanRows(b.rows, Red) == (20, 1, 0) by {
      var row := b.rows[0];
      assert b.rows[..0] == [] && row[..1][..0] == [];
      assert ScanRow(row[..1], 0, (0, 0, 0), Red) == (0, 0, 0);
      assert ScanRow(row, 0, (0, 0, 0), Red) == (20, 1, 0);
    }
    var ps := [Place(a, 5, 0, Red), Place(b, 6, 0, Red)];
    assert ps[0].ox == 5 && ps[1].ox == 5;
    ghost var a1, b1 := CompositeCrop(ps, ps[0]), CompositeCrop(ps, ps[1]);
    FirstRecordRestored(ps);
    assert b1.rows[0][0] == Composite(ps, 5, 0) == Dim;
    assert b1.rows[0][1] == Composite(ps, 6, 0) == Black;
    assert b1.rows[0] == [Dim, Black];
    assert b1 == a;
    var qs := [Place(a1, 5, 0, Red), Place(b1, 6, 0, Red)];
    assert qs[0].ox == 5 && qs[1].ox == 6;
    ghost var b2 := CompositeCrop(qs, qs[1]);
    assert b2.rows[0][0] == Composite(qs, 6, 0) == Black;
    assert b2.rows[0][1] == Composite(qs, 7, 0) == Black;
    assert b2.rows[0] == [Black, Black];
  }

  // ---------------------------------------------------------------------------
  // Which time groups still hold unclassified records.

  /** Every record of the list has classified == 'artifact' (true of the empty list). */
  predicate AllArtifacts(ds: seq<Hit>)
    reads Objects(ds)
  {
    forall i :: 0 <= i < |ds| ==> ds[i].marks.artifact
  }

  /** check_all_artifacts: the loop that answers False at the first record not classified as artifact. */
  method CheckAllArtifacts(ds: seq<Hit>) returns (r: bool)
    ensures r <==> AllArtifacts(ds)
  {
    for i := 0 to |ds|
      invariant forall j :: 0 <= j < i ==> ds[j].marks.artifact
    {
      if !ds[i].marks.artifact {
        return false;
      }
    }
    return true;
  }

  /** The keys, in map order, whose list is not all artifacts. */
  function UnclassifiedKeys<K>(g: Groups<K>): seq<K>
    reads MemberSet(g)
  {
    if g == [] then []
    else
      var init := g[..|g| - 1];
      assert MemberSet(init) <= MemberSet(g) by {
        forall d | d in MemberSet(init) ensures d in MemberSet(g) {
          var i :| 0 <= i < |init| && d in init[i].1;
          assert init[i] == g[i];
        }
      }
      assert Objects(g[|g| - 1].1) <= MemberSet(g);
      UnclassifiedKeys(init) + if AllArtifacts(g[|g| - 1].1) then [] else [g[|g| - 1].0]
  }

  /** filter_unclassified: the loop over the groups that collects those keys. */
  method FilterUnclassified<K>(g: Groups<K>) returns (ret: seq<K>)
    ensures ret == UnclassifiedKeys(g)
  {
    ret := [];
    for i := 0 to |g|
      invariant ret == UnclassifiedKeys(g[..i])
    {
      label before:
      var all := CheckAllArtifacts(g[i].1);
      assert unchanged@before(MemberSet(g[..i]));
      assert g[..i + 1][..i] == g[..i] && g[..i + 1][i] == g[i];
      assert UnclassifiedKeys(g[..i + 1]) ==
        UnclassifiedKeys(g[..i]) + if AllArtifacts(g[i].1) then [] else [g[i].0];
      if !all {
        ret := ret + [g[i].0];
      } else {
        assert ret + [] == ret;
      }
    }
    assert g[..|g|] == g;
  }

  /**
   * A key is reported exactly when some record filed under it is not classified as
   * artifact, and there are no more keys than groups.
   */
  lemma {:induction false} UnclassifiedKeysSpec<K>(g: Groups<K>)
    ensures forall k :: k in UnclassifiedKeys(g) <==>
      exists i :: 0 <= i < |g| && g[i].0 == k && !AllArtifacts(g[i].1)
    ensures |UnclassifiedKeys(g)| <= |g|
    decreases |g|
  {
    if g != [] {
      var init := g[..|g| - 1];
      UnclassifiedKeysSpec(init);
      assert forall i :: 0 <= i < |init| ==> init[i] == g[i];
    }
  }

  /** With distinct keys, as a dictionary has, no key is reported twice. */
  lemma {:induction false} UnclassifiedKeysDistinct<K>(g: Groups<K>)
    requires DistinctKeys(g)
    ensures var r := UnclassifiedKeys(g);
      forall i, j :: 0 <= i < |r| && 0 <= j < |r| && i != j ==> r[i] != r[j]
    decreases |g|
  {
    if g != [] {
      var init := g[..|g| - 1];
      var last := g[|g| - 1];
      assert forall i :: 0 <= i < |init| ==> init[i] == g[i];
      UnclassifiedKeysDistinct(init);
      UnclassifiedKeysSpec(init);
      forall i | 0 <= i < |init| ensures init[i].0 != last.0 {
        assert g[i].0 != g[|g| - 1].0;
      }
      assert last.0 !in UnclassifiedKeys(init);
    }
  }
}
