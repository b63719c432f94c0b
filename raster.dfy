/**
 * Decoded rasters: what a hit record holds under its `image` key once PIL has
 * opened the PNG and converted it to RGBA.
 */
module Raster {

  /** One 8-bit channel value. */
  newtype byte = x: int | 0 <= x < 256

  /** An RGBA pixel, as `Image.getpixel` returns it for an 'RGBA' image. */
  type Pixel = (byte, byte, byte, byte)

  /** The fill of `Image.new('RGBA', size, (0, 0, 0))`: black, fully opaque. */
  const Black: Pixel := (0, 0, 0, 255)

  /**
   * A raster of `width` x `height` pixels; `rows[cy][cx]` is the pixel that
   * `getpixel((cx, cy))` returns.
   */
  datatype Image = Image(width: int, height: int, rows: seq<seq<Pixel>>)
  {
    /** A decoded PNG is never empty and every row has the image's width. */
    predicate Valid() {
      1 <= width && 1 <= height && |rows| == height &&
      forall cy :: 0 <= cy < |rows| ==> |rows[cy]| == width
    }
  }

  /** Images a record can hold. */
  type Img = img: Image | img.Valid() witness Image(1, 1, [[Black]])

  /** All pixels in the row-major order of the `for cy ...: for cx ...` scans. */
  function Flat(rows: seq<seq<Pixel>>): seq<Pixel>
  {
    if rows == [] then [] else Flat(rows[..|rows| - 1]) + rows[|rows| - 1]
  }

  /** The row-major scan visits every pixel once: pixel (cx, cy) sits at position cy * width + cx. */
  lemma {:induction false} FlatIndex(rows: seq<seq<Pixel>>, w: nat, cy: int, cx: int)
    requires forall r :: 0 <= r < |rows| ==> |rows[r]| == w
    requires 0 <= cy < |rows| && 0 <= cx < w
    ensures |Flat(rows)| == |rows| * w
    ensures cy * w + cx < |Flat(rows)| && Flat(rows)[cy * w + cx] == rows[cy][cx]
  {
    var n := |rows|;
    var init := rows[..n - 1];
    FlatLength(init, w);
    assert |Flat(rows)| == (n - 1) * w + w;
    if cy < n - 1 {
      FlatIndex(init, w, cy, cx);
      assert cy * w + cx < (cy + 1) * w <= (n - 1) * w;
    } else {
      assert cy * w == (n - 1) * w;
    }
  }

  lemma {:induction false} FlatLength(rows: seq<seq<Pixel>>, w: nat)
    requires forall r :: 0 <= r < |rows| ==> |rows[r]| == w
    ensures |Flat(rows)| == |rows| * w
  {
    if rows != [] {
      FlatLength(rows[..|rows| - 1], w);
    }
  }

  /** Scanning one more row extends the flat order by that row. */
  lemma FlatSnoc(rows: seq<seq<Pixel>>, k: nat)
    requires k < |rows|
    ensures Flat(rows[..k + 1]) == Flat(rows[..k]) + rows[k]
  {
    assert rows[..k + 1][..k] == rows[..k];
  }
}
