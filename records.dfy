/**
 * The hit record: one detection as the pipeline sees it. In the Python code it is
 * a dict that every stage enriches in place; here it is an object whose fields are
 * the keys the core reads and writes.
 */
module Records {
  import opened Wrappers
  import opened Raster

  /** Encoded payloads (base64-decoded PNG bytes); their content is opaque here. */
  type Bytes = seq<byte>

  /** A pixel position `(x, y)` or a resolution `(width, height)`. */
  type XY = (int, int)

  /** A JSON scalar, for the keys the core copies without interpreting. */
  datatype Value = Null | Bool(b: bool) | Int(i: int) | Real(r: real) | Str(s: string)

  /**
   * The classification outputs of one record: `classified` (absent, or 'artifact')
   * and one evidence key per heuristic, None while that key is absent.
   */
  datatype Marks = Marks(
    artifact: bool,                   // classified == 'artifact'
    hotPixel: Option<int>,            // artifact_hot_pixel
    nearHotPixel: Option<int>,        // artifact_near_hot_pixel
    nearHotPixelRefXY: Option<XY>,    // artifact_near_hot_pixel_refxy
    nearHotPixel2: Option<int>,       // artifact_near_hot_pixel2
    tooOften: Option<int>,            // artifact_too_often
    tooLargeBrightArea: Option<real>) // artifact_too_large_bright_area

  /** A record as it comes out of the JSON stream: nothing classified yet. */
  const Unmarked := Marks(false, None, None, None, None, None, None)

  /** `m'` keeps every piece of evidence `m` has: classification is never retracted. */
  predicate Extends(m: Marks, m': Marks)
  {
    && (m.artifact ==> m'.artifact)
    && (m.hotPixel.Some? ==> m'.hotPixel.Some?)
    && (m.nearHotPixel.Some? ==> m'.nearHotPixel.Some?)
    && (m.nearHotPixelRefXY.Some? ==> m'.nearHotPixelRefXY.Some?)
    && (m.nearHotPixel2.Some? ==> m'.nearHotPixel2.Some?)
    && (m.tooOften.Some? ==> m'.tooOften.Some?)
    && (m.tooLargeBrightArea.Some? ==> m'.tooLargeBrightArea.Some?)
  }

  /** What hot_pixel_classify writes into a flagged record. */
  function MarkHotPixel(m: Marks, count: int): Marks
  {
    m.(artifact := true, hotPixel := Some(count))
  }

  /** What near_hot_pixel_classify writes into a flagged record. */
  function MarkNearHotPixel(m: Marks, count: int, refXY: XY): Marks
  {
    m.(artifact := true, nearHotPixel := Some(count), nearHotPixelRefXY := Some(refXY))
  }

  /** What near_hot_pixel_classify2 writes into every record: the evidence always, the class when flagged. */
  function MarkNearHotPixel2(m: Marks, neighbourhood: int, flagged: bool): Marks
  {
    m.(nearHotPixel2 := Some(neighbourhood), artifact := m.artifact || flagged)
  }

  /** What too_often_classify writes into a flagged record. */
  function MarkTooOften(m: Marks, count: int): Marks
  {
    m.(artifact := true, tooOften := Some(count))
  }

  /** What too_large_bright_area_classify writes into a flagged record. */
  function MarkTooLargeBrightArea(m: Marks, perMille: real): Marks
  {
    m.(artifact := true, tooLargeBrightArea := Some(perMille))
  }

  /**
   * Each classifier's write only adds: no evidence is retracted, `classified` becomes
   * 'artifact' (for near_hot_pixel_classify2 only when flagged), and every field other
   * than `classified` and that classifier's own evidence is left as it was.
   */
  lemma MarksAreAdditive(m: Marks, c: int, r: XY, n: int, f: bool, p: real)
    ensures Extends(m, MarkHotPixel(m, c)) && Extends(m, MarkNearHotPixel(m, c, r))
    ensures Extends(m, MarkNearHotPixel2(m, n, f)) && Extends(m, MarkTooOften(m, c))
    ensures Extends(m, MarkTooLargeBrightArea(m, p))
    ensures MarkHotPixel(m, c).artifact && MarkNearHotPixel(m, c, r).artifact
    ensures MarkTooOften(m, c).artifact && MarkTooLargeBrightArea(m, p).artifact
    ensures MarkNearHotPixel2(m, n, f).artifact == (m.artifact || f)
    ensures MarkHotPixel(m, c).(artifact := m.artifact, hotPixel := m.hotPixel) == m
    ensures MarkNearHotPixel(m, c, r).(artifact := m.artifact, nearHotPixel := m.nearHotPixel,
                                       nearHotPixelRefXY := m.nearHotPixelRefXY) == m
    ensures MarkNearHotPixel2(m, n, f).(artifact := m.artifact, nearHotPixel2 := m.nearHotPixel2) == m
    ensures MarkTooOften(m, c).(artifact := m.artifact, tooOften := m.tooOften) == m
    ensures MarkTooLargeBrightArea(m, p).(artifact := m.artifact, tooLargeBrightArea := m.tooLargeBrightArea) == m
  {
  }

  /** Repeating a classifier's write with the same evidence changes nothing. */
  lemma MarksIdempotent(m: Marks, c: int, r: XY, n: int, f: bool, p: real)
    ensures MarkHotPixel(MarkHotPixel(m, c), c) == MarkHotPixel(m, c)
    ensures MarkNearHotPixel(MarkNearHotPixel(m, c, r), c, r) == MarkNearHotPixel(m, c, r)
    ensures MarkNearHotPixel2(MarkNearHotPixel2(m, n, f), n, f) == MarkNearHotPixel2(m, n, f)
    ensures MarkTooOften(MarkTooOften(m, c), c) == MarkTooOften(m, c)
    ensures MarkTooLargeBrightArea(MarkTooLargeBrightArea(m, p), p) == MarkTooLargeBrightArea(m, p)
  {
  }

  /**
   * The writes of two different classifiers commute, for each of the ten pairs: running
   * them in either order leaves the same classification and evidence.
   */
  lemma MarksCommute(m: Marks, h: int, c: int, r: XY, n: int, f: bool, t: int, p: real)
    ensures MarkNearHotPixel(MarkHotPixel(m, h), c, r) == MarkHotPixel(MarkNearHotPixel(m, c, r), h)
    ensures MarkNearHotPixel2(MarkHotPixel(m, h), n, f) == MarkHotPixel(MarkNearHotPixel2(m, n, f), h)
    ensures MarkTooOften(MarkHotPixel(m, h), t) == MarkHotPixel(MarkTooOften(m, t), h)
    ensures MarkTooLargeBrightArea(MarkHotPixel(m, h), p) == MarkHotPixel(MarkTooLargeBrightArea(m, p), h)
    ensures MarkNearHotPixel2(MarkNearHotPixel(m, c, r), n, f) == MarkNearHotPixel(MarkNearHotPixel2(m, n, f), c, r)
    ensures MarkTooOften(MarkNearHotPixel(m, c, r), t) == MarkNearHotPixel(MarkTooOften(m, t), c, r)
    ensures MarkTooLargeBrightArea(MarkNearHotPixel(m, c, r), p) == MarkNearHotPixel(MarkTooLargeBrightArea(m, p), c, r)
    ensures MarkTooOften(MarkNearHotPixel2(m, n, f), t) == MarkNearHotPixel2(MarkTooOften(m, t), n, f)
    ensures MarkTooLargeBrightArea(MarkNearHotPixel2(m, n, f), p) == MarkNearHotPixel2(MarkTooLargeBrightArea(m, p), n, f)
    ensures MarkTooLargeBrightArea(MarkTooOften(m, t), p) == MarkTooOften(MarkTooLargeBrightArea(m, p), t)
  {
  }

  /**
   * One hit record. The keys the core only reads are constants; the keys the
   * pipeline adds or overwrites are variables.
   */
  class Hit {
    const id: int
    const deviceId: int
    const timestamp: int          // milliseconds
    const width: int              // declared frame width
    const height: int             // declared frame height
    const x: int                  // hit position within the frame
    const y: int
    const frameContent: Option<string>   // base64 payload; None when absent
    const other: map<string, Value>      // the remaining JSON keys, copied on insert

    var frameDecoded: Option<Bytes>      // frame_decoded
    var image: Option<Img>               // image
    var darkness: Option<int>            // image_darkness
    var brightest: Option<int>           // image_brightest
    var brighterCount: map<int, int>     // image_brighter_count_<threshold>, by threshold
    var edge: bool                       // edge (absent reads as False)
    var cropX: Option<int>               // crop_x
    var cropY: Option<int>               // crop_y
    var cropSize: Option<(int, int)>     // crop_size
    var frameDecodedOrig: Option<Bytes>  // frame_decoded_orig
    var marks: Marks                     // classified and the artifact_* evidence

    /** A record freshly parsed from the JSON stream. */
    constructor (id: int, deviceId: int, timestamp: int, width: int, height: int,
                 x: int, y: int, frameContent: Option<string>, other: map<string, Value>)
      ensures this.id == id && this.deviceId == deviceId && this.timestamp == timestamp
      ensures this.width == width && this.height == height && this.x == x && this.y == y
      ensures this.frameContent == frameContent && this.other == other
      ensures frameDecoded == None && image == None && darkness == None && brightest == None
      ensures brighterCount == map[] && !edge && cropX == None && cropY == None
      ensures cropSize == None && frameDecodedOrig == None && marks == Unmarked
    {
      this.id, this.deviceId, this.timestamp := id, deviceId, timestamp;
      this.width, this.height, this.x, this.y := width, height, x, y;
      this.frameContent, this.other := frameContent, other;
      frameDecoded, image, darkness, brightest := None, None, None, None;
      brighterCount, edge, cropX, cropY := map[], false, None, None;
      cropSize, frameDecodedOrig, marks := None, None, Unmarked;
    }
  }

  /** `(d['x'], d['y'])`: get_xy_key. */
  function Position(d: Hit): XY { (d.x, d.y) }

  /** `(d['width'], d['height'])`: the key of group_by_resolution. */
  function Resolution(d: Hit): XY { (d.width, d.height) }

  /**
   * `point_to_point_distance(a, b) < distance`: the Euclidean distance is below the
   * radius, compared through squares so no square root is taken. A point is at
   * distance 0 from itself, which is below every positive radius; that case is
   * spelled out because it is implied by the comparison of squares, but the
   * solver does not derive `0 < distance * distance` on reals reliably.
   */
  predicate Near(a: XY, b: XY, distance: real)
  {
    var dx, dy := a.0 - b.0, a.1 - b.1;
    distance > 0.0 && (a == b || ((dx * dx + dy * dy) as real) < distance * distance)
  }

  /** The records of a list, as a set of objects. */
  function Objects(ds: seq<Hit>): set<Hit>
  {
    set d | d in ds
  }

  /** No record occurs twice in the list. */
  predicate NoDuplicates(ds: seq<Hit>)
  {
    forall i, j :: 0 <= i < |ds| && 0 <= j < |ds| && i != j ==> ds[i] != ds[j]
  }
}
