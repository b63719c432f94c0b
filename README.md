# credo-classify: the hit-analysis pipeline and the import side, in Dafny

This project models the deterministic core of credo-classify. credo-classify takes dumps of cosmic-ray hits from CREDO detectors (phones), classifies the artifacts among them, and imports the results into a Django database. The model covers:

- **The stream extractor** (`load_objects_from_stream`). A three-stage character scanner pulls every `{...}` text out of a top-level JSON array, line by line. It is modelled as a method with a loop, proved equal to a scanner function (`Scanner`, `Step`, `ScanLine`, `ScanLines`). Lemmas then state what that function does with noise, separators, braces, brackets and line breaks. A round-trip lemma says that an array written from elements gives those elements back.
- **Photometry** (`image_utils.py`). The brightest channel of a pixel. The darkest and brightest non-black values of an image. The number of pixels at or above a threshold. All are written as loops over an image's rows and columns and proved equal to folds over the row-major pixel sequence. Loading an image and the load parser act on a `Hit` record object.
- **Frame reconstruction** (`cut_reconstruction.py`). Crops are pasted in reverse order onto a canvas, modelled as an `array2` updated in place. Each paste is anchored at the crop's centre, or at the first strictly brightest gray pixel of a non-square crop, and is followed by a one-pixel border copy. Every record is then re-cropped from the canvas. The lemmas give the final canvas as a composite of the placements. They also say which crop a record gets back: its own pixels where no earlier record covers them, the earlier record's pixels where one does, and the untouched crop for the first record. `check_all_artifacts` and `filter_unclassified` are included too.
- **The four artifact classifiers**. Each has its grouping (an insertion-ordered association list, built by one `GroupByLambda` fold) and its classify/process methods, which change only the record's classification marks. Their contracts give each record's new marks from counts the grouping lemmas characterise: distinct positions per resolution, cluster sizes, neighbourhood sums, distinct timestamps per window, and the bright-area share in thousandths.
- **The import command** (`import.py`). `sync_db` loads the stored table into a dictionary by id. It then sorts the incoming objects into inserts, updates and unchanged rows. It is modelled as a method over `Entity` objects whose attributes it overwrites, proved against a specification fold `SyncDbSpec` whose own lemmas state the partition and the counts. `insert_detections` maps each analysed record to a Detection row.
- **Storage paths and display strings** (`database/models.py`, `application/models.py`). These cover `get_filepath` and `get_filename`, with Python's `%04d`/`%09d`/`%d` formatting, truncating `int(a / b)` (as exact integer truncation) and `os.path.join` written out in module `Text`. They also cover the `__str__` formats. The application models' `__str__` methods (application/models.py:28-29, 44-45, 63-64, 136-137) use exactly the same formats as the database models' methods, so `DatabaseModels.TeamStr`, `UserStr`, `DeviceStr`, `DetectionStr` and their lemmas model both.

A hit record (a Python dict in the source) is the class `Records.Hit`:

- The fields the analysis never writes (`id`, `device_id`, `timestamp`, `width`, `height`, `x`, `y`, `frame_content`, the other JSON fields) are constants.
- The fields the pipeline fills in are mutable fields.
- Everything the classifiers write (`classified` and the evidence fields) is one value field `marks`, so each classifier's `modifies` says it touches nothing else.

The exclusion callback of the groupings is given as the set of records on which it answers True. The gray conversion, base64 decoding, PNG decoding and PNG encoding are function parameters.

Points where the code behaves differently from what its names suggest:

- hot_pixel_classify counts the distinct positions of the whole resolution group, not the hits at one pixel. So three hits at the same pixel give a count of 1, and with `often` 3 they are not flagged.
- near_hot_pixel_process passes the resolution key as `artifact_near_hot_pixel_refxy`.
- The middle directory of `get_filepath` is the whole quotient `id / 10000`, not reduced modulo 10000: id 123456789 goes to `0001/12345`.
- insert_detections, as written, fails on every record with an image: line 99 reads `detection_inner` before setting it.
- In sync_db, a new object is never added to the table dictionary, so two new objects with the same id are both inserted.
- The scanner does not count nesting: the first `}` closes an element, and a nested object is cut short.
- Reconstruction is not idempotent for non-square crops. A crop cut out of the composite can have a different brightest pixel from the crop it replaced, so a second run on the reconstructed group can anchor and place it elsewhere and cut out different pixels (`CutReconstruction.ReconstructionNotIdempotent` gives two 2 x 1 crops for which this happens).

## Model

| member | source | states |
|---|---|---|
| LoadWrite.LoadObjectsFromStream | hit_analysis/io/load_write.py:9-43 | the returned list is exactly what the three-stage scanner extracts from the lines, in input order, and `count` is its length |
| LoadWrite.LoadObjectsFromStr | hit_analysis/io/load_write.py:46-47 | a string is scanned as the lines StringIO yields (each keeping its newline), with the same result and count |
| LoadWrite.Step | hit_analysis/io/load_write.py:18-40 | no contract of its own; one character of the three-stage scanner, characterised by `StepSound`, `SeparatorsIgnored`, `OpenBraceStartsElement`, `BodyBuffered` and `CloseBracketEndsLineOnly` |
| LoadWrite.ScanLine | hit_analysis/io/load_write.py:17-40 | no contract of its own; the scan of one line, characterised by `LeadingNoiseIgnored`, `ElementSpansLines` and `ScanLineConcat` |
| LoadWrite.Extract | hit_analysis/io/load_write.py:9-43 | no contract of its own; the texts the extractor returns, characterised by `ExtractElements`, `ArrayRoundTrip` and `StringRoundTrip`, and computed by `LoadObjectsFromStream` |
| LoadWrite.ExtractElements | hit_analysis/io/load_write.py:29-34 | every emitted text starts with `{`, ends with `}` and holds no other `}` (nesting is not counted) |
| LoadWrite.StepSound | hit_analysis/io/load_write.py:18-40 | one character step keeps every emitted text an element and the buffer a `{`-started text without `}`, and only appends to the output |
| LoadWrite.LeadingNoiseIgnored | hit_analysis/io/load_write.py:18-21 | everything before the first `[` is ignored and the `[` itself is not buffered: the scan continues between objects with nothing emitted |
| LoadWrite.LeadingNoiseHalts | hit_analysis/io/load_write.py:18-21 | whether the line is abandoned is likewise decided by the text after the first `[` |
| LoadWrite.SeparatorsIgnored | hit_analysis/io/load_write.py:22-27 | between objects, characters other than `{` and `]` change neither the result nor whether the line is abandoned |
| LoadWrite.OpenBraceStartsElement | hit_analysis/io/load_write.py:25-40 | a `{` between objects starts a fresh buffer holding that `{` |
| LoadWrite.BodyBuffered | hit_analysis/io/load_write.py:28-40 | inside an object, the characters up to the first `}` are buffered and that `}` emits the buffer plus `}` and returns to between-objects |
| LoadWrite.ElementSpansLines | hit_analysis/io/load_write.py:16-17 | a line without `}` inside an object is appended to the buffer whole, newline included, so an element may span lines |
| LoadWrite.CloseBracketEndsLineOnly | hit_analysis/io/load_write.py:23-24 | a `]` between objects abandons only the rest of its line; later lines are still scanned from the same state |
| LoadWrite.ElementScan | hit_analysis/io/load_write.py:25-34 | an element read between objects is emitted as it is |
| LoadWrite.JoinScan | hit_analysis/io/load_write.py:22-34 | elements joined by a separator without `{` and `]` are emitted in order |
| LoadWrite.ArrayRoundTrip | hit_analysis/io/load_write.py:16-43 | a one-line `noise[e1 sep e2 ...]tail` with elements `ei` yields exactly `e1, e2, ...` |
| LoadWrite.SplitLinesConcat | hit_analysis/io/load_write.py:46-47 | the lines of a string concatenate back to it and none is empty |
| LoadWrite.ScanLineConcat | hit_analysis/io/load_write.py:16-17 | scanning a text in two pieces equals scanning it whole, while the first piece is not abandoned |
| LoadWrite.ScanLinesConcat | hit_analysis/io/load_write.py:16-17 | scanning unabandoned lines one by one equals scanning their concatenation |
| LoadWrite.StringRoundTrip | hit_analysis/io/load_write.py:46-47 | a string `noise[e1 sep e2 ...]`, however its newlines split it, yields exactly its elements |
| Raster.FlatIndex | hit_analysis/image/image_utils.py:51-53 | in the row-major scan order, pixel `(cx, cy)` is at position `cy * width + cx` and the order has `width * height` pixels |
| ImageUtils.GetBrightestChannel | hit_analysis/image/image_utils.py:10-17 | the result is one of r, g, b and at least each of them; alpha is ignored |
| ImageUtils.DarknessBrightest | hit_analysis/image/image_utils.py:46-56 | no contract of its own; the darkness/brightest fold, characterised by `DarknessBrightestSpec` and `BrightestChannelBounds` |
| ImageUtils.CountAtLeast | hit_analysis/image/image_utils.py:73-81 | no contract of its own; the count of pixels at or above the threshold, characterised by `CountAtLeastSpec` |
| ImageUtils.FrameBytes | hit_analysis/image/image_utils.py:27-30 | no contract of its own; the bytes load_image opens, decoded from frame_content only when frame_decoded is absent, characterised by `LoadImage` and `LoadImageStable` |
| ImageUtils.DarknessBrightestSpec | hit_analysis/image/image_utils.py:49-56 | darkness is at most and brightest at least every non-zero value, each is attained by a non-zero value unless still at its start (255 and 0), and an image with no non-zero value gives (255, 0) |
| ImageUtils.BrightestChannelBounds | hit_analysis/image/image_utils.py:49-56 | with the brightest channel, both values lie in [0, 255] and darkness <= brightest once a non-zero pixel exists |
| ImageUtils.CountAtLeastSpec | hit_analysis/image/image_utils.py:76-81 | the count lies in [0, pixels], is 0 exactly when every value is below the threshold, is the pixel count exactly when every value reaches it (inclusive), and a higher threshold never counts more |
| ImageUtils.ScanDarknessBrightest | hit_analysis/image/image_utils.py:46-56 | the nested row/column loop computes the darkness/brightest fold over the row-major pixels |
| ImageUtils.ScanBrighterCount | hit_analysis/image/image_utils.py:73-81 | the nested loop computes the count of pixels at or above the threshold |
| ImageUtils.MeasureDarknessBrightest | hit_analysis/image/image_utils.py:36-59 | without an image: an assertion error and nothing written; otherwise the returned pair is the fold and is what `image_darkness`/`image_brightest` now hold |
| ImageUtils.CountOfBrightestPixels | hit_analysis/image/image_utils.py:62-83 | without an image: an assertion error and nothing written; otherwise the count is returned and stored under that threshold alone |
| ImageUtils.StoredCountBounds | hit_analysis/image/image_utils.py:76-83 | the stored count lies in [0, width * height] |
| ImageUtils.LoadImage | hit_analysis/image/image_utils.py:20-33 | `frame_decoded` is filled from decoding `frame_content` only when absent, the image is the opened bytes, and a decoding or opening failure is reported without setting the image; once the bytes were found, the record yields the same bytes again |
| ImageUtils.LoadImageStable | hit_analysis/image/image_utils.py:20-33 | load_image run twice on a record: the second call returns what the first returned, and the record's frame_decoded and image end as after one call |
| ImageUtils.DetectionLoadParser | hit_analysis/image/image_utils.py:86-90 | an absent or empty `frame_content` gives False and leaves the record untouched; otherwise it gives True exactly when the image loads, and a failure returns load_image's error and leaves the image as it was |
| Records.MarksAreAdditive | hit_analysis/classification/artifact/hot_pixel.py:20-21 | each classifier's write retracts no evidence, sets `classified = 'artifact'` (near_hot_pixel_classify2 only when flagged), and leaves every field other than `classified` and its own evidence as it was; the same two-key write appears in the other classifiers |
| Records.MarksIdempotent | hit_analysis/classification/artifact/hot_pixel.py:20-21 | for each of the five writes, repeating it with the same evidence changes nothing |
| Records.MarksCommute | hit_analysis/classification/artifact/hot_pixel.py:20-21 | for each of the ten pairs of classifier writes, running them in either order gives the same marks |
| CutReconstruction.ScanRowsSpec | hit_analysis/image/cut_reconstruction.py:30-36 | the scan ends with `mg` the maximal gray value, at the first position in row-major order holding it, or at (0, 0) with `mg` 0 when no value is positive |
| CutReconstruction.Anchor | hit_analysis/image/cut_reconstruction.py:20-36 | no contract of its own; `(fx, fy)` of append_to_frame, characterised by `AnchorSpec` and computed by `BrightestAnchor` |
| CutReconstruction.Place | hit_analysis/image/cut_reconstruction.py:37 | no contract of its own; the paste offset `(x - fx, y - fy)`, characterised by `AppendToFrame` and `AppendedBordered` |
| CutReconstruction.AnchorSpec | hit_analysis/image/cut_reconstruction.py:25-36 | for a non-square crop the anchor is inside it, is a pixel of maximal gray value with every earlier pixel strictly darker when some value is positive, and is (0, 0) otherwise |
| CutReconstruction.BrightestAnchor | hit_analysis/image/cut_reconstruction.py:28-36 | the nested loop updating `mg`, `fx`, `fy` computes that anchor |
| CutReconstruction.AppendedBordered | hit_analysis/image/cut_reconstruction.py:38-43 | after one paste, a canvas pixel inside the rectangle grown by one column and one row shows the crop with its last column and row repeated; every other pixel is unchanged |
| CutReconstruction.PasteCrop | hit_analysis/image/cut_reconstruction.py:38 | the paste puts the crop at its offset and changes nothing else |
| CutReconstruction.CopyBorder | hit_analysis/image/cut_reconstruction.py:41-43 | the column right of the region, the row below it and the corner copy the region's last column, last row and corner pixel |
| CutReconstruction.AppendToFrame | hit_analysis/image/cut_reconstruction.py:10-47 | the canvas becomes the bordered paste at `(x - fx, y - fy)`; crop_x, crop_y and crop_size are set; edge is set exactly for a non-square crop |
| CutReconstruction.CanvasCrop | hit_analysis/image/cut_reconstruction.py:54 | the crop has the asked size and pixel `(cx, cy)` is canvas pixel `(x + cx, y + cy)` |
| CutReconstruction.ReplaceFromFrame | hit_analysis/image/cut_reconstruction.py:50-59 | `image` becomes the canvas crop at crop_x, crop_y of size crop_size, and `frame_decoded` its PNG encoding |
| CutReconstruction.AppendAll | hit_analysis/image/cut_reconstruction.py:83-87 | pasting in reverse order leaves the composite of all placements on the canvas, and each record's frame_decoded_orig is its frame_decoded from before |
| CutReconstruction.ReplaceAll | hit_analysis/image/cut_reconstruction.py:88-89 | in forward order, each record's image becomes the composite cropped at its own placement |
| CutReconstruction.DoReconstruct | hit_analysis/image/cut_reconstruction.py:62-90 | one record or none: nothing changes; otherwise every record keeps its old frame in frame_decoded_orig, gets its crop of the composite and its encoding, and its crop fields and edge flag |
| CutReconstruction.ReconstructionNotIdempotent | hit_analysis/image/cut_reconstruction.py:27-37 | two 2 x 1 crops on a 10 x 1 canvas on which a second reconstruction of the first run's crops re-anchors the second crop and gives it [Black, Black] instead of the [Dim, Black] of the first run |
| CutReconstruction.CompositeFirstCover | hit_analysis/image/cut_reconstruction.py:83-86 | a canvas pixel shows the bordered crop of the first record in list order that covers it, since that one was pasted last |
| CutReconstruction.Composite | hit_analysis/image/cut_reconstruction.py:78-86 | no contract of its own; the canvas after all pastes, characterised by `CompositeFirstCover`, `CompositeUncovered` and `AppendAll` |
| CutReconstruction.CompositeCrop | hit_analysis/image/cut_reconstruction.py:88-89 | the crop has the placement's size, and pixel `(cx, cy)` is the composite at the placement's offset plus `(cx, cy)`; `OwnPixelKept`, `OverlapFilled` and `FirstRecordRestored` say what that is |
| CutReconstruction.CompositeUncovered | hit_analysis/image/cut_reconstruction.py:78 | a pixel no placement covers keeps the black of the new canvas |
| CutReconstruction.OwnPixelKept | hit_analysis/image/cut_reconstruction.py:83-89 | a record gets its own pixel back when no earlier record covers it |
| CutReconstruction.OverlapFilled | hit_analysis/image/cut_reconstruction.py:83-89 | where an earlier record's crop covers a pixel, the later record gets that earlier record's pixel |
| CutReconstruction.FirstRecordRestored | hit_analysis/image/cut_reconstruction.py:83-89 | the first record gets its own crop back unchanged |
| CutReconstruction.CheckAllArtifacts | hit_analysis/image/cut_reconstruction.py:95-104 | true exactly when every record is classified as artifact (true for none) |
| CutReconstruction.FilterUnclassified | hit_analysis/image/cut_reconstruction.py:107-117 | the loop returns the keys, in grouping order, of the lists that are not all artifacts |
| CutReconstruction.UnclassifiedKeysSpec | hit_analysis/image/cut_reconstruction.py:107-117 | a key is returned exactly when some list under it is not all artifacts, and no more keys than groups |
| CutReconstruction.UnclassifiedKeysDistinct | hit_analysis/image/cut_reconstruction.py:107-117 | with distinct keys, as a dictionary has, no key is returned twice |
| Grouping.AddSpec | hit_analysis/classification/artifact/hot_pixel.py:34 | adding a record under a seen key appends it to that key's list in place; under a new key it opens a list at the end (insertion order) |
| Grouping.GroupByLambda | hit_analysis/classification/artifact/hot_pixel.py:34 | no contract of its own; grouping.py is not part of this model, and the fold follows the call sites; characterised by `GroupByLambdaSpec`, `GroupByLambdaKeyed`, `GroupByLambdaDisjoint` and `KeyCount` |
| Grouping.GroupByResolution | hit_analysis/classification/artifact/hot_pixel.py:31 | no contract of its own; characterised by `GroupByResolutionSpec` |
| Grouping.GroupByTimestampDivision | hit_analysis/classification/artifact/too_often.py:31 | no contract of its own; characterised by `GroupByTimestampDivisionSpec` |
| Grouping.AddKeys | hit_analysis/classification/artifact/hot_pixel.py:34 | keys stay distinct, the record joins the members, and a new key is appended to the key order |
| Grouping.AddExisting | hit_analysis/classification/artifact/hot_pixel.py:34 | filing under a present key keeps the keys and their order, keeps them distinct, and adds the record to the members |
| Grouping.AddFresh | hit_analysis/classification/artifact/hot_pixel.py:34 | filing under a new key appends that key, keeps the keys distinct, and adds the record to the members |
| Grouping.GroupByLambdaSpec | hit_analysis/classification/artifact/hot_pixel.py:34 | group_by_lambda files every non-excluded record and nothing else, under distinct keys, with no empty list |
| Grouping.GroupByLambdaKeyed | hit_analysis/classification/artifact/near_hot_pixel.py:53 | whatever relation the key lambda always establishes between its result and the record holds between each group's key and its members |
| Grouping.GroupByLambdaDisjoint | hit_analysis/classification/artifact/hot_pixel.py:34 | records of a list without repeats land in exactly one group |
| Grouping.GroupByLambdaListsNoDuplicates | hit_analysis/classification/artifact/near_hot_pixel.py:53 | no group's list repeats a record |
| Grouping.KeyCount | hit_analysis/classification/artifact/hot_pixel.py:16 | for a grouping keyed by a function of the record, the number of keys is the number of distinct key values among the members |
| Grouping.GroupByResolutionSpec | hit_analysis/classification/artifact/hot_pixel.py:31 | group_by_resolution files every non-excluded record once, under its `(width, height)` |
| Grouping.GroupByTimestampDivisionSpec | hit_analysis/classification/artifact/too_often.py:31 | group_by_timestamp_division files every non-excluded record once, under `timestamp // time_division` |
| HotPixel.ByPositionSpec | hit_analysis/classification/artifact/hot_pixel.py:33-36 | every resolution's list is regrouped by exact position and no entry is dropped, because none is empty |
| HotPixel.GroupForHotPixel | hit_analysis/classification/artifact/hot_pixel.py:24-37 | no contract of its own; characterised by `GroupForHotPixelSpec` and `ByPositionSpec` |
| HotPixel.PositionRegroup | hit_analysis/classification/artifact/hot_pixel.py:34 | the regrouping keeps the members, is keyed and disjoint by position, and has one key per distinct position |
| HotPixel.GroupForHotPixelSpec | hit_analysis/classification/artifact/hot_pixel.py:24-37 | every non-excluded record appears once; each entry holds exactly its resolution's records, keyed by position, with as many keys as distinct positions |
| HotPixel.HotPixelClassify | hit_analysis/classification/artifact/hot_pixel.py:8-21 | with count the number of position keys of the group, every record is flagged with `artifact_hot_pixel = count` when count >= often, and untouched otherwise |
| HotPixel.HotPixelProcess | hit_analysis/classification/artifact/hot_pixel.py:40-47 | each resolution group is classified on its own with its own count; `often` is 3 by default |
| HotPixel.HotPixelIdempotent | hit_analysis/classification/artifact/hot_pixel.py:17-21 | classifying twice with the same count leaves what classifying once left |
| NearHotPixel.GetNearXYKey | hit_analysis/classification/artifact/near_hot_pixel.py:8-21 | the key is a member of `keys` or the record's own (x, y); it is the first key in order nearer than `distance` when one exists, and (x, y) when none does |
| NearHotPixel.ByNearPositionSpec | hit_analysis/classification/artifact/near_hot_pixel.py:52-55 | each resolution's list is clustered with the near-key lambda and no entry is dropped |
| NearHotPixel.GroupForNearHotPixel | hit_analysis/classification/artifact/near_hot_pixel.py:42-56 | no contract of its own; characterised by `GroupForNearHotPixelSpec` and `ByNearPositionSpec` |
| NearHotPixel.NearRegroup | hit_analysis/classification/artifact/near_hot_pixel.py:53 | clustering keeps the members once each, under distinct keys, each member nearer to its key than `distance` or at the key |
| NearHotPixel.GroupForNearHotPixelSpec | hit_analysis/classification/artifact/near_hot_pixel.py:42-56 | every non-excluded record appears once, each entry holds exactly its resolution's records, clustered around their keys |
| NearHotPixel.NearHotPixelClassify | hit_analysis/classification/artifact/near_hot_pixel.py:24-39 | every record of a cluster with at least `often` members is flagged with the cluster's size and the given key as refxy; smaller clusters are untouched |
| NearHotPixel.NearHotPixelProcess | hit_analysis/classification/artifact/near_hot_pixel.py:59-66 | every cluster is classified with the resolution key as refxy; `often` is 3 by default |
| NearHotPixel2.TallySpec | hit_analysis/classification/artifact/near_hot_pixel2.py:19-23 | the first pass has one entry per distinct (x, y) of the list, each holding the number of records at it |
| NearHotPixel2.TallySums | hit_analysis/classification/artifact/near_hot_pixel2.py:19-30 | summing the tally over the positions a predicate accepts counts the records at those positions |
| NearHotPixel2.TallyTotal | hit_analysis/classification/artifact/near_hot_pixel2.py:19-23 | the tally sums to the number of records |
| NearHotPixel2.NeighbourhoodIsCountNear | hit_analysis/classification/artifact/near_hot_pixel2.py:26-30 | the neighbourhood sum over the tally is the number of records strictly nearer than `distance`, own pixel included |
| NearHotPixel2.CountNearSelf | hit_analysis/classification/artifact/near_hot_pixel2.py:26-30 | a record's neighbourhood is at least 1 when `distance` > 0 |
| NearHotPixel2.CountWherePermutation | hit_analysis/classification/artifact/near_hot_pixel2.py:19-34 | counting records by position does not depend on their order |
| NearHotPixel2.CountNearOrderFree | hit_analysis/classification/artifact/near_hot_pixel2.py:19-34 | the neighbourhood, hence the outcome, does not depend on the order of the records |
| NearHotPixel2.Tally | hit_analysis/classification/artifact/near_hot_pixel2.py:17-23 | the counting loop builds the tally in first-seen order |
| NearHotPixel2.Neighbourhood | hit_analysis/classification/artifact/near_hot_pixel2.py:27-30 | the inner loop computes the neighbourhood sum |
| NearHotPixel2.NearHotPixelClassify2 | hit_analysis/classification/artifact/near_hot_pixel2.py:8-34 | every record gets `artifact_near_hot_pixel2` = its neighbourhood count, flagged or not, and `classified = 'artifact'` exactly when that count reaches `often` |
| NearHotPixel2.GroupForNearHotPixel2Spec | hit_analysis/classification/artifact/near_hot_pixel2.py:37-44 | grouping is by resolution only, each non-excluded record once |
| NearHotPixel2.GroupForNearHotPixel2 | hit_analysis/classification/artifact/near_hot_pixel2.py:37-44 | no contract of its own; characterised by `GroupForNearHotPixel2Spec` |
| NearHotPixel2.NearHotPixelProcess2 | hit_analysis/classification/artifact/near_hot_pixel2.py:47-55 | each resolution group is classified on its own; defaults are `often` 3 and `distance` 5 |
| TooOften.TooOftenAsWrittenFails | hit_analysis/classification/artifact/too_often.py:31-37 | as written, group_for_too_often fails as soon as one record is not excluded |
| TooOften.GroupForTooOftenAsWritten | hit_analysis/classification/artifact/too_often.py:23-37 | no contract of its own; group_for_too_often as written, characterised by `TooOftenAsWrittenFails` |
| TooOften.GroupForTooOften | hit_analysis/classification/artifact/too_often.py:23-37 | no contract of its own; group_for_too_often with the loop over `items()` it evidently intends, characterised by `GroupForTooOftenSpec` and `ByTimestampSpec` |
| TooOften.ByTimestampSpec | hit_analysis/classification/artifact/too_often.py:33-36 | with the intended loop, each window's list is regrouped by exact timestamp and no window is dropped |
| TooOften.TimestampRegroup | hit_analysis/classification/artifact/too_often.py:34 | regrouping by timestamp keeps the members once each, keyed by timestamp, with one key per distinct timestamp |
| TooOften.GroupForTooOftenSpec | hit_analysis/classification/artifact/too_often.py:23-37 | every non-excluded record appears once; each window holds exactly its records, keyed by timestamp, with as many keys as distinct timestamps |
| TooOften.TooOftenClassify | hit_analysis/classification/artifact/too_often.py:7-20 | with count the number of timestamp keys, every record of the window is flagged with `artifact_too_often = count` when count >= often, and untouched otherwise |
| TooOften.TooOftenProcess | hit_analysis/classification/artifact/too_often.py:40-47 | each window is classified on its own; `often` is 4 by default |
| TooOften.TooOftenFlagsWindows | hit_analysis/classification/artifact/too_often.py:15-20 | a window is flagged exactly when it holds at least `often` distinct timestamps, with that number as evidence |
| TooLargeBrightArea.PerMilleSpec | hit_analysis/classification/artifact/too_large_bright_area.py:18 | the share times the pixel count is `area * 1000`; for an area within the image it lies in [0, 1000], with 0 for no pixel and 1000 for all |
| TooLargeBrightArea.PerMille | hit_analysis/classification/artifact/too_large_bright_area.py:18 | no contract of its own; `area * 1000 / (width * height)` as an exact rational, characterised by `PerMilleSpec` and `PerMilleMonotone` |
| TooLargeBrightArea.QuotientBounds | hit_analysis/classification/artifact/too_large_bright_area.py:18 | the quotient by a positive count times the count gives back the dividend, is non-negative for a non-negative dividend, at most `k` when the dividend is at most `k` counts, and exactly `k` when it equals `k` counts |
| TooLargeBrightArea.PerMilleMonotone | hit_analysis/classification/artifact/too_large_bright_area.py:18 | a smaller area never gives a larger share |
| TooLargeBrightArea.TooLargeBrightAreaClassify | hit_analysis/classification/artifact/too_large_bright_area.py:5-22 | without the image or the stored count: an assertion error and nothing written; otherwise flagged with the share exactly when it exceeds `bac` (strictly), untouched otherwise |
| TooLargeBrightArea.TooLargeBrightAreaRun | hit_analysis/classification/artifact/too_large_bright_area.py:25-33 | the count is stored first, so with an image the classification succeeds on a share in [0, 1000] |
| TooLargeBrightArea.BrightAreaFlagging | hit_analysis/classification/artifact/too_large_bright_area.py:20-33 | a `bac` of 1000 or more never flags, a negative one always flags, and a record flagged at a higher threshold is flagged at a lower one |
| Text.NatToString | database/models.py:32 | the decimal text is non-empty, all digits, starts with '0' only for 0, and has one digit exactly below 10 |
| Text.NatToStringInjective | database/models.py:32 | different numbers have different decimal texts |
| Text.IntToStringInjective | database/models.py:76 | `str` of integers is injective |
| Text.IntToStringChars | database/models.py:32 | the text of an integer holds digits and a leading minus only, so no '/' and no '(' |
| Text.ZeroPadSpec | database/models.py:86-87 | `%0<w>d` gives `max(w, len(str(n)))` characters, a minus sign first exactly for a negative number, digits otherwise, and no '/' |
| Text.ZeroPad | database/models.py:86-87 | no contract of its own; `%0<w>d`, characterised by `ZeroPadSpec` and `ZeroPadInjective` |
| Text.TruncDiv | database/models.py:86-87 | no contract of its own; `int(a / b)` as exact truncation toward zero, characterised by `TruncDivNested` and `SameDirectory` |
| Text.PathJoin | database/models.py:89 | no contract of its own; `os.path.join` of two components, characterised by `PathJoinShape` and `LastComponentUnique` |
| Text.ZeroPadInjective | database/models.py:102 | zero padding to a fixed width is injective |
| Text.PathJoinShape | database/models.py:89 | a joined path ends in its relative last component, just after a separator or at the start |
| Text.LastComponentUnique | database/models.py:102 | equal joins end in the same component when the components hold no separator |
| Text.SplitAtLast | database/models.py:32 | a text splits in only one way into a prefix ending in a given character and a tail without it |
| Text.TruncDivNested | database/models.py:86-87 | truncating by 10000 twice is truncating by 100000000 once |
| DatabaseModels.Extension | database/models.py:98-100 | the extension is `png` exactly when the mime is `image/png`, and `dat` otherwise |
| DatabaseModels.ComponentsSpec | database/models.py:86-87 | top and middle have at least four characters, no separator, and only digits apart from a leading minus for a negative quotient |
| DatabaseModels.Top | database/models.py:86 | no contract of its own; `%04d` of `int(id / 100000000)`, characterised by `ComponentsSpec` and `MiddleUnreduced` |
| DatabaseModels.Middle | database/models.py:87 | no contract of its own; `%04d` of `int(id / 10000)`, characterised by `ComponentsSpec` and `MiddleUnreduced` |
| DatabaseModels.GetFilepath | database/models.py:78-89 | no contract of its own; characterised by `FilepathLayout` and `SameDirectory` |
| DatabaseModels.MiddleUnreduced | database/models.py:87 | the middle component is the whole quotient: id 123456789 gives top `0001` and middle `12345` |
| DatabaseModels.FilepathLayout | database/models.py:78-89 | get_filepath is MEDIA_ROOT, `/`, top, `/`, middle |
| DatabaseModels.SameDirectory | database/models.py:86-89 | two ids share a directory exactly when they share the truncated quotient by 10000 |
| DatabaseModels.BaseNameSpec | database/models.py:102 | the base name holds no separator and is the padded id plus four characters |
| DatabaseModels.BaseName | database/models.py:98-102 | no contract of its own; `%09d.<ext>`, characterised by `BaseNameSpec` and `BaseNameInjective` |
| DatabaseModels.GetFilename | database/models.py:91-102 | no contract of its own; characterised by `FileInDirectory` and `FilenameInjective` |
| DatabaseModels.FileInDirectory | database/models.py:91-102 | get_filename is get_filepath, one separator, then `%09d.<ext>` |
| DatabaseModels.BaseNameInjective | database/models.py:102 | equal base names come from the same id and extension |
| DatabaseModels.FilenameInjective | database/models.py:91-102 | different detections (or extensions) never share a file name |
| DatabaseModels.TeamStrInjective | database/models.py:15-16 | "Team <name>" determines the name |
| DatabaseModels.TeamStr | database/models.py:15-16 | no contract of its own; characterised by `TeamStrInjective` |
| DatabaseModels.UserStr | database/models.py:31-32 | no contract of its own; characterised by `UserStrInjective` |
| DatabaseModels.DeviceStr | database/models.py:50-51 | no contract of its own; characterised by `DeviceStrInjective` |
| DatabaseModels.DetectionStr | database/models.py:75-76 | no contract of its own; characterised by `DetectionStrInjective` |
| DatabaseModels.UserStrInjective | database/models.py:31-32 | "User <display_name> (<id>)" determines both parts, whatever the display name holds |
| DatabaseModels.DeviceStrInjective | database/models.py:50-51 | "Device <device_id> (<model>)" determines both parts when the model holds no '(' |
| DatabaseModels.DetectionStrInjective | database/models.py:75-76 | "Detection <id>" determines the id |
| ApplicationModels.FlatBaseNameSpec | application/models.py:147-151 | the flat name is the unpadded id, '.', and the extension (png exactly for image/png), with no separator |
| ApplicationModels.FlatBaseName | application/models.py:147-151 | no contract of its own; `%d.<ext>`, characterised by `FlatBaseNameSpec` |
| ApplicationModels.GetFlatFilename | application/models.py:139-151 | no contract of its own; characterised by `DirectlyUnderStorage` and `FlatFilenameInjective` |
| ApplicationModels.DirectlyUnderStorage | application/models.py:151 | the file lies directly under FILES_STORAGE, with at most one separator and no directories between |
| ApplicationModels.FlatFilenameInjective | application/models.py:139-151 | different detections never share a flat file name |
| ImportCommand.Copy | database/management/commands/import.py:44-48 | a new instance gets exactly the first object's field names, each with the object's value (None for a key the object lacks) |
| ImportCommand.OverwriteSpec | database/management/commands/import.py:50-59 | overwriting sets the fields to the object's values and keeps the rest; it changes the row exactly when some field differs, and afterwards none does |
| ImportCommand.IndexSpec | database/management/commands/import.py:33-35 | the table dictionary holds exactly the stored ids, each mapped to a row with that id, the last stored row winning |
| ImportCommand.IndexKeys | database/management/commands/import.py:33-35 | an id is in the table dictionary exactly when some stored row carries it |
| ImportCommand.IndexIds | database/management/commands/import.py:33-35 | every id maps to a row whose id is that id |
| ImportCommand.IndexLast | database/management/commands/import.py:33-35 | a stored row that no later row with the same id follows is the one its id maps to |
| ImportCommand.OutcomeCounts | database/management/commands/import.py:41-63 | inserted + updated + not_changed is the number of outcomes |
| ImportCommand.SyncFromSpec | database/management/commands/import.py:41-59 | one outcome per object; an insert exactly for an id not in the table, with all fields copied; others carry the id, and updates hold the object's values |
| ImportCommand.SyncFrom | database/management/commands/import.py:41-59 | no contract of its own; the specification fold over the objects, characterised by `SyncFromSpec` and `OutcomeCounts`, and computed by `SyncLoop` |
| ImportCommand.SyncDbSpec | database/management/commands/import.py:23-63 | no contract of its own; sync_db as a function of the objects and the stored table, characterised by `SyncDbCounts` and `SyncDbErrors`, and computed by `SyncDb` |
| ImportCommand.SyncDbCounts | database/management/commands/import.py:23-63 | inserted + updated + not_changed == len(objects), and an empty input gives (0, 0, 0) |
| ImportCommand.SyncDbErrors | database/management/commands/import.py:37-53 | a first object without `id` raises KeyError; a stored row lacking one of the fields raises AttributeError |
| ImportCommand.LoadIndex | database/management/commands/import.py:33-35 | the dictionary maps each stored id to a stored instance whose attributes are the table row for that id |
| ImportCommand.NewEntity | database/management/commands/import.py:45-48 | a new instance holding the copied fields |
| ImportCommand.Assign | database/management/commands/import.py:50-55 | the fields are overwritten and `changed` is true exactly when some field differed |
| ImportCommand.UpdateExisting | database/management/commands/import.py:49-59 | for a stored id: an error exactly when a field is not an attribute; otherwise the instance is overwritten and reports whether it changed |
| ImportCommand.InsertStep | database/management/commands/import.py:44-48 | an object with a new id adds one fresh instance to the insert list and keeps the loop invariant |
| ImportCommand.QueueUpdate | database/management/commands/import.py:55-56 | appending a changed instance to to_update keeps the list aligned with the ids of the updated outcomes, and leaves the insert list and the unchanged count as they were |
| ImportCommand.ExistingStep | database/management/commands/import.py:49-59 | an object with a stored id either fails as the specification does, or appends the instance to the update list, or leaves it as it was |
| ImportCommand.SyncLoop | database/management/commands/import.py:41-59 | the loop agrees with the specification fold: same error, or the three counts, the inserted instances and the updated instances with their final rows |
| ImportCommand.SyncOne | database/management/commands/import.py:41-59 | one object: an error exactly as the specification fold fails, otherwise the fold advanced by that object, at most one fresh instance queued for insert, and every loaded instance not queued for update still holding its stored row |
| ImportCommand.SyncDb | database/management/commands/import.py:23-63 | sync_db agrees with `SyncDbSpec` on the stored table: error or counts, lists to insert and update, and no other stored instance changed |
| ImportCommand.ToRowSpec | database/management/commands/import.py:66-104 | every copied key holds the record's value; has_image exactly with an image; then frame, size, detection_inner exactly for a square frame (the intended comparison), ml_class 4 exactly for an artifact and ml_hot_pixel 5 exactly for evidence above 1 |
| ImportCommand.ToRow | database/management/commands/import.py:66-104 | no contract of its own; the corrected Detection row, characterised by `ToRowSpec`, `ImportedFramesArePng` and `MlHotPixelRecordsVerdict` |
| ImportCommand.ToRowAsWritten | database/management/commands/import.py:99 | no contract of its own; the row as written, characterised by `AsWrittenFailsOnImage` |
| ImportCommand.ToRowInnerCorrected | database/management/commands/import.py:99-101 | no contract of its own; line 99 corrected and line 101 as written, characterised by `AsWrittenFailsOnUnflagged` |
| ImportCommand.MlHotPixelAsWritten | database/management/commands/import.py:101 | no contract of its own; `5 if o.get('artifact_hot_pixel') > 1 else 1` with Python's TypeError for `None > 1`, characterised by `AsWrittenFailsOnUnflagged` |
| ImportCommand.ImportedFramesArePng | database/management/commands/import.py:98 | every imported detection is a PNG, so its file is `<filepath>/<%09d id>.png` |
| ImportCommand.AsWrittenFailsOnImage | database/management/commands/import.py:99 | as written, reading the unset and undeclared `detection_inner` raises AttributeError exactly for the records with an image; a record without one gets the intended row |
| ImportCommand.AsWrittenFailsOnUnflagged | database/management/commands/import.py:101 | with line 99 corrected, a record with an image and no hot-pixel evidence still makes `None > 1` raise TypeError; where it does not fail it builds the intended row |
| ImportCommand.MlHotPixelRecordsVerdict | database/management/commands/import.py:101 | with the intended comparison, ml_hot_pixel is 5 exactly when the record's resolution group reached `often` (>= 2) distinct positions |
| ImportCommand.InsertDetections | database/management/commands/import.py:66-107 | one row per record, in order, each the corrected row of `ToRow`, and the returned count is the number of records |

## Left out

- PIL, base64 and PNG: opening, converting, encoding and decoding images are function parameters (`decodeBase64`, `open`, `encode`, `gray`). Each paste and crop box must lie inside the canvas, so PIL's clipping of boxes outside the canvas is not modelled.
- CutReconstruction.DoReconstruct: with two or more records it requires every record to hold an image and the first record's declared width and height to be non-negative. The source does not check either: a record without an image makes `hit_img.size` raise AttributeError (cut_reconstruction.py:13), and a negative size makes `Image.new` raise ValueError (cut_reconstruction.py:78). Those errors are not modelled. No caller of `do_reconstruct` is part of this model. The two drivers that read detections, cli.py:31 and import.py:130, hand `detection_load_parser` to the reader as a third argument, evidently to keep only records whose image loaded; under that reading every record reaching the reconstruction holds an image.
- CutReconstruction.AppendToFrame: requires the record to hold an image, for the same reason; without one, cut_reconstruction.py:13 raises AttributeError.
- Zero-sized images: the image type requires at least one row and one column, so the division by the pixel count in `too_large_bright_area_classify` cannot divide by zero here.
- `json.loads`: the extractor returns each object's text; parsing it is not modelled. The parsed records enter the pipeline as `Hit` objects.
- `point_to_point_distance`: the float comparison `distance < d` is stated over the reals on squared coordinate differences. Floating-point rounding is not modelled.
- Python's value equality across types (`1 == 1.0 == True`) is not modelled in `sync_db`'s comparison; the JSON values are a datatype with structural equality.
- `hit_analysis/commons/grouping.py` and `hit_analysis/commons/utils.py` are not part of this model. Minimal versions (`GroupByLambda`, `GroupByResolution`, `GroupByTimestampDivision`, position keys, `Near`) follow their call sites. A fold keeps insertion order and passes the keys seen so far to the key lambda. `time_division` must be positive.
- `get_and_set` is folded into the tally: a position starts at 0 when first seen.
- Logging, timing and debug I/O are not modelled. This covers `print_log`, `store_png` and the frame `image.save`, plus the extractor's progress messages every 10000 objects and the reconstruction's output paths.
- `Command.handle`, `cli.py` and `analyse_detections_batch` are drivers; they are left out. The third argument that `Command.handle` passes to the two-argument `load_objects_from_stream` is left out with them.
- `randrange` in insert_detections is nondeterministic, so the `random` column is left out.
- The Detection model (database/models.py:57-105) declares only `device`, `user`, `team`, `timestamp`, `time_received`, `mime`, `source`, `provider` and `metadata`. Most attributes insert_detections sets are not declared there: `x`, `y`, `width`, `height`, the location keys, `has_image`, `frame_content`, `detection_width`, `detection_height`, `detection_inner`, `ml_class`, `ml_hot_pixel` and `random`. Setting them succeeds in Python, and the model records the values the code assigns; whether `bulk_create` stores them is not modelled. Reading `detection_inner` at import.py:99 before it is set raises AttributeError against that model; `ImportCommand.ToRow` assumes the comparison with `detection_height` was meant (see Findings).
- `bulk_update` and `bulk_create` are the ORM's writes: the model returns the lists they would receive. `fields_no_id` is therefore only used to raise KeyError, not as a column list.
- Column defaults of a new model instance (`cls()`) are not modelled: a new instance holds exactly the copied fields.
- SyncDb: after an AttributeError, the contract does not state which stored instances were already overwritten in memory.
- `Ping.__str__`, `Attribute.__str__`, `Relation.__str__` and `Relation.evaluate_weight` are outside the modelled core. `evaluate_weight` depends on an expression evaluator and floats.
- TooLargeBrightArea.PerMille: the share is the exact rational `area * 1000 / (width * height)`, while Python computes it in floating point. When the exact share is within float rounding of `bac`, the comparison `p > bac` can come out differently from Python's, and the stored evidence is the exact value rather than the rounded one.
- Text.TruncDiv: the quotient is truncated exactly, while Python truncates the float `id / 10000` or `id / 100000000`. For these two divisors the results agree whenever |id| < 5 * 10^15, because then the rounding error of the float quotient stays below 1 / divisor. Larger ids, including those where the id itself no longer fits a double (beyond 2^53), can give a different directory.
- Records.Hit.constructor: every record starts with nothing classified, and any `classified` or `artifact_*` key an input record already carries is kept among the other JSON keys and ignored. The model does not capture an input that arrives pre-classified, which import.py:100-101 and `check_all_artifacts` would read.
- DeviceStrInjective: requires that neither device model holds '('. Without it the format is ambiguous: device id "a (b" with model "c" prints like device id "a" with model "b (c".

## Findings

| source | as written | input that shows it | evidently intended | confidence | as-written member | corrected member |
|---|---|---|---|---|---|---|
| hit_analysis/classification/artifact/too_often.py:33 | `for k, v in grouped.values()` unpacks each window's record list into two names | any single non-excluded record: its window list `[d]` cannot be unpacked into `k, v` | iterate `grouped.items()`, regrouping each window's list by exact timestamp | not executed | TooOften.TooOftenAsWrittenFails | TooOften.GroupForTooOftenSpec |
| database/management/commands/import.py:99 | `d.detection_inner = d.detection_width == d.detection_inner` reads `detection_inner`, which nothing has set and the Detection model does not declare | any record with an image: AttributeError before the row is built | compare the width with the height, `d.detection_width == d.detection_height` | not executed | ImportCommand.AsWrittenFailsOnImage | ImportCommand.ToRowSpec |
| database/management/commands/import.py:101 | `5 if o.get('artifact_hot_pixel') > 1 else 1` | once line 99 is corrected, a record with an image that hot_pixel_classify did not flag: `artifact_hot_pixel` is absent and `None > 1` raises TypeError | treat the absent evidence as not a hot pixel (ml_hot_pixel 1) | not executed | ImportCommand.AsWrittenFailsOnUnflagged | ImportCommand.MlHotPixelRecordsVerdict |
