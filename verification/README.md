# Omnidirectional-mirror vision core, modelled in Dafny

This project models the per-frame decision logic of an OpenMV robot-vision
script (`main.py`). The camera looks into a round mirror. The script tracks a
ball and two goals, probes sixteen points for the floor line, and packs the
results into a 33-byte telemetry record for the robot's main controller.

What is modelled, module by module:

- `Types` (types.dfy): the blob descriptor, rectangles, the mirror geometry
  (centre, radius, inner radius, SVGA frame) and the per-class parameters
  (ball: margin 50, 20..8000 pixels; goals: margin 50, 0..50000 pixels). The
  two robot calibrations are included. The firmware builds robot 0.
- `Roi` (roi.dfy): the search window. With no match it is the frame
  intersected with the mirror's bounding square. With a match it is the match
  box grown by the margin and clipped the same way.
- `Selection` (selection.dfy): the acceptance callback (pixel range and
  annulus membership), the score (pixels for a goal, pixels times roundness
  for the ball), and `max(..., key=...)` as a scan that keeps the first
  maximal element.
- `Tracker` (tracker.dfy): `TrackedObject` as an immutable state and a pure
  `Find` step. The step covers time-based expiry of the match memory, the
  window, the selection, and the presence token `value_id % 100 + 1`.
- `LineScan` (line_scan.dfy): `Line.find`. It runs sixteen independent probes,
  each over a 30 by 30 square centred on a sample point.
- `Telemetry` (telemetry.dfy): the packing `<bbhhbhhbhh` + 16 × `b` + `b`
  into 33 little-endian bytes. A decoder and round-trip lemmas in both
  directions are included.

Inputs that stand in for code outside the model:

- `now: int` stands for `time.time()`, which is integer seconds on this
  platform. The two clock reads in `get_roi` (main.py:46 and 48) are taken as
  one instant.
- `detect: Rect -> seq<Blob>` stands for `img.find_blobs` on the current
  frame. It receives the window and returns the blob list. `Find` and the
  line scan assume nothing about it. Four lemmas constrain it, each through
  the hypothesis it names:
  - `FindPreservesValid`, through `DetectorStaysInRoi`: every reported blob
    has non-negative size and lies inside the window searched.
  - `FindKeepsAccepted`, through `DetectorAccepts`: every reported blob
    passes `filter_blob`.
  - `MissThenFullSearch`: the detector returns an empty list on the window
    searched in that frame.
  - `TokenCycle`, through `HitsEachFrame`: each frame's detector returns a
    non-empty list on the window the tracker searches in that frame.
  `ProbesIndependent` relates two detectors that agree on every probe window
  but one.
- `vectorOf: Blob -> Vector` stands for `get_vector`.
- The sixteen line sample points are an input sequence, because `get_coord`
  computes them with `cos` and `sin`.
- `fps` is an integer input. It is already truncated by `int(fps)`.

Design choices worth noting:

- The expiry timer `time_buf` is reset only when it expires. A detection does
  not refresh it. So even an object that is tracked continuously gets a
  full-field search once the refresh time has passed. `Find` states that the
  timer is unchanged on a hit.
- The code guarantees a non-negative window size only when the previous
  match box lies inside the frame and the mirror square. The code does not
  clamp otherwise.
  `RoiOfValidTracker` proves the guarantee for valid tracker states, and
  `FindPreservesValid` shows that states stay valid when the detector reports
  only blobs inside the window it searched.
- Ties in the score go to the first blob in the detector's order, because
  that is what Python's `max` does.
- On a miss, `angle` and `dist` keep their previous values. Only the token
  drops to 0.
- MicroPython's `ustruct.pack` stores the low bytes of an out-of-range value
  without raising. The encoder therefore wraps modulo 2^8 or 2^16 (two's
  complement), and `DecodeEncodeWraps` states what such a value reads back
  as.
- The square-root comparisons of `filter_blob` are computed exactly on
  integers as squared-distance comparisons. The identity that makes this
  exact also holds for negative radii. `DistanceTestIsExact` proves that the
  integer test agrees with the Euclidean test against the exact real
  distance. The centroid is an integer and the radii are small, so the
  floating-point `sqrt` decides the same way.

## Model

| member | source | states |
|---|---|---|
| `Types.GeometryFor` | main.py:21-23 | Both deployed calibrations, (454, 276, r 340) for robot 0 and (383, 264, r 320) otherwise, with inner radius 75 on the 800×600 frame, are well-formed: a proper annulus whose bounding square overlaps the frame. |
| `Roi.FullSearchRoi` | main.py:59-64 | With no match, the window covers exactly the pixels that lie in both the frame and the square centre ± radius. It never reaches outside either, and it is non-empty for a well-formed geometry. |
| `Roi.MatchRoi` | main.py:49-58 | With a match, the window covers exactly the pixels in the frame, in the mirror square and in the match box grown by the margin. If the box has non-negative size and lies inside the frame and the square, and the margin is non-negative, the window contains the whole box and has non-negative size. |
| `Tracker.GetRoi` | main.py:45-66 | If more than the refresh time has passed since the timer, the match is dropped, the timer restarts at `now`, and the window is the full search window whatever the previous match was. Otherwise the match and timer are kept and the window follows the match (or is the full window without one). The window always lies in the frame and the mirror square, and nothing else in the state changes. |
| `Selection.RootCompare` | main.py:71-72 | For the exact non-negative square root s of d², `s <= k` holds iff `k >= 0` and `d² <= k²`, and `s >= k` holds iff `k <= 0` or `d² >= k²`. |
| `Selection.DistanceTestIsExact` | main.py:68-74 | A blob is accepted iff its pixel count is within the class's [min, max] and the true Euclidean distance of its centroid from the centre lies in [inner radius, radius]. |
| `Selection.BestFrom` | main.py:97 | The left-to-right scan that replaces its running best only on a strictly higher score ends on the first index of maximal score. |
| `Selection.BestIndex` | main.py:76-79 | On a non-empty list, the selected blob scores at least as much as every blob, where the score is pixels for goals and pixels × roundness for the ball. Every earlier blob scores strictly less, and it is the only index with both properties. |
| `Tracker.Init` | main.py:35-43 | A new tracker holds no match, reports token 0, has counter 0, angle 0 and distance 0, and starts its timer at construction time. It satisfies the between-frames invariant for every geometry. |
| `Tracker.NextToken` | main.py:99 | The next counter value lies in 1..100. It is one more than the previous value for 0..99 and wraps from 100 to 1, so it is congruent to the previous value plus one modulo 100. |
| `Tracker.Find` | main.py:85-103 | The detector is run on the predicted window. On a non-empty list the tracker keeps the first member of maximal score (every earlier blob scores strictly less), advances the counter, reports it as the token and takes that blob's vector. On an empty list the match is dropped, the token is 0 and the counter, angle and distance are unchanged. In both cases the timer changes only through expiry. |
| `Tracker.FindPreservesValid` | main.py:85-103 | Between frames the counter stays in 0..100. A match is held exactly when the token is non-zero and equal to the counter, and a held box lies inside the frame and the mirror square. This holds provided the detector reports only blobs of non-negative size inside the searched window. |
| `Tracker.RoiOfValidTracker` | main.py:45-66 | For a valid tracker, a well-formed geometry and a non-negative margin, the window lies inside the frame and the mirror square and has non-negative size. Unless the memory expired, it contains the held match box. |
| `Tracker.FindKeepsAccepted` | main.py:89-97 | If the detector reports only blobs that pass the acceptance callback, the blob the tracker keeps passes it too: a rejected blob is never selected. |
| `Tracker.MissThenFullSearch` | main.py:101-103 | After a frame with no blob, the next frame searches the full window, whatever the time. |
| `Tracker.TokenCycle` | main.py:96-100 | After n ≥ 1 consecutive frames in each of which the detector reports a blob in the window the tracker searches, starting from counter v ≥ 0, both the counter and the reported token equal (v + n − 1) mod 100 + 1. From a new tracker (counter 0) the tokens therefore run 1, 2, …, 100, 1, … |
| `LineScan.SegmentRoi` | main.py:155-157 | A probe window is a 30×30 square centred on its sample point. It covers exactly the pixels at most 15 to the left or above and less than 15 to the right or below the point. |
| `LineScan.ScanPrefix` | main.py:140-143 | The loop's list after n probes has n entries, and entry i is the result of probe i. |
| `LineScan.LineFind` | main.py:139-153 | A scan has exactly 16 entries. Entry i is true iff the detector reports some blob in the window around sample point i. |
| `LineScan.ProbesIndependent` | main.py:142-153 | Two detectors that agree on every probe window except point j's give scans that agree everywhere except possibly at index j. |
| `Telemetry.WrapI8` | main.py:195 | The value read back from a `b` field lies in −128..127, is congruent to the packed value modulo 256, and equals it when it fits. |
| `Telemetry.WrapI16` | main.py:195 | The value read back from an `h` field lies in −32768..32767, is congruent to the packed value modulo 65536, and equals it when it fits. |
| `Telemetry.EncodeI8` | main.py:195 | A `b` field is one byte that reads back as the value wrapped to 8 bits. |
| `Telemetry.EncodeI16` | main.py:195 | An `h` field is two bytes, low byte first, whose unsigned little-endian value is the packed value modulo 65536. |
| `Telemetry.DecodeI8` | main.py:195 | A byte read as a signed value is in range and packs back to the same byte. |
| `Telemetry.DecodeI16` | main.py:195 | Two bytes read as a signed little-endian value are in range and pack back to the same two bytes. |
| `Telemetry.Encode` | main.py:195-196 | The packed record is 33 bytes and starts with the sentinel 85. |
| `Telemetry.Decode` | main.py:195-196 | The consumer accepts exactly the 33-byte strings that start with 85, and every field it reads fits its width. |
| `Telemetry.DecodeEncodeWraps` | main.py:195-196 | Decoding a packed record gives every field, in the fixed order (ball, yellow goal, blue goal, 16 line bytes, fps), reduced to its packed width in two's complement. |
| `Telemetry.DecodeEncode` | main.py:195-196 | A record whose `b` fields fit 8 bits and whose `h` fields fit 16 bits decodes to exactly itself. |
| `Telemetry.EncodeDecode` | main.py:195-196 | A byte string the consumer accepts is exactly the packing of the record it decodes to. |
| `Telemetry.GenerateData` | main.py:193-196 | The published buffer is 33 bytes and starts with the sentinel. |
| `Telemetry.GenerateDataDecodes` | main.py:193-196 | For valid trackers whose vectors fit 16 bits and a frame rate below 128, the consumer reads back each tracker's token, bearing and distance unchanged. Each of the three tokens is in 0..100 and is 0 exactly when its tracker holds no match, and line bit i reads 1 exactly when probe i found a blob. |

## Left out

- Sensor setup, frame capture, `clock.fps()` and the endless processing loop (main.py:171-182, 210-233) are hardware and I/O. The clock and frame rate appear only as inputs.
- The SPI slave, the falling-edge interrupt handler and `spi.send` with its swallowed `OSError` (main.py:183, 199-208) are left out. They are interrupt-driven I/O that reads an unsynchronised shared buffer, a concurrency property rather than a sequential one. So the torn-read hazard of the shared `data` buffer is not modelled.
- `img.find_blobs` (main.py:87-95, 146-152) belongs to the vision library. It is an opaque detector function, including its strides, merging and area threshold. Merged goal blobs need not pass `filter_blob`, so the model does not assume that returned blobs were accepted.
- `get_vector` and `Line.get_coord` (main.py:81-83, 165-169) use floating-point `atan2`, `sqrt`, `cos` and `sin`. They are inputs: `vectorOf`, and the sample points with the fixed sample distance 100. The telemetry lemma requires the angle and distance to fit 16 bits.
- The `draw*` methods and debug printing (main.py:105-125, 159-163, 221-231) are drawing only. The tracker's stored blob list exists only for drawing and is not kept.
- `Line.visible`, `Line.angle` and `Line.dist` (main.py:135-137, 141) are never read and are not modelled.
- `Selection.Score`: the ball's score `pixels * roundness` is an exact real product, while the source multiplies floats. Float rounding can turn two scores that differ slightly into a tie, which `max` resolves to the earlier blob; such near-ties are not modelled.
- `Tracker.GetRoi`: the two clock reads of `get_roi` are one `now`. A clock that ticks between line 46 and line 48 would restart the timer one reading later, and that is not modelled.
- `Telemetry.GenerateDataDecodes`: a frame rate of 128 or more is only covered by `DecodeEncodeWraps` (it reads back wrapped), not by this lemma.
