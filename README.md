# Feature detection and matching helpers: a Dafny model

The feature-tracking code picks keypoint detectors, descriptor extractors and
descriptor matchers from an external computer-vision library by name. Three
pieces of its own logic sit between those library calls, and this project
models and verifies them:

- **Harris non-maximum suppression** (`nms_harriscorner`). Each round starts a
  running maximum at the first keypoint and scans the rest in order. A keypoint
  that overlaps the running maximum replaces it if its response is strictly
  higher, and is otherwise dropped. A keypoint that does not overlap it is
  deferred. The round emits its maximum, and the next round works on the
  deferred keypoints. With suppression switched off, the routine copies its
  input to its output instead.
- **The k-nearest-neighbour distance-ratio filter** in `matchDescriptors`. A
  candidate list of two keeps its best match only if the best distance is at
  most 0.8 times the second one (Lowe's ratio test). A list of any other length
  keeps its best match unconditionally. The kept matches are appended to the
  caller's `matches`.
- **The Harris threshold scan** in `detKeypointsHarris`. It walks the normalised
  corner-response matrix in row-major order. Every cell above 100 yields a
  keypoint at (column, row) with size 6 and the cell's response. The list then
  goes through the suppression routine with suppression switched off.

Layout, one module per file:

- `features.dfy` (`Features`): `KeyPoint` and `DMatch` as datatypes. `OverlapTest` is
  the type of the library's overlap test. `Vector<T>` is a class for the
  by-reference `std::vector` out-parameters, which callers see change through
  `push_back` and assignment.
- `harris_nms.dfy` (`HarrisNms`): the suppression. `NmsRound` is the scan loop of one
  round. `NmsHarrisCorner` is the recursive routine that mutates its result
  vector. `ScanPrefix`, `Round` and `Nms` are the functions that specify them.
  `ScanState` is the datatype holding a scan's running maximum and deferred list.
  `ScanStep` is the function for one scanned keypoint, and `DeferredPositions`
  is the predicate describing which positions a scan defers. The remaining
  members are lemmas about these.
- `ratio_test.dfy` (`RatioTest`): the ratio filter. `FilterKnnMatches` is the loop
  that appends to `matches`. `Contribution` and `RatioFiltered` specify it, and
  lemmas follow.
- `harris_detector.dfy` (`HarrisDetector`): the threshold scan `ThresholdScan` over an
  `array2<real>`. `DetKeypointsHarris` is the scan followed by the suppression
  with suppression off. The specification is `HarrisCorners`, characterised by
  lemmas.

The overlap test (`cv::KeyPoint::overlap(a, b) > 0`) is a parameter of type
`(KeyPoint, KeyPoint) -> bool`. The model assumes nothing about it, not even
symmetry, and always asks it as (running maximum, scanned keypoint), the same
order as the source.

The suppression is greedy. A keypoint is deferred when it does not overlap the
running maximum *at the moment it is scanned*. It can still overlap the
keypoint that the round finally emits, so two emitted keypoints may overlap.
The lemmas state what the routine does guarantee:

- every emitted keypoint comes from the input;
- every input keypoint is matched or beaten in response by some emitted one;
- a strongest input keypoint therefore survives, at least by its response.

## Model

| member | source | states |
|---|---|---|
| `HarrisNms.ScanStep` | src/matching2D_Student.cpp:159-173 | Scanning one keypoint never lowers the running maximum's response. An overlapping keypoint is not deferred, and the new maximum's response is at least its own. The maximum changes only to an overlapping keypoint with a strictly higher response, so on a tie the earlier keypoint stays. |
| `HarrisNms.ScanPrefix` | src/matching2D_Student.cpp:155-174 | After the first `n` keypoints of a round have been scanned, fewer than `n` have been deferred. |
| `HarrisNms.Round` | src/matching2D_Student.cpp:151-174 | A round on a non-empty list defers strictly fewer keypoints than it was given, so the recursion terminates. |
| `HarrisNms.Nms` | src/matching2D_Student.cpp:149-177 | The suppressed output is empty exactly when the input is empty, and is never longer than the input. So a non-empty input yields between 1 and its length of keypoints, one per round. |
| `HarrisNms.NmsRound` | src/matching2D_Student.cpp:155-174 | The scan loop returns exactly the running maximum and the ordered deferred list of the round specification. |
| `HarrisNms.NmsHarrisCorner` | src/matching2D_Student.cpp:147-184 | With suppression on, the result vector keeps its old contents and gains the suppressed keypoints, one per round; an empty input leaves it unchanged. With suppression off, the result is overwritten with a copy of the input and its previous contents are discarded. |
| `HarrisNms.ScanMaxMonotone` | src/matching2D_Student.cpp:155-167 | Over a scan, the running maximum's response is non-decreasing and never below the first keypoint's response. |
| `HarrisNms.ScanMaxInInput` | src/matching2D_Student.cpp:155-167 | The running maximum is always one of the keypoints scanned so far. |
| `HarrisNms.ScanDeferral` | src/matching2D_Student.cpp:157-173 | The deferred list consists of the input at strictly increasing positions. A position is among them exactly when its keypoint did not overlap the running maximum at the moment it was scanned. Deferred keypoints keep their relative order, and overlapping ones are never deferred. |
| `HarrisNms.RoundDominatesOrDefers` | src/matching2D_Student.cpp:155-175 | Every keypoint of a round either has a response no higher than the emitted keypoint's or is deferred to the next round. |
| `HarrisNms.RoundDeferredInInput` | src/matching2D_Student.cpp:172 | Every deferred keypoint is an element of the round's input. |
| `HarrisNms.NmsOutputFromInput` | src/matching2D_Student.cpp:151-176 | Every keypoint the suppression emits is an element of its input. |
| `HarrisNms.NmsKeepsStrongest` | src/matching2D_Student.cpp:151-176 | For every input keypoint, some emitted keypoint has a response at least as high. |
| `HarrisNms.NmsKeepsMaximum` | src/matching2D_Student.cpp:151-176 | If a keypoint has the highest response in the input, some emitted keypoint has exactly that response. |
| `RatioTest.Contribution` | src/matching2D_Student.cpp:43-55 | A candidate list adds at most one match, and only its best one. A pair adds it exactly when it passes the 0.8 ratio test. A list of any other length always adds it. |
| `RatioTest.RatioFiltered` | src/matching2D_Student.cpp:41-56 | The filter never yields more matches than there are candidate lists. |
| `RatioTest.FilterKnnMatches` | src/matching2D_Student.cpp:41-56 | The loop leaves `matches` as its old contents followed by the filtered matches, in candidate-list order. |
| `RatioTest.RatioFilteredAppend` | src/matching2D_Student.cpp:41-56 | Filtering a concatenation of candidate lists gives the concatenation of the results. Each list contributes on its own, in list order. |
| `RatioTest.RatioFilteredKeepsBest` | src/matching2D_Student.cpp:49-54 | Every kept match is the best match of some candidate list. |
| `RatioTest.RatioAcceptsScaled` | src/matching2D_Student.cpp:45-47 | When the second distance is positive, the ratio test passes exactly when the best distance is at most 0.8 times the second. |
| `HarrisDetector.ThresholdScan` | src/matching2D_Student.cpp:205-218 | The nested row and column loops produce exactly the row-major list of above-threshold corners. |
| `HarrisDetector.DetKeypointsHarris` | src/matching2D_Student.cpp:205-221 | After detection, `keypoints` holds exactly the scanned corners. Because suppression is switched off, nothing is removed and any previous contents are replaced. |
| `HarrisDetector.HarrisCornersCharacterized` | src/matching2D_Student.cpp:205-218 | Every scanned keypoint is the corner of one in-range cell whose value is strictly above 100: x is the column, y the row, size 6, response the cell value. Every such cell yields its corner. The list is strictly increasing in row-major order, so each cell appears exactly once. |

## Left out

- The library calls `cornerHarris`, `normalize`, `convertScaleAbs`, `knnMatch` and `match` are foreign code. The normalised response matrix and the k-nearest-neighbour candidate lists are inputs to the model, and their values are not re-derived.
- Matcher construction (`BFMatcher`/`FlannBasedMatcher`, the norm-type choice at line 16, the `CV_32F` conversion at lines 21-25) is library configuration. The plain nearest-neighbour branch (line 33) is a single library call, and `matchDescriptors` is modelled only through its k-NN ratio loop.
- `descKeypoints` and `detKeypointsModern` are thin string-keyed wrappers around library extractors and detectors.
- `detKeypointsShiTomasi` is fixed parameter setup around one library call (`goodFeaturesToTrack`), plus a loop that copies each returned corner into a keypoint of size `blockSize` with `push_back`. It is not modelled, because its only input is the library's corner list.
- The geometry of `cv::KeyPoint::overlap` (a floating-point circle-intersection area) is replaced by the uninterpreted parameter `overlaps`.
- Floating point is modelled with reals: `float` responses, distances and coordinates, and the `float` rounding of the ratio before it is compared with 0.8.
- RatioTest.Contribution: a zero second distance counts as a rejection. In C++ the quotient is +inf or NaN for the non-negative distances a descriptor norm yields, and both fail the test. A negative best distance over a zero second one would give -inf and pass in C++. Norms never produce such a pair, and the model does not distinguish that case.
- An empty candidate list is excluded by a precondition (`AllNonEmpty`). The source reads its first element unchecked, which is undefined behaviour.
- `KeyPoint` keeps only position, size and response. The angle, octave and class id, which the Harris scan leaves at their defaults, are not modelled.
- Timing (`getTickCount`), console output and all visualisation (`drawKeypoints`, `namedWindow`, `imshow`, `waitKey`) are I/O. The `bVis` flag is therefore not modelled.
