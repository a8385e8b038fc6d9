# YOLOv8 detection post-processing

A Dafny model of the detector post-processing in the instant-noodle recognition app. This is the only algorithmic code in the app. It has three parts:

- **Decoder** (`processYOLOv8Output`). The raw model output is a flat float array of 36-value records: box centre and size at offsets 0..3, objectness at offset 4, and 31 class scores at offsets 5..35. The decoder reads the `length / 36` whole records. It keeps a record when its objectness is strictly above 0.25. It picks the class by a strict arg-max scan that starts from `(-1, -1)`. It builds one `Detection` per kept record and passes the list to NMS.
- **Greedy Non-Maximum Suppression** (`applyNonMaximumSuppression`). It sorts the list in place by descending confidence with the stable `Collections.sort`. It then keeps each candidate whose IoU with every already kept detection is not above 0.45. The class is never consulted.
- **IoU** (`iou`). It computes intersection over union with `(x, y)` read as the top-left corner.

Modules:

- `Boxes` (boxes.dfy): the `Detection` value, the thresholds, the label table, and IoU with its properties.
- `Suppression` (suppression.dfy): the in-place stable sort, greedy suppression and its properties.
- `Decoder` (decoder.dfy): record decoding, the class scan, and the whole `processYOLOv8Output` pipeline.

Each imperative routine is a method proved against a specification function:

- `SortByConfidence` against `SortDesc`.
- `ApplyNonMaximumSuppression` against `Nms = Suppress ∘ SortDesc`.
- `ProcessYolov8Output` against `Nms(Decode(..))`.

The decoder's specification has two more parts:

- `ScanClasses` is the strict arg-max fold of the class loop (:188-195). `ClassIdOf` is the class index it yields.
- `RecordDetection` is the detection built from one record (:182-198). Its confidence is the objectness, and its class is `ClassIdOf` of the record's `ClassScores`.

`ScanFindsFirstMaximum` and `DecodeRecordsFromAccepted` are stated in terms of these.

Lemmas state the properties of those functions.

`Boxes.Iou` models `iou` (:228-233), with `OverlapX`, `OverlapY`, `IntersectionArea` and `UnionArea` as its terms. `Boxes.Overlaps` is the suppression test `iou(candidate, kept) > NMS_THRESHOLD` at :215.

Floats are modelled as `real`. The IoU division is unguarded in the source. Its value is the datatype `Quotient = Finite(v) | NaN`, and `Exceeds` models Java's `>`, which is false on NaN. `ZeroUnionHasNoIntersection` proves that a zero union forces a zero intersection. So over the reals the division can only be 0/0 (NaN), never an infinity. A NaN IoU never suppresses, which is the same decision that "treat the IoU as 0" would give.

The decoder stores box centres, but IoU reads them as corners, and the model keeps this as written. `CentreMisreadHarmlessForEqualSizes` shows the mix-up does not matter for two boxes of equal size. `CentreMisreadChangesDecision` gives two boxes of different sizes where it flips the suppression decision.

The model keeps these behaviours of `CameraFragment.java`:

- A detection's confidence is the record's objectness (:179, :198), not its maximum class score.
- Stride 36, the class range 5..35 and the thresholds 0.25 / 0.45 are fixed constants (:57-58, :176-177, :190).
- A zero union is divided as it stands (:232), giving NaN. As noted above, the suppression decision is the same as for an IoU of 0.
- Ties in confidence keep their input order, because `Collections.sort` (:210) is stable.

## Model

| member | source | states |
|---|---|---|
| Boxes.OverlapX | app/src/main/java/com/example/myapplication/CameraFragment.java:229 | the horizontal overlap factor is ≥ 0 (clamped by `max(0, ·)`) and, when positive, at most either box's width |
| Boxes.OverlapY | app/src/main/java/com/example/myapplication/CameraFragment.java:230 | the vertical overlap factor is ≥ 0 and, when positive, at most either box's height |
| Boxes.IntersectionArea | app/src/main/java/com/example/myapplication/CameraFragment.java:229-230 | the intersection term is never negative |
| Boxes.PositiveOverlapBounded | app/src/main/java/com/example/myapplication/CameraFragment.java:229-231 | a positive intersection implies both boxes have positive width and height, and is at most either box's area |
| Boxes.ZeroUnionHasNoIntersection | app/src/main/java/com/example/myapplication/CameraFragment.java:229-232 | a zero union forces a zero intersection, so the unguarded division is 0/0 (NaN) and never suppresses |
| Boxes.IouSymmetric | app/src/main/java/com/example/myapplication/CameraFragment.java:228-233 | intersection, union, IoU and the suppression test are symmetric in the two boxes |
| Boxes.IouInUnitRange | app/src/main/java/com/example/myapplication/CameraFragment.java:228-233 | for boxes of positive width and height the union is positive and the IoU is finite and lies in [0, 1] |
| Boxes.DuplicateOverlaps | app/src/main/java/com/example/myapplication/CameraFragment.java:228-233 | a box of positive area has IoU exactly 1 with itself, so an exact duplicate is always suppressed |
| Boxes.IouIgnoresClass | app/src/main/java/com/example/myapplication/CameraFragment.java:228-233 | IoU and the suppression test do not depend on class indices |
| Boxes.IouTranslationInvariant | app/src/main/java/com/example/myapplication/CameraFragment.java:228-233 | moving both boxes by the same offset leaves the IoU unchanged |
| Boxes.CentreMisreadHarmlessForEqualSizes | app/src/main/java/com/example/myapplication/CameraFragment.java:182-185 | for two equally sized boxes, reading the stored centres as corners gives the same IoU as the boxes they describe |
| Boxes.CentreMisreadChangesDecision | app/src/main/java/com/example/myapplication/CameraFragment.java:228-233 | for two concrete boxes of different sizes the as-written IoU is 1/2 (suppressed) while the described boxes have IoU 1/5 (kept) |
| Suppression.InsertPermutes | app/src/main/java/com/example/myapplication/CameraFragment.java:210 | one insertion step of the sort adds exactly the inserted detection to the multiset of elements |
| Suppression.InsertKeepsSorted | app/src/main/java/com/example/myapplication/CameraFragment.java:210 | inserting into a descending list keeps it descending |
| Suppression.InsertStable | app/src/main/java/com/example/myapplication/CameraFragment.java:210 | the inserted detection goes before the later, equally confident ones |
| Suppression.SortDescCorrect | app/src/main/java/com/example/myapplication/CameraFragment.java:210 | the sort returns a descending-confidence permutation of its input that keeps equally confident detections in input order (a stable sort) |
| Suppression.SortDescOfSorted | app/src/main/java/com/example/myapplication/CameraFragment.java:210 | sorting an already descending list leaves it unchanged |
| Suppression.InsertAt | app/src/main/java/com/example/myapplication/CameraFragment.java:210 | insertion puts the detection right after the strictly more confident prefix |
| Suppression.InsertIntoSuffix | app/src/main/java/com/example/myapplication/CameraFragment.java:210 | one in-place step: the suffix from `i` becomes the insertion of `a[i]` into the sorted rest; the prefix is untouched |
| Suppression.SortByConfidence | app/src/main/java/com/example/myapplication/CameraFragment.java:210 | the caller's array is rearranged in place into `SortDesc` of its old contents |
| Suppression.Suppress | app/src/main/java/com/example/myapplication/CameraFragment.java:212-223 | greedy suppression keeps at most as many detections as it is given |
| Suppression.SubsequenceMultiset | app/src/main/java/com/example/myapplication/CameraFragment.java:212-223 | a subsequence holds no element absent from the sequence (multiset inclusion) |
| Suppression.SubsequenceSorted | app/src/main/java/com/example/myapplication/CameraFragment.java:212-223 | a subsequence of a descending list is descending |
| Suppression.SuppressIsSubsequence | app/src/main/java/com/example/myapplication/CameraFragment.java:212-223 | the kept list is obtained from the sorted input by deleting elements |
| Suppression.SuppressPrefix | app/src/main/java/com/example/myapplication/CameraFragment.java:212-223 | the detections kept after any prefix are a prefix of the final result: nothing kept is ever removed |
| Suppression.SuppressPairwise | app/src/main/java/com/example/myapplication/CameraFragment.java:214-220 | every kept detection has an IoU not above 0.45 with every detection kept before it |
| Suppression.SuppressStep | app/src/main/java/com/example/myapplication/CameraFragment.java:214-222 | visiting the candidate at position `i` either appends it to the kept list or leaves the kept list unchanged, and in the second case some detection already kept, taken from before `i`, has IoU above 0.45 with it |
| Suppression.SuppressCovers | app/src/main/java/com/example/myapplication/CameraFragment.java:214-222 | every input detection, at its own position `i`, is either kept there (the list kept before `i` followed by it is a prefix of the final result) or is dropped because its IoU is above 0.45 with a detection kept before `i` |
| Suppression.SuppressKeepsFirst | app/src/main/java/com/example/myapplication/CameraFragment.java:212-222 | the first candidate is always kept, in first position |
| Suppression.SuppressOfSeparated | app/src/main/java/com/example/myapplication/CameraFragment.java:212-223 | a list whose elements pairwise pass the suppression test is returned unchanged |
| Suppression.SuppressIdempotent | app/src/main/java/com/example/myapplication/CameraFragment.java:212-223 | suppressing a suppressed list changes nothing |
| Suppression.NmsSortedSubset | app/src/main/java/com/example/myapplication/CameraFragment.java:208-225 | the NMS result is a subsequence of the sorted input, is in descending confidence order, holds no detection absent from the input, and is empty exactly when the input is |
| Suppression.NmsKeepsMostConfident | app/src/main/java/com/example/myapplication/CameraFragment.java:208-225 | for a non-empty input the first result is an input detection of the highest confidence |
| Suppression.NmsIdempotent | app/src/main/java/com/example/myapplication/CameraFragment.java:208-225 | running NMS on its own output returns that output unchanged, in the same order |
| Suppression.InsertIgnoresClass | app/src/main/java/com/example/myapplication/CameraFragment.java:210 | the sort comparator never looks at class indices (one insertion step) |
| Suppression.SortDescIgnoresClass | app/src/main/java/com/example/myapplication/CameraFragment.java:210 | relabelling the input only relabels the sorted output |
| Suppression.SurvivesAllIgnoresClass | app/src/main/java/com/example/myapplication/CameraFragment.java:214-220 | the inner suppression test gives the same answer after every class index is changed |
| Suppression.SuppressIgnoresClass | app/src/main/java/com/example/myapplication/CameraFragment.java:212-223 | relabelling the input only relabels the kept output: suppression works across classes |
| Suppression.NmsIgnoresClass | app/src/main/java/com/example/myapplication/CameraFragment.java:208-225 | class indices never influence which detections NMS keeps or their order |
| Suppression.ApplyNonMaximumSuppression | app/src/main/java/com/example/myapplication/CameraFragment.java:208-225 | sorts the caller's array in place into `SortDesc` of its old contents and returns `Nms` of those contents |
| Decoder.ScanFindsFirstMaximum | app/src/main/java/com/example/myapplication/CameraFragment.java:188-195 | the class scan is -1 iff every score is ≤ -1; otherwise it gives the first position holding the maximum score, which exceeds -1 |
| Decoder.ClassScores | app/src/main/java/com/example/myapplication/CameraFragment.java:190-191 | a record has exactly 31 class scores (offsets 5..35) |
| Decoder.DecodeRecords | app/src/main/java/com/example/myapplication/CameraFragment.java:176-201 | at most one detection is emitted per record |
| Decoder.AcceptedRecordsIncreasing | app/src/main/java/com/example/myapplication/CameraFragment.java:176-180 | the accepted record indices are below the number of records scanned and strictly increasing, as the loop visits records in order |
| Decoder.AcceptedRecordsExact | app/src/main/java/com/example/myapplication/CameraFragment.java:176-180 | a record index is accepted exactly when that record's objectness is strictly above 0.25 |
| Decoder.DecodeRecordsMatchAccepted | app/src/main/java/com/example/myapplication/CameraFragment.java:176-199 | the decoded list has one detection per accepted record, in the same order, each built from its own record |
| Decoder.DecodeRecordsFromAccepted | app/src/main/java/com/example/myapplication/CameraFragment.java:176-199 | a record yields a detection iff its objectness is strictly above 0.25; detections appear in increasing record order, one per accepted record, each built from its own record |
| Decoder.DecodedDetectionsInRange | app/src/main/java/com/example/myapplication/CameraFragment.java:179-198 | every decoded detection has confidence above 0.25 and class index in -1..30, never 31, the last label of the 32-name table |
| Decoder.DecodeRecordsReadsPrefix | app/src/main/java/com/example/myapplication/CameraFragment.java:176-191 | decoding `n` records reads only the first `n * 36` values |
| Decoder.DecodeIgnoresPartialRecord | app/src/main/java/com/example/myapplication/CameraFragment.java:176-177 | a trailing partial record is ignored: the tensor decodes like its whole records alone |
| Decoder.ScanClassScores | app/src/main/java/com/example/myapplication/CameraFragment.java:188-195 | the class loop over the array returns the arg-max scan of the record's 31 scores, with every access in bounds |
| Decoder.DecodeOutput | app/src/main/java/com/example/myapplication/CameraFragment.java:173-201 | the record loop over the array returns exactly `Decode` of its contents |
| Decoder.ProcessYolov8Output | app/src/main/java/com/example/myapplication/CameraFragment.java:172-205 | the decode loop and the class loop compute `Decode` with every array access in bounds, and the result is `Nms` of the decoded list |
| Decoder.ProcessedDetections | app/src/main/java/com/example/myapplication/CameraFragment.java:172-205 | the final detections are in descending confidence order, none absent from the decoded list, at most one per whole record, each with confidence above 0.25 and class index in -1..30 |
| Decoder.OverlappingPairKeepsMoreConfident | app/src/main/java/com/example/myapplication/CameraFragment.java:208-225 | of two heavily overlapping boxes of different classes with confidences 0.6 and 0.9, only the 0.9 one survives |

## Left out

- Camera preview, binding and frame capture (`startCamera`, `bindPreview`, `captureImage`) are left out: they are framework calls and an executor.
- TFLite inference (`classifyImage`) is left out: it is a foreign library. The raw tensor is a parameter of `ProcessYolov8Output`. In the source, `classifyImage` never calls `processYOLOv8Output`.
- `saveImageToExternalStorage` is left out: it is file I/O.
- `INPUT_SIZE` (640) is left out: only the capture path uses it.
- MainActivity.java, NewActivity.java and BaseActivity.java are left out: permissions, speech, settings, fragment transactions and animations are platform glue.
- IEEE-754 rounding is not modelled. Floats are reals, so `NMS_THRESHOLD` is the real 0.45, not the nearest float to it.
- Float overflow of the area products is not modelled. For two identical boxes with width = height = 2e19, Java's areas and intersection overflow to infinity, the union is ∞ + ∞ − ∞ = NaN, and the duplicate is kept. Over the reals the IoU is 1 and the duplicate is suppressed (`DuplicateOverlaps`).
- NaN, +∞ and −∞ inside the input tensor are not modelled. A NaN or −∞ objectness fails the test at :180, so the record is rejected. A NaN or −∞ class score fails the test at :191, so it is skipped. A +∞ objectness passes, and the record is kept with confidence +∞. A +∞ class score wins the scan. Non-finite values at offsets 0..3 are never compared (:182-185), so they are copied into the detection unchecked and reach IoU.
- The ordering that `Float.compare` gives to -0.0 and NaN is not modelled.
- `Collections.sort` (a stable merge sort) is modelled by an in-place stable insertion sort. Every stable sort gives the same final order, so the caller's list ends in the same state. The library's intermediate steps are not modelled.
- The `ArrayList` built by the decoder is modelled as a sequence that grows by appending. The sorted list is an array that is handed to NMS, and NMS rearranges it in place.
