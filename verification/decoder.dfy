/** Decoding of the raw YOLOv8 output tensor into detections, followed by
    Non-Maximum Suppression (`processYOLOv8Output`).

    The tensor is a flat array of records of 36 values: box geometry at
    offsets 0..3, objectness at offset 4 and 31 class scores at offsets
    5..35. */
module Decoder {
  import opened Boxes
  import opened Suppression

  /** Values per record. */
  const Stride: nat := 36
  /** Offset of the objectness value inside a record. */
  const ObjectnessOffset: nat := 4
  /** Offset of the first class score inside a record. */
  const FirstClassOffset: nat := 5
  /** Number of class scores per record (offsets 5..35). */
  const ClassCount: nat := 31

  // ---------------------------------------------------------------------
  // Class selection

  /** `(classId, maxScore)` after the class loop has looked at `scores`
      from left to right, starting from `(-1, -1)` and replacing the pair
      only on a strictly larger score. */
  function ScanClasses(scores: seq<real>): (int, real) {
    if scores == [] then (-1, -1.0)
    else
      var (id, best) := ScanClasses(scores[..|scores| - 1]);
      var last := scores[|scores| - 1];
      if last > best then (|scores| - 1, last) else (id, best)
  }

  /** The class the decoder picks for `scores`. */
  function ClassIdOf(scores: seq<real>): int {
    ScanClasses(scores).0
  }

  /** The scan finds the FIRST position holding the maximum score, provided
      that maximum exceeds -1; if every score is at most -1 the class stays
      -1. */
  lemma {:induction false} ScanFindsFirstMaximum(scores: seq<real>)
    ensures ScanClasses(scores).0 == -1 <==> forall j :: 0 <= j < |scores| ==> scores[j] <= -1.0
    ensures ScanClasses(scores).0 == -1 ==> ScanClasses(scores).1 == -1.0
    ensures ScanClasses(scores).0 != -1 ==>
      var (id, best) := ScanClasses(scores);
      0 <= id < |scores| && best == scores[id] && best > -1.0 &&
      (forall j :: 0 <= j < |scores| ==> scores[j] <= best) &&
      (forall j :: 0 <= j < id ==> scores[j] < best)
  {
    if scores != [] {
      var init := scores[..|scores| - 1];
      ScanFindsFirstMaximum(init);
      assert forall j :: 0 <= j < |init| ==> init[j] == scores[j];
    }
  }

  // ---------------------------------------------------------------------
  // Records

  /** The objectness value of record `r`. */
  function Objectness(output: seq<real>, r: nat): real
    requires (r + 1) * Stride <= |output|
  {
    output[r * Stride + ObjectnessOffset]
  }

  /** The 31 class scores of record `r`. */
  function ClassScores(output: seq<real>, r: nat): (scores: seq<real>)
    requires (r + 1) * Stride <= |output|
    ensures |scores| == ClassCount
  {
    output[r * Stride + FirstClassOffset .. r * Stride + Stride]
  }

  /** The detection built from record `r`: centre and size verbatim, the
      picked class, and the objectness as confidence. */
  function RecordDetection(output: seq<real>, r: nat): Detection
    requires (r + 1) * Stride <= |output|
  {
    var base := r * Stride;
    Detection(output[base], output[base + 1], output[base + 2], output[base + 3],
              ClassIdOf(ClassScores(output, r)), output[base + ObjectnessOffset])
  }

  /** The detections emitted for the first `n` records, in record order. */
  function DecodeRecords(output: seq<real>, n: nat): (ds: seq<Detection>)
    requires n * Stride <= |output|
    ensures |ds| <= n
  {
    if n == 0 then []
    else
      DecodeRecords(output, n - 1) +
      (if Objectness(output, n - 1) > ConfidenceThreshold then [RecordDetection(output, n - 1)] else [])
  }

  /** The detections emitted for the whole tensor: `length / 36` records. */
  function Decode(output: seq<real>): seq<Detection> {
    DecodeRecords(output, |output| / Stride)
  }

  /** Indices of the first `n` records whose objectness exceeds the
      threshold, in increasing order. */
  function AcceptedRecords(output: seq<real>, n: nat): seq<nat>
    requires n * Stride <= |output|
  {
    if n == 0 then []
    else AcceptedRecords(output, n - 1) + (if Objectness(output, n - 1) > ConfidenceThreshold then [n - 1] else [])
  }

  /** The accepted indices lie below `n`, in increasing order. */
  lemma {:induction false} AcceptedRecordsIncreasing(output: seq<real>, n: nat)
    requires n * Stride <= |output|
    ensures forall k :: 0 <= k < |AcceptedRecords(output, n)| ==> AcceptedRecords(output, n)[k] < n
    ensures forall k1, k2 :: 0 <= k1 < k2 < |AcceptedRecords(output, n)| ==>
      AcceptedRecords(output, n)[k1] < AcceptedRecords(output, n)[k2]
  {
    if n > 0 {
      AcceptedRecordsIncreasing(output, n - 1);
    }
  }

  /** A record index is accepted exactly when its objectness is above the
      threshold. */
  lemma {:induction false} AcceptedRecordsExact(output: seq<real>, n: nat)
    requires n * Stride <= |output|
    ensures forall r: nat :: r < n ==>
      (r in AcceptedRecords(output, n) <==> Objectness(output, r) > ConfidenceThreshold)
  {
    if n > 0 {
      var m := n - 1;
      AcceptedRecordsExact(output, m);
      AcceptedRecordsIncreasing(output, m);
      var prev := AcceptedRecords(output, m);
      var last: seq<nat> := if Objectness(output, m) > ConfidenceThreshold then [m] else [];
      assert AcceptedRecords(output, n) == prev + last;
      forall r: nat | r < n
        ensures r in AcceptedRecords(output, n) <==> Objectness(output, r) > ConfidenceThreshold
      {
        assert r in prev + last <==> r in prev || r in last;
        if r < m {
          assert r !in last;
        }
      }
    }
  }

  /** Detections and accepted records correspond one to one, in order. */
  lemma {:induction false} DecodeRecordsMatchAccepted(output: seq<real>, n: nat)
    requires n * Stride <= |output|
    ensures var ds, acc := DecodeRecords(output, n), AcceptedRecords(output, n);
      |ds| == |acc| &&
      forall k :: 0 <= k < |acc| ==> (acc[k] + 1) * Stride <= |output| && ds[k] == RecordDetection(output, acc[k])
  {
    if n > 0 {
      DecodeRecordsMatchAccepted(output, n - 1);
      AcceptedRecordsIncreasing(output, n - 1);
    }
  }

  /** A record yields a detection if and only if its objectness is strictly
      above 0.25 (a value equal to the threshold is rejected), it yields at
      most one, and detections appear in record order, each built from its
      own record. */
  lemma DecodeRecordsFromAccepted(output: seq<real>, n: nat)
    requires n * Stride <= |output|
    ensures var ds, acc := DecodeRecords(output, n), AcceptedRecords(output, n);
      |ds| == |acc| &&
      (forall k :: 0 <= k < |acc| ==> acc[k] < n && (acc[k] + 1) * Stride <= |output|) &&
      (forall k :: 0 <= k < |acc| ==> ds[k] == RecordDetection(output, acc[k])) &&
      (forall k1, k2 :: 0 <= k1 < k2 < |acc| ==> acc[k1] < acc[k2]) &&
      (forall r: nat :: r < n ==> (r in acc <==> Objectness(output, r) > ConfidenceThreshold))
  {
    AcceptedRecordsIncreasing(output, n);
    AcceptedRecordsExact(output, n);
    DecodeRecordsMatchAccepted(output, n);
  }

  /** Every decoded detection has confidence above 0.25 and a class index
      in -1..30: index 31, the last entry of the 32-name label table, is
      never produced. */
  lemma {:induction false} DecodedDetectionsInRange(output: seq<real>, n: nat)
    requires n * Stride <= |output|
    ensures forall d :: d in DecodeRecords(output, n) ==>
      d.confidence > ConfidenceThreshold && -1 <= d.classId < ClassCount && d.classId < |RamenLabels| - 1
  {
    if n > 0 {
      DecodedDetectionsInRange(output, n - 1);
      ScanFindsFirstMaximum(ClassScores(output, n - 1));
    }
  }

  /** Records are read only within `n * 36` values. */
  lemma {:induction false} DecodeRecordsReadsPrefix(output: seq<real>, other: seq<real>, n: nat)
    requires n * Stride <= |output| && n * Stride <= |other|
    requires output[..n * Stride] == other[..n * Stride]
    ensures DecodeRecords(output, n) == DecodeRecords(other, n)
  {
    if n > 0 {
      var m := n - 1;
      assert output[..m * Stride] == output[..n * Stride][..m * Stride];
      assert other[..m * Stride] == other[..n * Stride][..m * Stride];
      DecodeRecordsReadsPrefix(output, other, m);
      forall k | m * Stride <= k < n * Stride ensures output[k] == other[k] {
        assert output[k] == output[..n * Stride][k];
        assert other[k] == other[..n * Stride][k];
      }
      assert ClassScores(output, m) == ClassScores(other, m);
    }
  }

  /** A trailing partial record is ignored: decoding the tensor gives the
      same detections as decoding only its whole records. */
  lemma DecodeIgnoresPartialRecord(output: seq<real>)
    ensures Decode(output) == Decode(output[..|output| / Stride * Stride])
  {
    var n := |output| / Stride;
    var whole := output[..n * Stride];
    assert |whole| / Stride == n;
    assert whole[..n * Stride] == whole;
    DecodeRecordsReadsPrefix(output, whole, n);
  }

  // ---------------------------------------------------------------------
  // The operation

  /** The class loop of `processYOLOv8Output` over the record starting at
      `index`: the strict arg-max scan of offsets 5..35. */
  method ScanClassScores(outputArray: array<real>, index: nat) returns (classId: int, maxScore: real)
    requires index + Stride <= outputArray.Length
    ensures (classId, maxScore) == ScanClasses(outputArray[index + FirstClassOffset .. index + Stride])
  {
    classId := -1;
    maxScore := -1.0;
    for c := FirstClassOffset to Stride
      invariant (classId, maxScore) == ScanClasses(outputArray[index + FirstClassOffset .. index + c])
    {
      assert outputArray[index + FirstClassOffset .. index + c + 1] ==
             outputArray[index + FirstClassOffset .. index + c] + [outputArray[index + c]];
      if outputArray[index + c] > maxScore {
        maxScore := outputArray[index + c];
        classId := c - FirstClassOffset;
      }
    }
  }

  /** The record loop of `processYOLOv8Output`: every whole record whose
      objectness exceeds the threshold is appended as a detection. */
  method DecodeOutput(outputArray: array<real>) returns (detections: seq<Detection>)
    ensures detections == Decode(outputArray[..])
  {
    detections := [];
    var i := 0;
    while i < outputArray.Length / Stride
      invariant 0 <= i <= outputArray.Length / Stride
      invariant detections == DecodeRecords(outputArray[..], i)
    {
      var index := i * Stride;
      var confidence := outputArray[index + ObjectnessOffset];
      if confidence > ConfidenceThreshold {
        var xCenter := outputArray[index];
        var yCenter := outputArray[index + 1];
        var width := outputArray[index + 2];
        var height := outputArray[index + 3];
        var classId, _ := ScanClassScores(outputArray, index);
        assert outputArray[index + FirstClassOffset .. index + Stride] == ClassScores(outputArray[..], i);
        detections := detections + [Detection(xCenter, yCenter, width, height, classId, confidence)];
      }
      i := i + 1;
    }
  }

  /** `processYOLOv8Output`: decodes every whole record of the tensor, then
      applies Non-Maximum Suppression to the list it built. */
  method ProcessYolov8Output(outputArray: array<real>) returns (result: seq<Detection>)
    ensures result == Nms(Decode(outputArray[..]))
  {
    var detections := DecodeOutput(outputArray);
    var list := new Detection[|detections|](k requires 0 <= k < |detections| => detections[k]);
    assert list[..] == detections;
    result := ApplyNonMaximumSuppression(list);
  }

  /** The pipeline's result: detections of confidence above 0.25 and class
      index in -1..30, in descending confidence order, none of them absent
      from the decoded list, and no more of them than whole records. */
  lemma ProcessedDetections(output: seq<real>)
    ensures var result := Nms(Decode(output));
      SortedDesc(result) &&
      multiset(result) <= multiset(Decode(output)) &&
      |result| <= |output| / Stride &&
      forall d :: d in result ==> d.confidence > ConfidenceThreshold && -1 <= d.classId < ClassCount
  {
    var decoded := Decode(output);
    NmsSortedSubset(decoded);
    DecodedDetectionsInRange(output, |output| / Stride);
    var result := Nms(decoded);
    SortDescCorrect(decoded);
    assert |SortDesc(decoded)| == |multiset(SortDesc(decoded))| == |multiset(decoded)| == |decoded|;
    forall d | d in result ensures d in decoded {
      assert d in multiset(result);
    }
  }

  /** Two heavily overlapping boxes of different classes with confidences
      0.6 and 0.9: only the 0.9 one survives, across classes. */
  lemma OverlappingPairKeepsMoreConfident()
    ensures var weak := Detection(0.0, 0.0, 10.0, 10.0, 0, 0.6);
      var strong := Detection(1.0, 1.0, 10.0, 10.0, 1, 0.9);
      Nms([weak, strong]) == [strong]
  {
    var weak := Detection(0.0, 0.0, 10.0, 10.0, 0, 0.6);
    var strong := Detection(1.0, 1.0, 10.0, 10.0, 1, 0.9);
    assert SortDesc([weak, strong]) == [strong, weak] by {
      assert [weak, strong][1..] == [strong];
      assert SortDesc([strong]) == [strong];
    }
    assert IntersectionArea(weak, strong) == 81.0;
    assert UnionArea(weak, strong) == 119.0;
    assert Overlaps(weak, strong);
    assert [strong, weak][..1] == [strong];
    assert Suppress([strong]) == [strong] by {
      assert [strong][..0] == [];
    }
  }
}
