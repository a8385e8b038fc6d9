/** Greedy Non-Maximum Suppression: the candidate list is sorted in place by
    descending confidence (a stable sort), then every candidate is kept
    unless its IoU with an already kept detection exceeds the NMS
    threshold. Class indices are never looked at. */
module Suppression {
  import opened Boxes

  // ---------------------------------------------------------------------
  // Ordering

  /** Non-increasing confidence from left to right. */
  ghost predicate SortedDesc(s: seq<Detection>) {
    forall i, j :: 0 <= i < j < |s| ==> s[i].confidence >= s[j].confidence
  }

  /** Places `d` in front of the first element whose confidence is not
      above its own: after every strictly more confident element and
      before every element of equal confidence that came later in the
      input. */
  function Insert(d: Detection, sorted: seq<Detection>): seq<Detection> {
    if sorted == [] || d.confidence >= sorted[0].confidence then [d] + sorted
    else [sorted[0]] + Insert(d, sorted[1..])
  }

  /** The list after `Collections.sort` with the descending-confidence
      comparator: a stable sort, given here as insertion sort. */
  function SortDesc(s: seq<Detection>): seq<Detection> {
    if s == [] then [] else Insert(s[0], SortDesc(s[1..]))
  }

  /** The elements of `s` whose confidence is exactly `c`, in order. */
  function WithConfidence(s: seq<Detection>, c: real): seq<Detection> {
    if s == [] then []
    else (if s[0].confidence == c then [s[0]] else []) + WithConfidence(s[1..], c)
  }

  lemma {:induction false} InsertPermutes(d: Detection, sorted: seq<Detection>)
    ensures multiset(Insert(d, sorted)) == multiset(sorted) + multiset{d}
  {
    if sorted != [] && d.confidence < sorted[0].confidence {
      InsertPermutes(d, sorted[1..]);
      assert sorted == [sorted[0]] + sorted[1..];
    }
  }

  /** Every element of `s` is at most as confident as `bound`. */
  ghost predicate AtMost(s: seq<Detection>, bound: real) {
    forall k :: 0 <= k < |s| ==> s[k].confidence <= bound
  }

  lemma {:induction false} InsertAtMost(d: Detection, sorted: seq<Detection>, bound: real)
    requires d.confidence <= bound && AtMost(sorted, bound)
    ensures AtMost(Insert(d, sorted), bound)
  {
    if sorted != [] && d.confidence < sorted[0].confidence {
      InsertAtMost(d, sorted[1..], bound);
    }
  }

  lemma {:induction false} InsertKeepsSorted(d: Detection, sorted: seq<Detection>)
    requires SortedDesc(sorted)
    ensures SortedDesc(Insert(d, sorted))
  {
    var r := Insert(d, sorted);
    if sorted == [] || d.confidence >= sorted[0].confidence {
      assert r[1..] == sorted;
      forall i, j | 0 <= i < j < |r| ensures r[i].confidence >= r[j].confidence {
        assert r[j] == sorted[j - 1];
        if i > 0 { assert r[i] == sorted[i - 1]; }
      }
    } else {
      var h, rest := sorted[0], Insert(d, sorted[1..]);
      assert SortedDesc(sorted[1..]);
      InsertKeepsSorted(d, sorted[1..]);
      InsertAtMost(d, sorted[1..], h.confidence);
      assert r[1..] == rest;
      forall i, j | 0 <= i < j < |r| ensures r[i].confidence >= r[j].confidence {
        assert r[j] == rest[j - 1];
        if i > 0 { assert r[i] == rest[i - 1]; }
      }
    }
  }

  lemma {:induction false} InsertStable(d: Detection, sorted: seq<Detection>, c: real)
    ensures WithConfidence(Insert(d, sorted), c) ==
      (if d.confidence == c then [d] else []) + WithConfidence(sorted, c)
  {
    var r := Insert(d, sorted);
    if sorted == [] || d.confidence >= sorted[0].confidence {
      assert r[1..] == sorted;
    } else {
      var h, rest := sorted[0], Insert(d, sorted[1..]);
      InsertStable(d, sorted[1..], c);
      assert r[1..] == rest;
      assert WithConfidence(r, c) == (if h.confidence == c then [h] else []) + WithConfidence(rest, c);
      assert WithConfidence(sorted, c) == (if h.confidence == c then [h] else []) + WithConfidence(sorted[1..], c);
    }
  }

  /** The sort yields a descending permutation of its input, and it is
      stable: for every confidence value the equally confident detections
      keep their input order. These three facts determine the result. */
  lemma {:induction false} SortDescCorrect(s: seq<Detection>)
    ensures SortedDesc(SortDesc(s))
    ensures multiset(SortDesc(s)) == multiset(s)
    ensures forall c :: WithConfidence(SortDesc(s), c) == WithConfidence(s, c)
  {
    if s != [] {
      SortDescCorrect(s[1..]);
      InsertPermutes(s[0], SortDesc(s[1..]));
      InsertKeepsSorted(s[0], SortDesc(s[1..]));
      assert s == [s[0]] + s[1..];
      forall c ensures WithConfidence(SortDesc(s), c) == WithConfidence(s, c) {
        InsertStable(s[0], SortDesc(s[1..]), c);
        assert WithConfidence(s, c) == (if s[0].confidence == c then [s[0]] else []) + WithConfidence(s[1..], c);
      }
    }
  }

  /** Sorting a list that is already in descending order changes nothing
      (a consequence of stability). */
  lemma {:induction false} SortDescOfSorted(s: seq<Detection>)
    requires SortedDesc(s)
    ensures SortDesc(s) == s
  {
    if s != [] {
      assert SortedDesc(s[1..]);
      SortDescOfSorted(s[1..]);
      assert s == [s[0]] + s[1..];
    }
  }

  /** Insertion into `sorted` at position `k`, where `k` is the first
      position whose element is not more confident than `d`. */
  lemma {:induction false} InsertAt(d: Detection, sorted: seq<Detection>, k: nat)
    requires k <= |sorted|
    requires forall m :: 0 <= m < k ==> sorted[m].confidence > d.confidence
    requires k == |sorted| || d.confidence >= sorted[k].confidence
    ensures Insert(d, sorted) == sorted[..k] + [d] + sorted[k..]
  {
    if k > 0 {
      InsertAt(d, sorted[1..], k - 1);
      assert sorted[1..][..k - 1] == sorted[1..k];
      assert sorted[1..][k - 1..] == sorted[k..];
      assert sorted[..k] == [sorted[0]] + sorted[1..k];
    }
  }

  /** One step of the sort: moves `a[i]` right, past every strictly more
      confident element of the already sorted suffix `a[i + 1..]`. */
  method InsertIntoSuffix(a: array<Detection>, i: nat)
    requires i < a.Length
    modifies a
    ensures a[..i] == old(a[..i])
    ensures a[i..] == Insert(old(a[i]), old(a[i + 1..]))
  {
    var d := a[i];
    ghost var tail := a[i + 1..];
    var j := i;
    while j + 1 < a.Length && a[j + 1].confidence > d.confidence
      invariant i <= j < a.Length
      invariant a[..i] == old(a[..i])
      invariant a[i..j] == tail[..j - i]
      invariant a[j + 1..] == tail[j - i..]
      invariant forall m :: 0 <= m < j - i ==> tail[m].confidence > d.confidence
    {
      a[j] := a[j + 1];
      j := j + 1;
    }
    a[j] := d;
    InsertAt(d, tail, j - i);
    assert a[i..] == a[i..j] + [d] + a[j + 1..];
  }

  /** The stable in-place sort of the detection list by descending
      confidence. */
  method SortByConfidence(a: array<Detection>)
    modifies a
    ensures a[..] == SortDesc(old(a[..]))
  {
    ghost var s := a[..];
    var i := a.Length;
    while i > 0
      invariant 0 <= i <= a.Length
      invariant a[..i] == s[..i]
      invariant a[i..] == SortDesc(s[i..])
    {
      i := i - 1;
      assert a[i] == s[i] && a[i + 1..] == SortDesc(s[i + 1..]);
      InsertIntoSuffix(a, i);
      assert s[..i + 1][..i] == s[..i];
      assert s[i..] == [s[i]] + s[i + 1..];
    }
  }

  // ---------------------------------------------------------------------
  // Greedy suppression

  /** `candidate` is kept: its IoU with every kept detection is not above
      the threshold (a NaN IoU counts as not above). */
  predicate SurvivesAll(candidate: Detection, kept: seq<Detection>) {
    forall k :: 0 <= k < |kept| ==> !Overlaps(candidate, kept[k])
  }

  /** The detections kept after visiting `s` from left to right. */
  function Suppress(s: seq<Detection>): (kept: seq<Detection>)
    ensures |kept| <= |s|
  {
    if s == [] then []
    else
      var kept := Suppress(s[..|s| - 1]);
      var candidate := s[|s| - 1];
      if SurvivesAll(candidate, kept) then kept + [candidate] else kept
  }

  /** What the source computes for its argument list: sort, then suppress. */
  function Nms(detections: seq<Detection>): seq<Detection> {
    Suppress(SortDesc(detections))
  }

  /** `r` can be obtained from `s` by deleting elements. */
  ghost predicate IsSubsequence(r: seq<Detection>, s: seq<Detection>)
    decreases |s|
  {
    r == [] ||
    (s != [] &&
      ((r[|r| - 1] == s[|s| - 1] && IsSubsequence(r[..|r| - 1], s[..|s| - 1])) ||
       IsSubsequence(r, s[..|s| - 1])))
  }

  lemma {:induction false} SubsequenceMultiset(r: seq<Detection>, s: seq<Detection>)
    requires IsSubsequence(r, s)
    ensures multiset(r) <= multiset(s)
    decreases |s|
  {
    if r != [] {
      var r', s' := r[..|r| - 1], s[..|s| - 1];
      assert s == s' + [s[|s| - 1]];
      if r[|r| - 1] == s[|s| - 1] && IsSubsequence(r', s') {
        SubsequenceMultiset(r', s');
        assert r == r' + [r[|r| - 1]];
      } else {
        SubsequenceMultiset(r, s');
      }
    }
  }

  lemma {:induction false} SubsequenceSorted(r: seq<Detection>, s: seq<Detection>)
    requires IsSubsequence(r, s) && SortedDesc(s)
    ensures SortedDesc(r)
    decreases |s|
  {
    if r != [] {
      var r', s' := r[..|r| - 1], s[..|s| - 1];
      assert SortedDesc(s');
      if r[|r| - 1] == s[|s| - 1] && IsSubsequence(r', s') {
        SubsequenceSorted(r', s');
        SubsequenceMultiset(r', s');
        forall i, j | 0 <= i < j < |r| ensures r[i].confidence >= r[j].confidence {
          assert r[i] == r'[i];
          if j < |r| - 1 {
            assert r[j] == r'[j];
          } else {
            assert r'[i] in multiset(s');
            var k :| 0 <= k < |s'| && s'[k] == r[i];
            assert s[k] == r[i];
          }
        }
      } else {
        SubsequenceSorted(r, s');
      }
    }
  }

  /** The kept list is obtained from the input by deleting elements. */
  lemma {:induction false} SuppressIsSubsequence(s: seq<Detection>)
    ensures IsSubsequence(Suppress(s), s)
  {
    if s != [] {
      var kept := Suppress(s[..|s| - 1]);
      SuppressIsSubsequence(s[..|s| - 1]);
      var r := Suppress(s);
      if SurvivesAll(s[|s| - 1], kept) {
        assert r[..|r| - 1] == kept;
      }
    }
  }

  /** The detections kept after a prefix are a prefix of the final result:
      a detection, once kept, is never removed again. */
  lemma {:induction false} SuppressPrefix(s: seq<Detection>, i: nat)
    requires i <= |s|
    ensures Suppress(s[..i]) <= Suppress(s)
    decreases |s|
  {
    if i < |s| {
      var s' := s[..|s| - 1];
      SuppressPrefix(s', i);
      assert s'[..i] == s[..i];
      assert s == s[..|s|];
    } else {
      assert s[..i] == s;
    }
  }

  /** Every kept detection has an IoU not above the threshold with every
      detection kept before it. */
  lemma {:induction false} SuppressPairwise(s: seq<Detection>)
    ensures forall i, j :: 0 <= i < j < |Suppress(s)| ==> !Overlaps(Suppress(s)[j], Suppress(s)[i])
  {
    if s != [] {
      SuppressPairwise(s[..|s| - 1]);
    }
  }

  /** The detections kept after visiting the first `i` candidates. */
  function KeptBefore(s: seq<Detection>, i: nat): seq<Detection>
    requires i <= |s|
  {
    Suppress(s[..i])
  }

  /** Visiting candidate `i` either appends it to the kept list or leaves
      the kept list unchanged because it overlaps a detection kept
      earlier, one that comes before position `i` in the input. */
  lemma SuppressStep(s: seq<Detection>, i: nat)
    requires i < |s|
    ensures KeptBefore(s, i + 1) == KeptBefore(s, i) + [s[i]] ||
      (KeptBefore(s, i + 1) == KeptBefore(s, i) &&
       exists k :: 0 <= k < |KeptBefore(s, i)| &&
         KeptBefore(s, i)[k] in s[..i] && Overlaps(s[i], KeptBefore(s, i)[k]))
  {
    var before := Suppress(s[..i]);
    assert s[..i + 1][..i] == s[..i] && s[..i + 1][i] == s[i];
    if !SurvivesAll(s[i], before) {
      var k :| 0 <= k < |before| && Overlaps(s[i], before[k]);
      SuppressIsSubsequence(s[..i]);
      SubsequenceMultiset(before, s[..i]);
      assert before[k] in multiset(s[..i]);
    }
  }

  /** Every input detection, at its own position `i`, is either kept
      there (the kept list before it, followed by it, is a prefix of the
      final result), or overlaps a detection that was kept before position
      `i` and comes from before position `i` in the input. */
  lemma SuppressCovers(s: seq<Detection>)
    ensures forall i :: 0 <= i < |s| ==>
      KeptBefore(s, i) + [s[i]] <= Suppress(s) ||
      exists k :: 0 <= k < |KeptBefore(s, i)| &&
        KeptBefore(s, i)[k] in s[..i] && Overlaps(s[i], KeptBefore(s, i)[k])
  {
    forall i | 0 <= i < |s|
      ensures KeptBefore(s, i) + [s[i]] <= Suppress(s) ||
        exists k :: 0 <= k < |KeptBefore(s, i)| &&
          KeptBefore(s, i)[k] in s[..i] && Overlaps(s[i], KeptBefore(s, i)[k])
    {
      SuppressStep(s, i);
      SuppressPrefix(s, i + 1);
    }
  }

  /** The first candidate is always kept, in first position. */
  lemma {:induction false} SuppressKeepsFirst(s: seq<Detection>)
    requires s != []
    ensures Suppress(s) != [] && Suppress(s)[0] == s[0]
  {
    SuppressPrefix(s, 1);
    assert s[..1][..0] == [];
  }

  /** A list whose elements pairwise pass the suppression test is left
      unchanged. */
  lemma {:induction false} SuppressOfSeparated(s: seq<Detection>)
    requires forall i, j :: 0 <= i < j < |s| ==> !Overlaps(s[j], s[i])
    ensures Suppress(s) == s
  {
    if s != [] {
      SuppressOfSeparated(s[..|s| - 1]);
      assert s == s[..|s| - 1] + [s[|s| - 1]];
    }
  }

  /** Suppressing an already suppressed list changes nothing. */
  lemma {:induction false} SuppressIdempotent(s: seq<Detection>)
    ensures Suppress(Suppress(s)) == Suppress(s)
  {
    SuppressPairwise(s);
    SuppressOfSeparated(Suppress(s));
  }

  /** The NMS result keeps only input detections, in descending confidence
      order, as a subsequence of the sorted input; an empty input gives an
      empty result. */
  lemma NmsSortedSubset(detections: seq<Detection>)
    ensures IsSubsequence(Nms(detections), SortDesc(detections))
    ensures SortedDesc(Nms(detections))
    ensures multiset(Nms(detections)) <= multiset(detections)
    ensures detections == [] <==> Nms(detections) == []
  {
    SortDescCorrect(detections);
    SuppressIsSubsequence(SortDesc(detections));
    SubsequenceMultiset(Nms(detections), SortDesc(detections));
    SubsequenceSorted(Nms(detections), SortDesc(detections));
    if detections != [] {
      assert detections[0] in multiset(SortDesc(detections));
      SuppressKeepsFirst(SortDesc(detections));
    }
  }

  /** The most confident input detection survives: the first result has
      the highest confidence of the whole input. */
  lemma NmsKeepsMostConfident(detections: seq<Detection>)
    requires detections != []
    ensures Nms(detections) != []
    ensures Nms(detections)[0] in detections
    ensures forall d :: d in detections ==> d.confidence <= Nms(detections)[0].confidence
  {
    var sorted := SortDesc(detections);
    SortDescCorrect(detections);
    assert detections[0] in multiset(sorted);
    SuppressKeepsFirst(sorted);
    assert sorted[0] in multiset(detections);
    forall d | d in detections ensures d.confidence <= sorted[0].confidence {
      assert d in multiset(sorted);
      var k :| 0 <= k < |sorted| && sorted[k] == d;
    }
  }

  /** Running NMS on its own output returns that output unchanged. */
  lemma NmsIdempotent(detections: seq<Detection>)
    ensures Nms(Nms(detections)) == Nms(detections)
  {
    NmsSortedSubset(detections);
    SortDescOfSorted(Nms(detections));
    SuppressIdempotent(SortDesc(detections));
  }

  // ---------------------------------------------------------------------
  // Class blindness

  /** The same detections with every class index replaced by `c`. */
  function Relabel(s: seq<Detection>, c: int): (r: seq<Detection>)
    ensures |r| == |s|
  {
    seq(|s|, i requires 0 <= i < |s| => s[i].(classId := c))
  }

  lemma {:induction false} SortDescIgnoresClass(s: seq<Detection>, c: int)
    ensures SortDesc(Relabel(s, c)) == Relabel(SortDesc(s), c)
  {
    if s != [] {
      SortDescIgnoresClass(s[1..], c);
      assert Relabel(s, c)[1..] == Relabel(s[1..], c);
      InsertIgnoresClass(s[0], SortDesc(s[1..]), c);
    }
  }

  lemma {:induction false} InsertIgnoresClass(d: Detection, sorted: seq<Detection>, c: int)
    ensures Insert(d.(classId := c), Relabel(sorted, c)) == Relabel(Insert(d, sorted), c)
  {
    if sorted != [] && d.confidence < sorted[0].confidence {
      InsertIgnoresClass(d, sorted[1..], c);
      assert Relabel(sorted, c)[1..] == Relabel(sorted[1..], c);
      assert Relabel(Insert(d, sorted), c) == [sorted[0].(classId := c)] + Relabel(Insert(d, sorted[1..]), c);
    } else {
      assert Relabel(Insert(d, sorted), c) == [d.(classId := c)] + Relabel(sorted, c);
    }
  }

  lemma SurvivesAllIgnoresClass(d: Detection, kept: seq<Detection>, c: int)
    ensures SurvivesAll(d.(classId := c), Relabel(kept, c)) <==> SurvivesAll(d, kept)
  {
    forall k | 0 <= k < |kept|
      ensures Overlaps(d.(classId := c), Relabel(kept, c)[k]) <==> Overlaps(d, kept[k])
    {
      IouIgnoresClass(d, kept[k], c, c);
    }
  }

  lemma {:induction false} SuppressIgnoresClass(s: seq<Detection>, c: int)
    ensures Suppress(Relabel(s, c)) == Relabel(Suppress(s), c)
  {
    if s != [] {
      var s' := s[..|s| - 1];
      var t := Relabel(s, c);
      SuppressIgnoresClass(s', c);
      assert t[..|t| - 1] == Relabel(s', c);
      assert t[|t| - 1] == s[|s| - 1].(classId := c);
      var kept := Suppress(s');
      var d := s[|s| - 1];
      SurvivesAllIgnoresClass(d, kept, c);
      assert Relabel(kept + [d], c) == Relabel(kept, c) + [d.(classId := c)];
    }
  }


  /** NMS never consults class indices: relabelling the input only
      relabels the output, with the same detections kept in the same
      order (suppression works across classes). */
  lemma NmsIgnoresClass(detections: seq<Detection>, c: int)
    ensures Nms(Relabel(detections, c)) == Relabel(Nms(detections), c)
  {
    SortDescIgnoresClass(detections, c);
    SuppressIgnoresClass(SortDesc(detections), c);
  }

  // ---------------------------------------------------------------------
  // The operation

  /** `applyNonMaximumSuppression`: sorts the caller's list in place, then
      keeps each candidate whose IoU with every kept detection is not above
      the threshold, stopping the scan at the first one that is. */
  method ApplyNonMaximumSuppression(detections: array<Detection>) returns (result: seq<Detection>)
    modifies detections
    ensures detections[..] == SortDesc(old(detections[..]))
    ensures result == Nms(old(detections[..]))
  {
    SortByConfidence(detections);
    result := [];
    var i := 0;
    while i < detections.Length
      invariant 0 <= i <= detections.Length
      invariant result == Suppress(detections[..i])
    {
      var detection := detections[i];
      var keep := true;
      var k := 0;
      while k < |result|
        invariant 0 <= k <= |result|
        invariant keep
        invariant forall m :: 0 <= m < k ==> !Overlaps(detection, result[m])
      {
        if Exceeds(Iou(detection, result[k]), NmsThreshold) {
          keep := false;
          break;
        }
        k := k + 1;
      }
      assert keep <==> SurvivesAll(detection, result);
      if keep {
        result := result + [detection];
      }
      assert detections[..i + 1][..i] == detections[..i];
      i := i + 1;
    }
    assert detections[..i] == detections[..];
  }
}
