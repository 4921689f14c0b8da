/** Day 15, the `Ranges` structure: a list of half-open integer ranges kept
    sorted by start and merged whenever two of them overlap or touch
    (day-15/src/main.rs). Integers are unbounded rather than `i64`. */
module Day15Ranges {

  /** `Range<i64>`: the integers `start <= v < end`. */
  datatype Range = Range(start: int, end: int)

  predicate InRange(r: Range, v: int)
  {
    r.start <= v < r.end
  }

  /** `Range::is_empty` is its negation. */
  predicate NonEmpty(r: Range)
  {
    r.start < r.end
  }

  /** What `Ranges` keeps: non-empty ranges, each ending strictly before
      the next one starts, so the list is sorted by start and no two ranges
      overlap or touch. */
  predicate Valid(rs: seq<Range>)
  {
    && (forall k :: 0 <= k < |rs| ==> NonEmpty(rs[k]))
    && (forall i, j :: 0 <= i < j < |rs| ==> rs[i].end < rs[j].start)
  }

  /** Some range of the list holds `v`. */
  predicate Covers(rs: seq<Range>, v: int)
  {
    exists k :: 0 <= k < |rs| && InRange(rs[k], v)
  }

  /** Neither range overlaps or touches the other. */
  predicate Apart(a: Range, b: Range)
  {
    a.end < b.start || b.end < a.start
  }

  /** Every two positions hold ranges apart from each other, and none is
      empty; the order does not matter. */
  predicate PairwiseApart(rs: seq<Range>)
  {
    && (forall k :: 0 <= k < |rs| ==> NonEmpty(rs[k]))
    && (forall i, j :: 0 <= i < j < |rs| ==> Apart(rs[i], rs[j]))
  }

  lemma ValidApart(rs: seq<Range>)
    requires Valid(rs)
    ensures PairwiseApart(rs)
  {
  }

  // ---------------------------------------------------------------------------
  // Sorting by start, as the stable `sort_by_key(|r| r.start)` does.

  predicate SortedByStart(rs: seq<Range>)
  {
    forall i, j :: 0 <= i < j < |rs| ==> rs[i].start <= rs[j].start
  }

  /** Insert `x` after every range that does not start after it. */
  function Insert(x: Range, s: seq<Range>): (r: seq<Range>)
    ensures multiset(r) == multiset(s) + multiset{x}
  {
    if |s| == 0 then [x]
    else if x.start < s[0].start then [x] + s
    else
      assert s == [s[0]] + s[1..];
      [s[0]] + Insert(x, s[1..])
  }

  lemma {:induction false} InsertSorted(x: Range, s: seq<Range>)
    requires SortedByStart(s)
    ensures SortedByStart(Insert(x, s))
  {
    if |s| > 0 && x.start >= s[0].start {
      InsertSorted(x, s[1..]);
      var rest := Insert(x, s[1..]);
      forall k | 0 <= k < |rest|
        ensures s[0].start <= rest[k].start
      {
        assert rest[k] in multiset(s[1..]) + multiset{x};
        if rest[k] != x {
          assert rest[k] in s[1..];
        }
      }
    }
  }

  /** A stable insertion sort by start: the order any stable sort by start
      produces. */
  function SortByStart(s: seq<Range>): (r: seq<Range>)
    ensures multiset(r) == multiset(s)
    ensures SortedByStart(r)
  {
    if |s| == 0 then []
    else
      assert s == s[..|s| - 1] + [s[|s| - 1]];
      InsertSorted(s[|s| - 1], SortByStart(s[..|s| - 1]));
      Insert(s[|s| - 1], SortByStart(s[..|s| - 1]))
  }

  /** Inserting a range apart from all others into a valid list keeps it
      valid. */
  lemma {:induction false} InsertValid(x: Range, s: seq<Range>)
    requires Valid(s) && NonEmpty(x)
    requires forall k :: 0 <= k < |s| ==> Apart(x, s[k])
    ensures Valid(Insert(x, s))
  {
    if |s| > 0 {
      if x.start < s[0].start {
        InsertFront(x, s);
      } else {
        assert Valid(s[1..]);
        InsertValid(x, s[1..]);
        InsertBehind(x, s);
      }
    }
  }

  /** A range apart from the first one and starting before it ends before
      it. */
  lemma InsertFront(x: Range, s: seq<Range>)
    requires Valid(s) && NonEmpty(x) && |s| > 0 && x.start < s[0].start && Apart(x, s[0])
    ensures Valid([x] + s)
  {
    var r := [x] + s;
    forall i, j | 0 <= i < j < |r|
      ensures r[i].end < r[j].start
    {
      if i == 0 && j > 1 {
        assert r[j] == s[j - 1];
        assert s[0].end < s[j - 1].start;
      }
    }
  }

  lemma InsertBehind(x: Range, s: seq<Range>)
    requires Valid(s) && NonEmpty(x) && |s| > 0 && x.start >= s[0].start
    requires forall k :: 0 <= k < |s| ==> Apart(x, s[k])
    requires Valid(Insert(x, s[1..]))
    ensures Valid(Insert(x, s))
  {
    var rest := Insert(x, s[1..]);
    assert s[0].end < x.start by {
      assert Apart(x, s[0]);
    }
    forall k | 0 <= k < |rest|
      ensures s[0].end < rest[k].start
    {
      InsertedAfterHead(x, s, rest[k]);
    }
    assert Insert(x, s) == [s[0]] + rest;
    ConsValid(s[0], rest);
  }

  /** Every range of the inserted tail lies past the head. */
  lemma InsertedAfterHead(x: Range, s: seq<Range>, y: Range)
    requires |s| > 0 && s[0].end < x.start
    requires forall k :: 1 <= k < |s| ==> s[0].end < s[k].start
    requires y in multiset(Insert(x, s[1..]))
    ensures s[0].end < y.start
  {
    var tail := s[1..];
    assert y in multiset(tail) + multiset{x};
    if y != x {
      assert y in tail;
      var i :| 0 <= i < |tail| && tail[i] == y;
      assert tail[i] == s[i + 1];
    }
  }

  /** A non-empty range ending before a valid list starts extends it. */
  lemma ConsValid(h: Range, rest: seq<Range>)
    requires Valid(rest) && NonEmpty(h)
    requires forall k :: 0 <= k < |rest| ==> h.end < rest[k].start
    ensures Valid([h] + rest)
  {
    var r := [h] + rest;
    forall i, j | 0 <= i < j < |r|
      ensures r[i].end < r[j].start
    {
      if i > 0 {
        assert r[i] == rest[i - 1] && r[j] == rest[j - 1];
      } else {
        assert r[j] == rest[j - 1];
      }
    }
  }

  /** Sorting a list whose ranges are pairwise apart gives a valid list. */
  lemma {:induction false} SortValid(s: seq<Range>)
    requires PairwiseApart(s)
    ensures Valid(SortByStart(s))
  {
    if |s| > 0 {
      var init := s[..|s| - 1];
      var x := s[|s| - 1];
      SortValid(init);
      var sorted := SortByStart(init);
      forall k | 0 <= k < |sorted|
        ensures Apart(x, sorted[k])
      {
        assert sorted[k] in multiset(init);
        var i :| 0 <= i < |init| && init[i] == sorted[k];
      }
      InsertValid(x, sorted);
    }
  }

  /** Lists with the same ranges cover the same integers. */
  lemma SameCover(a: seq<Range>, b: seq<Range>, v: int)
    requires multiset(a) == multiset(b)
    ensures Covers(a, v) <==> Covers(b, v)
  {
    if Covers(a, v) {
      var k :| 0 <= k < |a| && InRange(a[k], v);
      assert a[k] in multiset(b);
      var i :| 0 <= i < |b| && b[i] == a[k];
    }
    if Covers(b, v) {
      var k :| 0 <= k < |b| && InRange(b[k], v);
      assert b[k] in multiset(a);
      var i :| 0 <= i < |a| && a[i] == b[k];
    }
  }

  // ---------------------------------------------------------------------------
  // Removing the merged ranges.

  /** `Vec::swap_remove`: the last element takes the place of the removed
      one. */
  function SwapRemove(s: seq<Range>, i: nat): (r: seq<Range>)
    requires i < |s|
    ensures |r| == |s| - 1
    ensures multiset(r) + multiset{s[i]} == multiset(s)
    ensures r[..i] == s[..i]
  {
    var last := |s| - 1;
    var r := s[i := s[last]][..last];
    if i == last then
      assert multiset(r) + multiset{s[i]} == multiset(s) by {
        assert s == r + [s[i]];
      }
      r
    else
      var a, b := s[..i], s[i + 1..last];
      assert r == a + [s[last]] + b;
      assert multiset(r) + multiset{s[i]} == multiset(s) by {
        assert s == a + [s[i]] + b + [s[last]];
        SwapParts(a, s[i], b, s[last]);
      }
      r
  }

  /** Moving the last element into a hole leaves the same elements. */
  lemma SwapParts<T>(a: seq<T>, x: T, b: seq<T>, y: T)
    ensures multiset(a + [y] + b) + multiset{x} == multiset(a + [x] + b + [y])
  {
  }

  /** Swap-removing keeps the ranges pairwise apart. */
  lemma SwapRemoveApart(s: seq<Range>, i: nat)
    requires i < |s| && PairwiseApart(s)
    ensures PairwiseApart(SwapRemove(s, i))
  {
    var r := SwapRemove(s, i);
    var last := |s| - 1;
    // Position `i` of the result holds the input's last range.
    assert forall k :: 0 <= k < |r| ==> r[k] == s[if k == i then last else k];
    forall a, b | 0 <= a < b < |r|
      ensures Apart(r[a], r[b])
    {
      var oa, ob := if a == i then last else a, if b == i then last else b;
      assert oa != ob;
      if oa < ob {
        assert Apart(s[oa], s[ob]);
      } else {
        assert Apart(s[ob], s[oa]);
      }
    }
  }

  predicate StrictlyIncreasing(idx: seq<nat>)
  {
    forall i, j :: 0 <= i < j < |idx| ==> idx[i] < idx[j]
  }

  /** The ranges at the given positions. */
  function Picked(s: seq<Range>, idx: seq<nat>): (r: seq<Range>)
    requires forall k :: 0 <= k < |idx| ==> idx[k] < |s|
    ensures |r| == |idx| && forall k :: 0 <= k < |idx| ==> r[k] == s[idx[k]]
  {
    seq(|idx|, k requires 0 <= k < |idx| => s[idx[k]])
  }

  /** What holds after the indices `idx[j..]` are removed: positions up to
      the next index are untouched, and the removed ranges make up the
      difference. */
  predicate RemovedFrom(s: seq<Range>, idx: seq<nat>, j: nat, r: seq<Range>)
    requires j <= |idx| && forall k :: 0 <= k < |idx| ==> idx[k] < |s|
  {
    && |r| == |s| - (|idx| - j)
    && (j > 0 ==> idx[j - 1] < |r| && r[..idx[j - 1] + 1] == s[..idx[j - 1] + 1])
    && multiset(r) + multiset(Picked(s, idx[j..])) == multiset(s)
  }

  lemma RemoveStep(s: seq<Range>, idx: seq<nat>, j: nat, r: seq<Range>)
    requires StrictlyIncreasing(idx) && forall k :: 0 <= k < |idx| ==> idx[k] < |s|
    requires 0 < j <= |idx| && RemovedFrom(s, idx, j, r)
    ensures idx[j - 1] < |r| && RemovedFrom(s, idx, j - 1, SwapRemove(r, idx[j - 1]))
  {
    RemoveStepCount(s, idx, j, r);
    if j > 1 {
      RemoveStepPrefix(s, idx, j, r);
    }
  }

  /** Removing the range at `idx[j - 1]` moves it to the removed side. */
  lemma RemoveStepCount(s: seq<Range>, idx: seq<nat>, j: nat, r: seq<Range>)
    requires forall k :: 0 <= k < |idx| ==> idx[k] < |s|
    requires 0 < j <= |idx| && RemovedFrom(s, idx, j, r)
    ensures idx[j - 1] < |r|
    ensures multiset(SwapRemove(r, idx[j - 1])) + multiset(Picked(s, idx[j - 1..])) == multiset(s)
  {
    var i := idx[j - 1];
    assert r[i] == s[i] by {
      assert r[..i + 1][i] == r[i] && s[..i + 1][i] == s[i];
    }
    PickedFirst(s, idx, j - 1);
  }

  /** Removing at `idx[j - 1]` leaves the positions up to `idx[j - 2]`
      alone. */
  lemma RemoveStepPrefix(s: seq<Range>, idx: seq<nat>, j: nat, r: seq<Range>)
    requires StrictlyIncreasing(idx) && forall k :: 0 <= k < |idx| ==> idx[k] < |s|
    requires 1 < j <= |idx| && RemovedFrom(s, idx, j, r)
    ensures idx[j - 1] < |r| && idx[j - 2] < |r| - 1
    ensures SwapRemove(r, idx[j - 1])[..idx[j - 2] + 1] == s[..idx[j - 2] + 1]
  {
    var i := idx[j - 1];
    assert idx[j - 2] < i;
    PrefixKept(s, r, SwapRemove(r, i), idx[j - 2] + 1, i);
  }

  /** The ranges at `idx[j..]` are the one at `idx[j]` and those after it. */
  lemma PickedFirst(s: seq<Range>, idx: seq<nat>, j: nat)
    requires forall k :: 0 <= k < |idx| ==> idx[k] < |s|
    requires j < |idx|
    ensures Picked(s, idx[j..]) == [s[idx[j]]] + Picked(s, idx[j + 1..])
  {
    assert idx[j..][1..] == idx[j + 1..];
  }

  /** A prefix that the removal left alone still agrees with the input. */
  lemma PrefixKept(s: seq<Range>, r: seq<Range>, next: seq<Range>, m: nat, i: nat)
    requires m <= i < |r| && i < |s| && i <= |next|
    requires r[..i + 1] == s[..i + 1] && next[..i] == r[..i]
    ensures next[..m] == s[..m]
  {
    assert next[..m] == next[..i][..m] == r[..i][..m] == r[..m];
    assert r[..m] == r[..i + 1][..m] == s[..i + 1][..m] == s[..m];
  }

  /** The loop removing the obsolete indices from the end: exactly the
      ranges at those indices go, every other range stays. */
  method RemoveFromEnd(s: seq<Range>, idx: seq<nat>) returns (r: seq<Range>)
    requires StrictlyIncreasing(idx) && forall k :: 0 <= k < |idx| ==> idx[k] < |s|
    ensures multiset(r) + multiset(Picked(s, idx)) == multiset(s)
    ensures PairwiseApart(s) ==> PairwiseApart(r)
  {
    r := s;
    var j := |idx|;
    assert idx[j..] == [];
    while j > 0
      invariant 0 <= j <= |idx|
      invariant RemovedFrom(s, idx, j, r)
      invariant PairwiseApart(s) ==> PairwiseApart(r)
    {
      RemoveStep(s, idx, j, r);
      if PairwiseApart(r) {
        SwapRemoveApart(r, idx[j - 1]);
      }
      r := SwapRemove(r, idx[j - 1]);
      j := j - 1;
    }
    assert idx[0..] == idx;
  }

  // ---------------------------------------------------------------------------
  // Merging.

  /** The test that returns early: an existing range holds the new one. */
  predicate Contains(existing: Range, r: Range)
  {
    existing.start <= r.start && existing.end >= r.end
  }

  /** The three tests that mark an existing range for merging: the new range
      holds it, reaches it from the left, or reaches it from the right. */
  predicate Intersects(existing: Range, r: Range)
  {
    || (r.start <= existing.start && r.end >= existing.end)
    || (r.start < existing.start && r.end >= existing.start)
    || (r.end >= existing.start && r.start <= existing.end)
  }

  /** For a non-empty existing range the tests amount to: the ranges overlap
      or touch. */
  lemma IntersectsTouches(existing: Range, r: Range)
    requires NonEmpty(existing)
    ensures Intersects(existing, r) <==> r.end >= existing.start && r.start <= existing.end
    ensures !Intersects(existing, r) && NonEmpty(r) ==> Apart(existing, r)
  {
  }

  function Min(a: int, b: int): int { if a <= b then a else b }
  function Max(a: int, b: int): int { if a <= b then b else a }

  /** The indices the loop of `add` collects, in increasing order. */
  predicate Marked(rs: seq<Range>, r: Range, idx: seq<nat>)
  {
    && StrictlyIncreasing(idx)
    && (forall k :: 0 <= k < |idx| ==> idx[k] < |rs|)
    && (forall k :: 0 <= k < |rs| ==> (k in idx <==> Intersects(rs[k], r)))
  }

  /** `mega_range`: from the lower of the new range's and the first marked
      range's starts to the higher of the new range's and the last marked
      range's ends. */
  function Mega(rs: seq<Range>, r: Range, idx: seq<nat>): Range
    requires |idx| > 0 && forall k :: 0 <= k < |idx| ==> idx[k] < |rs|
  {
    Range(Min(r.start, rs[idx[0]].start), Max(r.end, rs[idx[|idx| - 1]].end))
  }

  lemma ValidOrder(rs: seq<Range>, i: nat, j: nat)
    requires Valid(rs) && i <= j < |rs|
    ensures rs[i].start <= rs[j].start && rs[i].end <= rs[j].end
  {
    if i < j {
      assert rs[i].end < rs[j].start;
      assert NonEmpty(rs[i]) && NonEmpty(rs[j]);
    }
  }

  /** The merged range holds the new range, every marked range and the gaps
      between them, and nothing else. */
  lemma MegaCovers(rs: seq<Range>, r: Range, idx: seq<nat>, v: int)
    requires Valid(rs) && NonEmpty(r) && Marked(rs, r, idx) && |idx| > 0
    ensures InRange(Mega(rs, r, idx), v) <==>
      InRange(r, v) || exists m :: 0 <= m < |idx| && InRange(rs[idx[m]], v)
  {
    var first, last := rs[idx[0]], rs[idx[|idx| - 1]];
    assert idx[0] in idx && idx[|idx| - 1] in idx;
    IntersectsTouches(first, r);
    IntersectsTouches(last, r);
    forall m | 0 <= m < |idx|
      ensures first.start <= rs[idx[m]].start && rs[idx[m]].end <= last.end
    {
      if m > 0 {
        ValidOrder(rs, idx[0], idx[m]);
      }
      if m < |idx| - 1 {
        ValidOrder(rs, idx[m], idx[|idx| - 1]);
      }
    }
    if InRange(Mega(rs, r, idx), v) && !InRange(r, v) {
      if v < r.start {
        assert InRange(rs[idx[0]], v);
      } else {
        assert InRange(rs[idx[|idx| - 1]], v);
      }
    }
  }

  /** The merged range stays apart from every unmarked range. */
  lemma MegaApart(rs: seq<Range>, r: Range, idx: seq<nat>, k: nat)
    requires Valid(rs) && NonEmpty(r) && Marked(rs, r, idx) && |idx| > 0
    requires k < |rs| && k !in idx
    ensures Apart(Mega(rs, r, idx), rs[k])
  {
    var f, l := idx[0], idx[|idx| - 1];
    assert f in idx && l in idx;
    IntersectsTouches(rs[k], r);
    IntersectsTouches(rs[f], r);
    IntersectsTouches(rs[l], r);
    if r.end < rs[k].start {
      assert rs[l].end < rs[k].start;
    } else {
      assert rs[k].end < rs[f].start;
    }
  }

  /** A valid list holds every range once. */
  lemma {:induction false} ValidDistinct(rs: seq<Range>, x: Range)
    requires Valid(rs)
    ensures multiset(rs)[x] <= 1
  {
    if |rs| > 0 {
      var init := rs[..|rs| - 1];
      assert rs == init + [rs[|rs| - 1]];
      ValidDistinct(init, x);
    }
  }

  /** After removing the marked indices, the ranges left are exactly the
      unmarked ones. */
  lemma KeptRanges(rs: seq<Range>, idx: seq<nat>, kept: seq<Range>, x: Range)
    requires Valid(rs) && StrictlyIncreasing(idx) && forall k :: 0 <= k < |idx| ==> idx[k] < |rs|
    requires multiset(kept) + multiset(Picked(rs, idx)) == multiset(rs)
    ensures x in kept <==> exists k :: 0 <= k < |rs| && k !in idx && rs[k] == x
  {
    var picked := Picked(rs, idx);
    ValidDistinct(rs, x);
    if x in kept {
      assert x in multiset(rs);
      var k :| 0 <= k < |rs| && rs[k] == x;
      assert k !in idx;
    }
    if exists k :: 0 <= k < |rs| && k !in idx && rs[k] == x {
      var k :| 0 <= k < |rs| && k !in idx && rs[k] == x;
      assert multiset(picked)[x] == 0;
    }
  }

  /** Appending a range apart from all others keeps the list pairwise
      apart. */
  lemma AppendApart(s: seq<Range>, x: Range)
    requires PairwiseApart(s) && NonEmpty(x) && forall k :: 0 <= k < |s| ==> Apart(s[k], x)
    ensures PairwiseApart(s + [x])
  {
    var r := s + [x];
    forall i, j | 0 <= i < j < |r|
      ensures Apart(r[i], r[j])
    {
      if j < |s| {
        assert r[i] == s[i] && r[j] == s[j];
      }
    }
  }

  lemma AppendCovers(s: seq<Range>, x: Range, v: int)
    ensures Covers(s + [x], v) <==> Covers(s, v) || InRange(x, v)
  {
    var r := s + [x];
    if Covers(s, v) {
      var k :| 0 <= k < |s| && InRange(s[k], v);
      assert r[k] == s[k];
    }
    if InRange(x, v) {
      assert r[|s|] == x;
    }
    if Covers(r, v) {
      var k :| 0 <= k < |r| && InRange(r[k], v);
      if k < |s| {
        assert r[k] == s[k];
      }
    }
  }

  /** `Ranges::add`. An empty range, or one an existing range holds, changes
      nothing. On a valid list the result is valid again and covers exactly
      the integers covered before together with those of the new range. */
  method Add(rs: seq<Range>, r: Range) returns (result: seq<Range>)
    ensures !NonEmpty(r) ==> result == rs
    ensures (exists k :: 0 <= k < |rs| && Contains(rs[k], r)) ==> result == rs
    ensures Valid(rs) ==> Valid(result)
    ensures Valid(rs) ==> forall v :: Covers(result, v) <==> Covers(rs, v) || InRange(r, v)
  {
    if !NonEmpty(r) {
      return rs;
    }
    if |rs| == 0 {
      result := [r];
      forall v ensures Covers(result, v) <==> InRange(r, v) {
        AppendCovers([], r, v);
      }
      return;
    }
    var idx: seq<nat> := [];
    for i := 0 to |rs|
      invariant StrictlyIncreasing(idx) && forall k :: 0 <= k < |idx| ==> idx[k] < i
      invariant forall k :: 0 <= k < i ==> (k in idx <==> Intersects(rs[k], r))
      invariant forall k :: 0 <= k < i ==> !Contains(rs[k], r)
    {
      if Contains(rs[i], r) {
        return rs;
      }
      if Intersects(rs[i], r) {
        idx := idx + [i];
      }
    }
    if |idx| == 0 {
      result := SortByStart(rs + [r]);
      if Valid(rs) {
        NoMerge(rs, r, result);
      }
    } else {
      var mega := Range(Min(r.start, rs[idx[0]].start), Max(r.end, rs[idx[|idx| - 1]].end));
      var kept := RemoveFromEnd(rs, idx);
      result := SortByStart(kept + [mega]);
      if Valid(rs) {
        Merged(rs, r, idx, kept, result);
      }
    }
  }

  /** Without marked ranges the new range joins the list as it is. */
  lemma NoMerge(rs: seq<Range>, r: Range, result: seq<Range>)
    requires Valid(rs) && NonEmpty(r) && forall k :: 0 <= k < |rs| ==> !Intersects(rs[k], r)
    requires result == SortByStart(rs + [r])
    ensures Valid(result)
    ensures forall v :: Covers(result, v) <==> Covers(rs, v) || InRange(r, v)
  {
    assert PairwiseApart(rs + [r]) by {
      forall k | 0 <= k < |rs|
        ensures Apart(rs[k], r)
      {
        IntersectsTouches(rs[k], r);
      }
      ValidApart(rs);
      AppendApart(rs, r);
    }
    SortValid(rs + [r]);
    forall v
      ensures Covers(result, v) <==> Covers(rs, v) || InRange(r, v)
    {
      SameCover(result, rs + [r], v);
      AppendCovers(rs, r, v);
    }
  }

  /** With marked ranges, the merged range replaces them. */
  lemma Merged(rs: seq<Range>, r: Range, idx: seq<nat>, kept: seq<Range>, result: seq<Range>)
    requires Valid(rs) && NonEmpty(r) && Marked(rs, r, idx) && |idx| > 0
    requires multiset(kept) + multiset(Picked(rs, idx)) == multiset(rs)
    requires PairwiseApart(rs) ==> PairwiseApart(kept)
    requires result == SortByStart(kept + [Mega(rs, r, idx)])
    ensures Valid(result)
    ensures forall v :: Covers(result, v) <==> Covers(rs, v) || InRange(r, v)
  {
    var mega := Mega(rs, r, idx);
    ValidApart(rs);
    forall i | 0 <= i < |kept|
      ensures Apart(kept[i], mega)
    {
      KeptRanges(rs, idx, kept, kept[i]);
      var k :| 0 <= k < |rs| && k !in idx && rs[k] == kept[i];
      MegaApart(rs, r, idx, k);
    }
    assert NonEmpty(mega) by {
      MegaCovers(rs, r, idx, r.start);
    }
    AppendApart(kept, mega);
    SortValid(kept + [mega]);
    forall v
      ensures Covers(result, v) <==> Covers(rs, v) || InRange(r, v)
    {
      SameCover(result, kept + [mega], v);
      AppendCovers(kept, mega, v);
      MegaCovers(rs, r, idx, v);
      MergedCovers(rs, r, idx, kept, v);
    }
  }

  /** The kept and the marked ranges together are all the ranges. */
  lemma MergedCovers(rs: seq<Range>, r: Range, idx: seq<nat>, kept: seq<Range>, v: int)
    requires Valid(rs) && Marked(rs, r, idx)
    requires multiset(kept) + multiset(Picked(rs, idx)) == multiset(rs)
    ensures Covers(rs, v) <==>
      Covers(kept, v) || exists m :: 0 <= m < |idx| && InRange(rs[idx[m]], v)
  {
    if Covers(rs, v) {
      var k :| 0 <= k < |rs| && InRange(rs[k], v);
      if k in idx {
        var m :| 0 <= m < |idx| && idx[m] == k;
        assert InRange(rs[idx[m]], v);
      } else {
        KeptRanges(rs, idx, kept, rs[k]);
        var i :| 0 <= i < |kept| && kept[i] == rs[k];
        assert InRange(kept[i], v);
      }
    }
    if Covers(kept, v) {
      var i :| 0 <= i < |kept| && InRange(kept[i], v);
      KeptRanges(rs, idx, kept, kept[i]);
    }
  }

  /** `Ranges::new`: the empty list, which is valid and covers nothing. */
  function New(): (rs: seq<Range>)
    ensures Valid(rs)
    ensures forall v :: !Covers(rs, v)
  {
    []
  }

  // ---------------------------------------------------------------------------
  // Coverage.

  /** `Ranges::coverage`: the sum of the ranges' lengths. */
  function Coverage(rs: seq<Range>): int
  {
    if |rs| == 0 then 0 else rs[0].end - rs[0].start + Coverage(rs[1..])
  }

  /** The integers `lo <= v < hi` as a set. */
  function Interval(lo: int, hi: int): (s: set<int>)
    decreases hi - lo
    ensures forall v :: v in s <==> lo <= v < hi
    ensures |s| == if lo < hi then hi - lo else 0
  {
    if hi <= lo then {} else Interval(lo, hi - 1) + {hi - 1}
  }

  /** The integers some range of the list holds, range by range. */
  function CoveredSet(rs: seq<Range>): set<int>
  {
    if |rs| == 0 then {} else Interval(rs[0].start, rs[0].end) + CoveredSet(rs[1..])
  }

  lemma {:induction false} CoveredSetMembers(rs: seq<Range>, v: int)
    ensures v in CoveredSet(rs) <==> Covers(rs, v)
  {
    if |rs| > 0 {
      CoveredSetMembers(rs[1..], v);
      if Covers(rs, v) && !InRange(rs[0], v) {
        var k :| 0 <= k < |rs| && InRange(rs[k], v);
        assert rs[1..][k - 1] == rs[k];
      }
      if Covers(rs[1..], v) {
        var k :| 0 <= k < |rs| - 1 && InRange(rs[1..][k], v);
        assert rs[k + 1] == rs[1..][k];
      }
    }
  }

  /** On a valid list the coverage counts exactly the covered integers:
      no integer is counted twice. */
  lemma {:induction false} CoverageCount(rs: seq<Range>)
    requires Valid(rs)
    ensures Coverage(rs) == |CoveredSet(rs)|
    ensures forall v :: v in CoveredSet(rs) <==> Covers(rs, v)
  {
    forall v
      ensures v in CoveredSet(rs) <==> Covers(rs, v)
    {
      CoveredSetMembers(rs, v);
    }
    if |rs| > 0 {
      var tail := rs[1..];
      var head := Interval(rs[0].start, rs[0].end);
      assert Coverage(tail) == |CoveredSet(tail)| by {
        CoverageCount(tail);
      }
      assert |CoveredSet(rs)| == |head| + |CoveredSet(tail)| by {
        TailAfterHead(rs);
        DisjointUnion(head, CoveredSet(tail));
      }
    }
  }

  lemma DisjointUnion(a: set<int>, b: set<int>)
    requires a * b == {}
    ensures |a + b| == |a| + |b|
  {
  }

  /** Everything the tail of a valid list covers lies past its head. */
  lemma TailAfterHead(rs: seq<Range>)
    requires Valid(rs) && |rs| > 0
    ensures Interval(rs[0].start, rs[0].end) * CoveredSet(rs[1..]) == {}
  {
    var tail := rs[1..];
    forall v | v in CoveredSet(tail)
      ensures v > rs[0].end
    {
      CoveredSetMembers(tail, v);
      var k :| 0 <= k < |tail| && InRange(tail[k], v);
      assert tail[k] == rs[k + 1];
    }
  }

}
