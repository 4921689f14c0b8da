/** Day 4: pairs of inclusive section ranges, containment and overlap
    (day-4/src/main.rs). */
module Day04Sections {

  /** `SectionRange`: the inclusive range `start..=end`. */
  datatype SectionRange = SectionRange(start: int, end: int)
  {
    predicate WellFormed() { start <= end }

    /** The sections the range covers. */
    predicate Covers(x: int) { start <= x <= end }
  }

  /** `ElfPair`: the two ranges of one input line, in input order. */
  datatype ElfPair = ElfPair(first: SectionRange, second: SectionRange)

  /** `SectionRange::fully_contains`. */
  predicate FullyContains(a: SectionRange, b: SectionRange)
  {
    a.start <= b.start && a.end >= b.end
  }

  /** `SectionRange::overlaps`: decides by which range starts first. */
  predicate Overlaps(a: SectionRange, b: SectionRange)
  {
    if a.start < b.start then a.end >= b.start else b.end >= a.start
  }

  /** Containment means every section of `b` is a section of `a`, when `b`
      is not empty; it is reflexive. */
  lemma FullyContainsMeansSubset(a: SectionRange, b: SectionRange)
    requires b.WellFormed()
    ensures FullyContains(a, a)
    ensures FullyContains(a, b) <==> forall x :: b.Covers(x) ==> a.Covers(x)
  {
    if forall x :: b.Covers(x) ==> a.Covers(x) {
      assert b.Covers(b.start) && b.Covers(b.end);
    }
  }

  /** For well-formed ranges, `overlaps` holds exactly when some section lies
      in both ranges, so it is symmetric. */
  lemma OverlapsMeansCommonSection(a: SectionRange, b: SectionRange)
    requires a.WellFormed() && b.WellFormed()
    ensures Overlaps(a, b) <==> exists x :: a.Covers(x) && b.Covers(x)
    ensures Overlaps(a, b) <==> Overlaps(b, a)
  {
    if Overlaps(a, b) {
      var x := if a.start < b.start then b.start else a.start;
      assert a.Covers(x) && b.Covers(x);
    }
  }

  /** For well-formed ranges, containment implies overlap. */
  lemma ContainmentImpliesOverlap(a: SectionRange, b: SectionRange)
    requires a.WellFormed() && b.WellFormed()
    requires FullyContains(a, b)
    ensures Overlaps(a, b) && Overlaps(b, a)
  {
    assert a.Covers(b.start) && b.Covers(b.start);
    OverlapsMeansCommonSection(a, b);
  }

  /** `ElfPair::has_fully_contained_section`. */
  predicate HasFullyContainedSection(p: ElfPair)
  {
    FullyContains(p.first, p.second) || FullyContains(p.second, p.first)
  }

  /** `ElfPair::has_any_overlap`. */
  predicate HasAnyOverlap(p: ElfPair)
  {
    Overlaps(p.first, p.second)
  }

  /** Neither question depends on the order of the pair. */
  lemma PairOrderIrrelevant(p: ElfPair)
    requires p.first.WellFormed() && p.second.WellFormed()
    ensures HasFullyContainedSection(p) <==> HasFullyContainedSection(ElfPair(p.second, p.first))
    ensures HasAnyOverlap(p) <==> HasAnyOverlap(ElfPair(p.second, p.first))
  {
    OverlapsMeansCommonSection(p.first, p.second);
  }

  /** The answer of `main`: the number of pairs that overlap at all. */
  function CountOverlapping(pairs: seq<ElfPair>): (n: nat)
    ensures n <= |pairs|
    ensures n == |set k | 0 <= k < |pairs| && HasAnyOverlap(pairs[k])|
  {
    if |pairs| == 0 then 0
    else
      var init := pairs[..|pairs| - 1];
      var last := |pairs| - 1;
      var prev := set k | 0 <= k < |init| && HasAnyOverlap(init[k]);
      var all := set k | 0 <= k < |pairs| && HasAnyOverlap(pairs[k]);
      assert all == prev + (if HasAnyOverlap(pairs[last]) then {last} else {});
      CountOverlapping(init) + (if HasAnyOverlap(pairs[last]) then 1 else 0)
  }
}
