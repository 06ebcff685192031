/** `LowerBound`, `UpperBound` and `VersionSpan` of check_version_validity.py:
    half-open intervals `[lower, upper)` of triples, with an absent bound meaning
    unbounded, and `merge_spans`, their intersection. */
module Spans {
  import opened Wrappers
  import opened Triples

  datatype Lower = Lower(version: Option<Triple>)
  datatype Upper = Upper(version: Option<Triple>)

  /** `LowerBound.compare` against a lower bound: unbounded sorts first. */
  function CompareLowerLower(a: Lower, b: Lower): int {
    match (a.version, b.version)
    case (None, None) => 0
    case (None, Some(_)) => -1
    case (Some(_), None) => 1
    case (Some(x), Some(y)) => Compare(x, y)
  }

  /** `LowerBound.compare` against an upper bound: "less" whenever either side is unbounded. */
  function CompareLowerUpper(a: Lower, b: Upper): int {
    if a.version.None? || b.version.None? then -1 else Compare(a.version.value, b.version.value)
  }

  /** `UpperBound.compare` against a lower bound: "greater" whenever either side is unbounded. */
  function CompareUpperLower(a: Upper, b: Lower): int {
    if a.version.None? || b.version.None? then 1 else Compare(a.version.value, b.version.value)
  }

  /** `UpperBound.compare` against an upper bound: unbounded sorts last. */
  function CompareUpperUpper(a: Upper, b: Upper): int {
    match (a.version, b.version)
    case (None, None) => 0
    case (None, Some(_)) => 1
    case (Some(_), None) => -1
    case (Some(x), Some(y)) => Compare(x, y)
  }

  /** The two cross-kind comparisons are mirror images of each other. */
  lemma CrossCompareMirrors(l: Lower, u: Upper)
    ensures CompareUpperLower(u, l) < 0 <==> CompareLowerUpper(l, u) > 0
    ensures CompareUpperLower(u, l) <= 0 <==> (l.version.Some? && u.version.Some? && CompareLowerUpper(l, u) >= 0)
  {
  }

  /** `LowerBound.contains`: unbounded, or at or above the bound. */
  predicate LowerContains(l: Lower, t: Triple) {
    l.version.None? || Compare(t, l.version.value) >= 0
  }

  /** `UpperBound.contains`: unbounded, or strictly below the bound. */
  predicate UpperContains(u: Upper, t: Triple) {
    u.version.None? || Compare(t, u.version.value) < 0
  }

  datatype Span = Span(lower: Lower, upper: Upper)

  /** The invariant `VersionSpan.__post_init__` enforces: not `upper <= lower`. */
  predicate WellFormed(s: Span) {
    CompareUpperLower(s.upper, s.lower) > 0
  }

  /** `VersionSpan(lower, upper)`: it raises exactly when both ends are bounded
      and the upper one is not above the lower one. */
  function MakeSpan(lower: Lower, upper: Upper): (r: Result<Span, VersionError>)
    ensures r.Err? <==> lower.version.Some? && upper.version.Some?
                        && Compare(upper.version.value, lower.version.value) <= 0
    ensures r.Err? ==> r.error == EmptySpan
    ensures r.Ok? ==> r.value == Span(lower, upper) && WellFormed(r.value)
  {
    if CompareUpperLower(upper, lower) <= 0 then Err(EmptySpan) else Ok(Span(lower, upper))
  }

  /** A span with an unbounded end is always accepted. */
  lemma UnboundedEndAccepted(lower: Lower, upper: Upper)
    requires lower.version.None? || upper.version.None?
    ensures MakeSpan(lower, upper) == Ok(Span(lower, upper))
  {
  }

  /** `VersionSpan.unbounded()`. */
  function Unbounded(): (s: Span)
    ensures WellFormed(s) && forall t :: Contains(s, t)
  {
    Span(Lower(None), Upper(None))
  }

  /** `VersionSpan.contains`. */
  predicate Contains(s: Span, t: Triple) {
    LowerContains(s.lower, t) && UpperContains(s.upper, t)
  }

  /** The bound `merge_spans` keeps of two lower bounds: the second when the first is below it. */
  function MaxLower(a: Lower, b: Lower): (m: Lower)
    ensures m == a || m == b
    ensures forall t :: LowerContains(m, t) <==> LowerContains(a, t) && LowerContains(b, t)
  {
    if CompareLowerLower(a, b) < 0 then b else a
  }

  /** The bound `merge_spans` keeps of two upper bounds: the first when it is below the second. */
  function MinUpper(a: Upper, b: Upper): (m: Upper)
    ensures m == a || m == b
    ensures forall t :: UpperContains(m, t) <==> UpperContains(a, t) && UpperContains(b, t)
  {
    if CompareUpperUpper(a, b) < 0 then a else b
  }

  /** `merge_spans`: the larger lower bound and the smaller upper bound, or
      `None` when the lower one is not below the upper one. */
  function MergeSpans(a: Span, b: Span): (r: Option<Span>)
    ensures r.Some? ==> WellFormed(r.value)
    ensures r.None? <==> var l, u := MaxLower(a.lower, b.lower), MinUpper(a.upper, b.upper);
                         l.version.Some? && u.version.Some? && Compare(l.version.value, u.version.value) >= 0
  {
    var lower := MaxLower(a.lower, b.lower);
    var upper := MinUpper(a.upper, b.upper);
    if CompareLowerUpper(lower, upper) < 0 then Some(Span(lower, upper)) else None
  }

  /** Membership in an optional span, `None` being the empty set. */
  predicate InMerged(r: Option<Span>, t: Triple) {
    r.Some? && Contains(r.value, t)
  }

  /** `merge_spans` is intersection: a triple is in the merge exactly when it is in both spans. */
  lemma MergeSpansIsIntersection(a: Span, b: Span, t: Triple)
    ensures InMerged(MergeSpans(a, b), t) <==> Contains(a, t) && Contains(b, t)
  {
    var lower := MaxLower(a.lower, b.lower);
    var upper := MinUpper(a.upper, b.upper);
    assert Contains(a, t) && Contains(b, t) <==> LowerContains(lower, t) && UpperContains(upper, t);
    if MergeSpans(a, b).None? {
      CompareTransitive(lower.version.value, t, upper.version.value);
    }
  }

  /** Bounds of one kind that the ordering cannot tell apart. */
  predicate SameLower(x: Lower, y: Lower) {
    x.version.Some? == y.version.Some? && (x.version.Some? ==> Key(x.version.value) == Key(y.version.value))
  }

  predicate SameUpper(x: Upper, y: Upper) {
    x.version.Some? == y.version.Some? && (x.version.Some? ==> Key(x.version.value) == Key(y.version.value))
  }

  /** `merge_spans` is symmetric up to ends the ordering treats as equal
      (it keeps the first argument's end on a tie). */
  lemma MergeSpansSymmetric(a: Span, b: Span)
    ensures MergeSpans(a, b).None? <==> MergeSpans(b, a).None?
    ensures MergeSpans(a, b).Some? ==>
              SameLower(MergeSpans(a, b).value.lower, MergeSpans(b, a).value.lower)
              && SameUpper(MergeSpans(a, b).value.upper, MergeSpans(b, a).value.upper)
  {
  }

  /** A well-formed span holds some triple, except one that is unbounded below
      and ends at a zero upper bound such as `< 0`: the cross-kind comparison
      accepts it, yet no triple lies below `0.0.0`. */
  lemma SpanInhabited(s: Span)
    requires WellFormed(s)
    ensures (exists t :: Contains(s, t))
        <==> !(s.lower.version.None? && s.upper.version.Some? && Key(s.upper.version.value) == (0, 0, 0))
  {
    var zero := Triple(0, None, None);
    if s.lower.version.Some? {
      assert Contains(s, s.lower.version.value);
    } else if s.upper.version.None? || Key(s.upper.version.value) != (0, 0, 0) {
      assert Contains(s, zero);
    }
  }

  /** `[T, bump(T))` is the set of triples that agree with `T` on every field
      `T` sets: this is the prefix reading `==` gets. */
  predicate MatchesPrefix(v: Triple, t: Triple) {
    v.major == t.major
    && (t.minor.Some? ==> v.minor.GetOr(0) == t.minor.value)
    && (t.patch.Some? ==> v.patch.GetOr(0) == t.patch.value)
  }

  lemma BumpSpanIsPrefix(t: Triple, v: Triple)
    requires Valid(t)
    ensures Contains(Span(Lower(Some(t)), Upper(Some(Bump(t)))), v) <==> MatchesPrefix(v, t)
  {
  }
}
