/** `FixedVersion`, `DisjointVersionSpan`, `VersionSet` with its `&`, the
    span-merging helpers, `VersionOp`/`parse_version_op` and `version_set` of
    check_version_validity.py. */
module VersionSets {
  import opened Wrappers
  import opened Triples
  import opened Spans
  import PyText

  /** `VersionSet`: empty, an exact version string (`===`), one span, or a
      union of spans (`DisjointVersionSpan`). */
  datatype VSet = Empty | Fixed(version: string) | SpanSet(span: Span) | DisjointSet(spans: seq<Span>)

  /** What every set built by the translator and by `&` satisfies. */
  predicate ValidSet(vs: VSet) {
    match vs
    case SpanSet(s) => WellFormed(s)
    case DisjointSet(ss) => |ss| > 0 && forall i :: 0 <= i < |ss| ==> WellFormed(ss[i])
    case _ => true
  }

  /** A set given by spans rather than by a version string. */
  predicate NumericSet(vs: VSet) {
    ValidSet(vs) && !vs.Fixed?
  }

  predicate InAny(ss: seq<Span>, t: Triple) {
    exists i :: 0 <= i < |ss| && Contains(ss[i], t)
  }

  /** The triples a span-based set stands for; `Fixed` sets are compared by
      their string instead, so they hold no triple here. */
  predicate Member(vs: VSet, t: Triple) {
    match vs
    case SpanSet(s) => Contains(s, t)
    case DisjointSet(ss) => InAny(ss, t)
    case _ => false
  }

  lemma InAnyConcat(x: seq<Span>, y: seq<Span>, t: Triple)
    ensures InAny(x + y, t) <==> InAny(x, t) || InAny(y, t)
  {
    if InAny(x + y, t) {
      var i :| 0 <= i < |x + y| && Contains((x + y)[i], t);
      if i >= |x| {
        assert Contains(y[i - |x|], t);
      }
    }
    if InAny(y, t) {
      var i :| 0 <= i < |y| && Contains(y[i], t);
      assert (x + y)[|x| + i] == y[i];
    }
    if InAny(x, t) {
      var i :| 0 <= i < |x| && Contains(x[i], t);
      assert (x + y)[i] == x[i];
    }
  }

  /** `DisjointVersionSpan.contains`: scans the members and stops at the first
      one that holds `t`. */
  method DisjointContains(spans: seq<Span>, t: Triple) returns (found: bool)
    ensures found <==> InAny(spans, t)
  {
    for i := 0 to |spans|
      invariant forall j :: 0 <= j < i ==> !Contains(spans[j], t)
    {
      if Contains(spans[i], t) {
        return true;
      }
    }
    return false;
  }

  /** The merge of `x` with `y` as a list of at most one span. */
  function MergeOrNothing(x: Span, y: Span): (r: seq<Span>)
    ensures |r| <= 1
    ensures forall i :: 0 <= i < |r| ==> WellFormed(r[i])
  {
    match MergeSpans(x, y)
    case Some(m) => [m]
    case None => []
  }

  lemma MergeOrNothingIsIntersection(x: Span, y: Span, t: Triple)
    ensures InAny(MergeOrNothing(x, y), t) <==> Contains(x, t) && Contains(y, t)
  {
    MergeSpansIsIntersection(x, y, t);
    match MergeSpans(x, y)
    case Some(m) =>
      assert MergeOrNothing(x, y) == [m];
      assert InAny([m], t) <==> Contains(m, t) by { assert [m][0] == m; }
    case None =>
  }

  /** The non-empty merges of `x` with each member of `ys`, in order. */
  function MergesWith(x: Span, ys: seq<Span>): (r: seq<Span>)
    ensures forall i :: 0 <= i < |r| ==> WellFormed(r[i])
  {
    if ys == [] then [] else MergesWith(x, ys[..|ys| - 1]) + MergeOrNothing(x, ys[|ys| - 1])
  }

  /** The non-empty pairwise merges `merge_disjoint_spans` collects, left member by left member. */
  function AllMerges(xs: seq<Span>, ys: seq<Span>): (r: seq<Span>)
    ensures forall i :: 0 <= i < |r| ==> WellFormed(r[i])
  {
    if xs == [] then [] else AllMerges(xs[..|xs| - 1], ys) + MergesWith(xs[|xs| - 1], ys)
  }

  lemma {:induction false} MergesWithIsIntersection(x: Span, ys: seq<Span>, t: Triple)
    ensures InAny(MergesWith(x, ys), t) <==> Contains(x, t) && InAny(ys, t)
  {
    if ys != [] {
      var init, last := ys[..|ys| - 1], ys[|ys| - 1];
      MergesWithIsIntersection(x, init, t);
      InAnyConcat(MergesWith(x, init), MergeOrNothing(x, last), t);
      assert ys == init + [last];
      InAnyConcat(init, [last], t);
      MergeOrNothingIsIntersection(x, last, t);
      assert InAny([last], t) <==> Contains(last, t) by {
        assert [last][0] == last;
      }
    }
  }

  /** The pairwise merges hold exactly the triples in both unions. */
  lemma {:induction false} AllMergesIsIntersection(xs: seq<Span>, ys: seq<Span>, t: Triple)
    ensures InAny(AllMerges(xs, ys), t) <==> InAny(xs, t) && InAny(ys, t)
  {
    if xs != [] {
      var init, last := xs[..|xs| - 1], xs[|xs| - 1];
      AllMergesIsIntersection(init, ys, t);
      MergesWithIsIntersection(last, ys, t);
      InAnyConcat(AllMerges(init, ys), MergesWith(last, ys), t);
      assert xs == init + [last];
      InAnyConcat(init, [last], t);
      assert InAny([last], t) <==> Contains(last, t) by {
        assert [last][0] == last;
      }
    }
  }

  /** What `merge_disjoint_spans` returns: the pairwise merges, or empty when there are none. */
  function MergeDisjoint(xs: seq<Span>, ys: seq<Span>): (r: VSet)
    ensures ValidSet(r) && !r.Fixed? && !r.SpanSet?
  {
    var ms := AllMerges(xs, ys);
    if |ms| > 0 then DisjointSet(ms) else Empty
  }

  lemma MergeDisjointIsIntersection(xs: seq<Span>, ys: seq<Span>, t: Triple)
    ensures Member(MergeDisjoint(xs, ys), t) <==> InAny(xs, t) && InAny(ys, t)
  {
    AllMergesIsIntersection(xs, ys, t);
  }

  lemma MergesWithSnoc(x: Span, ys: seq<Span>, j: nat)
    requires j < |ys|
    ensures MergesWith(x, ys[..j + 1]) == MergesWith(x, ys[..j]) + MergeOrNothing(x, ys[j])
  {
    assert ys[..j + 1][..j] == ys[..j];
  }

  lemma AllMergesSnoc(xs: seq<Span>, ys: seq<Span>, i: nat)
    requires i < |xs|
    ensures AllMerges(xs[..i + 1], ys) == AllMerges(xs[..i], ys) + MergesWith(xs[i], ys)
  {
    assert xs[..i + 1][..i] == xs[..i];
  }

  /** The inner loop of `merge_disjoint_spans`: the non-empty merges of
      `left` with each right member, in order. */
  method MergeWithEach(left: Span, ys: seq<Span>) returns (ms: seq<Span>)
    ensures ms == MergesWith(left, ys)
  {
    ms := [];
    for j := 0 to |ys|
      invariant ms == MergesWith(left, ys[..j])
    {
      MergesWithSnoc(left, ys, j);
      var m := MergeSpans(left, ys[j]);
      if m.Some? {
        ms := ms + [m.value];
      }
    }
    assert ys[..|ys|] == ys;
  }

  /** `merge_disjoint_spans`: the outer loop appends each left member's merges. */
  method MergeDisjointSpans(xs: seq<Span>, ys: seq<Span>) returns (r: VSet)
    ensures r == MergeDisjoint(xs, ys)
  {
    var spans: seq<Span> := [];
    for i := 0 to |xs|
      invariant spans == AllMerges(xs[..i], ys)
    {
      var ms := MergeWithEach(xs[i], ys);
      spans := spans + ms;
      AllMergesSnoc(xs, ys, i);
    }
    assert xs[..|xs|] == xs;
    if |spans| > 0 {
      return DisjointSet(spans);
    }
    return Empty;
  }

  /** What `merge_span_with_disjoint` returns: the merge with the FIRST member
      that overlaps `s`, as a single span, or empty when none does. */
  function FirstMerge(s: Span, ds: seq<Span>): (r: VSet)
    ensures ValidSet(r) && (r.Empty? || r.SpanSet?)
  {
    if ds == [] then Empty
    else match MergeSpans(s, ds[0])
      case Some(m) => SpanSet(m)
      case None => FirstMerge(s, ds[1..])
  }

  /** The first-match result only ever drops triples: it is inside the intersection. */
  lemma {:induction false} FirstMergeWithinIntersection(s: Span, ds: seq<Span>, t: Triple)
    ensures Member(FirstMerge(s, ds), t) ==> Contains(s, t) && InAny(ds, t)
  {
    if ds != [] {
      MergeSpansIsIntersection(s, ds[0], t);
      FirstMergeWithinIntersection(s, ds[1..], t);
      if Member(FirstMerge(s, ds), t) && MergeSpans(s, ds[0]).None? {
        var i :| 0 <= i < |ds[1..]| && Contains(ds[1..][i], t);
        assert Contains(ds[i + 1], t);
      }
    }
  }

  /** `merge_span_with_disjoint`: a loop that returns at the first non-empty merge. */
  method MergeSpanWithDisjoint(s: Span, ds: seq<Span>) returns (r: VSet)
    ensures r == FirstMerge(s, ds)
  {
    for i := 0 to |ds|
      invariant FirstMerge(s, ds[i..]) == FirstMerge(s, ds)
    {
      assert ds[i..][1..] == ds[i + 1..];
      var m := MergeSpans(s, ds[i]);
      if m.Some? {
        return SpanSet(m.value);
      }
    }
    return Empty;
  }

  /** `VersionSet.__and__`. `Fixed` versions are parsed before a containment
      test, and a parse failure propagates. A span met with a union keeps, as
      written, only the merge with the first overlapping member; corrected,
      it keeps every overlapping member, as two unions do. */
  function Meet(reading: Reading, release: ReleaseParser, a: VSet, b: VSet): (r: Result<VSet, VersionError>)
    ensures a.Empty? ==> r == Ok(Empty)
    ensures b.Empty? ==> r == Ok(Empty)
    ensures r.Err? ==> (a.Fixed? && !b.Empty?) || (b.Fixed? && !a.Empty?)
    ensures r.Err? ==> r.error.InvalidVersion? || r.error.ReleaseArity?
    ensures r.Ok? && ValidSet(a) && ValidSet(b) ==> ValidSet(r.value)
  {
    match (a, b)
    case (Empty, _) => Ok(a)
    case (_, Empty) => Ok(b)
    case (Fixed(x), Fixed(y)) => Ok(if x == y then a else Empty)
    case (Fixed(v), SpanSet(s)) =>
      var t :- ParseBy(reading, release, v);
      Ok(if Contains(s, t) then a else Empty)
    case (SpanSet(s), Fixed(v)) =>
      var t :- ParseBy(reading, release, v);
      Ok(if Contains(s, t) then b else Empty)
    case (Fixed(v), DisjointSet(ds)) =>
      var t :- ParseBy(reading, release, v);
      Ok(if InAny(ds, t) then a else Empty)
    case (DisjointSet(ds), Fixed(v)) =>
      var t :- ParseBy(reading, release, v);
      Ok(if InAny(ds, t) then b else Empty)
    case (SpanSet(x), SpanSet(y)) =>
      Ok(match MergeSpans(x, y) case Some(m) => SpanSet(m) case None => Empty)
    case (SpanSet(s), DisjointSet(ds)) => Ok(MeetSpanUnion(reading, s, ds))
    case (DisjointSet(ds), SpanSet(s)) => Ok(MeetSpanUnion(reading, s, ds))
    case (DisjointSet(xs), DisjointSet(ys)) => Ok(MergeDisjoint(xs, ys))
  }

  /** A span met with a union under a reading. */
  function MeetSpanUnion(reading: Reading, s: Span, ds: seq<Span>): (r: VSet)
    ensures ValidSet(r) && !r.Fixed?
  {
    match reading
    case AsWritten => FirstMerge(s, ds)
    case Corrected => MergeDisjoint([s], ds)
  }

  /** `VersionSet.__and__` as the code runs it, through the two merge loops. */
  method And(release: ReleaseParser, a: VSet, b: VSet) returns (r: Result<VSet, VersionError>)
    ensures r == Meet(AsWritten, release, a, b)
  {
    match (a, b)
    case (Empty, _) => r := Ok(a);
    case (_, Empty) => r := Ok(b);
    case (Fixed(x), Fixed(y)) => r := Ok(if x == y then a else Empty);
    case (Fixed(v), SpanSet(s)) =>
      var t := ParseTripleAsWritten(release, v);
      r := if t.Err? then Err(t.error) else Ok(if Contains(s, t.value) then a else Empty);
    case (SpanSet(s), Fixed(v)) =>
      var t := ParseTripleAsWritten(release, v);
      r := if t.Err? then Err(t.error) else Ok(if Contains(s, t.value) then b else Empty);
    case (Fixed(v), DisjointSet(ds)) =>
      var t := ParseTripleAsWritten(release, v);
      if t.Err? {
        r := Err(t.error);
      } else {
        var found := DisjointContains(ds, t.value);
        r := Ok(if found then a else Empty);
      }
    case (DisjointSet(ds), Fixed(v)) =>
      var t := ParseTripleAsWritten(release, v);
      if t.Err? {
        r := Err(t.error);
      } else {
        var found := DisjointContains(ds, t.value);
        r := Ok(if found then b else Empty);
      }
    case (SpanSet(x), SpanSet(y)) =>
      var m := MergeSpans(x, y);
      r := Ok(if m.Some? then SpanSet(m.value) else Empty);
    case (SpanSet(s), DisjointSet(ds)) =>
      var m := MergeSpanWithDisjoint(s, ds);
      r := Ok(m);
    case (DisjointSet(ds), SpanSet(s)) =>
      var m := MergeSpanWithDisjoint(s, ds);
      r := Ok(m);
    case (DisjointSet(xs), DisjointSet(ys)) =>
      var m := MergeDisjointSpans(xs, ys);
      r := Ok(m);
  }

  /** Two exact versions survive together only when their strings are equal:
      `1.0` and `1.0.0` do not. */
  lemma MeetFixedFixed(reading: Reading, release: ReleaseParser, x: string, y: string)
    ensures Meet(reading, release, Fixed(x), Fixed(y)) == Ok(if x == y then Fixed(x) else Empty)
  {
  }

  /** An exact version against spans is kept exactly when its parsed triple
      lies in them; a version that does not parse raises, and as written every
      `.*` version raises `InvalidVersion('.')`. */
  lemma MeetFixedNumeric(reading: Reading, release: ReleaseParser, v: string, other: VSet)
    requires NumericSet(other) && !other.Empty?
    ensures Meet(reading, release, Fixed(v), other) == Meet(reading, release, other, Fixed(v))
    ensures ParseBy(reading, release, v).Err? ==>
              Meet(reading, release, Fixed(v), other) == Err(ParseBy(reading, release, v).error)
    ensures ParseBy(reading, release, v).Ok? ==>
              Meet(reading, release, Fixed(v), other)
              == Ok(if Member(other, ParseBy(reading, release, v).value) then Fixed(v) else Empty)
    ensures reading == AsWritten && PyText.EndsWith(v, ".*") && release(".") == None ==>
              Meet(reading, release, Fixed(v), other) == Err(InvalidVersion("."))
  {
  }

  /** Corrected, `&` on span-based sets is intersection: it never fails, stays
      span-based, and holds exactly the triples both operands hold. */
  lemma MeetIsIntersection(release: ReleaseParser, a: VSet, b: VSet, t: Triple)
    requires NumericSet(a) && NumericSet(b)
    ensures Meet(Corrected, release, a, b).Ok?
    ensures NumericSet(Meet(Corrected, release, a, b).value)
    ensures Member(Meet(Corrected, release, a, b).value, t) <==> Member(a, t) && Member(b, t)
  {
    match (a, b)
    case (Empty, _) =>
    case (_, Empty) =>
    case (SpanSet(x), SpanSet(y)) =>
      MergeSpansIsIntersection(x, y, t);
    case (SpanSet(s), DisjointSet(ds)) =>
      MergeDisjointIsIntersection([s], ds, t);
      assert InAny([s], t) <==> Contains(s, t) by { assert [s][0] == s; }
    case (DisjointSet(ds), SpanSet(s)) =>
      MergeDisjointIsIntersection([s], ds, t);
      assert InAny([s], t) <==> Contains(s, t) by { assert [s][0] == s; }
    case (DisjointSet(xs), DisjointSet(ys)) =>
      MergeDisjointIsIntersection(xs, ys, t);
  }

  /** As written, `&` on span-based sets never fails and stays span-based, and
      it only ever loses triples: what it keeps is in both operands. It
      differs from the corrected `&` only when a span meets a union. */
  lemma MeetAsWrittenWithin(release: ReleaseParser, a: VSet, b: VSet, t: Triple)
    requires NumericSet(a) && NumericSet(b)
    ensures Meet(AsWritten, release, a, b).Ok?
    ensures NumericSet(Meet(AsWritten, release, a, b).value)
    ensures Member(Meet(AsWritten, release, a, b).value, t) ==> Member(a, t) && Member(b, t)
    ensures !(a.SpanSet? && b.DisjointSet?) && !(a.DisjointSet? && b.SpanSet?) ==>
              Meet(AsWritten, release, a, b) == Meet(Corrected, release, a, b)
  {
    match (a, b)
    case (Empty, _) =>
    case (_, Empty) =>
    case (SpanSet(x), SpanSet(y)) =>
      MergeSpansIsIntersection(x, y, t);
    case (SpanSet(s), DisjointSet(ds)) =>
      FirstMergeWithinIntersection(s, ds, t);
    case (DisjointSet(ds), SpanSet(s)) =>
      FirstMergeWithinIntersection(s, ds, t);
    case (DisjointSet(xs), DisjointSet(ys)) =>
      MergeDisjointIsIntersection(xs, ys, t);
  }

  /** `!=1.0` as the translator builds it: `(-inf, 1.0)` and `[1.1, +inf)`. */
  function ExcludeOnePointO(): VSet {
    DisjointSet([Span(Lower(None), Upper(Some(Triple(1, Some(0), None)))),
                 Span(Lower(Some(Triple(1, Some(1), None))), Upper(None))])
  }

  /** As written, folding `!=1.0` and then `>2` from the unbounded span leaves
      nothing although `3` lies in both; corrected, `3` is kept. */
  lemma FirstMatchLosesVersions(release: ReleaseParser)
    ensures var gt2 := SpanSet(Span(Lower(Some(Triple(3, None, None))), Upper(None)));
            var three := Triple(3, None, None);
            && Member(ExcludeOnePointO(), three) && Member(gt2, three)
            && Meet(AsWritten, release, SpanSet(Unbounded()), ExcludeOnePointO())
               == Ok(SpanSet(Span(Lower(None), Upper(Some(Triple(1, Some(0), None))))))
            && Meet(AsWritten, release, Meet(AsWritten, release, SpanSet(Unbounded()), ExcludeOnePointO()).value, gt2)
               == Ok(Empty)
            && Member(Meet(Corrected, release, Meet(Corrected, release, SpanSet(Unbounded()), ExcludeOnePointO()).value, gt2).value, three)
  {
    FirstMatchKeepsLowPart(release);
    FirstMatchMissesHighPart(release);
    CorrectMeetKeepsThree(release);
  }

  lemma FirstMatchKeepsLowPart(release: ReleaseParser)
    ensures Meet(AsWritten, release, SpanSet(Unbounded()), ExcludeOnePointO())
            == Ok(SpanSet(Span(Lower(None), Upper(Some(Triple(1, Some(0), None))))))
  {
  }

  lemma FirstMatchMissesHighPart(release: ReleaseParser)
    ensures Meet(AsWritten, release, SpanSet(Span(Lower(None), Upper(Some(Triple(1, Some(0), None))))),
                 SpanSet(Span(Lower(Some(Triple(3, None, None))), Upper(None))))
            == Ok(Empty)
  {
  }

  lemma CorrectMeetKeepsThree(release: ReleaseParser)
    ensures var gt2 := SpanSet(Span(Lower(Some(Triple(3, None, None))), Upper(None)));
            var three := Triple(3, None, None);
            && Member(ExcludeOnePointO(), three) && Member(gt2, three)
            && Meet(Corrected, release, SpanSet(Unbounded()), ExcludeOnePointO()).Ok?
            && Member(Meet(Corrected, release, Meet(Corrected, release, SpanSet(Unbounded()), ExcludeOnePointO()).value, gt2).value, three)
  {
    var gt2 := SpanSet(Span(Lower(Some(Triple(3, None, None))), Upper(None)));
    var three := Triple(3, None, None);
    assert Contains(ExcludeOnePointO().spans[1], three);
    var first := Meet(Corrected, release, SpanSet(Unbounded()), ExcludeOnePointO());
    MeetIsIntersection(release, SpanSet(Unbounded()), ExcludeOnePointO(), three);
    MeetIsIntersection(release, first.value, gt2, three);
  }

  /** `VersionOp`: the eight operators of PEP 440. */
  datatype VersionOp = Compatible | Matching | Excluding | Leq | Geq | Lt | Gt | ArbitraryEqual

  function OpText(op: VersionOp): string {
    match op
    case Compatible => "~="
    case Matching => "=="
    case Excluding => "!="
    case Leq => "<="
    case Geq => ">="
    case Lt => "<"
    case Gt => ">"
    case ArbitraryEqual => "==="
  }

  /** `parse_version_op`: a lookup in the operator table; anything else raises. */
  function ParseVersionOp(s: string): (r: Result<VersionOp, VersionError>)
    ensures r.Ok? ==> OpText(r.value) == s
    ensures r.Err? ==> r.error == UnknownOperator(s)
  {
    if s == "~=" then Ok(Compatible)
    else if s == "==" then Ok(Matching)
    else if s == "!=" then Ok(Excluding)
    else if s == "<=" then Ok(Leq)
    else if s == ">=" then Ok(Geq)
    else if s == "<" then Ok(Lt)
    else if s == ">" then Ok(Gt)
    else if s == "===" then Ok(ArbitraryEqual)
    else Err(UnknownOperator(s))
  }

  /** Every operator's text is in the table, so it parses back to itself. */
  lemma ParseVersionOpRoundTrip(op: VersionOp)
    ensures ParseVersionOp(OpText(op)) == Ok(op)
  {
  }

  /** The one-span set a successful `VersionSpan(...)` gives. */
  function AsSpanSet(r: Result<Span, VersionError>): (vs: Result<VSet, VersionError>)
    ensures r.Ok? ==> vs == Ok(SpanSet(r.value))
    ensures r.Err? ==> vs == Err(r.error)
  {
    match r
    case Ok(s) => Ok(SpanSet(s))
    case Err(e) => Err(e)
  }

  /** `version_set`: the set of versions one `op version` clause admits, with
      the version parsed and `~=` bounded under the reading. */
  function VersionSetOf(reading: Reading, release: ReleaseParser, op: VersionOp, version: string): (r: Result<VSet, VersionError>)
    ensures r.Ok? ==> ValidSet(r.value) && !r.value.Empty?
    ensures r.Ok? ==> (r.value.Fixed? <==> op == ArbitraryEqual)
    ensures r.Err? ==> r.error != EmptySpan
  {
    if op == ArbitraryEqual then Ok(Fixed(version))
    else
      var v :- ParseBy(reading, release, version);
      match op
      case Compatible =>
        var upper :- BumpCompatibleBy(reading, v);
        AsSpanSet(MakeSpan(Lower(Some(v)), Upper(Some(upper))))
      case Matching => AsSpanSet(MakeSpan(Lower(Some(v)), Upper(Some(Bump(v)))))
      case Excluding =>
        (match (MakeSpan(Lower(None), Upper(Some(v))), MakeSpan(Lower(Some(Bump(v))), Upper(None)))
         case (Ok(below), Ok(above)) => Ok(DisjointSet([below, above]))
         case (Err(e), _) => Err(e)
         case (_, Err(e)) => Err(e))
      case Leq => AsSpanSet(MakeSpan(Lower(None), Upper(Some(Bump(v)))))
      case Geq => AsSpanSet(MakeSpan(Lower(Some(v)), Upper(None)))
      case Lt => AsSpanSet(MakeSpan(Lower(None), Upper(Some(v))))
      case Gt => AsSpanSet(MakeSpan(Lower(Some(Bump(v))), Upper(None)))
  }

  /** A clause fails to translate only when its version does not parse, or
      when `~=` is given a major-only version; as written, every `.*`
      version fails with `InvalidVersion('.')`. */
  lemma VersionSetErrors(reading: Reading, release: ReleaseParser, op: VersionOp, version: string)
    ensures VersionSetOf(reading, release, op, version).Err? <==>
              op != ArbitraryEqual
              && (ParseBy(reading, release, version).Err?
                  || (op == Compatible && ParseBy(reading, release, version).value.minor.None?))
    ensures reading == AsWritten && op != ArbitraryEqual && PyText.EndsWith(version, ".*") && release(".") == None ==>
              VersionSetOf(reading, release, op, version) == Err(InvalidVersion("."))
  {
  }

  /** What each operator means for a triple `t`, given the clause's parsed
      version `v`: the prefix reading the translator gives `==`, `!=`, `<=`
      and `>`, and the PEP 440 reading of `~=`. */
  predicate Admits(op: VersionOp, v: Triple, t: Triple)
    requires v.minor.Some? || op != Compatible
  {
    match op
    case Compatible => Compare(t, v) >= 0 && MatchesPrefix(t, CompatiblePrefix(v))
    case Matching => MatchesPrefix(t, v)
    case Excluding => !MatchesPrefix(t, v)
    case Leq => Compare(t, v) <= 0 || MatchesPrefix(t, v)
    case Geq => Compare(t, v) >= 0
    case Lt => Compare(t, v) < 0
    case Gt => Compare(t, v) > 0 && !MatchesPrefix(t, v)
    case ArbitraryEqual => false
  }

  /** Each translated clause holds exactly the triples its operator admits,
      under either reading for every operator but `~=`, and for `~=` under
      the corrected one. */
  lemma VersionSetMeaning(reading: Reading, release: ReleaseParser, op: VersionOp, version: string, t: Triple)
    requires op != ArbitraryEqual && VersionSetOf(reading, release, op, version).Ok?
    requires reading == Corrected || op != Compatible
    ensures var v := ParseBy(reading, release, version).value;
            (v.minor.Some? || op != Compatible)
            && (Member(VersionSetOf(reading, release, op, version).value, t) <==> Admits(op, v, t))
  {
    var v := ParseBy(reading, release, version).value;
    var vs := VersionSetOf(reading, release, op, version).value;
    BumpSpanIsPrefix(v, t);
    match op
    case Compatible =>
      var p := CompatiblePrefix(v);
      BumpSpanIsPrefix(p, t);
      CompareTransitive(t, v, Bump(p));
      CompareTransitive(p, v, t);
      assert Compare(p, v) <= 0;
    case Excluding =>
      assert Member(vs, t) <==> Contains(vs.spans[0], t) || Contains(vs.spans[1], t);
    case _ =>
  }

  /** As written, `~=` admits every triple PEP 440 admits, and more: the
      span runs up to `bump_compatible` of the version. */
  lemma CompatibleAsWrittenWider(release: ReleaseParser, version: string, t: Triple)
    requires VersionSetOf(AsWritten, release, Compatible, version).Ok?
    ensures var v := ParseBy(AsWritten, release, version).value;
            && v.minor.Some?
            && (Member(VersionSetOf(AsWritten, release, Compatible, version).value, t)
                <==> Compare(t, v) >= 0 && Compare(t, BumpCompatible(v).value) < 0)
            && (Admits(Compatible, v, t) ==> Member(VersionSetOf(AsWritten, release, Compatible, version).value, t))
  {
  }

  /** `==` pins the version's prefix: the span holds the version and not its bump. */
  lemma MatchingHoldsVersionNotBump(reading: Reading, release: ReleaseParser, version: string)
    requires VersionSetOf(reading, release, Matching, version).Ok?
    ensures var v := ParseBy(reading, release, version).value;
            Member(VersionSetOf(reading, release, Matching, version).value, v)
            && !Member(VersionSetOf(reading, release, Matching, version).value, Bump(v))
  {
    var v := ParseBy(reading, release, version).value;
    VersionSetMeaning(reading, release, Matching, version, v);
    VersionSetMeaning(reading, release, Matching, version, Bump(v));
  }

  /** The compatible-release span of the code (`bump_compatible` as written)
      admits `2.0` for `~=1.4` and `1.5.0` for `~=1.4.2`, neither of which
      PEP 440 admits; the corrected upper end excludes both. */
  lemma CompatibleAsWrittenOvershoots()
    ensures var v := Triple(1, Some(4), None);
            var t := Triple(2, Some(0), None);
            && BumpCompatible(v) == Ok(Triple(2, Some(4), None))
            && Contains(Span(Lower(Some(v)), Upper(Some(BumpCompatible(v).value))), t)
            && !Admits(Compatible, v, t)
            && !Contains(Span(Lower(Some(v)), Upper(Some(BumpCompatiblePep440(v).value))), t)
    ensures var v := Triple(1, Some(4), Some(2));
            var t := Triple(1, Some(5), Some(0));
            && BumpCompatible(v) == Ok(Triple(1, Some(5), Some(2)))
            && Contains(Span(Lower(Some(v)), Upper(Some(BumpCompatible(v).value))), t)
            && !Admits(Compatible, v, t)
            && !Contains(Span(Lower(Some(v)), Upper(Some(BumpCompatiblePep440(v).value))), t)
  {
  }
}
