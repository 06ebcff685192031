/** `is_consistent` and `check_validity` of check_version_validity.py: the
    clauses of each distribution are intersected from the unbounded span, and
    the distributions whose intersection is empty are reported together. */
module Consistency {
  import opened Wrappers
  import opened Triples
  import opened Spans
  import opened VersionSets

  /** One `Specifier`: its operator text and version text. */
  datatype Clause = Clause(op: string, version: string)

  /** A parsed `Requirement`: the distribution name and its specifiers. */
  datatype Requirement = Requirement(name: string, clauses: seq<Clause>)

  /** The set one specifier admits: its operator parsed, then `version_set`. */
  function ClauseSet(reading: Reading, release: ReleaseParser, c: Clause): Result<VSet, VersionError> {
    var op :- ParseVersionOp(c.op);
    VersionSetOf(reading, release, op, c.version)
  }

  /** The running intersection `is_consistent` folds, clause by clause from
      the unbounded span; the first failing clause's exception ends it. */
  function Joint(reading: Reading, release: ReleaseParser, clauses: seq<Clause>): (r: Result<VSet, VersionError>)
    ensures r.Ok? ==> ValidSet(r.value)
    ensures r.Err? ==> r.error != EmptySpan
  {
    if clauses == [] then Ok(SpanSet(Unbounded()))
    else
      var acc :- Joint(reading, release, clauses[..|clauses| - 1]);
      var vs :- ClauseSet(reading, release, clauses[|clauses| - 1]);
      Meet(reading, release, acc, vs)
  }

  /** `is_consistent`: whether the intersection is non-empty. */
  function Consistent(reading: Reading, release: ReleaseParser, clauses: seq<Clause>): Result<bool, VersionError> {
    var j :- Joint(reading, release, clauses);
    Ok(!j.Empty?)
  }

  /** Once a prefix of the clauses raises, the whole fold raises the same exception. */
  lemma {:induction false} JointErrPersists(reading: Reading, release: ReleaseParser, clauses: seq<Clause>, i: nat)
    requires i <= |clauses| && Joint(reading, release, clauses[..i]).Err?
    ensures Joint(reading, release, clauses) == Joint(reading, release, clauses[..i])
    decreases |clauses| - i
  {
    if i < |clauses| {
      assert clauses[..i + 1][..i] == clauses[..i];
      JointErrPersists(reading, release, clauses, i + 1);
    } else {
      assert clauses[..i] == clauses;
    }
  }

  /** `is_consistent`: a loop that meets the running set with each clause's set. */
  method IsConsistent(release: ReleaseParser, clauses: seq<Clause>) returns (r: Result<bool, VersionError>)
    ensures r == Consistent(AsWritten, release, clauses)
  {
    var joint := SpanSet(Unbounded());
    for i := 0 to |clauses|
      invariant Joint(AsWritten, release, clauses[..i]) == Ok(joint)
    {
      assert clauses[..i + 1][..i] == clauses[..i];
      var op := ParseVersionOp(clauses[i].op);
      if op.Err? {
        JointErrPersists(AsWritten, release, clauses, i + 1);
        return Err(op.error);
      }
      var vs := VersionSetOf(AsWritten, release, op.value, clauses[i].version);
      if vs.Err? {
        JointErrPersists(AsWritten, release, clauses, i + 1);
        return Err(vs.error);
      }
      var next := And(release, joint, vs.value);
      if next.Err? {
        JointErrPersists(AsWritten, release, clauses, i + 1);
        return Err(next.error);
      }
      joint := next.value;
    }
    assert clauses[..|clauses|] == clauses;
    return Ok(!joint.Empty?);
  }

  /** No clause uses `===`, whose sets are matched by string. */
  predicate NoArbitraryEqual(clauses: seq<Clause>) {
    forall i :: 0 <= i < |clauses| ==> clauses[i].op != "==="
  }

  /** Every clause translates, and its set holds `t`. */
  predicate AllAdmit(reading: Reading, release: ReleaseParser, clauses: seq<Clause>, t: Triple) {
    forall i :: 0 <= i < |clauses| ==>
      ClauseSet(reading, release, clauses[i]).Ok? && Member(ClauseSet(reading, release, clauses[i]).value, t)
  }

  /** A clause other than `===` that translates gives a span-based set. */
  lemma ClauseSetNumeric(reading: Reading, release: ReleaseParser, c: Clause)
    requires c.op != "===" && ClauseSet(reading, release, c).Ok?
    ensures NumericSet(ClauseSet(reading, release, c).value)
  {
    var op := ParseVersionOp(c.op).value;
    assert OpText(op) == c.op;
  }

  lemma AllAdmitSnoc(reading: Reading, release: ReleaseParser, clauses: seq<Clause>, t: Triple)
    requires clauses != []
    ensures var init, last := clauses[..|clauses| - 1], clauses[|clauses| - 1];
            AllAdmit(reading, release, clauses, t)
            <==> AllAdmit(reading, release, init, t)
                 && ClauseSet(reading, release, last).Ok? && Member(ClauseSet(reading, release, last).value, t)
  {
    var init := clauses[..|clauses| - 1];
    assert forall i :: 0 <= i < |init| ==> init[i] == clauses[i];
  }

  /** Corrected and without `===`, the fold is the intersection of the
      clauses' sets: it holds exactly the triples every clause admits. */
  lemma {:induction false} JointIsIntersection(release: ReleaseParser, clauses: seq<Clause>, t: Triple)
    requires NoArbitraryEqual(clauses)
    requires Joint(Corrected, release, clauses).Ok?
    ensures NumericSet(Joint(Corrected, release, clauses).value)
    ensures Member(Joint(Corrected, release, clauses).value, t) <==> AllAdmit(Corrected, release, clauses, t)
  {
    if clauses != [] {
      var init, last := clauses[..|clauses| - 1], clauses[|clauses| - 1];
      assert forall i :: 0 <= i < |init| ==> init[i] == clauses[i];
      JointIsIntersection(release, init, t);
      ClauseSetNumeric(Corrected, release, last);
      MeetIsIntersection(release, Joint(Corrected, release, init).value, ClauseSet(Corrected, release, last).value, t);
      AllAdmitSnoc(Corrected, release, clauses, t);
    }
  }

  /** As written and without `===`, the fold stays span-based and keeps only
      triples that every clause admits (it may lose some). */
  lemma {:induction false} JointWithinIntersection(release: ReleaseParser, clauses: seq<Clause>, t: Triple)
    requires NoArbitraryEqual(clauses)
    requires Joint(AsWritten, release, clauses).Ok?
    ensures NumericSet(Joint(AsWritten, release, clauses).value)
    ensures Member(Joint(AsWritten, release, clauses).value, t) ==> AllAdmit(AsWritten, release, clauses, t)
  {
    if clauses != [] {
      var init, last := clauses[..|clauses| - 1], clauses[|clauses| - 1];
      assert forall i :: 0 <= i < |init| ==> init[i] == clauses[i];
      JointWithinIntersection(release, init, t);
      ClauseSetNumeric(AsWritten, release, last);
      MeetAsWrittenWithin(release, Joint(AsWritten, release, init).value, ClauseSet(AsWritten, release, last).value, t);
      AllAdmitSnoc(AsWritten, release, clauses, t);
    }
  }

  /** A span that no triple lies in: unbounded below and ending at zero. */
  predicate BelowZero(s: Span) {
    s.lower.version.None? && s.upper.version.Some? && Key(s.upper.version.value) == (0, 0, 0)
  }

  /** A non-empty span-based set all of whose spans are below zero. */
  predicate OnlyBelowZero(vs: VSet) {
    match vs
    case SpanSet(s) => BelowZero(s)
    case DisjointSet(ss) => forall i :: 0 <= i < |ss| ==> BelowZero(ss[i])
    case _ => false
  }

  /** A non-empty span-based set holds a triple unless its spans all lie below zero. */
  lemma NonEmptyInhabited(vs: VSet)
    requires NumericSet(vs) && !vs.Empty? && !OnlyBelowZero(vs)
    ensures exists t :: Member(vs, t)
  {
    match vs
    case SpanSet(s) =>
      SpanInhabited(s);
      var t :| Contains(s, t);
      assert Member(vs, t);
    case DisjointSet(ss) =>
      var i :| 0 <= i < |ss| && !BelowZero(ss[i]);
      SpanInhabited(ss[i]);
      var t :| Contains(ss[i], t);
      assert Member(vs, t);
  }

  /** As written, a consistent verdict for clauses without `===` is sound:
      some triple satisfies every clause, unless what is left lies below zero. */
  lemma ConsistentHasWitness(release: ReleaseParser, clauses: seq<Clause>)
    requires NoArbitraryEqual(clauses)
    requires Consistent(AsWritten, release, clauses) == Ok(true)
    ensures (exists t :: AllAdmit(AsWritten, release, clauses, t))
            || OnlyBelowZero(Joint(AsWritten, release, clauses).value)
  {
    var j := Joint(AsWritten, release, clauses).value;
    JointWithinIntersection(release, clauses, Triple(0, None, None));
    if !OnlyBelowZero(j) {
      NonEmptyInhabited(j);
      var t :| Member(j, t);
      JointWithinIntersection(release, clauses, t);
    }
  }

  /** Corrected, a reported conflict is real: when the fold answers no for
      clauses without `===`, no triple satisfies all of them. */
  lemma InconsistentMeansUnsatisfiable(release: ReleaseParser, clauses: seq<Clause>, t: Triple)
    requires NoArbitraryEqual(clauses)
    requires Consistent(Corrected, release, clauses) == Ok(false)
    ensures !AllAdmit(Corrected, release, clauses, t)
  {
    JointIsIntersection(release, clauses, t);
  }

  /** Corrected, a triple every clause admits makes the fold answer yes. */
  lemma WitnessMeansConsistent(release: ReleaseParser, clauses: seq<Clause>, t: Triple)
    requires NoArbitraryEqual(clauses)
    requires Joint(Corrected, release, clauses).Ok?
    requires AllAdmit(Corrected, release, clauses, t)
    ensures Consistent(Corrected, release, clauses) == Ok(true)
  {
    JointIsIntersection(release, clauses, t);
  }

  /** Under either reading, `<0` gives the span `(-inf, 0)`, which the
      cross-kind comparison accepts as non-empty although no triple is below `0`. */
  lemma BelowZeroCountsAsConsistent(reading: Reading, release: ReleaseParser, t: Triple)
    requires release("0") == Some([0])
    ensures Consistent(reading, release, [Clause("<", "0")]) == Ok(true)
    ensures !AllAdmit(reading, release, [Clause("<", "0")], t)
  {
    var c := Clause("<", "0");
    assert !PyText.EndsWith("0", ".*");
    assert ParseBy(reading, release, "0") == Ok(Triple(0, None, None));
    assert [c][..0] == [];
    assert ClauseSet(reading, release, c) == Ok(SpanSet(Span(Lower(None), Upper(Some(Triple(0, None, None))))));
  }

  /** The distribution names of `reqs`, in the order `check_validity`'s
      dictionary first sees them. */
  function Names(reqs: seq<Requirement>): seq<string> {
    if reqs == [] then [] else AddName(Names(reqs[..|reqs| - 1]), reqs[|reqs| - 1].name)
  }

  /** The key order after storing under `name`: appended when first seen. */
  function AddName(names: seq<string>, name: string): seq<string> {
    if name in names then names else names + [name]
  }

  /** The grouped names are exactly the names the requirements carry. */
  lemma {:induction false} NamesMembers(reqs: seq<Requirement>, n: string)
    ensures n in Names(reqs) <==> exists i :: 0 <= i < |reqs| && reqs[i].name == n
  {
    if reqs != [] {
      var init := reqs[..|reqs| - 1];
      NamesMembers(init, n);
      assert forall i :: 0 <= i < |init| ==> init[i] == reqs[i];
    }
  }

  /** The specifiers the dictionary accumulates for `name`, requirement by requirement. */
  function ClausesOf(reqs: seq<Requirement>, name: string): seq<Clause> {
    if reqs == [] then [] else ClausesOf(reqs[..|reqs| - 1], name) + Own(reqs[|reqs| - 1], name)
  }

  /** What one requirement adds to the specifiers stored under `name`. */
  function Own(r: Requirement, name: string): seq<Clause> {
    if r.name == name then r.clauses else []
  }

  /** A consistency test for a list of specifiers: `is_consistent` is one. */
  type Checker = seq<Clause> -> Result<bool, VersionError>

  /** `is_consistent` as the test `check_validity` applies. */
  function ConsistencyOf(reading: Reading, release: ReleaseParser): Checker {
    clauses => Consistent(reading, release, clauses)
  }

  /** The names among `names` whose accumulated specifiers are inconsistent, in
      order; the first exception raised while checking ends the scan. */
  function Broken(check: Checker, reqs: seq<Requirement>, names: seq<string>): (r: Result<seq<string>, VersionError>)
    ensures r.Ok? ==> |r.value| <= |names| && forall i :: 0 <= i < |r.value| ==> r.value[i] in names
  {
    if names == [] then Ok([])
    else
      var prev :- Broken(check, reqs, names[..|names| - 1]);
      var ok :- check(ClausesOf(reqs, names[|names| - 1]));
      Ok(if ok then prev else prev + [names[|names| - 1]])
  }

  /** How `check_validity` ends: normally, with the exception listing every
      inconsistent distribution, or with an exception from a specifier. */
  datatype Verdict = Valid | Inconsistent(names: seq<string>) | BadSpecifier(error: VersionError)

  function Validity(reading: Reading, release: ReleaseParser, reqs: seq<Requirement>): (v: Verdict)
    ensures v.Inconsistent? ==> |v.names| > 0 && forall i :: 0 <= i < |v.names| ==> v.names[i] in Names(reqs)
  {
    match Broken(ConsistencyOf(reading, release), reqs, Names(reqs))
    case Err(e) => BadSpecifier(e)
    case Ok(b) => if |b| > 0 then Inconsistent(b) else Valid
  }

  /** The broken list names exactly the scanned distributions that are inconsistent. */
  lemma {:induction false} BrokenExactly(check: Checker, reqs: seq<Requirement>, names: seq<string>, n: string)
    requires Broken(check, reqs, names).Ok?
    ensures n in Broken(check, reqs, names).value <==>
              n in names && check(ClausesOf(reqs, n)) == Ok(false)
  {
    if names != [] {
      var init, last := names[..|names| - 1], names[|names| - 1];
      assert names == init + [last];
      AppendName(check, reqs, init, last);
      BrokenExactly(check, reqs, init, n);
      var prev := Broken(check, reqs, init).value;
      assert n in Broken(check, reqs, names).value <==> n in prev || (n == last && check(ClausesOf(reqs, last)) == Ok(false));
      if n in names && n != last {
        assert n in init;
      }
    }
  }

  /** A scan that completes has checked every name without an exception. */
  lemma {:induction false} BrokenScansAll(check: Checker, reqs: seq<Requirement>, names: seq<string>, n: string)
    requires Broken(check, reqs, names).Ok? && n in names
    ensures check(ClausesOf(reqs, n)).Ok?
  {
    var init, last := names[..|names| - 1], names[|names| - 1];
    assert names == init + [last];
    if n != last {
      BrokenScansAll(check, reqs, init, n);
    }
  }

  /** Corrected, a reported distribution really has unsatisfiable
      constraints when none of its specifiers uses `===`. */
  lemma ReportedNamesAreUnsatisfiable(release: ReleaseParser, reqs: seq<Requirement>, n: string, t: Triple)
    requires Validity(Corrected, release, reqs).Inconsistent?
    requires n in Validity(Corrected, release, reqs).names
    requires NoArbitraryEqual(ClausesOf(reqs, n))
    ensures !AllAdmit(Corrected, release, ClausesOf(reqs, n), t)
  {
    BrokenExactly(ConsistencyOf(Corrected, release), reqs, Names(reqs), n);
    InconsistentMeansUnsatisfiable(release, ClausesOf(reqs, n), t);
  }

  /** As written, a distribution the check does not report has satisfiable
      constraints when none of its specifiers uses `===`, unless what is
      left of them lies below zero. */
  lemma UnreportedNamesAreSatisfiable(release: ReleaseParser, reqs: seq<Requirement>, n: string)
    requires Broken(ConsistencyOf(AsWritten, release), reqs, Names(reqs)).Ok?
    requires n in Names(reqs) && n !in Broken(ConsistencyOf(AsWritten, release), reqs, Names(reqs)).value
    requires NoArbitraryEqual(ClausesOf(reqs, n))
    ensures Joint(AsWritten, release, ClausesOf(reqs, n)).Ok?
    ensures (exists t :: AllAdmit(AsWritten, release, ClausesOf(reqs, n), t))
            || OnlyBelowZero(Joint(AsWritten, release, ClausesOf(reqs, n)).value)
  {
    BrokenExactly(ConsistencyOf(AsWritten, release), reqs, Names(reqs), n);
    BrokenScansAll(ConsistencyOf(AsWritten, release), reqs, Names(reqs), n);
    ConsistentHasWitness(release, ClausesOf(reqs, n));
  }

  /** The check passes exactly when it raises nothing and every distribution's
      specifiers are consistent. */
  lemma ValidIffAllConsistent(reading: Reading, release: ReleaseParser, reqs: seq<Requirement>)
    requires Broken(ConsistencyOf(reading, release), reqs, Names(reqs)).Ok?
    ensures Validity(reading, release, reqs) == Valid <==>
              forall n :: n in Names(reqs) ==> Consistent(reading, release, ClausesOf(reqs, n)) == Ok(true)
  {
    var names := Names(reqs);
    var b := Broken(ConsistencyOf(reading, release), reqs, names).value;
    if |b| > 0 {
      BrokenExactly(ConsistencyOf(reading, release), reqs, names, b[0]);
    } else {
      forall n | n in names
        ensures Consistent(reading, release, ClausesOf(reqs, n)) == Ok(true)
      {
        BrokenExactly(ConsistencyOf(reading, release), reqs, names, n);
        BrokenScansAll(ConsistencyOf(reading, release), reqs, names, n);
      }
    }
  }

  lemma {:induction false} BrokenErrPersists(check: Checker, reqs: seq<Requirement>, names: seq<string>, k: nat)
    requires k <= |names| && Broken(check, reqs, names[..k]).Err?
    ensures Broken(check, reqs, names) == Broken(check, reqs, names[..k])
    decreases |names| - k
  {
    if k < |names| {
      assert names[..k + 1][..k] == names[..k];
      BrokenErrPersists(check, reqs, names, k + 1);
    } else {
      assert names[..k] == names;
    }
  }

  /** One more name scanned: the scan extends by that name's test result. */
  lemma BrokenStep(check: Checker, reqs: seq<Requirement>, names: seq<string>, k: nat,
                   broken: seq<string>, ok: Result<bool, VersionError>)
    requires k < |names| && Broken(check, reqs, names[..k]) == Ok(broken)
    requires check(ClausesOf(reqs, names[k])) == ok
    ensures Broken(check, reqs, names[..k + 1])
            == if ok.Err? then Err(ok.error) else Ok(if ok.value then broken else broken + [names[k]])
  {
    assert names[..k + 1][..k] == names[..k];
  }

  lemma GroupSnoc(reqs: seq<Requirement>, i: nat)
    requires i < |reqs|
    ensures Names(reqs[..i + 1]) == AddName(Names(reqs[..i]), reqs[i].name)
    ensures forall n :: ClausesOf(reqs[..i + 1], n) == ClausesOf(reqs[..i], n) + Own(reqs[i], n)
  {
    assert reqs[..i + 1][..i] == reqs[..i];
  }

  /** The dictionary loop of `check_validity`: each requirement's specifiers are
      added to those already stored under its name, and a name is appended to
      the key order when first seen. */
  method GroupByName(reqs: seq<Requirement>) returns (specs: map<string, seq<Clause>>, names: seq<string>)
    ensures names == Names(reqs)
    ensures forall n :: n in specs <==> n in names
    ensures forall n :: n in specs ==> specs[n] == ClausesOf(reqs, n)
  {
    specs := map[];
    names := [];
    for i := 0 to |reqs|
      invariant names == Names(reqs[..i])
      invariant forall n :: n in specs <==> n in names
      invariant forall n :: n in specs ==> specs[n] == ClausesOf(reqs[..i], n)
      invariant forall n :: n !in specs ==> ClausesOf(reqs[..i], n) == []
    {
      GroupSnoc(reqs, i);
      var name := reqs[i].name;
      var prev := if name in specs then specs[name] else [];
      if name !in specs {
        names := names + [name];
      }
      specs := specs[name := prev + reqs[i].clauses];
    }
    assert reqs[..|reqs|] == reqs;
  }

  /** The second loop of `check_validity`: the names whose specifiers are
      inconsistent, in order; an exception from a specifier ends it. */
  method ScanBroken(release: ReleaseParser, reqs: seq<Requirement>, specs: map<string, seq<Clause>>, names: seq<string>)
    returns (r: Result<seq<string>, VersionError>)
    requires forall n :: n in names ==> n in specs && specs[n] == ClausesOf(reqs, n)
    ensures r == Broken(ConsistencyOf(AsWritten, release), reqs, names)
  {
    var broken: seq<string> := [];
    for k := 0 to |names|
      invariant Broken(ConsistencyOf(AsWritten, release), reqs, names[..k]) == Ok(broken)
    {
      assert names[k] in names;
      var ok := IsConsistent(release, specs[names[k]]);
      BrokenStep(ConsistencyOf(AsWritten, release), reqs, names, k, broken, ok);
      if ok.Err? {
        BrokenErrPersists(ConsistencyOf(AsWritten, release), reqs, names, k + 1);
        return Err(ok.error);
      }
      if !ok.value {
        broken := broken + [names[k]];
      }
    }
    assert names[..|names|] == names;
    return Ok(broken);
  }

  /** `check_validity`: the specifiers grouped by name, then the scan; the
      exception names every inconsistent distribution. */
  method CheckValidity(release: ReleaseParser, reqs: seq<Requirement>) returns (v: Verdict)
    ensures v == Validity(AsWritten, release, reqs)
  {
    var specs, names := GroupByName(reqs);
    var scan := ScanBroken(release, reqs, specs, names);
    match scan
    case Err(e) => v := BadSpecifier(e);
    case Ok(broken) => v := if |broken| > 0 then Inconsistent(broken) else Valid;
  }

  /** The key order of a four-requirement list. */
  lemma NamesFour(reqs: seq<Requirement>)
    requires |reqs| == 4
    ensures Names(reqs) == AddName(AddName(AddName([reqs[0].name], reqs[1].name), reqs[2].name), reqs[3].name)
  {
    assert reqs[..3][..2] == reqs[..2] && reqs[..2][..1] == reqs[..1] && reqs[..1][..0] == [];
    assert Names(reqs[..1]) == [reqs[0].name];
    assert Names(reqs[..2]) == AddName(Names(reqs[..1]), reqs[1].name);
    assert Names(reqs[..3]) == AddName(Names(reqs[..2]), reqs[2].name);
  }

  /** The specifiers a four-requirement list stores under `n`. */
  lemma ClausesFour(reqs: seq<Requirement>, n: string)
    requires |reqs| == 4
    ensures ClausesOf(reqs, n) == Own(reqs[0], n) + Own(reqs[1], n) + Own(reqs[2], n) + Own(reqs[3], n)
  {
    assert reqs[..3][..2] == reqs[..2] && reqs[..2][..1] == reqs[..1] && reqs[..1][..0] == [];
    assert ClausesOf(reqs[..1], n) == Own(reqs[0], n);
    assert ClausesOf(reqs[..2], n) == ClausesOf(reqs[..1], n) + Own(reqs[1], n);
    assert ClausesOf(reqs[..3], n) == ClausesOf(reqs[..2], n) + Own(reqs[2], n);
  }

  lemma AppendClause(reading: Reading, release: ReleaseParser, clauses: seq<Clause>, c: Clause)
    ensures Joint(reading, release, clauses + [c])
            == (var acc :- Joint(reading, release, clauses); var vs :- ClauseSet(reading, release, c); Meet(reading, release, acc, vs))
  {
    assert (clauses + [c])[..|clauses|] == clauses;
  }

  lemma AppendName(check: Checker, reqs: seq<Requirement>, names: seq<string>, n: string)
    ensures Broken(check, reqs, names + [n])
            == (var prev :- Broken(check, reqs, names);
                var ok :- check(ClausesOf(reqs, n));
                Ok(if ok then prev else prev + [n]))
  {
    assert (names + [n])[..|names|] == names;
  }

  /** The release numbers `packaging` reads from the version strings of the
      script's own example lists. */
  predicate ExampleReleases(release: ReleaseParser) {
    && release("2.28.0") == Some([2, 28, 0])
    && release("1.0") == Some([1, 0])
    && release("2.10") == Some([2, 10])
    && release("1.0.post1") == Some([1, 0])
    && release("1.1.1") == Some([1, 1, 1])
  }

  /** The list the script expects to pass: `requests>2.28.0`, `numpy>1.0`, `scipy>1.0`, `pandas`. */
  function ValidExample(): seq<Requirement> {
    [Requirement("requests", [Clause(">", "2.28.0")]),
     Requirement("numpy", [Clause(">", "1.0")]),
     Requirement("scipy", [Clause(">", "1.0")]),
     Requirement("pandas", [])]
  }

  /** The list the script expects to raise: `requests>2.28.0`, `requests<2.10`,
      `numpy==1.0.post1`, `numpy==1.1.1`. */
  function InvalidExample(): seq<Requirement> {
    [Requirement("requests", [Clause(">", "2.28.0")]),
     Requirement("requests", [Clause("<", "2.10")]),
     Requirement("numpy", [Clause("==", "1.0.post1")]),
     Requirement("numpy", [Clause("==", "1.1.1")])]
  }

  lemma ValidExampleNames()
    ensures Names(ValidExample()) == ["requests", "numpy", "scipy", "pandas"]
  {
    var rs := ValidExample();
    NamesFour(rs);
    assert AddName(["requests"], "numpy") == ["requests", "numpy"];
    assert AddName(["requests", "numpy"], "scipy") == ["requests", "numpy", "scipy"];
    assert AddName(["requests", "numpy", "scipy"], "pandas") == ["requests", "numpy", "scipy", "pandas"];
  }

  lemma ValidExampleGrouping()
    ensures Names(ValidExample()) == ["requests", "numpy", "scipy", "pandas"]
    ensures ClausesOf(ValidExample(), "requests") == [Clause(">", "2.28.0")]
    ensures ClausesOf(ValidExample(), "numpy") == [Clause(">", "1.0")]
    ensures ClausesOf(ValidExample(), "scipy") == [Clause(">", "1.0")]
    ensures ClausesOf(ValidExample(), "pandas") == []
  {
    var rs := ValidExample();
    ValidExampleNames();
    ClausesFour(rs, "requests");
    ClausesFour(rs, "numpy");
    ClausesFour(rs, "scipy");
    ClausesFour(rs, "pandas");
  }

  lemma InvalidExampleGrouping()
    ensures Names(InvalidExample()) == ["requests", "numpy"]
    ensures ClausesOf(InvalidExample(), "requests") == [Clause(">", "2.28.0"), Clause("<", "2.10")]
    ensures ClausesOf(InvalidExample(), "numpy") == [Clause("==", "1.0.post1"), Clause("==", "1.1.1")]
  {
    var rs := InvalidExample();
    NamesFour(rs);
    ClausesFour(rs, "requests");
    ClausesFour(rs, "numpy");
  }

  /** The script's passing list passes. */
  lemma ExampleValidList(reading: Reading, release: ReleaseParser)
    requires ExampleReleases(release)
    ensures Validity(reading, release, ValidExample()) == Valid
  {
    ValidExampleGrouping();
    ValidExampleConsistent(reading, release);
    ValidIffAllConsistentOk(reading, release, ValidExample());
  }

  /** Each distribution of the passing list has consistent specifiers. */
  lemma ValidExampleConsistent(reading: Reading, release: ReleaseParser)
    requires ExampleReleases(release)
    ensures Consistent(reading, release, [Clause(">", "2.28.0")]) == Ok(true)
    ensures Consistent(reading, release, [Clause(">", "1.0")]) == Ok(true)
    ensures Consistent(reading, release, []) == Ok(true)
  {
    assert !PyText.EndsWith("2.28.0", ".*") && !PyText.EndsWith("1.0", ".*");
    OneGreaterClause(reading, release, "2.28.0", Triple(2, Some(28), Some(0)));
    OneGreaterClause(reading, release, "1.0", Triple(1, Some(0), None));
  }

  /** A lone `>` clause on a parsable version is consistent. */
  lemma OneGreaterClause(reading: Reading, release: ReleaseParser, version: string, v: Triple)
    requires ParseBy(reading, release, version) == Ok(v)
    ensures Consistent(reading, release, [Clause(">", version)]) == Ok(true)
  {
    AppendClause(reading, release, [], Clause(">", version));
    assert [] + [Clause(">", version)] == [Clause(">", version)];
  }

  /** A check that raises nothing and finds every distribution consistent passes. */
  lemma ValidIffAllConsistentOk(reading: Reading, release: ReleaseParser, reqs: seq<Requirement>)
    requires forall n :: n in Names(reqs) ==> Consistent(reading, release, ClausesOf(reqs, n)) == Ok(true)
    ensures Validity(reading, release, reqs) == Valid
  {
    AllConsistentNoneBroken(ConsistencyOf(reading, release), reqs, Names(reqs));
  }

  lemma {:induction false} AllConsistentNoneBroken(check: Checker, reqs: seq<Requirement>, names: seq<string>)
    requires forall n :: n in names ==> check(ClausesOf(reqs, n)) == Ok(true)
    ensures Broken(check, reqs, names) == Ok([])
  {
    if names != [] {
      var init := names[..|names| - 1];
      assert forall n :: n in init ==> n in names;
      AllConsistentNoneBroken(check, reqs, init);
    }
  }

  /** The script's failing list raises, naming both distributions: `2.10`
      is below `2.28.1`, and `1.1.1` is outside `[1.0, 1.1)` once the
      post-release is dropped. */
  lemma ExampleInvalidList(reading: Reading, release: ReleaseParser)
    requires ExampleReleases(release)
    ensures Validity(reading, release, InvalidExample()) == Inconsistent(["requests", "numpy"])
  {
    var check := ConsistencyOf(reading, release);
    InvalidExampleGrouping();
    InvalidExampleConflicts(reading, release);
    assert check(ClausesOf(InvalidExample(), "requests")) == Ok(false);
    assert check(ClausesOf(InvalidExample(), "numpy")) == Ok(false);
    BothBroken(check, InvalidExample(), "requests", "numpy");
  }

  /** Two scanned distributions that are both inconsistent are both reported, in order. */
  lemma BothBroken(check: Checker, reqs: seq<Requirement>, a: string, b: string)
    requires check(ClausesOf(reqs, a)) == Ok(false) && check(ClausesOf(reqs, b)) == Ok(false)
    ensures Broken(check, reqs, [a, b]) == Ok([a, b])
  {
    AppendName(check, reqs, [], a);
    assert [] + [a] == [a];
    AppendName(check, reqs, [a], b);
    assert [a] + [b] == [a, b];
  }

  lemma InvalidExampleConflicts(reading: Reading, release: ReleaseParser)
    requires ExampleReleases(release)
    ensures Consistent(reading, release, [Clause(">", "2.28.0"), Clause("<", "2.10")]) == Ok(false)
    ensures Consistent(reading, release, [Clause("==", "1.0.post1"), Clause("==", "1.1.1")]) == Ok(false)
  {
    var rq := [Clause(">", "2.28.0"), Clause("<", "2.10")];
    var np := [Clause("==", "1.0.post1"), Clause("==", "1.1.1")];
    assert !PyText.EndsWith("2.28.0", ".*") && !PyText.EndsWith("2.10", ".*");
    assert !PyText.EndsWith("1.0.post1", ".*") && !PyText.EndsWith("1.1.1", ".*");
    TwoClausesConflict(reading, release, rq, Triple(2, Some(28), Some(0)), Triple(2, Some(10), None));
    TwoClausesConflict(reading, release, np, Triple(1, Some(0), None), Triple(1, Some(1), Some(1)));
  }

  /** Two clauses whose parsed versions are `a` and `b` and whose spans do not
      meet make `is_consistent` answer no. */
  lemma TwoClausesConflict(reading: Reading, release: ReleaseParser, clauses: seq<Clause>, a: Triple, b: Triple)
    requires |clauses| == 2
    requires ParseBy(reading, release, clauses[0].version) == Ok(a)
    requires ParseBy(reading, release, clauses[1].version) == Ok(b)
    requires (clauses[0].op == ">" && clauses[1].op == "<" && Compare(b, Bump(a)) <= 0)
          || (clauses[0].op == "==" && clauses[1].op == "==" && a.patch.None? && b.patch.Some?
              && Compare(b, Bump(a)) >= 0)
    ensures Consistent(reading, release, clauses) == Ok(false)
  {
    if clauses[0].op == ">" {
      GreaterLessConflict(reading, release, clauses, a, b);
    } else {
      ExactPairConflict(reading, release, clauses, a, b);
    }
  }

  /** `>a,<b` is inconsistent when `b` is at most the bump of `a`. */
  lemma GreaterLessConflict(reading: Reading, release: ReleaseParser, clauses: seq<Clause>, a: Triple, b: Triple)
    requires |clauses| == 2
    requires ParseBy(reading, release, clauses[0].version) == Ok(a)
    requires ParseBy(reading, release, clauses[1].version) == Ok(b)
    requires clauses[0].op == ">" && clauses[1].op == "<" && Compare(b, Bump(a)) <= 0
    ensures Consistent(reading, release, clauses) == Ok(false)
  {
    JointOfTwo(reading, release, clauses);
  }

  /** `==a,==b` is inconsistent when `b` lies beyond the prefix of `a`. */
  lemma ExactPairConflict(reading: Reading, release: ReleaseParser, clauses: seq<Clause>, a: Triple, b: Triple)
    requires |clauses| == 2
    requires ParseBy(reading, release, clauses[0].version) == Ok(a)
    requires ParseBy(reading, release, clauses[1].version) == Ok(b)
    requires clauses[0].op == "==" && clauses[1].op == "==" && a.patch.None? && b.patch.Some?
             && Compare(b, Bump(a)) >= 0
    ensures Consistent(reading, release, clauses) == Ok(false)
  {
    JointOfTwo(reading, release, clauses);
  }

  /** Two clauses fold to the unbounded span met with the first clause's set,
      then with the second's. */
  lemma JointOfTwo(reading: Reading, release: ReleaseParser, clauses: seq<Clause>)
    requires |clauses| == 2
    ensures Joint(reading, release, clauses)
            == (var s0 :- ClauseSet(reading, release, clauses[0]);
                var acc :- Meet(reading, release, SpanSet(Unbounded()), s0);
                var s1 :- ClauseSet(reading, release, clauses[1]);
                Meet(reading, release, acc, s1))
  {
    assert clauses[..1][..0] == [];
    assert Joint(reading, release, clauses[..1])
           == (var s0 :- ClauseSet(reading, release, clauses[0]); Meet(reading, release, SpanSet(Unbounded()), s0));
  }

  /** `!=1.0` then `>2`: as written the fold reports a conflict although `3`
      satisfies both clauses; corrected it does not. */
  lemma FirstMatchMisreportsConflict(release: ReleaseParser)
    requires release("1.0") == Some([1, 0]) && release("2") == Some([2])
    ensures var clauses := [Clause("!=", "1.0"), Clause(">", "2")];
            && Consistent(AsWritten, release, clauses) == Ok(false)
            && AllAdmit(AsWritten, release, clauses, Triple(3, None, None))
            && Consistent(Corrected, release, clauses) == Ok(true)
  {
    ExcludeThenGreaterAsWritten(release);
    ExcludeThenGreaterCorrected(release);
  }

  lemma ExcludeThenGreaterAsWritten(release: ReleaseParser)
    requires release("1.0") == Some([1, 0]) && release("2") == Some([2])
    ensures var clauses := [Clause("!=", "1.0"), Clause(">", "2")];
            && Consistent(AsWritten, release, clauses) == Ok(false)
            && AllAdmit(AsWritten, release, clauses, Triple(3, None, None))
  {
    var clauses := [Clause("!=", "1.0"), Clause(">", "2")];
    var gt2 := SpanSet(Span(Lower(Some(Triple(3, None, None))), Upper(None)));
    ExcludeThenGreater(AsWritten, release);
    JointOfTwo(AsWritten, release, clauses);
    FirstMatchKeepsLowPart(release);
    FirstMatchMissesHighPart(release);
    assert Joint(AsWritten, release, clauses) == Ok(Empty);
    assert Contains(ExcludeOnePointO().spans[1], Triple(3, None, None));
  }

  lemma ExcludeThenGreaterCorrected(release: ReleaseParser)
    requires release("1.0") == Some([1, 0]) && release("2") == Some([2])
    ensures Consistent(Corrected, release, [Clause("!=", "1.0"), Clause(">", "2")]) == Ok(true)
  {
    var clauses := [Clause("!=", "1.0"), Clause(">", "2")];
    ExcludeThenGreater(Corrected, release);
    JointOfTwo(Corrected, release, clauses);
    CorrectMeetKeepsThree(release);
  }

  /** The sets of `!=1.0` and `>2`, the same under either reading. */
  lemma ExcludeThenGreater(reading: Reading, release: ReleaseParser)
    requires release("1.0") == Some([1, 0]) && release("2") == Some([2])
    ensures ClauseSet(reading, release, Clause("!=", "1.0")) == Ok(ExcludeOnePointO())
    ensures ClauseSet(reading, release, Clause(">", "2"))
            == Ok(SpanSet(Span(Lower(Some(Triple(3, None, None))), Upper(None))))
  {
    assert !PyText.EndsWith("1.0", ".*") && !PyText.EndsWith("2", ".*");
    assert ParseBy(reading, release, "1.0") == Ok(Triple(1, Some(0), None));
    assert ParseBy(reading, release, "2") == Ok(Triple(2, None, None));
  }

  /** `~=1.4` then `>=2.1`: as written `~=1.4` runs up to `2.4`, so the fold
      keeps `[2.1, 2.4)` and answers yes, although PEP 440 admits nothing from
      `2` on for `~=1.4`; corrected the fold answers no. */
  lemma CompatibleMisreportsConsistency(release: ReleaseParser)
    requires release("1.4") == Some([1, 4]) && release("2.1") == Some([2, 1])
    ensures var clauses := [Clause("~=", "1.4"), Clause(">=", "2.1")];
            && Consistent(AsWritten, release, clauses) == Ok(true)
            && AllAdmit(AsWritten, release, clauses, Triple(2, Some(2), None))
            && !Admits(Compatible, Triple(1, Some(4), None), Triple(2, Some(2), None))
            && Consistent(Corrected, release, clauses) == Ok(false)
  {
    CompatibleThenAtLeastAsWritten(release);
    CompatibleThenAtLeastCorrected(release);
  }

  lemma CompatibleSets(reading: Reading, release: ReleaseParser)
    requires release("1.4") == Some([1, 4]) && release("2.1") == Some([2, 1])
    ensures ClauseSet(reading, release, Clause("~=", "1.4"))
            == Ok(SpanSet(Span(Lower(Some(Triple(1, Some(4), None))),
                               Upper(Some(if reading == AsWritten then Triple(2, Some(4), None) else Triple(2, None, None))))))
    ensures ClauseSet(reading, release, Clause(">=", "2.1"))
            == Ok(SpanSet(Span(Lower(Some(Triple(2, Some(1), None))), Upper(None))))
  {
    assert !PyText.EndsWith("1.4", ".*") && !PyText.EndsWith("2.1", ".*");
    assert ParseBy(reading, release, "1.4") == Ok(Triple(1, Some(4), None));
    assert ParseBy(reading, release, "2.1") == Ok(Triple(2, Some(1), None));
  }

  lemma CompatibleThenAtLeastAsWritten(release: ReleaseParser)
    requires release("1.4") == Some([1, 4]) && release("2.1") == Some([2, 1])
    ensures var clauses := [Clause("~=", "1.4"), Clause(">=", "2.1")];
            && Consistent(AsWritten, release, clauses) == Ok(true)
            && AllAdmit(AsWritten, release, clauses, Triple(2, Some(2), None))
  {
    CompatibleSets(AsWritten, release);
    JointOfTwo(AsWritten, release, [Clause("~=", "1.4"), Clause(">=", "2.1")]);
  }

  lemma CompatibleThenAtLeastCorrected(release: ReleaseParser)
    requires release("1.4") == Some([1, 4]) && release("2.1") == Some([2, 1])
    ensures Consistent(Corrected, release, [Clause("~=", "1.4"), Clause(">=", "2.1")]) == Ok(false)
  {
    CompatibleSets(Corrected, release);
    JointOfTwo(Corrected, release, [Clause("~=", "1.4"), Clause(">=", "2.1")]);
  }

  /** `==1.2.*`: as written the version cannot be parsed and the check raises
      `InvalidVersion('.')`; corrected the clause is `[1.2, 1.3)`. */
  lemma WildcardRaises(release: ReleaseParser)
    requires release(".") == None && release("1.2") == Some([1, 2])
    ensures Consistent(AsWritten, release, [Clause("==", "1.2.*")]) == Err(InvalidVersion("."))
    ensures Consistent(Corrected, release, [Clause("==", "1.2.*")]) == Ok(true)
  {
    var c := Clause("==", "1.2.*");
    assert PyText.EndsWith("1.2.*", ".*");
    assert "1.2.*"[..3] == "1.2";
    assert ParseBy(Corrected, release, "1.2.*") == Ok(Triple(1, Some(2), None));
    assert [c][..0] == [];
  }
}
