/** `VersionTriple` of check_version_validity.py: a release reduced to a major
    number and an optional minor and patch, with its ordering, the two bump
    operations and the parser built on top of `packaging`'s release tuple. */
module Triples {
  import opened Wrappers
  import PyText

  /** Every exception the version-set algebra raises. */
  datatype VersionError =
    | PatchWithoutMinor          // VersionTriple.__post_init__
    | MajorOnlyCompatible        // VersionTriple.bump_compatible on a major-only triple
    | InvalidVersion(text: string)  // packaging rejects the string
    | ReleaseArity(count: nat)   // VersionTriple(*release) with no or more than three numbers
    | EmptySpan                  // VersionSpan.__post_init__
    | UnknownOperator(op: string)   // parse_version_op

  datatype Triple = Triple(major: nat, minor: Option<nat>, patch: Option<nat>)

  /** The invariant `__post_init__` enforces: a patch needs a minor. */
  predicate Valid(t: Triple) {
    t.patch.Some? ==> t.minor.Some?
  }

  /** The dataclass constructor followed by `__post_init__`. */
  function MakeTriple(major: nat, minor: Option<nat>, patch: Option<nat>): (r: Result<Triple, VersionError>)
    ensures r.Err? <==> minor.None? && patch.Some?
    ensures r.Err? ==> r.error == PatchWithoutMinor
    ensures r.Ok? ==> Valid(r.value) && r.value == Triple(major, minor, patch)
  {
    if minor.None? && patch.Some? then Err(PatchWithoutMinor) else Ok(Triple(major, minor, patch))
  }

  /** The numbers the ordering looks at: an absent minor or patch counts as 0. */
  function Key(t: Triple): (nat, nat, nat) {
    (t.major, t.minor.GetOr(0), t.patch.GetOr(0))
  }

  /** Lexicographic order on keys, the reference the comparison is held to. */
  predicate KeyLess(x: (nat, nat, nat), y: (nat, nat, nat)) {
    x.0 < y.0 || (x.0 == y.0 && (x.1 < y.1 || (x.1 == y.1 && x.2 < y.2)))
  }

  /** `VersionTriple.compare`: the first non-zero difference of the keys. */
  function Compare(a: Triple, b: Triple): (c: int)
    ensures c == 0 <==> Key(a) == Key(b)
    ensures c < 0 <==> KeyLess(Key(a), Key(b))
    ensures c > 0 <==> KeyLess(Key(b), Key(a))
  {
    var d := a.major - b.major;
    if d != 0 then d
    else
      var e := a.minor.GetOr(0) - b.minor.GetOr(0);
      if e != 0 then e
      else a.patch.GetOr(0) - b.patch.GetOr(0)
  }

  lemma CompareAntisymmetric(a: Triple, b: Triple)
    ensures Compare(a, b) == -Compare(b, a)
    ensures Compare(a, a) == 0
  {
  }

  lemma CompareTransitive(a: Triple, b: Triple, c: Triple)
    ensures Compare(a, b) <= 0 && Compare(b, c) <= 0 ==> Compare(a, c) <= 0
    ensures Compare(a, b) < 0 && Compare(b, c) <= 0 ==> Compare(a, c) < 0
    ensures Compare(a, b) <= 0 && Compare(b, c) < 0 ==> Compare(a, c) < 0
  {
  }

  /** `1.0` and `1.0.0` are equal to the ordering although they differ as triples. */
  lemma MissingFieldsCompareAsZero()
    ensures Compare(Triple(1, Some(0), None), Triple(1, Some(0), Some(0))) == 0
    ensures Triple(1, Some(0), None) != Triple(1, Some(0), Some(0))
  {
  }

  /** `VersionTriple.bump`: add one to the most specific field that is set. */
  function Bump(t: Triple): (b: Triple)
    ensures Valid(t) ==> Valid(b)
    ensures b.minor.Some? == t.minor.Some? && b.patch.Some? == t.patch.Some?
    ensures t.patch.Some? ==> b.major == t.major && b.minor == t.minor && b.patch == Some(t.patch.value + 1)
    ensures t.patch.None? && t.minor.Some? ==> b.major == t.major && b.minor == Some(t.minor.value + 1)
    ensures t.patch.None? && t.minor.None? ==> b.major == t.major + 1
    ensures Compare(b, t) > 0
  {
    if t.patch.Some? then Triple(t.major, t.minor, Some(t.patch.value + 1))
    else if t.minor.Some? then Triple(t.major, Some(t.minor.value + 1), t.patch)
    else Triple(t.major + 1, t.minor, t.patch)
  }

  /** Bumping keeps the order between triples of the same shape. */
  lemma BumpMonotoneSameShape(a: Triple, b: Triple)
    requires a.minor.Some? == b.minor.Some? && a.patch.Some? == b.patch.Some?
    ensures Compare(a, b) <= 0 ==> Compare(Bump(a), Bump(b)) <= 0
    ensures Compare(a, b) < 0 ==> Compare(Bump(a), Bump(b)) < 0
  {
  }

  /** Between triples of different shape bumping is not monotone: `1.5` and
      `1.5.0` compare equal, yet `1.6` is above `1.5.1`. */
  lemma BumpNotMonotoneAcrossShapes()
    ensures Compare(Triple(1, Some(5), None), Triple(1, Some(5), Some(0))) == 0
    ensures Compare(Bump(Triple(1, Some(5), None)), Bump(Triple(1, Some(5), Some(0)))) > 0
  {
  }

  /** `VersionTriple.bump_compatible` as written: it raises on a major-only
      triple, bumps major when there is no patch and minor otherwise, and keeps
      the lower fields (`~=1.4` gives `2.4`, `~=1.4.2` gives `1.5.2`). */
  function BumpCompatible(t: Triple): (r: Result<Triple, VersionError>)
    ensures r.Err? <==> t.minor.None?
    ensures r.Err? ==> r.error == MajorOnlyCompatible
    ensures r.Ok? && t.patch.None? ==> r.value == Triple(t.major + 1, t.minor, None)
    ensures r.Ok? && t.patch.Some? ==> r.value == Triple(t.major, Some(t.minor.value + 1), t.patch)
    ensures r.Ok? ==> Valid(r.value) && Compare(r.value, t) > 0
  {
    if t.minor.None? then Err(MajorOnlyCompatible)
    else if t.patch.None? then Ok(Triple(t.major + 1, t.minor, t.patch))
    else Ok(Triple(t.major, Some(t.minor.value + 1), t.patch))
  }

  /** The release prefix `~=` pins: every component but the last. */
  function CompatiblePrefix(t: Triple): Triple
    requires t.minor.Some?
  {
    if t.patch.None? then Triple(t.major, None, None) else Triple(t.major, t.minor, None)
  }

  /** `bump_compatible` as the compatible-release clause of PEP 440 defines
      it: the next release of the pinned prefix, with the lower fields dropped. */
  function BumpCompatiblePep440(t: Triple): (r: Result<Triple, VersionError>)
    ensures r.Err? <==> t.minor.None?
    ensures r.Err? ==> r.error == MajorOnlyCompatible
    ensures r.Ok? ==> r.value == Bump(CompatiblePrefix(t)) && r.value.patch.None?
    ensures r.Ok? ==> Valid(r.value) && Compare(r.value, t) > 0
  {
    if t.minor.None? then Err(MajorOnlyCompatible)
    else if t.patch.None? then Ok(Triple(t.major + 1, None, None))
    else Ok(Triple(t.major, Some(t.minor.value + 1), None))
  }

  /** The parsed numbers of a version string, as `packaging.version.parse(s).release`
      gives them, or `None` where `packaging` raises `InvalidVersion`. */
  type ReleaseParser = string -> Option<seq<nat>>

  /** The numbers a triple was built from. */
  function Components(t: Triple): (cs: seq<nat>)
    ensures 1 <= |cs| <= 3
  {
    [t.major]
    + (if t.minor.Some? then [t.minor.value] else [])
    + (if t.patch.Some? then [t.patch.value] else [])
  }

  /** `VersionTriple(*release)` applied to what `packaging` returned for `text`. */
  function FromRelease(text: string, release: Option<seq<nat>>): (r: Result<Triple, VersionError>)
    ensures r.Ok? <==> release.Some? && 1 <= |release.value| <= 3
    ensures r.Ok? ==> Valid(r.value) && Components(r.value) == release.value
    ensures release.None? ==> r == Err(InvalidVersion(text))
  {
    match release
    case None => Err(InvalidVersion(text))
    case Some(cs) =>
      if |cs| == 1 then Ok(Triple(cs[0], None, None))
      else if |cs| == 2 then Ok(Triple(cs[0], Some(cs[1]), None))
      else if |cs| == 3 then Ok(Triple(cs[0], Some(cs[1]), Some(cs[2])))
      else Err(ReleaseArity(|cs|))
  }

  /** A valid triple is rebuilt from its own components. */
  lemma FromComponents(text: string, t: Triple)
    requires Valid(t)
    ensures FromRelease(text, Some(Components(t))) == Ok(t)
  {
  }

  /** `VersionTriple.parse` as written: on a `.*` suffix, `s[-len(".*")]` keeps
      only the second-to-last character, which is always `.`. */
  function ParseTripleAsWritten(release: ReleaseParser, s: string): (r: Result<Triple, VersionError>)
    ensures PyText.EndsWith(s, ".*") ==> r == FromRelease(".", release("."))
  {
    var stem := if PyText.EndsWith(s, ".*") then [s[|s| - 2]] else s;
    FromRelease(stem, release(stem))
  }

  /** With `.` rejected by `packaging`, every wildcard version fails to parse. */
  lemma WildcardAsWrittenFails(release: ReleaseParser, s: string)
    requires release(".") == None
    requires PyText.EndsWith(s, ".*")
    ensures ParseTripleAsWritten(release, s) == Err(InvalidVersion("."))
  {
  }

  /** `VersionTriple.parse` with the wildcard strip it evidently means: drop a
      trailing `.*`, then read the release numbers. */
  function ParseTriple(release: ReleaseParser, s: string): (r: Result<Triple, VersionError>)
    ensures !PyText.EndsWith(s, ".*") ==> r == FromRelease(s, release(s))
    ensures r.Ok? ==> Valid(r.value)
  {
    var stem := if PyText.EndsWith(s, ".*") then s[..|s| - 2] else s;
    FromRelease(stem, release(stem))
  }

  /** `X.*` parses as `X` does. */
  lemma WildcardParsesAsStem(release: ReleaseParser, stem: string)
    requires !PyText.EndsWith(stem, ".*")
    ensures ParseTriple(release, stem + ".*") == ParseTriple(release, stem)
  {
    var s := stem + ".*";
    assert PyText.EndsWith(s, ".*");
    assert s[..|s| - 2] == stem;
  }

  /** Which reading of `check_version_validity.py` a definition follows: the
      code as written, or the code with its two slips corrected (`parse`
      keeping the text before `.*`, and `bump_compatible` ending `~=` where
      the compatible-release clause of PEP 440 does). */
  datatype Reading = AsWritten | Corrected

  /** `VersionTriple.parse` under a reading. */
  function ParseBy(reading: Reading, release: ReleaseParser, s: string): (r: Result<Triple, VersionError>)
    ensures !PyText.EndsWith(s, ".*") ==> r == FromRelease(s, release(s))
    ensures r.Ok? ==> Valid(r.value)
    ensures r.Err? ==> r.error.InvalidVersion? || r.error.ReleaseArity?
    ensures reading == AsWritten && PyText.EndsWith(s, ".*") && release(".") == None ==> r == Err(InvalidVersion("."))
  {
    match reading
    case AsWritten => ParseTripleAsWritten(release, s)
    case Corrected => ParseTriple(release, s)
  }

  /** `VersionTriple.bump_compatible` under a reading. */
  function BumpCompatibleBy(reading: Reading, t: Triple): (r: Result<Triple, VersionError>)
    ensures r.Err? <==> t.minor.None?
    ensures r.Err? ==> r.error == MajorOnlyCompatible
    ensures r.Ok? ==> Valid(r.value) && Compare(r.value, t) > 0
  {
    match reading
    case AsWritten => BumpCompatible(t)
    case Corrected => BumpCompatiblePep440(t)
  }
}
