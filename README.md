# Dataproc Spark Connect client: a verified model of its core logic

This project models, in Dafny, the parts of the Dataproc Spark Connect Python
client that decide something by themselves rather than by calling a service:

- **Version-specifier consistency** (`check_version_validity.py`). Each
  PEP 440 specifier (`~=`, `==`, `!=`, `<=`, `>=`, `<`, `>`, `===`) becomes a
  set of release triples. Such a set is empty, an exact version string, one
  half-open span between a lower and an upper bound, or a union of spans.
  The sets are intersected clause by clause. A distribution whose
  intersection is empty makes `check_validity` raise, and the exception names
  every such distribution.
- **Session configuration** (`session.py`, `environment.py`, `constants.py`):
  - the builder's setters;
  - the merge `_get_dataproc_config` performs: options over properties,
    the default runtime version, environment-variable fallbacks for
    authentication, service account, subnetwork and the two TTLs, the system
    labels, and the BigQuery connector defaults;
  - the label-value validator;
  - the client-environment label;
  - the lazy-SQL test for requests;
  - the `addArtifacts` flag check.
- **The `%%sparksql` and `%config` notebook magics** (`magic/sparksql.py`):
  - `{name}` interpolation of the cell;
  - the order of the session, emptiness and execution checks;
  - the cache, view, variable and display steps;
  - the HTML table with its truncation footer;
  - the parsing of `%config SparkSql.limit=<n>`.

Modules follow the source files:

| file | module | models |
|---|---|---|
| `wrappers.dfy` | `Wrappers` | `Option`, `Result` |
| `pytext.dfy` | `PyText` | the Python string operations the core relies on (`strip`, `lower`, `split`, `str.replace`, `os.path.basename`, `int()` on text, `str()` of an int), over ASCII |
| `triples.dfy` | `Triples` | `VersionTriple` |
| `spans.dfy` | `Spans` | `LowerBound`, `UpperBound`, `VersionSpan`, `merge_spans` |
| `versionsets.dfy` | `VersionSets` | `FixedVersion`, `DisjointVersionSpan`, `VersionSet.__and__`, the merge helpers, `VersionOp`, `version_set` |
| `consistency.dfy` | `Consistency` | `is_consistent`, `check_validity` |
| `environment.dfy` | `Environment` | `environment.py` and the label constants |
| `session.dfy` | `Session` | `session.py` |
| `sparksql.dfy` | `SparkSql` | `magic/sparksql.py` |

Some things the source reads from outside are parameters of the model:

- The version parser of the `packaging` library is a function parameter,
  `release: string -> Option<seq<nat>>`, giving the release numbers of a
  version string or `None` where `packaging` raises `InvalidVersion`.
- The process environment, and whether the BigQuery Jupyter plugin is
  installed, form an `Environment.Env` value.
- The magic receives, as inputs:
  - whether a Spark session is active;
  - the notebook namespace, as strings;
  - the error Spark raises, if any.

The version checker has three slips (see Findings). Its model carries a
`Triples.Reading`: `AsWritten` follows the code line by line, and `Corrected`
fixes the wildcard strip of `VersionTriple.parse`, the upper end of `~=` and
the span-with-union case of `&`. The methods that model the running code
(`VersionSets.And`, `Consistency.IsConsistent`, `Consistency.ScanBroken`,
`Consistency.CheckValidity`) compute the as-written verdict. About it the
model proves what survives the slips: the fold only ever loses versions, so
a consistent verdict has a witness (`Consistency.ConsistentHasWitness`). The
exact-intersection results (`Consistency.JointIsIntersection` and the lemmas
that rest on it) are stated for the corrected reading, and lemmas on concrete
inputs show where the two readings part.

The label-value validator and the line the `%%sparksql` magic prints when it
binds a variable are modelled as written (`Session.NotebookId`,
`SparkSql.StepMessages`); the evidently intended versions sit beside them.

Where the code and its tests disagree, the model follows the code:
`tests/unit/test_session.py:918` expects the catalog
`BigLakeMetastoreSparkCatalog`, while
`google/cloud/dataproc_spark_connect/session.py:579` sets
`BigQuerySparkSessionCatalog`, and `Session.BigQueryDefaults` uses the
latter.

## Model

| member | source | states |
|---|---|---|
| Triples.MakeTriple | check_version_validity.py:85-96 | construction fails exactly when a patch is given without a minor (`PatchWithoutMinor`); otherwise the triple holds the given fields and is valid |
| Triples.Compare | check_version_validity.py:128-135 | the result is zero, negative or positive exactly when the keys (absent fields read as 0) are equal, lexicographically smaller or larger |
| Triples.CompareAntisymmetric | check_version_validity.py:128-135 | `compare(a, b) == -compare(b, a)` and every triple equals itself |
| Triples.CompareTransitive | check_version_validity.py:128-147 | `<=` and `<` derived from `compare` are transitive, also mixed |
| Triples.MissingFieldsCompareAsZero | check_version_validity.py:128-135 | `1.0` and `1.0.0` compare equal although they are different triples |
| Triples.Bump | check_version_validity.py:98-111 | adds one to the most specific field that is set, keeps the shape and validity, and the result is strictly greater |
| Triples.BumpMonotoneSameShape | check_version_validity.py:98-111 | bumping preserves `<=` and `<` between triples of the same shape |
| Triples.BumpNotMonotoneAcrossShapes | check_version_validity.py:98-111 | `1.5` and `1.5.0` compare equal but their bumps `1.6` and `1.5.1` do not |
| Triples.BumpCompatible | check_version_validity.py:113-126 | as written: fails exactly on a major-only triple; `X.Y` becomes `(X+1).Y`, `X.Y.Z` becomes `X.(Y+1).Z`; the result is valid and greater |
| Triples.BumpCompatiblePep440 | check_version_validity.py:113-126 | corrected: fails exactly on a major-only triple; otherwise the bump of the release without its last component, with no patch, valid and greater |
| Triples.FromRelease | check_version_validity.py:149-155 | building from the release numbers succeeds exactly for one to three numbers and returns a valid triple with those numbers; an unparsable string raises `InvalidVersion` |
| Triples.FromComponents | check_version_validity.py:149-155 | a valid triple is rebuilt from its own release numbers |
| Triples.ParseTripleAsWritten | check_version_validity.py:149-155 | as written: a string ending in `.*` is replaced by its second-to-last character, the `.` |
| Triples.WildcardAsWrittenFails | check_version_validity.py:149-155 | as written, every wildcard version fails with `InvalidVersion(".")` |
| Triples.ParseTriple | check_version_validity.py:149-155 | corrected parse: a plain version parses as `packaging` reads it; a success is valid |
| Triples.WildcardParsesAsStem | check_version_validity.py:149-155 | corrected: `X.*` parses as `X` |
| Triples.ParseBy | check_version_validity.py:149-155 | under either reading a version without `.*` is read as `packaging` reads it and a success is valid; as written a `.*` version raises `InvalidVersion(".")` |
| Triples.BumpCompatibleBy | check_version_validity.py:113-126 | under either reading `~=`'s bound fails exactly on a major-only triple and is otherwise valid and strictly above the triple |
| Spans.CrossCompareMirrors | check_version_validity.py:159-226 | a lower bound compared with an upper bound, and the reverse, are mirror images, with an unbounded end always on the open side |
| Spans.MakeSpan | check_version_validity.py:229-239 | the span constructor raises `EmptySpan` exactly when both ends are bounded and the upper is at or below the lower; a success is well formed |
| Spans.UnboundedEndAccepted | check_version_validity.py:235-239 | a span with an unbounded end is always accepted |
| Spans.Unbounded | check_version_validity.py:241-243 | the unbounded span is well formed and contains every triple |
| Spans.MaxLower | check_version_validity.py:340-344 | the lower bound kept by the merge is one of the two and admits exactly what both admit |
| Spans.MinUpper | check_version_validity.py:345-348 | the upper bound kept by the merge is one of the two and admits exactly what both admit |
| Spans.MergeSpans | check_version_validity.py:340-352 | the merge is `None` exactly when the kept bounds leave nothing between them; otherwise it is well formed |
| Spans.MergeSpansIsIntersection | check_version_validity.py:340-352 | a triple is in the merge exactly when it is in both spans |
| Spans.MergeSpansSymmetric | check_version_validity.py:340-352 | merging in either order is empty in the same cases and gives bounds the ordering cannot tell apart |
| Spans.SpanInhabited | check_version_validity.py:229-256 | a well-formed span holds some triple exactly when it is not `(-inf, 0)` |
| Spans.BumpSpanIsPrefix | check_version_validity.py:383-386 | `[T, bump(T))` holds exactly the triples agreeing with `T` on its given fields |
| VersionSets.InAnyConcat | check_version_validity.py:263-275 | membership in a union of concatenated span lists is membership in either |
| VersionSets.DisjointContains | check_version_validity.py:267-275 | the scan finds a containing span exactly when some member contains the triple |
| VersionSets.MergeOrNothingIsIntersection | check_version_validity.py:370-373 | one inner step of the pairwise merge keeps exactly the triples in both spans |
| VersionSets.MergesWithIsIntersection | check_version_validity.py:371-373 | the merges of one span with a list hold exactly the triples in the span and in the list's union |
| VersionSets.AllMergesIsIntersection | check_version_validity.py:365-376 | the pairwise merges hold exactly the triples in both unions |
| VersionSets.MergeDisjoint | check_version_validity.py:365-376 | the result of the union-union merge is a valid union or empty, never a single span or a fixed version |
| VersionSets.MergeDisjointIsIntersection | check_version_validity.py:365-376 | the union-union merge is the intersection of the two unions |
| VersionSets.MergeDisjointSpans | check_version_validity.py:365-376 | the nested loop returns the union of every non-empty pairwise merge, or empty |
| VersionSets.MergeWithEach | check_version_validity.py:370-373 | the inner loop collects, in order, every non-empty merge of one left span with the right spans |
| VersionSets.FirstMerge | check_version_validity.py:355-362 | the span-union merge as written gives a valid single span or empty |
| VersionSets.FirstMergeWithinIntersection | check_version_validity.py:355-362 | the first-match merge only ever loses triples: what it keeps is in both the span and the union |
| VersionSets.MergeSpanWithDisjoint | check_version_validity.py:355-362 | the loop returns the merge with the first member that overlaps, or empty |
| VersionSets.FirstMatchLosesVersions | check_version_validity.py:286-334 | as written, meeting the unbounded span with `!=1.0` keeps only `(-inf, 1.0)`, and then `>2` leaves nothing although `3` lies in both; the corrected meet keeps `3` |
| VersionSets.Meet | check_version_validity.py:286-334 | under either reading an empty operand absorbs, and only a fixed version met with a non-empty set can raise |
| VersionSets.MeetSpanUnion | check_version_validity.py:327-330 | a span met with a union is a valid set that is not a fixed version (first-match merge as written, every merge corrected) |
| VersionSets.And | check_version_validity.py:286-334 | `__and__` run through `DisjointVersionSpan.contains` and the two merge loops returns the as-written meet |
| VersionSets.MeetFixedFixed | check_version_validity.py:292-296 | under either reading two exact versions survive together only when their strings are equal |
| VersionSets.MeetFixedNumeric | check_version_validity.py:297-320 | an exact version against spans is kept exactly when its parsed triple lies in them, in either operand order; an unparsable one raises the parse error; as written every `.*` version raises `InvalidVersion(".")` |
| VersionSets.MeetIsIntersection | check_version_validity.py:286-334 | corrected, `&` on span-based sets never raises, stays span-based and is intersection |
| VersionSets.MeetAsWrittenWithin | check_version_validity.py:286-334 | as written, `&` on span-based sets never raises, stays span-based and keeps only triples in both operands; it equals the corrected `&` except for a span met with a union |
| VersionSets.ParseVersionOp | check_version_validity.py:56-78 | an operator parses only to the member whose text it is; anything else raises `UnknownOperator` |
| VersionSets.ParseVersionOpRoundTrip | check_version_validity.py:56-78 | every operator's text parses back to that operator |
| VersionSets.VersionSetOf | check_version_validity.py:379-413 | under either reading a translated clause is a valid non-empty set; it is a fixed version exactly for `===`; it never raises `EmptySpan` |
| VersionSets.VersionSetErrors | check_version_validity.py:379-413 | translation fails exactly when the version does not parse, or when `~=` is given a major-only version; as written every clause on a `.*` version other than `===` raises `InvalidVersion(".")` |
| VersionSets.VersionSetMeaning | check_version_validity.py:379-413 | each translated clause holds exactly the triples its operator admits (`>=v`, `<v`, `>v` as bump, `<=v` as below bump, `==v` as prefix, `!=v` as outside the prefix), as written and corrected; `~=v` as PEP 440 defines it only corrected |
| VersionSets.CompatibleAsWrittenWider | check_version_validity.py:380-384 | as written, `~=v` holds exactly the triples from `v` up to `bump_compatible(v)`, which include every triple PEP 440 admits |
| VersionSets.MatchingHoldsVersionNotBump | check_version_validity.py:385-388 | under either reading `==v` holds `v` and not its bump |
| VersionSets.CompatibleAsWrittenOvershoots | check_version_validity.py:380-382 | as written, `~=1.4` admits `2.0` and `~=1.4.2` admits `1.5.0`; the corrected bound admits neither |
| Consistency.JointErrPersists | check_version_validity.py:416-425 | once a clause raises, the fold raises that same exception |
| Consistency.IsConsistent | check_version_validity.py:416-425 | the loop returns the as-written fold's non-emptiness, or the first exception |
| Consistency.ClauseSetNumeric | check_version_validity.py:379-413 | a translated clause other than `===` is span-based |
| Consistency.JointIsIntersection | check_version_validity.py:416-425 | corrected and without `===`, the fold is span-based and holds exactly the triples every clause admits |
| Consistency.JointWithinIntersection | check_version_validity.py:416-425 | as written and without `===`, the fold is span-based and every triple it holds satisfies every clause |
| Consistency.NonEmptyInhabited | check_version_validity.py:228-252 | a non-empty span-based set holds a triple unless all its spans end at zero with no lower bound |
| Consistency.ConsistentHasWitness | check_version_validity.py:416-425 | as written, a consistent verdict without `===` has a triple satisfying every clause, unless what is left lies below zero |
| Consistency.InconsistentMeansUnsatisfiable | check_version_validity.py:416-425 | corrected, an inconsistent verdict means no triple satisfies every clause (not so as written: Consistency.FirstMatchMisreportsConflict) |
| Consistency.WitnessMeansConsistent | check_version_validity.py:416-425 | corrected, a triple satisfying every clause makes the verdict consistent |
| Consistency.BelowZeroCountsAsConsistent | check_version_validity.py:416-425 | under either reading `<0` is reported consistent although no triple satisfies it |
| Consistency.NamesMembers | check_version_validity.py:40-47 | a name is among the grouped names exactly when some requirement carries it |
| Consistency.BrokenExactly | check_version_validity.py:47-53 | the reported list names exactly the distributions whose specifiers are inconsistent |
| Consistency.BrokenScansAll | check_version_validity.py:47-53 | a scan that completes checked every distribution without an exception |
| Consistency.BrokenErrPersists | check_version_validity.py:47-53 | an exception on one distribution ends the scan with that exception |
| Consistency.BrokenStep | check_version_validity.py:50-52 | one more scanned distribution either raises its exception, leaves the list alone when consistent, or appends its name when inconsistent |
| Consistency.Joint | check_version_validity.py:420-424 | under either reading the fold gives a valid set, and never raises `EmptySpan` |
| Consistency.Broken | check_version_validity.py:48-51 | the reported list is no longer than the scanned names and holds only scanned names |
| Consistency.Validity | check_version_validity.py:52-53 | an inconsistent verdict names at least one distribution, and only grouped names |
| Consistency.ReportedNamesAreUnsatisfiable | check_version_validity.py:40-53 | corrected, every reported distribution (without `===`) has unsatisfiable constraints |
| Consistency.UnreportedNamesAreSatisfiable | check_version_validity.py:40-53 | as written, every distribution (without `===`) that is not reported has a triple satisfying all its specifiers, unless what is left lies below zero |
| Consistency.ValidIffAllConsistent | check_version_validity.py:40-53 | under either reading the check passes exactly when every distribution's specifiers are consistent |
| Consistency.ValidIffAllConsistentOk | check_version_validity.py:40-53 | when every distribution is consistent, the check passes |
| Consistency.AllConsistentNoneBroken | check_version_validity.py:47-53 | when every scanned distribution is consistent, nothing is reported |
| Consistency.GroupByName | check_version_validity.py:40-46 | the dictionary loop collects each name in first-seen order, with its specifiers concatenated in order |
| Consistency.ScanBroken | check_version_validity.py:48-51 | the scan loop returns the names whose specifiers the as-written fold finds inconsistent, in order, or the first exception raised |
| Consistency.CheckValidity | check_version_validity.py:40-53 | the grouping loop and the scan return the as-written verdict: pass, the list of inconsistent distributions, or the first exception |
| Consistency.ValidExampleGrouping | check_version_validity.py:18-37 | the passing list of the script groups to `requests`, `numpy`, `scipy`, `pandas` with their specifiers |
| Consistency.InvalidExampleGrouping | check_version_validity.py:18-37 | the failing list of the script groups to `requests` and `numpy` with two specifiers each |
| Consistency.ValidExampleConsistent | check_version_validity.py:18-37 | the grouped specifiers of the passing list (`>2.28.0`, `>1.0`, none) are each consistent |
| Consistency.ExampleValidList | check_version_validity.py:18-37 | under either reading the script's passing list passes |
| Consistency.ExampleInvalidList | check_version_validity.py:18-37 | under either reading the script's failing list raises, naming `requests` and `numpy` |
| Consistency.InvalidExampleConflicts | check_version_validity.py:18-37 | `>2.28.0,<2.10` and `==1.0.post1,==1.1.1` are each inconsistent |
| Consistency.OneGreaterClause | check_version_validity.py:416-425 | a lone `>` clause on a parsable version is consistent |
| Consistency.TwoClausesConflict | check_version_validity.py:416-425 | `>a,<b` with `b` at or below bump(a), and `==a,==b` with disjoint prefixes, are inconsistent |
| Consistency.FirstMatchMisreportsConflict | check_version_validity.py:355-362 | as written `!=1.0,>2` is reported inconsistent although `3` satisfies both; corrected it is consistent |
| Consistency.CompatibleMisreportsConsistency | check_version_validity.py:113-126 | as written `~=1.4,>=2.1` is reported consistent, with `2.2` admitted although PEP 440 excludes it for `~=1.4`; corrected it is inconsistent |
| Consistency.WildcardRaises | check_version_validity.py:149-155 | as written `==1.2.*` raises `InvalidVersion(".")`; corrected it is consistent |
| Environment.FirstFiring | google/cloud/dataproc_spark_connect/environment.py:152-172 | a priority list yields its default or the label of a detector that fires |
| Environment.LabelIsFirstFiring | google/cloud/dataproc_spark_connect/environment.py:152-172 | the client label is the first firing detector in the order Colab Enterprise, Colab, Workbench, BigQuery Studio, VS Code, Jupyter |
| Environment.UnknownIffNothingDetected | google/cloud/dataproc_spark_connect/environment.py:152-172 | the label is `unknown` exactly when no detector fires |
| Environment.LabelRange | google/cloud/dataproc_spark_connect/constants.py:15-24 | the label is one of seven constants, never `intellij` or `pycharm` |
| Environment.ColabEnterpriseWins | google/cloud/dataproc_spark_connect/environment.py:132-134 | the Colab Enterprise deploy source gives `colab-enterprise`, whatever else is set |
| Environment.JupyterIsLast | google/cloud/dataproc_spark_connect/environment.py:106-111 | `jupyter` is reported exactly when a kernel is detected and nothing more specific is |
| Session.MatchesGroupIff | google/cloud/dataproc_spark_connect/session.py:83-84 | `[a-z0-9-]*[a-z0-9]` matches exactly the non-empty strings of label characters ending in a letter or digit |
| Session.LabelValueFormat | google/cloud/dataproc_spark_connect/session.py:67-84 | a valid label value has 1 to 63 lowercase letters, digits and dashes, and starts and ends with a letter or digit |
| Session.TrailingNewlineAccepted | google/cloud/dataproc_spark_connect/session.py:83-84 | as written, `abc` followed by a newline passes the check; the corrected check rejects it |
| Session.AsWrittenDiffersOnlyByNewline | google/cloud/dataproc_spark_connect/session.py:67-84 | on values not ending in a newline the as-written and corrected checks agree |
| Session.AuthTypeByName | google/cloud/dataproc_spark_connect/session.py:513-515 | a name looks up only the member of that name |
| Session.AuthTypeNameRoundTrip | google/cloud/dataproc_spark_connect/session.py:513-515 | every member's name looks it up |
| Session.Update | google/cloud/dataproc_spark_connect/session.py:495-496 | writing one entry at a time gives `dst` overridden by `src` |
| Session.SetDefaults | google/cloud/dataproc_spark_connect/session.py:584-586 | adding each absent default gives the defaults overridden by `dst` |
| Session.PropertyPrecedence | google/cloud/dataproc_spark_connect/session.py:495-586 | a builder option beats the configuration's property, which beats the BigQuery default; a BigQuery default appears only when those defaults apply |
| Session.VersionDefaulted | google/cloud/dataproc_spark_connect/session.py:497-503 | the runtime version is the configured one or `2.3`, and Spark Connect is enabled |
| Session.FallbacksFill | google/cloud/dataproc_spark_connect/session.py:509-547 | a successful fallback pass fills each unset field from its variable and changes nothing else |
| Session.EnvironmentFallbacks | google/cloud/dataproc_spark_connect/session.py:509-529 | service account, subnetwork and authentication type come from the environment only when unset; the template is untouched |
| Session.TtlFallbacks | google/cloud/dataproc_spark_connect/session.py:530-547 | the TTLs are read from their variables as integers only when unset |
| Session.ReadAuthType | google/cloud/dataproc_spark_connect/session.py:509-515 | the authentication type is read from the environment only when unset, and the lookup raises exactly when the variable names no type |
| Session.ReadSeconds | google/cloud/dataproc_spark_connect/session.py:530-547 | a TTL is read from its variable only when unset, and `int()` raises exactly when the text is not an integer |
| Session.ConfigErrors | google/cloud/dataproc_spark_connect/session.py:509-547 | the merge raises exactly when an unset field's variable names no authentication type or is not an integer |
| Session.SystemLabelsSet | google/cloud/dataproc_spark_connect/session.py:548-567 | the client label is always the detected environment; the notebook label is the basename of `COLAB_NOTEBOOK_ID` whenever the validator as written accepts it, a valid label value unless it ends in a newline, and otherwise is left as it was; other labels are the configuration's |
| Session.SystemLabelledFacts | google/cloud/dataproc_spark_connect/session.py:548-567 | the labels after the system-label step carry the client label, the notebook label exactly when the as-written validator accepts it (valid unless it ends in a newline), and every other key as configured |
| Session.NotebookId | google/cloud/dataproc_spark_connect/session.py:555-561 | a notebook id exists exactly when `COLAB_NOTEBOOK_ID` is set and the as-written validator accepts its basename; it holds no `/` and ends the variable's value |
| Session.NewlineNotebookLabelled | google/cloud/dataproc_spark_connect/session.py:555-561 | `COLAB_NOTEBOOK_ID` = `nb/abc` and a newline puts `abc` and the newline into the notebook label, which is not a valid label value |
| Session.BigQueryDefaultsApplied | google/cloud/dataproc_spark_connect/session.py:568-591 | with `bigquery` on runtime 2.3, every connector default is present unless the user set it; otherwise properties are untouched |
| Session.OtherDatasourceIgnored | google/cloud/dataproc_spark_connect/session.py:587-591 | a datasource other than `bigquery` adds no property |
| Session.ApplyFallbacks | google/cloud/dataproc_spark_connect/session.py:509-547 | the step-by-step fallbacks give the reference outcome, including the fields already written when one raises |
| Session.WriteSystemLabels | google/cloud/dataproc_spark_connect/session.py:548-567 | the label section writes the client label and, when the as-written validator accepts it, the notebook label, as Session.SystemLabelledFacts states them |
| Session.Finalize | google/cloud/dataproc_spark_connect/session.py:492-592 | the whole merge gives the reference outcome |
| Session.FinalShape | google/cloud/dataproc_spark_connect/session.py:492-592 | a merge that does not raise keeps the runtime version, turns Spark Connect on, sets the system labels, and adds the BigQuery defaults under the user's properties exactly when they apply |
| Session.Builder.constructor | google/cloud/dataproc_spark_connect/session.py:116-127 | a new builder has no options and no configuration |
| Session.Builder.Config | google/cloud/dataproc_spark_connect/session.py:117 | the options dictionary that the inherited `config(key, value)` fills gains that one entry, last write wins; the configuration is untouched |
| Session.Builder.DataprocSessionConfig | google/cloud/dataproc_spark_connect/session.py:141-145 | adopts the configuration and copies its properties over the options |
| Session.Builder.RuntimeVersion | google/cloud/dataproc_spark_connect/session.py:153-155 | sets the runtime version only |
| Session.Builder.SetServiceAccount | google/cloud/dataproc_spark_connect/session.py:157-166 | sets the service account and selects service-account authentication |
| Session.Builder.SetAuthType | google/cloud/dataproc_spark_connect/session.py:168-174 | sets the authentication type only |
| Session.Builder.Subnetwork | google/cloud/dataproc_spark_connect/session.py:176-180 | sets the subnetwork only |
| Session.Builder.TtlSeconds | google/cloud/dataproc_spark_connect/session.py:189-194 | sets the TTL only |
| Session.Builder.IdleTtlSeconds | google/cloud/dataproc_spark_connect/session.py:203-208 | sets the idle TTL only |
| Session.Builder.SessionTemplate | google/cloud/dataproc_spark_connect/session.py:210-212 | sets the session template only |
| Session.Builder.Labels | google/cloud/dataproc_spark_connect/session.py:218-230 | merges the non-system labels over the existing ones |
| Session.Builder.Label | google/cloud/dataproc_spark_connect/session.py:214-216 | one label, as `labels` with a single entry |
| Session.Builder.GetDataprocConfig | google/cloud/dataproc_spark_connect/session.py:492-592 | stores the merged configuration, and returns it or the exception, as the reference merge gives them |
| Session.OptionPrecedenceScenario | tests/unit/test_session.py:239-266 | `config(6)`, then a configuration holding 8, then `config(16)` gives `spark.executor.cores` = 16 |
| Session.SqlLazyIffSelectWord | google/cloud/dataproc_spark_connect/session.py:709-718 | a request is lazy exactly when its SQL, stripped and lowered, has `select` as a whitespace-separated word |
| Session.ParenthesisedSelectNotLazy | google/cloud/dataproc_spark_connect/session.py:712-716 | `(select 1)` does not count as a select |
| Session.CheckArtifactFlags | google/cloud/dataproc_spark_connect/session.py:819-822 | `addArtifacts` raises exactly when two or more kind flags are set |
| SparkSql.WordRun | google/cloud/dataproc_spark_connect/magic/sparksql.py:66 | the maximal run of `\w` characters at the start |
| SparkSql.PlaceholderAt | google/cloud/dataproc_spark_connect/magic/sparksql.py:66 | a match is a brace, a non-empty `\w` run and a brace; there is none when the text does not start with a brace |
| SparkSql.PlaceholderRecognised | google/cloud/dataproc_spark_connect/magic/sparksql.py:66 | `{name}` followed by anything is matched as `name` |
| SparkSql.PlaceholderSubstituted | google/cloud/dataproc_spark_connect/magic/sparksql.py:57-67 | a bound placeholder is replaced by its value and interpolation goes on after it |
| SparkSql.PlaceholderKept | google/cloud/dataproc_spark_connect/magic/sparksql.py:60-64 | an unbound placeholder is kept verbatim |
| SparkSql.PlainTextUnchanged | google/cloud/dataproc_spark_connect/magic/sparksql.py:57-67 | text without a brace passes through unchanged |
| SparkSql.EmptyNamespaceIdentity | google/cloud/dataproc_spark_connect/magic/sparksql.py:57-67 | with nothing bound, interpolation is the identity |
| SparkSql.NoRescan | google/cloud/dataproc_spark_connect/magic/sparksql.py:57-67 | a value that looks like a placeholder is not expanded again |
| SparkSql.TwoPlaceholders | google/cloud/dataproc_spark_connect/magic/sparksql.py:57-67 | two bound placeholders in plain text are both replaced, in place |
| SparkSql.QueryExample | tests/unit/test_magic.py:27-35 | the unit test's query interpolates to the expected text |
| SparkSql.FormatDataFrameAsHtml | google/cloud/dataproc_spark_connect/magic/sparksql.py:70-89 | the loop builds the reference document |
| SparkSql.AppendRows | google/cloud/dataproc_spark_connect/magic/sparksql.py:81-82 | the row loop appends one `<tr>` line per shown row, in order |
| SparkSql.TableLines | google/cloud/dataproc_spark_connect/magic/sparksql.py:74-87 | when no cell holds a newline, the document's lines are the table tag, the header, one line per shown row, and the closing line |
| SparkSql.RowLines | google/cloud/dataproc_spark_connect/magic/sparksql.py:81-82 | one row line per shown row, in order |
| SparkSql.FooterIffTruncated | google/cloud/dataproc_spark_connect/magic/sparksql.py:84-87 | the document ends with `</table>` exactly when the frame fits the limit, and with the footer exactly when it does not |
| SparkSql.RowsPastLimitIgnored | google/cloud/dataproc_spark_connect/magic/sparksql.py:70-89 | frames agreeing on columns, shown rows and truncation give the same document |
| SparkSql.ExamplePieces | tests/unit/test_magic.py:68-82 | the header, row and footer texts of a one-column frame |
| SparkSql.TruncatedExample | tests/unit/test_magic.py:68-82 | one shown row out of a hundred with limit 1 gives the table followed by `only showing top 1 row(s)` |
| SparkSql.ParseConfigLine | google/cloud/dataproc_spark_connect/magic/sparksql.py:212-230 | the settings are shown exactly for an empty line |
| SparkSql.ConfigOfLine | google/cloud/dataproc_spark_connect/magic/sparksql.py:212-216 | a line stripping to `k=v` with no other `=` is read as that pair |
| SparkSql.TwoPartsJoin | google/cloud/dataproc_spark_connect/magic/sparksql.py:213-214 | a line split into exactly two parts is those parts joined by `=` |
| SparkSql.SetLimitHasPair | google/cloud/dataproc_spark_connect/magic/sparksql.py:212-221 | a line that sets the limit strips to a pair with a `SparkSql.` key reducing to `limit` and an integer value |
| SparkSql.SetLimitExactly | google/cloud/dataproc_spark_connect/magic/sparksql.py:212-221 | the limit is set to `n` exactly for such a pair whose value reads as `n` |
| SparkSql.PlainPair | google/cloud/dataproc_spark_connect/magic/sparksql.py:212-216 | `k=v` without surrounding blanks or other `=` is read as that pair |
| SparkSql.ConfigLineSetsLimit | google/cloud/dataproc_spark_connect/magic/sparksql.py:207-221 | `SparkSql.limit=<n>` sets the limit to `n` for every integer |
| SparkSql.DoubledPrefixAccepted | google/cloud/dataproc_spark_connect/magic/sparksql.py:215 | every copy of the prefix is removed, so `SparkSql.SparkSql.limit=5` sets the limit |
| SparkSql.SpacedAssignmentIsUnknownKey | google/cloud/dataproc_spark_connect/magic/sparksql.py:213-227 | spaces around `=` survive the strip, so the key is `limit ` and unknown |
| SparkSql.SessionCheckedFirst | google/cloud/dataproc_spark_connect/magic/sparksql.py:160-164 | without a session the magic fails before looking at the cell |
| SparkSql.EmptyQueryRule | google/cloud/dataproc_spark_connect/magic/sparksql.py:166-169 | with a session, the query is rejected as empty exactly when the interpolated stripped cell is empty; a blank cell is always rejected |
| SparkSql.SinglePlaceholderCell | google/cloud/dataproc_spark_connect/magic/sparksql.py:166 | a cell holding only `{q}` runs the value of `q` |
| SparkSql.EmptinessAfterInterpolation | google/cloud/dataproc_spark_connect/magic/sparksql.py:166-169 | `{q}` bound to the empty string is rejected; bound to a space it runs the query ` ` |
| SparkSql.QueryPassedOn | google/cloud/dataproc_spark_connect/magic/sparksql.py:171-199 | a non-empty query succeeds carrying that query, and a failing `spark.sql` becomes `Error executing SQL query: ` and its message before any step runs |
| SparkSql.FailureKeepsEarlierSteps | google/cloud/dataproc_spark_connect/magic/sparksql.py:171-199 | a step that raises inside the `try` leaves the steps before it done (view created, variable bound) and their lines printed, which begin what the run without the failure prints; a failure naming no call of the run changes nothing |
| SparkSql.DisplayFailureKeepsBinding | google/cloud/dataproc_spark_connect/magic/sparksql.py:171-199 | `--cache result` whose display raises has printed `cache dataframe` and the bind line and bound `result` before the `RuntimeError` |
| SparkSql.DisplayRule | google/cloud/dataproc_spark_connect/magic/sparksql.py:190-194 | a table is displayed exactly when the effective limit is positive, with that limit |
| SparkSql.PrintedConcat | google/cloud/dataproc_spark_connect/magic/sparksql.py:174-188 | the printed lines of consecutive steps are concatenated in order |
| SparkSql.BindStep | google/cloud/dataproc_spark_connect/magic/sparksql.py:186-188 | a given variable is bound, and the printed line says `df` whatever the variable is called |
| SparkSql.VariableRule | google/cloud/dataproc_spark_connect/magic/sparksql.py:186-196 | the frame is returned, and bound, exactly when a non-empty variable name is given |
| SparkSql.BindMessageNamesVariable | google/cloud/dataproc_spark_connect/magic/sparksql.py:188 | as written, the message is the same for every variable; the corrected message tells variables apart |
| SparkSql.NotPrinted | google/cloud/dataproc_spark_connect/magic/sparksql.py:174-188 | a line that is no step's message is never printed |
| SparkSql.NotAStepMessage | google/cloud/dataproc_spark_connect/magic/sparksql.py:174-188 | the line naming a variable other than `df` is the message of no step |
| SparkSql.VariableNeverNamed | google/cloud/dataproc_spark_connect/magic/sparksql.py:186-188 | for a variable not called `df`, the line naming it is never printed |
| SparkSql.SparkSqlMagic.constructor | google/cloud/dataproc_spark_connect/magic/sparksql.py:96-100 | the configured limit starts at 20 |
| SparkSql.SparkSqlMagic.Config | google/cloud/dataproc_spark_connect/magic/sparksql.py:212-230 | `%config` reports the parsed command and changes the limit only when it sets one |
| SparkSql.SparkSqlMagic.SparkSqlCell | google/cloud/dataproc_spark_connect/magic/sparksql.py:158-199 | the cell run with the configured limit, including the steps done before a failure inside the `try`; without `--limit` a table is shown exactly when the configured limit is positive |
| PyText.StripEmptyIff | google/cloud/dataproc_spark_connect/magic/sparksql.py:166-168 | a string strips to empty exactly when every character is whitespace |
| PyText.TrimLeftFacts | google/cloud/dataproc_spark_connect/magic/sparksql.py:166 | stripping the left removes only blanks of the given kind, keeps a suffix, and leaves no such blank at the front |
| PyText.TrimRightFacts | google/cloud/dataproc_spark_connect/magic/sparksql.py:166 | stripping the right removes only blanks of the given kind, keeps a prefix, and leaves no such blank at the end |
| PyText.WordsAreDelimited | google/cloud/dataproc_spark_connect/session.py:715 | a word is among `split()`'s parts exactly when it occurs in the text bounded by whitespace or the ends |
| PyText.SplitJoin | google/cloud/dataproc_spark_connect/magic/sparksql.py:213 | joining the parts of a split with the separator gives the string back |
| PyText.NatToStringValue | google/cloud/dataproc_spark_connect/magic/sparksql.py:87 | the decimal text of a number reads back as that number |
| PyText.IntToStringParses | google/cloud/dataproc_spark_connect/magic/sparksql.py:220 | `int()` reads the decimal text of any integer back as that integer |
| PyText.DigitsParse | google/cloud/dataproc_spark_connect/magic/sparksql.py:220 | `int()` reads a run of decimal digits as its value |
| PyText.NegativeDigitsParse | google/cloud/dataproc_spark_connect/magic/sparksql.py:220 | `int()` reads a minus sign followed by decimal digits as the negated value |
| PyText.IntBlanksNarrower | google/cloud/dataproc_spark_connect/session.py:536-547 | every blank `int()` skips is one `str.strip()` removes, and `\x1c` is removed by `strip()` but not skipped by `int()` |
| PyText.SeparatorNotSkipped | google/cloud/dataproc_spark_connect/session.py:536-547 | `\x1c5` strips to `5` but `int()` rejects it |

## Left out

- Parsing of version strings by the `packaging` library: the release numbers are the function parameter `release`; local and pre-release segments are not modelled beyond what `release` returns.
- Parsing of requirement strings into a name and specifiers (`packaging.requirements.Requirement`): requirements are given already parsed.
- `SpecifierSet` iteration order and duplicate removal: the specifiers of a requirement are a sequence, folded in that order.
- The command-line entry of the version checker (`main`) and its exit status: the two example lists it checks are modelled, not the process.
- Logging, warnings and the `print` inside `VersionTriple.parse`: nothing in the model depends on them; only the printed lines of the `%%sparksql` magic are modelled.
- `_check_python_version_compatibility`: it only warns.
- `ttl` and `idleTtl` with a `timedelta`: they go through floating point; only the `*Seconds` setters are modelled.
- An unset protobuf integer is 0 and an unset string is empty, as in the message; a TTL explicitly set to 0 is therefore indistinguishable from an unset one, as in the source.
- Unicode: whitespace, `lower()` and `\w` are modelled over ASCII.
- The network, the session controller, session creation, reuse and termination, and the Spark Connect channel.
- PyPI artifact resolution and the artifact upload itself: only the flag check of `addArtifacts` is modelled.
- The probe for the BigQuery Jupyter plugin and the VS Code extension look-up: their answers are inputs.
- The text of Python exception messages other than the magic's `Error executing SQL query: `.
- `str()` of namespace values: the namespace maps names to strings.
- pandas formatting of cells and column names: they are taken as strings.
- The argument parsing of the magic line: it is taken as a parsed `CellArgs`.
- `spark.sql`, caching, temporary views and `display`: they are recorded as steps; which of these calls raises, if any, and its message are an input.
- `get_active_spark_session`: whether a session is active is an input.
- SparkSql.FormatDataFrameAsHtml: the limit is a `nat`, because Spark rejects a negative `limit()`; the magic calls it only with a positive limit.
- SparkSql.TableLines: cells are not HTML-escaped by the source, so the line structure is stated only for cells and column names without newlines.
- SparkSql.ParseConfigLine: its own ensures states only the empty-line case; what the other lines do is stated by SparkSql.SetLimitExactly, SparkSql.ConfigLineSetsLimit and the lemmas beside them.
- Consistency.InconsistentMeansUnsatisfiable: stated for the corrected reading and for clauses without `===`, whose sets are compared by string and not by version; as written an inconsistent verdict can be wrong (Consistency.FirstMatchMisreportsConflict).
- Consistency.WitnessMeansConsistent: stated for the corrected reading; as written a satisfiable list can be reported inconsistent (Consistency.FirstMatchMisreportsConflict).
- Consistency.JointIsIntersection: stated for the corrected reading; as written the fold is only within the intersection (Consistency.JointWithinIntersection), and `~=` admits more than PEP 440 does (Consistency.CompatibleMisreportsConsistency).
- Consistency.ReportedNamesAreUnsatisfiable: stated for the corrected reading; as written the surviving promise is the other way round, for the names not reported (Consistency.UnreportedNamesAreSatisfiable).
- Consistency.ConsistentHasWitness: a consistent verdict does not guarantee a witness when what is left lies below zero, because `<0` is accepted as the non-empty span `(-inf, 0)` although no release lies in it (Consistency.BelowZeroCountsAsConsistent).
- VersionSets.VersionSetMeaning: the PEP 440 meaning of `~=` is stated for the corrected reading only; as written `~=` runs up to `bump_compatible` (VersionSets.CompatibleAsWrittenWider).
- Session.Builder.DataprocSessionConfig: the builder keeps the caller's `Session` message by reference, so later setters and `_get_dataproc_config` change the caller's object too; the model copies the configuration as a value and does not capture that aliasing.

## Findings

| source | as written | input that shows it | evidently intended | confidence | as-written member | corrected member |
|---|---|---|---|---|---|---|
| check_version_validity.py:113-126 | `bump_compatible` turns `X.Y` into `(X+1).Y` and `X.Y.Z` into `X.(Y+1).Z`, keeping the last component | `~=1.4` admits `2.0`; `~=1.4.2` admits `1.5.0` | the compatible-release clause the comment links to: drop the last component and bump the rest (`~=1.4` is `<2`, `~=1.4.2` is `<1.5`) | high, not executed | Triples.BumpCompatible, VersionSets.CompatibleAsWrittenOvershoots, Consistency.CompatibleMisreportsConsistency | Triples.BumpCompatiblePep440, VersionSets.VersionSetMeaning |
| check_version_validity.py:149-155 | on a `.*` suffix, `s = s[-len(".*")]` keeps one character, the `.`, which `packaging` rejects | `==1.2.*` raises `InvalidVersion('.')` | drop the suffix, `s[:-len(".*")]` | high, not executed | Triples.ParseTripleAsWritten, Triples.WildcardAsWrittenFails, Consistency.WildcardRaises | Triples.ParseTriple, Triples.WildcardParsesAsStem |
| check_version_validity.py:355-362 | a span met with a union keeps only the merge with the first overlapping member | `!=1.0` then `>2`: the first fold leaves `(-inf, 1.0)` only, so `3` is lost and the set is reported empty | intersect with every member, as two unions are | high, not executed | VersionSets.FirstMerge, VersionSets.FirstMatchLosesVersions, Consistency.FirstMatchMisreportsConflict | VersionSets.MeetIsIntersection, Consistency.JointIsIntersection |
| google/cloud/dataproc_spark_connect/session.py:83-84 | `re.match` with `$`, which also matches before a final newline | notebook id `abc` followed by a newline is accepted as a label value | `re.fullmatch`, rejecting the newline as the docstring's character set says | medium, not executed | Session.TrailingNewlineAccepted, Session.NewlineNotebookLabelled | Session.LabelValueFormat |
| google/cloud/dataproc_spark_connect/magic/sparksql.py:188 | the message always says `'df'` | `%%sparksql result` prints `return dataframe to local variable 'df'` | name the variable bound | medium, not executed | SparkSql.BindMessageNamesVariable, SparkSql.VariableNeverNamed | SparkSql.BindMessageNamesVariable |
