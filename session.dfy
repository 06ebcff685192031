/** session.py: label-value validation, the builder's session configuration,
    the merge `_get_dataproc_config` performs before a session is created,
    the lazy-SQL test and the artifact-flag check. */
module Session {
  import opened Wrappers
  import PyText
  import Environment

  /** Labels the system writes and a user may not set. */
  const ClientLabelKey := "dataproc-session-client"
  const NotebookLabelKey := "goog-colab-notebook-id"
  const SystemLabels: set<string> := {ClientLabelKey, NotebookLabelKey}

  const DefaultRuntimeVersion := "2.3"

  const AuthTypeVar := "DATAPROC_SPARK_CONNECT_AUTH_TYPE"
  const ServiceAccountVar := "DATAPROC_SPARK_CONNECT_SERVICE_ACCOUNT"
  const SubnetVar := "DATAPROC_SPARK_CONNECT_SUBNET"
  const TtlVar := "DATAPROC_SPARK_CONNECT_TTL_SECONDS"
  const IdleTtlVar := "DATAPROC_SPARK_CONNECT_IDLE_TTL_SECONDS"
  const NotebookVar := "COLAB_NOTEBOOK_ID"
  const DatasourceVar := "DATAPROC_SPARK_CONNECT_DEFAULT_DATASOURCE"

  // ---------------------------------------------------------------------
  // Label values
  // ---------------------------------------------------------------------

  predicate IsLabelChar(c: char) {
    PyText.IsLowerAlnum(c) || c == '-'
  }

  /** `[a-z0-9-]*[a-z0-9]` matching all of `s`: the star takes every
      character but the last, which must be alphanumeric. */
  predicate MatchesGroup(s: string)
    decreases |s|
  {
    if s == [] then false
    else if |s| == 1 then PyText.IsLowerAlnum(s[0])
    else IsLabelChar(s[0]) && MatchesGroup(s[1..])
  }

  /** `[a-z0-9]([a-z0-9-]*[a-z0-9])?` matching all of `s`. */
  predicate MatchesLabelPattern(s: string) {
    |s| >= 1 && PyText.IsLowerAlnum(s[0]) && (|s| == 1 || MatchesGroup(s[1..]))
  }

  /** `_is_valid_label_value` as written: `re.match` with a trailing `$`,
      which also matches just before a final newline. */
  predicate IsValidLabelValueAsWritten(value: string) {
    value != [] && |value| <= 63
    && (MatchesLabelPattern(value)
        || (value[|value| - 1] == '\n' && MatchesLabelPattern(value[..|value| - 1])))
  }

  /** `_is_valid_label_value` as the Google Cloud label format and its own
      docstring describe it: the whole value must match. */
  predicate IsValidLabelValue(value: string) {
    value != [] && |value| <= 63 && MatchesLabelPattern(value)
  }

  lemma {:induction false} MatchesGroupIff(s: string)
    ensures MatchesGroup(s) <==>
              s != [] && PyText.IsLowerAlnum(s[|s| - 1]) && forall i :: 0 <= i < |s| ==> IsLabelChar(s[i])
    decreases |s|
  {
    if |s| > 1 {
      MatchesGroupIff(s[1..]);
      assert forall i :: 1 <= i < |s| ==> s[i] == s[1..][i - 1];
    }
  }

  /** The label format in plain terms: 1 to 63 lowercase letters, digits and
      dashes, starting and ending with a letter or digit. */
  lemma LabelValueFormat(value: string)
    ensures IsValidLabelValue(value) <==>
              1 <= |value| <= 63
              && PyText.IsLowerAlnum(value[0]) && PyText.IsLowerAlnum(value[|value| - 1])
              && forall i :: 0 <= i < |value| ==> IsLabelChar(value[i])
  {
    if |value| > 1 {
      MatchesGroupIff(value[1..]);
      assert forall i :: 1 <= i < |value| ==> value[i] == value[1..][i - 1];
    }
  }

  /** The anchor lets `abc` followed by a newline through, although a newline
      is not a label character. */
  lemma TrailingNewlineAccepted()
    ensures IsValidLabelValueAsWritten("abc\n")
    ensures !IsValidLabelValue("abc\n")
  {
    assert "abc\n"[..3] == "abc";
    assert "abc"[1..] == "bc" && "bc"[1..] == "c";
    LabelValueFormat("abc\n");
    assert !IsLabelChar("abc\n"[3]);
  }

  /** Apart from that newline the two readings agree. */
  lemma AsWrittenDiffersOnlyByNewline(value: string)
    requires value == [] || value[|value| - 1] != '\n'
    ensures IsValidLabelValueAsWritten(value) <==> IsValidLabelValue(value)
  {
  }

  // ---------------------------------------------------------------------
  // Session configuration
  // ---------------------------------------------------------------------

  /** `AuthenticationConfig.AuthenticationType`. */
  datatype AuthType = Unspecified | ServiceAccount | EndUserCredentials

  function AuthTypeName(a: AuthType): string {
    match a
    case Unspecified => "AUTHENTICATION_TYPE_UNSPECIFIED"
    case ServiceAccount => "SERVICE_ACCOUNT"
    case EndUserCredentials => "END_USER_CREDENTIALS"
  }

  /** `AuthenticationType[name]`: lookup by member name; `None` where Python raises `KeyError`. */
  function AuthTypeByName(name: string): (r: Option<AuthType>)
    ensures r.Some? ==> AuthTypeName(r.value) == name
  {
    if name == "AUTHENTICATION_TYPE_UNSPECIFIED" then Some(Unspecified)
    else if name == "SERVICE_ACCOUNT" then Some(ServiceAccount)
    else if name == "END_USER_CREDENTIALS" then Some(EndUserCredentials)
    else None
  }

  lemma AuthTypeNameRoundTrip(a: AuthType)
    ensures AuthTypeByName(AuthTypeName(a)) == Some(a)
  {
  }

  /** The fields of the `Session` message the client reads or writes. An
      empty string and a zero duration are the unset values a proto field
      tests false for. */
  datatype SessionConfig = SessionConfig(
    version: string,
    properties: map<string, string>,
    labels: map<string, string>,
    authType: AuthType,
    serviceAccount: string,
    subnetwork: string,
    ttlSeconds: int,
    idleTtlSeconds: int,
    sparkConnect: bool,
    template: string)

  /** `Session()`: every field unset. */
  function EmptyConfig(): SessionConfig {
    SessionConfig("", map[], map[], Unspecified, "", "", 0, 0, false, "")
  }

  /** The exceptions `_get_dataproc_config` lets escape. */
  datatype ConfigError =
    | UnknownAuthType(name: string)           // KeyError from the enum lookup
    | NotAnInteger(variable: string, text: string)   // ValueError from int()

  /** `dict.update`: one assignment per entry of `src`. */
  method Update(dst: map<string, string>, src: map<string, string>) returns (r: map<string, string>)
    ensures r == dst + src
  {
    r := dst;
    var pending := src.Keys;
    while pending != {}
      invariant pending <= src.Keys
      invariant r == dst + map k | k in src.Keys - pending :: src[k]
      decreases pending
    {
      var k :| k in pending;
      r := r[k := src[k]];
      pending := pending - {k};
    }
    assert (map k | k in src.Keys - {} :: src[k]) == src;
  }

  /** The loop that adds each default whose key is not already present. */
  method SetDefaults(dst: map<string, string>, defaults: map<string, string>) returns (r: map<string, string>)
    ensures r == defaults + dst
  {
    r := dst;
    var pending := defaults.Keys;
    while pending != {}
      invariant pending <= defaults.Keys
      invariant r == (map k | k in defaults.Keys - pending :: defaults[k]) + dst
      decreases pending
    {
      var k :| k in pending;
      if k !in r {
        r := r[k := defaults[k]];
      }
      pending := pending - {k};
    }
    assert (map k | k in defaults.Keys - {} :: defaults[k]) == defaults;
  }

  /** The labels a user may set: every entry but the system ones. */
  function UserLabels(labels: map<string, string>): (r: map<string, string>)
    ensures forall k :: k in r <==> k in labels && k !in SystemLabels
    ensures forall k :: k in r ==> r[k] == labels[k]
  {
    map k | k in labels && k !in SystemLabels :: labels[k]
  }

  /** The property names the BigQuery defaults set, and the session catalog class. */
  const ViewsEnabledKey := "spark.datasource.bigquery.viewsEnabled"
  const WriteMethodKey := "spark.datasource.bigquery.writeMethod"
  const CatalogKey := "spark.sql.catalog.spark_catalog"
  const HiveTableKey := "spark.sql.legacy.createHiveTableByDefault"
  const SourcesKey := "spark.sql.sources.default"
  const SessionCatalog := "com.google.cloud.spark.bigquery.BigQuerySparkSessionCatalog"

  /** The BigQuery connector defaults of `_get_dataproc_config`. */
  function BigQueryDefaults(): map<string, string> {
    map[
      ViewsEnabledKey := "true",
      WriteMethodKey := "direct",
      CatalogKey := SessionCatalog,
      HiveTableKey := "false",
      SourcesKey := "bigquery"
    ]
  }

  /** The first steps of `_get_dataproc_config`: the builder's options written
      over the properties, the Spark Connect marker set, and the runtime
      version defaulted. */
  function Prepared(options: map<string, string>, c: SessionConfig): SessionConfig {
    var c1 := c.(properties := c.properties + options, sparkConnect := true);
    if c1.version == "" then c1.(version := DefaultRuntimeVersion) else c1
  }

  /** The authentication type is unset and its variable names no member. */
  predicate AuthUnreadable(c: SessionConfig, env: Environment.Env) {
    c.authType == Unspecified && AuthTypeVar in env.vars && AuthTypeByName(env.vars[AuthTypeVar]).None?
  }

  /** A duration is unset and its variable is not an integer. */
  predicate IntUnreadable(current: int, variable: string, env: Environment.Env) {
    current == 0 && variable in env.vars && PyText.ParseInt(env.vars[variable]).None?
  }

  /** The authentication type after its fallback (the current one when the
      variable cannot be read). */
  function FallbackAuth(c: SessionConfig, env: Environment.Env): AuthType {
    if c.authType == Unspecified && AuthTypeVar in env.vars then AuthTypeByName(env.vars[AuthTypeVar]).GetOr(c.authType)
    else c.authType
  }

  function FallbackString(current: string, variable: string, env: Environment.Env): string {
    if current == "" && variable in env.vars then env.vars[variable] else current
  }

  function FallbackInt(current: int, variable: string, env: Environment.Env): int {
    if current == 0 && variable in env.vars then PyText.ParseInt(env.vars[variable]).GetOr(current) else current
  }

  /** The notebook id label value: the last path component of `COLAB_NOTEBOOK_ID`,
      when the validator as written accepts it. */
  function NotebookId(env: Environment.Env): (r: Option<string>)
    ensures r.Some? <==> NotebookVar in env.vars && IsValidLabelValueAsWritten(PyText.Basename(env.vars[NotebookVar]))
    ensures r.Some? ==> '/' !in r.value && PyText.EndsWith(env.vars[NotebookVar], r.value)
  {
    if NotebookVar in env.vars && IsValidLabelValueAsWritten(PyText.Basename(env.vars[NotebookVar]))
    then Some(PyText.Basename(env.vars[NotebookVar]))
    else None
  }

  /** The labels with the client label and, when valid, the notebook label written in. */
  function SystemLabelled(labels: map<string, string>, env: Environment.Env): map<string, string> {
    var l := labels[ClientLabelKey := Environment.ClientEnvironmentLabel(env)];
    match NotebookId(env)
    case Some(id) => l[NotebookLabelKey := id]
    case None => l
  }

  /** Whether the BigQuery defaults apply: the datasource variable is
      `bigquery` and the runtime is 2.3 (any other non-empty value only logs). */
  predicate BigQueryApplies(c: SessionConfig, env: Environment.Env) {
    DatasourceVar in env.vars && env.vars[DatasourceVar] == "bigquery" && c.version == "2.3"
  }

  /** What `_get_dataproc_config` leaves in the builder's configuration, and
      what it returns or raises. */
  datatype Outcome = Outcome(state: SessionConfig, result: Result<SessionConfig, ConfigError>)

  /** The environment fallbacks for the authentication type, service account,
      subnetwork, TTL and idle TTL, in that order; an unreadable variable
      raises and leaves the fields already filled. */
  function Fallbacks(c0: SessionConfig, env: Environment.Env): Outcome {
    if AuthUnreadable(c0, env) then Outcome(c0, Err(UnknownAuthType(env.vars[AuthTypeVar])))
    else
      var c3 := c0.(authType := FallbackAuth(c0, env),
                    serviceAccount := FallbackString(c0.serviceAccount, ServiceAccountVar, env),
                    subnetwork := FallbackString(c0.subnetwork, SubnetVar, env));
      if IntUnreadable(c3.ttlSeconds, TtlVar, env) then Outcome(c3, Err(NotAnInteger(TtlVar, env.vars[TtlVar])))
      else
        var c4 := c3.(ttlSeconds := FallbackInt(c3.ttlSeconds, TtlVar, env));
        if IntUnreadable(c4.idleTtlSeconds, IdleTtlVar, env) then Outcome(c4, Err(NotAnInteger(IdleTtlVar, env.vars[IdleTtlVar])))
        else
          var c5 := c4.(idleTtlSeconds := FallbackInt(c4.idleTtlSeconds, IdleTtlVar, env));
          Outcome(c5, Ok(c5))
  }

  function Final(options: map<string, string>, c: SessionConfig, env: Environment.Env): Outcome {
    var f := Fallbacks(Prepared(options, c), env);
    if f.result.Err? then f
    else
      var c5 := f.state.(labels := SystemLabelled(f.state.labels, env));
      var c6 := if BigQueryApplies(c5, env) then c5.(properties := BigQueryDefaults() + c5.properties) else c5;
      Outcome(c6, Ok(c6))
  }

  /** On success the merge leaves the user's labels with the system labels
      written in, and the options over the properties, with the BigQuery
      defaults under both when they apply. */
  lemma FinalShape(options: map<string, string>, c: SessionConfig, env: Environment.Env)
    requires Final(options, c, env).result.Ok?
    ensures var r := Final(options, c, env).result.value;
            && r.version == Prepared(options, c).version && r.sparkConnect
            && r.labels == SystemLabelled(c.labels, env)
            && r.properties == if BigQueryApplies(Prepared(options, c), env)
                               then BigQueryDefaults() + (c.properties + options)
                               else c.properties + options
  {
    var p := Prepared(options, c);
    FallbacksKeep(p, env);
    var s := Fallbacks(p, env).state;
    var c5 := s.(labels := SystemLabelled(s.labels, env));
    assert Final(options, c, env).result.value
           == if BigQueryApplies(c5, env) then c5.(properties := BigQueryDefaults() + c5.properties) else c5;
    assert c5.version == p.version && c5.properties == c.properties + options;
  }

  /** On success the fallbacks leave every field but the five they fill alone. */
  lemma FallbacksKeep(c0: SessionConfig, env: Environment.Env)
    requires Fallbacks(c0, env).result.Ok?
    ensures var s := Fallbacks(c0, env).state;
            && Fallbacks(c0, env).result.value == s
            && s.version == c0.version && s.properties == c0.properties && s.labels == c0.labels
            && s.sparkConnect == c0.sparkConnect && s.template == c0.template
  {
    FallbacksFill(c0, env);
  }

  /** A builder option beats the same property of the configuration, which
      beats a BigQuery default; a BigQuery default appears only where neither
      sets the key. */
  lemma PropertyPrecedence(options: map<string, string>, c: SessionConfig, env: Environment.Env, k: string)
    requires Final(options, c, env).result.Ok?
    ensures var p := Final(options, c, env).result.value.properties;
            && (k in options ==> k in p && p[k] == options[k])
            && (k !in options && k in c.properties ==> k in p && p[k] == c.properties[k])
            && (k !in options && k !in c.properties ==>
                  (k in p <==> BigQueryApplies(Prepared(options, c), env) && k in BigQueryDefaults()))
  {
    FinalShape(options, c, env);
  }

  /** The runtime version is the configured one, or 2.3 when none was set. */
  lemma VersionDefaulted(options: map<string, string>, c: SessionConfig, env: Environment.Env)
    requires Final(options, c, env).result.Ok?
    ensures Final(options, c, env).result.value.version == if c.version == "" then DefaultRuntimeVersion else c.version
    ensures Final(options, c, env).result.value.sparkConnect
  {
    FinalShape(options, c, env);
  }

  /** On success the fallbacks fill each field from its variable or keep it. */
  lemma FallbacksFill(c0: SessionConfig, env: Environment.Env)
    requires Fallbacks(c0, env).result.Ok?
    ensures Fallbacks(c0, env).state
            == c0.(authType := FallbackAuth(c0, env),
                   serviceAccount := FallbackString(c0.serviceAccount, ServiceAccountVar, env),
                   subnetwork := FallbackString(c0.subnetwork, SubnetVar, env),
                   ttlSeconds := FallbackInt(c0.ttlSeconds, TtlVar, env),
                   idleTtlSeconds := FallbackInt(c0.idleTtlSeconds, IdleTtlVar, env))
    ensures !AuthUnreadable(c0, env) && !IntUnreadable(c0.ttlSeconds, TtlVar, env)
            && !IntUnreadable(c0.idleTtlSeconds, IdleTtlVar, env)
  {
  }

  /** An environment variable fills a field only when the configuration left it unset. */
  lemma EnvironmentFallbacks(options: map<string, string>, c: SessionConfig, env: Environment.Env)
    requires Final(options, c, env).result.Ok?
    ensures var r := Final(options, c, env).result.value;
            && r.serviceAccount == (if c.serviceAccount != "" then c.serviceAccount
                                    else if ServiceAccountVar in env.vars then env.vars[ServiceAccountVar] else "")
            && r.subnetwork == (if c.subnetwork != "" then c.subnetwork
                                else if SubnetVar in env.vars then env.vars[SubnetVar] else "")
            && (if c.authType != Unspecified || AuthTypeVar !in env.vars then r.authType == c.authType
                else AuthTypeByName(env.vars[AuthTypeVar]) == Some(r.authType))
            && r.template == c.template
  {
    FallbacksFill(Prepared(options, c), env);
  }

  /** The TTLs are read from their variables, as integers, only when unset. */
  lemma TtlFallbacks(options: map<string, string>, c: SessionConfig, env: Environment.Env)
    requires Final(options, c, env).result.Ok?
    ensures var r := Final(options, c, env).result.value;
            && (if c.ttlSeconds != 0 || TtlVar !in env.vars then r.ttlSeconds == c.ttlSeconds
                else PyText.ParseInt(env.vars[TtlVar]) == Some(r.ttlSeconds))
            && (if c.idleTtlSeconds != 0 || IdleTtlVar !in env.vars then r.idleTtlSeconds == c.idleTtlSeconds
                else PyText.ParseInt(env.vars[IdleTtlVar]) == Some(r.idleTtlSeconds))
  {
    FallbacksFill(Prepared(options, c), env);
  }

  /** The merge raises exactly when an unset field's variable cannot be read:
      an unknown authentication type name, or a TTL that is not an integer. */
  lemma ConfigErrors(options: map<string, string>, c: SessionConfig, env: Environment.Env)
    ensures Final(options, c, env).result.Err? <==>
              (c.authType == Unspecified && AuthTypeVar in env.vars && AuthTypeByName(env.vars[AuthTypeVar]).None?)
              || (c.ttlSeconds == 0 && TtlVar in env.vars && PyText.ParseInt(env.vars[TtlVar]).None?)
              || (c.idleTtlSeconds == 0 && IdleTtlVar in env.vars && PyText.ParseInt(env.vars[IdleTtlVar]).None?)
  {
  }

  /** The client label is always the detected environment; the notebook label
      is the notebook id when the validator as written accepts it, which makes
      it a valid label value unless it ends in a newline, and otherwise is
      left as it was; every other label is the configuration's own. */
  lemma SystemLabelsSet(options: map<string, string>, c: SessionConfig, env: Environment.Env, k: string)
    requires Final(options, c, env).result.Ok?
    ensures var l := Final(options, c, env).result.value.labels;
            && ClientLabelKey in l && l[ClientLabelKey] == Environment.ClientEnvironmentLabel(env)
            && (NotebookId(env).Some? ==> NotebookLabelKey in l && l[NotebookLabelKey] == NotebookId(env).value)
            && (NotebookId(env).Some? ==> IsValidLabelValueAsWritten(l[NotebookLabelKey]))
            && (NotebookId(env).Some? && !PyText.EndsWith(l[NotebookLabelKey], "\n") ==> IsValidLabelValue(l[NotebookLabelKey]))
            && (k !in SystemLabels ==> (k in l <==> k in c.labels) && (k in l ==> l[k] == c.labels[k]))
  {
    FinalShape(options, c, env);
    SystemLabelledFacts(c.labels, env, k);
  }

  lemma SystemLabelledFacts(labels: map<string, string>, env: Environment.Env, k: string)
    ensures var l := SystemLabelled(labels, env);
            && ClientLabelKey in l && l[ClientLabelKey] == Environment.ClientEnvironmentLabel(env)
            && (NotebookId(env).Some? ==> NotebookLabelKey in l && l[NotebookLabelKey] == NotebookId(env).value)
            && (NotebookId(env).Some? ==> IsValidLabelValueAsWritten(l[NotebookLabelKey]))
            && (NotebookId(env).Some? && !PyText.EndsWith(l[NotebookLabelKey], "\n") ==> IsValidLabelValue(l[NotebookLabelKey]))
            && (k !in SystemLabels ==> (k in l <==> k in labels) && (k in l ==> l[k] == labels[k]))
  {
  }

  /** A notebook path whose last component ends in a newline puts that
      newline into the label the session is created with. */
  lemma NewlineNotebookLabelled(labels: map<string, string>, env: Environment.Env)
    requires NotebookVar in env.vars && env.vars[NotebookVar] == "nb/abc\n"
    ensures NotebookLabelKey in SystemLabelled(labels, env)
    ensures SystemLabelled(labels, env)[NotebookLabelKey] == "abc\n"
    ensures !IsValidLabelValue(SystemLabelled(labels, env)[NotebookLabelKey])
  {
    var p := "nb/abc\n";
    assert p[..6] == "nb/abc" && p[..5] == "nb/ab" && p[..4] == "nb/a" && p[..3] == "nb/";
    assert PyText.Basename(p[..3]) == [];
    assert PyText.Basename(p) == "abc\n";
    TrailingNewlineAccepted();
  }

  /** With `bigquery` on runtime 2.3 every connector default is present,
      keeping any value already set; otherwise nothing is added. */
  lemma BigQueryDefaultsApplied(options: map<string, string>, c: SessionConfig, env: Environment.Env)
    requires Final(options, c, env).result.Ok?
    ensures var p := Final(options, c, env).result.value.properties;
            var before := c.properties + options;
            && (BigQueryApplies(Prepared(options, c), env) ==>
                  forall k :: k in BigQueryDefaults() ==>
                    k in p && p[k] == (if k in before then before[k] else BigQueryDefaults()[k]))
            && (!BigQueryApplies(Prepared(options, c), env) ==> p == before)
  {
    FinalShape(options, c, env);
  }

  /** A datasource other than `bigquery`, or a runtime other than 2.3, adds no property. */
  lemma OtherDatasourceIgnored(options: map<string, string>, c: SessionConfig, env: Environment.Env)
    requires Final(options, c, env).result.Ok?
    requires DatasourceVar in env.vars && env.vars[DatasourceVar] != "bigquery"
    ensures Final(options, c, env).result.value.properties == c.properties + options
  {
    FinalShape(options, c, env);
  }

  /** The environment-fallback section of `_get_dataproc_config`, step by
      step: each unset field is filled from its variable, and the first
      variable that cannot be read raises. */
  method ApplyFallbacks(c0: SessionConfig, env: Environment.Env) returns (o: Outcome)
    ensures o == Fallbacks(c0, env)
  {
    var a := ReadAuthType(c0, env);
    if a.Err? {
      return Outcome(c0, Err(a.error));
    }
    var c := c0.(authType := a.value);
    if c.serviceAccount == "" && ServiceAccountVar in env.vars {
      c := c.(serviceAccount := env.vars[ServiceAccountVar]);
    }
    if c.subnetwork == "" && SubnetVar in env.vars {
      c := c.(subnetwork := env.vars[SubnetVar]);
    }
    var ttl := ReadSeconds(c.ttlSeconds, TtlVar, env);
    if ttl.Err? {
      return Outcome(c, Err(ttl.error));
    }
    c := c.(ttlSeconds := ttl.value);
    var idle := ReadSeconds(c.idleTtlSeconds, IdleTtlVar, env);
    if idle.Err? {
      return Outcome(c, Err(idle.error));
    }
    c := c.(idleTtlSeconds := idle.value);
    return Outcome(c, Ok(c));
  }

  /** The authentication-type fallback: `AuthType[name]` of the variable when
      the type is unset, raising for a name that is no member. */
  method ReadAuthType(c: SessionConfig, env: Environment.Env) returns (r: Result<AuthType, ConfigError>)
    ensures r.Err? <==> AuthUnreadable(c, env)
    ensures r.Err? ==> r.error == UnknownAuthType(env.vars[AuthTypeVar])
    ensures r.Ok? ==> r.value == FallbackAuth(c, env)
  {
    if c.authType == Unspecified && AuthTypeVar in env.vars {
      var a := AuthTypeByName(env.vars[AuthTypeVar]);
      if a.None? {
        return Err(UnknownAuthType(env.vars[AuthTypeVar]));
      }
      return Ok(a.value);
    }
    return Ok(c.authType);
  }

  /** A TTL fallback: `int()` of the variable when the duration is unset,
      raising for text that is not an integer. */
  method ReadSeconds(current: int, variable: string, env: Environment.Env) returns (r: Result<int, ConfigError>)
    ensures r.Err? <==> IntUnreadable(current, variable, env)
    ensures r.Err? ==> r.error == NotAnInteger(variable, env.vars[variable])
    ensures r.Ok? ==> r.value == FallbackInt(current, variable, env)
  {
    if current == 0 && variable in env.vars {
      var n := PyText.ParseInt(env.vars[variable]);
      if n.None? {
        return Err(NotAnInteger(variable, env.vars[variable]));
      }
      return Ok(n.value);
    }
    return Ok(current);
  }

  /** The label section of `_get_dataproc_config`: the client label, then the
      notebook label when the validator as written accepts the notebook id. */
  method WriteSystemLabels(labels: map<string, string>, env: Environment.Env) returns (r: map<string, string>)
    ensures r == SystemLabelled(labels, env)
  {
    r := labels[ClientLabelKey := Environment.ClientEnvironmentLabel(env)];
    if NotebookVar in env.vars {
      var id := PyText.Basename(env.vars[NotebookVar]);
      if IsValidLabelValueAsWritten(id) {
        r := r[NotebookLabelKey := id];
      }
    }
  }

  /** The body of `_get_dataproc_config` on the configuration value: it
      returns the configuration as far as the steps got (the source updates
      it in place, so an exception leaves the earlier steps in it) and what
      the call returns or raises. */
  method Finalize(options: map<string, string>, start: SessionConfig, env: Environment.Env) returns (o: Outcome)
    ensures o == Final(options, start, env)
  {
    var props := Update(start.properties, options);
    var c := start.(properties := props, sparkConnect := true);
    if c.version == "" {
      c := c.(version := DefaultRuntimeVersion);
    }
    o := ApplyFallbacks(c, env);
    if o.result.Err? {
      return;
    }
    c := o.state;
    var labels := WriteSystemLabels(c.labels, env);
    c := c.(labels := labels);
    var datasource := if DatasourceVar in env.vars then env.vars[DatasourceVar] else "";
    if datasource != "" && c.version == "2.3" && datasource == "bigquery" {
      props := SetDefaults(c.properties, BigQueryDefaults());
      c := c.(properties := props);
    }
    return Outcome(c, Ok(c));
  }

  /** `DataprocSparkSession.Builder`: the options collected by `config(...)`
      and the session configuration the other setters write into. */
  class Builder {
    var options: map<string, string>
    var config: Option<SessionConfig>

    constructor()
      ensures options == map[] && config == None
    {
      options := map[];
      config := None;
    }

    /** The `dataproc_config` property: the configuration, an empty one until set. */
    function Current(): SessionConfig
      reads this
    {
      config.GetOr(EmptyConfig())
    }

    /** `config(key, value)` inherited from the Spark builder: records an option. */
    method Config(key: string, value: string)
      modifies this
      ensures options == old(options)[key := value] && config == old(config)
    {
      options := options[key := value];
    }

    /** `dataprocSessionConfig`: adopts the configuration and copies its
        properties into the options, over any earlier option. */
    method DataprocSessionConfig(c: SessionConfig)
      modifies this
      ensures options == old(options) + c.properties && config == Some(c)
    {
      config := Some(c);
      options := Update(options, c.properties);
    }

    method RuntimeVersion(version: string)
      modifies this
      ensures options == old(options) && config == Some(old(Current()).(version := version))
    {
      config := Some(Current().(version := version));
    }

    /** `serviceAccount` also selects service-account authentication. */
    method SetServiceAccount(account: string)
      modifies this
      ensures options == old(options)
      ensures config == Some(old(Current()).(serviceAccount := account, authType := ServiceAccount))
    {
      config := Some(Current().(serviceAccount := account, authType := ServiceAccount));
    }

    method SetAuthType(a: AuthType)
      modifies this
      ensures options == old(options) && config == Some(old(Current()).(authType := a))
    {
      config := Some(Current().(authType := a));
    }

    method Subnetwork(subnet: string)
      modifies this
      ensures options == old(options) && config == Some(old(Current()).(subnetwork := subnet))
    {
      config := Some(Current().(subnetwork := subnet));
    }

    method TtlSeconds(seconds: int)
      modifies this
      ensures options == old(options) && config == Some(old(Current()).(ttlSeconds := seconds))
    {
      config := Some(Current().(ttlSeconds := seconds));
    }

    method IdleTtlSeconds(seconds: int)
      modifies this
      ensures options == old(options) && config == Some(old(Current()).(idleTtlSeconds := seconds))
    {
      config := Some(Current().(idleTtlSeconds := seconds));
    }

    method SessionTemplate(template: string)
      modifies this
      ensures options == old(options) && config == Some(old(Current()).(template := template))
    {
      config := Some(Current().(template := template));
    }

    /** `labels`: the system labels are dropped, the rest merged over the existing ones. */
    method Labels(labels: map<string, string>)
      modifies this
      ensures options == old(options)
      ensures config == Some(old(Current()).(labels := old(Current()).labels + UserLabels(labels)))
    {
      var filtered: map<string, string> := map[];
      var pending := labels.Keys;
      while pending != {}
        invariant pending <= labels.Keys
        invariant filtered == map k | k in labels.Keys - pending && k !in SystemLabels :: labels[k]
        decreases pending
      {
        var k :| k in pending;
        if k !in SystemLabels {
          filtered := filtered[k := labels[k]];
        }
        pending := pending - {k};
      }
      assert filtered == UserLabels(labels);
      var c := Current();
      config := Some(c.(labels := c.labels + filtered));
    }

    /** `label(key, value)`: `labels` with one entry. */
    method Label(key: string, value: string)
      modifies this
      ensures options == old(options)
      ensures config == Some(old(Current()).(labels := old(Current()).labels + UserLabels(map[key := value])))
    {
      Labels(map[key := value]);
    }

    /** `_get_dataproc_config`: the merged configuration is stored in the
        builder whether or not a step raised. */
    method GetDataprocConfig(env: Environment.Env) returns (r: Result<SessionConfig, ConfigError>)
      modifies this
      ensures options == old(options)
      ensures config == Some(Final(old(options), old(Current()), env).state)
      ensures r == Final(old(options), old(Current()), env).result
    {
      var o := Finalize(options, Current(), env);
      config := Some(o.state);
      return o.result;
    }
  }

  /** The order the builder calls arrive in decides a property: an option set
      after `dataprocSessionConfig` beats the configuration's value. */
  method OptionPrecedenceScenario(env: Environment.Env) returns (value: Option<string>)
    requires AuthTypeVar !in env.vars && TtlVar !in env.vars && IdleTtlVar !in env.vars
    ensures value == Some("16")
  {
    var key := "spark.executor.cores";
    var b := new Builder();
    b.Config(key, "6");
    b.DataprocSessionConfig(EmptyConfig().(properties := map[key := "8"]));
    b.Config(key, "16");
    ghost var options, current := b.options, b.Current();
    assert key in options && options[key] == "16";
    var r := b.GetDataprocConfig(env);
    ConfigErrors(options, current, env);
    PropertyPrecedence(options, current, env, key);
    if r.Ok? && key in r.value.properties {
      value := Some(r.value.properties[key]);
    } else {
      value := None;
    }
  }

  // ---------------------------------------------------------------------
  // Requests and artifacts
  // ---------------------------------------------------------------------

  /** `_sql_lazy_transformation`: a plan carrying a SQL command (its text, or
      `None` for any other plan) is lazy when `select` is one of its words. */
  function SqlLazyTransformation(sql: Option<string>): bool {
    sql.Some? && "select" in PyText.Words(PyText.Lower(PyText.Strip(sql.value)))
  }

  /** The test is for `select` as a whitespace-delimited word, in any case. */
  lemma SqlLazyIffSelectWord(sql: Option<string>)
    ensures SqlLazyTransformation(sql) <==>
              sql.Some? && PyText.IsDelimitedWord(PyText.Lower(PyText.Strip(sql.value)), "select")
  {
    if sql.Some? {
      PyText.WordsAreDelimited(PyText.Lower(PyText.Strip(sql.value)), "select");
    }
  }

  /** A query that opens with a parenthesis glues `select` to it and is not
      recognised. */
  lemma ParenthesisedSelectNotLazy()
    ensures !PyText.IsDelimitedWord("(select 1)", "select")
  {
    var s := "(select 1)";
    forall i | 0 <= i <= |s|
      ensures !PyText.DelimitedAt(s, "select", i)
    {
      if 0 <= i && i + 6 <= |s| && s[i..i + 6] == "select" {
        assert s[i] == s[i..i + 6][0] == 's';
        assert i == 1;
      }
    }
  }

  /** `addArtifacts` accepts at most one of its four kind flags. */
  function CheckArtifactFlags(pypi: bool, file: bool, pyfile: bool, archive: bool): (r: Result<(), string>)
    ensures r.Err? <==> (pypi && (file || pyfile || archive)) || (file && (pyfile || archive)) || (pyfile && archive)
  {
    var count := (if pypi then 1 else 0) + (if file then 1 else 0) + (if pyfile then 1 else 0) + (if archive then 1 else 0);
    if count > 1 then Err("'pyfile', 'archive', 'file' and/or 'pypi' cannot be True together.") else Ok(())
  }
}
