/** environment.py: which client the session is created from, read off
    environment variables and one installed-package probe, and reported as the
    value of the `dataproc-session-client` label. */
module Environment {
  import opened Wrappers

  /** The process environment, and whether the BigQuery Jupyter plugin
      package can be imported (the probe `is_bq_studio` makes). */
  datatype Env = Env(vars: map<string, string>, bigQueryPluginInstalled: bool)

  /** Label values of constants.py. */
  const Unknown := "unknown"
  const Colab := "colab"
  const ColabEnterprise := "colab-enterprise"
  const BqStudio := "bq-studio"
  const VsCode := "vscode"
  const Jupyter := "jupyter"
  const Workbench := "workbench-jupyter"
  const IntelliJ := "intellij"
  const PyCharm := "pycharm"

  /** `get_deploy_source`: `CLOUD_SDK_COMMAND_NAME`, if set. */
  function DeploySource(env: Env): (r: Option<string>)
    ensures r.Some? <==> "CLOUD_SDK_COMMAND_NAME" in env.vars
    ensures r.Some? ==> r.value == env.vars["CLOUD_SDK_COMMAND_NAME"]
  {
    if "CLOUD_SDK_COMMAND_NAME" in env.vars then Some(env.vars["CLOUD_SDK_COMMAND_NAME"]) else None
  }

  predicate IsVsCode(env: Env) {
    "VSCODE_PID" in env.vars
  }

  predicate IsJupyter(env: Env) {
    "JPY_PARENT_PID" in env.vars
  }

  predicate IsColab(env: Env) {
    "COLAB_RELEASE_TAG" in env.vars
  }

  predicate IsColabEnterprise(env: Env) {
    DeploySource(env) == Some("notebook_colab_enterprise")
  }

  predicate IsWorkbenchInstance(env: Env) {
    DeploySource(env) == Some("notebook_workbench")
  }

  predicate IsBqStudio(env: Env) {
    env.bigQueryPluginInstalled
  }

  /** `get_client_environment_label`: the first detector that fires, in the
      order Colab Enterprise, Colab, Workbench, BigQuery Studio, VS Code,
      Jupyter; `unknown` when none does. */
  function ClientEnvironmentLabel(env: Env): string {
    if IsColabEnterprise(env) then ColabEnterprise
    else if IsColab(env) then Colab
    else if IsWorkbenchInstance(env) then Workbench
    else if IsBqStudio(env) then BqStudio
    else if IsVsCode(env) then VsCode
    else if IsJupyter(env) then Jupyter
    else Unknown
  }

  /** The detectors as a priority list of (fires, label) pairs. */
  function Detectors(env: Env): seq<(bool, string)> {
    [(IsColabEnterprise(env), ColabEnterprise),
     (IsColab(env), Colab),
     (IsWorkbenchInstance(env), Workbench),
     (IsBqStudio(env), BqStudio),
     (IsVsCode(env), VsCode),
     (IsJupyter(env), Jupyter)]
  }

  /** Reference reading of a priority list: the label of the first pair that fires. */
  function FirstFiring(ds: seq<(bool, string)>, default: string): (r: string)
    ensures r == default || exists i :: 0 <= i < |ds| && ds[i].0 && ds[i].1 == r
  {
    if ds == [] then default else if ds[0].0 then ds[0].1 else FirstFiring(ds[1..], default)
  }

  /** The label is the first firing detector's label. */
  lemma LabelIsFirstFiring(env: Env)
    ensures ClientEnvironmentLabel(env) == FirstFiring(Detectors(env), Unknown)
  {
    var ds := Detectors(env);
    assert FirstFiring(ds[5..], Unknown) == if IsJupyter(env) then Jupyter else Unknown by {
      assert ds[5..] == [ds[5]] && ds[5..][1..] == [];
    }
    assert ds[4..][1..] == ds[5..];
    assert FirstFiring(ds[4..], Unknown) == if IsVsCode(env) then VsCode else FirstFiring(ds[5..], Unknown);
    assert ds[3..][1..] == ds[4..];
    assert FirstFiring(ds[3..], Unknown) == if IsBqStudio(env) then BqStudio else FirstFiring(ds[4..], Unknown);
    assert ds[2..][1..] == ds[3..];
    assert FirstFiring(ds[2..], Unknown) == if IsWorkbenchInstance(env) then Workbench else FirstFiring(ds[3..], Unknown);
    assert ds[1..][1..] == ds[2..];
    assert FirstFiring(ds[1..], Unknown) == if IsColab(env) then Colab else FirstFiring(ds[2..], Unknown);
  }

  /** The label is `unknown` exactly when no detector fires. */
  lemma UnknownIffNothingDetected(env: Env)
    ensures ClientEnvironmentLabel(env) == Unknown <==>
              !IsColabEnterprise(env) && !IsColab(env) && !IsWorkbenchInstance(env)
              && !IsBqStudio(env) && !IsVsCode(env) && !IsJupyter(env)
  {
  }

  /** The label is one of the seven values, never the IDE labels constants.py
      also declares. */
  lemma LabelRange(env: Env)
    ensures ClientEnvironmentLabel(env) in {Unknown, Colab, ColabEnterprise, BqStudio, VsCode, Jupyter, Workbench}
    ensures ClientEnvironmentLabel(env) != IntelliJ && ClientEnvironmentLabel(env) != PyCharm
  {
  }

  /** Colab Enterprise sets `COLAB_RELEASE_TAG` as well; its deploy source
      wins over every other signal. */
  lemma ColabEnterpriseWins(env: Env)
    requires "CLOUD_SDK_COMMAND_NAME" in env.vars && env.vars["CLOUD_SDK_COMMAND_NAME"] == "notebook_colab_enterprise"
    ensures ClientEnvironmentLabel(env) == ColabEnterprise
  {
  }

  /** A generic Jupyter kernel is reported only when no more specific signal is present. */
  lemma JupyterIsLast(env: Env)
    ensures ClientEnvironmentLabel(env) == Jupyter <==>
              IsJupyter(env) && !IsColabEnterprise(env) && !IsColab(env) && !IsWorkbenchInstance(env)
              && !IsBqStudio(env) && !IsVsCode(env)
  {
  }
}
