/** Configuration handling of `gcp_vm_manager/main.py`: the four required
    fields, their validation, the environment overrides, the console prompts
    for what is still missing, and the single saved-configuration file. */
module Config {
  import opened Wrappers
  import opened Text

  /** A configuration dictionary: field name to value. */
  type Config = map<string, string>

  /** The process environment: variable name to value. */
  type Env = map<string, string>

  const ProjectId := "project_id"
  const Zone := "zone"
  const InstanceName := "instance_name"
  const ServiceKeyPath := "service_key_path"

  /** The fields `validate_config` requires, in the order it checks them
      and in the order `load_config` prompts for them. */
  const RequiredFields: seq<string> := [ProjectId, Zone, InstanceName, ServiceKeyPath]

  const FieldKeys: set<string> := {ProjectId, Zone, InstanceName, ServiceKeyPath}

  /** The four field names are different strings. */
  lemma KeysDistinct()
    ensures ProjectId != Zone && ProjectId != InstanceName && ProjectId != ServiceKeyPath
    ensures Zone != InstanceName && Zone != ServiceKeyPath && InstanceName != ServiceKeyPath
  {
    assert |ProjectId| == 10 && |Zone| == 4 && |InstanceName| == 13 && |ServiceKeyPath| == 16;
  }

  /** Two configurations holding exactly the four fields are equal when
      the fields agree. */
  lemma SameFields(r: Config, c: Config)
    requires r.Keys == FieldKeys && c.Keys == FieldKeys
    requires r[ProjectId] == c[ProjectId] && r[Zone] == c[Zone]
    requires r[InstanceName] == c[InstanceName] && r[ServiceKeyPath] == c[ServiceKeyPath]
    ensures r == c
  {
    forall key | key in c ensures r[key] == c[key] {
      assert key in FieldKeys;
    }
  }

  /** The environment variable that overrides each field. */
  const ProjectIdVar := "GCP_PROJECT_ID"
  const ZoneVar := "GCP_ZONE"
  const InstanceNameVar := "GCP_INSTANCE_NAME"
  const ServiceKeyPathVar := "GCP_SERVICE_KEY_PATH"

  /** `config.get(key)` (or `os.getenv(key)`) is truthy: the key is present
      and its value is not the empty string. */
  predicate Has(c: map<string, string>, key: string) {
    key in c && c[key] != ""
  }

  /** The reference meaning of a valid configuration: all four fields are
      present and non-empty. Nothing is trimmed, so a value of spaces counts. */
  predicate IsComplete(c: Config) {
    Has(c, ProjectId) && Has(c, Zone) && Has(c, InstanceName) && Has(c, ServiceKeyPath)
  }

  /** `validate_config`: walks the required fields and stops at the first
      one that is missing or empty. */
  method ValidateConfig(c: Config) returns (ok: bool)
    ensures ok <==> IsComplete(c)
  {
    CompleteIffRequired(c);
    for i := 0 to |RequiredFields|
      invariant forall j :: 0 <= j < i ==> Has(c, RequiredFields[j])
    {
      if !Has(c, RequiredFields[i]) {
        return false;
      }
    }
    return true;
  }

  /** Whitespace passes validation, and keys outside the four are ignored. */
  lemma ValidationIgnoresWhitespaceAndExtras(c: Config, extra: Config)
    requires forall k :: k in extra ==> k !in FieldKeys
    ensures IsComplete(map[ProjectId := " ", Zone := " ", InstanceName := " ", ServiceKeyPath := "  "])
    ensures IsComplete(c + extra) <==> IsComplete(c)
  {
    assert ProjectId !in extra && Zone !in extra && InstanceName !in extra && ServiceKeyPath !in extra;
  }

  /** `key` means the same in `r` as in `c`. */
  predicate SameAt(r: Config, c: Config, key: string) {
    (key in r <==> key in c) && (key in c ==> r[key] == c[key])
  }

  /** `key` holds the variable's value in `r` when the variable is set and
      non-empty, and otherwise means what it meant in `c`. */
  predicate OverriddenAt(r: Config, c: Config, env: Env, name: string, key: string) {
    if Has(env, name) then key in r && r[key] == env[name] else SameAt(r, c, key)
  }

  /** One `if os.getenv(name): config[key] = os.getenv(name)` step. */
  function Override(c: Config, env: Env, name: string, key: string): Config {
    if Has(env, name) then c[key := env[name]] else c
  }

  /** The four environment overrides applied after the saved configuration
      is loaded (shared by `load_config` and the window's initial load). */
  function WithEnv(c: Config, env: Env): (r: Config)
    ensures OverriddenAt(r, c, env, ProjectIdVar, ProjectId)
    ensures OverriddenAt(r, c, env, ZoneVar, Zone)
    ensures OverriddenAt(r, c, env, InstanceNameVar, InstanceName)
    ensures OverriddenAt(r, c, env, ServiceKeyPathVar, ServiceKeyPath)
    ensures forall k :: k !in FieldKeys ==> SameAt(r, c, k)
  {
    var c1 := Override(c, env, ProjectIdVar, ProjectId);
    var c2 := Override(c1, env, ZoneVar, Zone);
    var c3 := Override(c2, env, InstanceNameVar, InstanceName);
    Override(c3, env, ServiceKeyPathVar, ServiceKeyPath)
  }

  /** The state of `~/.gcp-vm-manager/config.json`: missing, holding a
      saved configuration, or present but not loadable as one. */
  datatype FileState = Absent | Holds(saved: Config) | Unreadable

  /** What `load_saved_config` returns for a file state: the saved
      configuration, or the empty map when the file is absent or unreadable. */
  function Contents(f: FileState): Config {
    match f
    case Holds(c) => c
    case Absent => map[]
    case Unreadable => map[]
  }

  /** Where an I/O exception is raised, if anywhere. `FaultBeforeChange`:
      before the file is touched, that is while creating the configuration
      directory or when `open` itself fails (the file keeps its contents).
      `FaultDuringChange`: once the file is being changed, that is while
      `json.dump` writes into the truncated file, or in `unlink`. */
  datatype IoFault = NoFault | FaultBeforeChange | FaultDuringChange

  /** The saved-configuration file, a single slot shared by the console
      application and the window. */
  class ConfigStore {
    var file: FileState

    constructor (initial: FileState)
      ensures file == initial
    {
      file := initial;
    }

    /** `load_saved_config`: never fails; absence and unreadability both
        read as the empty configuration. */
    method LoadSavedConfig() returns (c: Config)
      ensures file.Holds? ==> c == file.saved
      ensures !file.Holds? ==> c == map[]
    {
      c := Contents(file);
    }

    /** `save_config`: writes `c` as it is, without validating it. A fault
        before the file is opened for writing leaves the file alone; a fault
        while writing leaves a truncated, unreadable file. */
    method SaveConfig(c: Config, fault: IoFault) returns (ok: bool)
      modifies this
      ensures ok <==> fault == NoFault
      ensures ok ==> file == Holds(c) && Contents(file) == c
      ensures fault == FaultBeforeChange ==> file == old(file)
      ensures fault == FaultDuringChange ==> file == Unreadable && Contents(file) == map[]
    {
      match fault
      case NoFault =>
        file := Holds(c);
        ok := true;
      case FaultBeforeChange =>
        ok := false;
      case FaultDuringChange =>
        file := Unreadable;
        ok := false;
    }

    /** `clear_saved_config`: deletes the file if there is one. Clearing an
        absent file succeeds, so clearing is idempotent; a failed clear
        leaves the file as it was. A fault during the change is one raised
        by `unlink`, which is not called when there is no file. */
    method ClearSavedConfig(fault: IoFault) returns (ok: bool)
      modifies this
      ensures ok <==> fault == NoFault || (fault == FaultDuringChange && old(file) == Absent)
      ensures ok ==> file == Absent && Contents(file) == map[]
      ensures !ok ==> file == old(file)
    {
      if fault == FaultBeforeChange {
        return false;
      }
      if file != Absent {
        if fault == FaultDuringChange {
          return false;
        }
        file := Absent;
      }
      ok := true;
    }
  }

  /** Number of required fields among the first `n` that are missing or
      empty in `c`, that is, how many prompts precede field `n`. */
  function MissingBefore(c: Config, n: nat): (k: nat)
    requires n <= |RequiredFields|
    ensures k <= n
  {
    if n == 0 then 0
    else MissingBefore(c, n - 1) + (if Has(c, RequiredFields[n - 1]) then 0 else 1)
  }

  lemma {:induction false} MissingBeforeMonotone(c: Config, a: nat, b: nat)
    requires a <= b <= |RequiredFields|
    ensures MissingBefore(c, a) <= MissingBefore(c, b)
  {
    if a < b {
      MissingBeforeMonotone(c, a, b - 1);
    }
  }

  /** Every prompt answer consumed before field `n` belongs to exactly the
      field that was missing when it was read. */
  lemma {:induction false} PromptedField(c: Config, n: nat, j: nat) returns (i: nat)
    requires n <= |RequiredFields|
    requires j < MissingBefore(c, n)
    ensures i < n && !Has(c, RequiredFields[i]) && MissingBefore(c, i) == j
  {
    if j < MissingBefore(c, n - 1) {
      i := PromptedField(c, n - 1, j);
    } else {
      i := n - 1;
    }
  }

  /** `IsComplete` is the same as every entry of `RequiredFields` being set. */
  lemma CompleteIffRequired(c: Config)
    ensures IsComplete(c) <==> forall i :: 0 <= i < |RequiredFields| ==> Has(c, RequiredFields[i])
  {
    assert RequiredFields[0] == ProjectId && RequiredFields[1] == Zone;
    assert RequiredFields[2] == InstanceName && RequiredFields[3] == ServiceKeyPath;
  }

  /** The configuration `load_config` starts prompting from. */
  function Merged(f: FileState, env: Env): Config {
    WithEnv(Contents(f), env)
  }

  /** Field `i` of `c` is what `load_config` leaves there, starting from `m`:
      the merged value when it was non-empty, otherwise the stripped answer
      to the prompt for it. */
  predicate Filled(c: Config, m: Config, inputs: seq<string>, i: nat)
    requires i < |RequiredFields|
  {
    var key := RequiredFields[i];
    key in c &&
    if Has(m, key) then c[key] == m[key]
    else MissingBefore(m, i) < |inputs| && c[key] == Strip(inputs[MissingBefore(m, i)])
  }

  /** The state after the first `k` prompt steps of `load_config`. */
  ghost predicate FilledUpTo(c: Config, m: Config, inputs: seq<string>, k: nat)
    requires k <= |RequiredFields|
  {
    && MissingBefore(m, k) <= |inputs|
    && (forall key :: key !in RequiredFields[..k] ==> SameAt(c, m, key))
    && (forall i :: 0 <= i < k ==> Filled(c, m, inputs, i))
  }

  /** One `if not config.get(key): config[key] = input(...).strip()` step
      for field `k`; `None` when the input stream has ended (`input` raises). */
  method PromptIfMissing(c: Config, k: nat, inputs: seq<string>, used: nat, ghost m: Config)
    returns (r: Option<Config>, next: nat)
    requires k < |RequiredFields| && used == MissingBefore(m, k)
    requires FilledUpTo(c, m, inputs, k)
    ensures r.None? <==> !Has(m, RequiredFields[k]) && used == |inputs|
    ensures r.None? ==> next == used
    ensures r.Some? ==> next == MissingBefore(m, k + 1) && FilledUpTo(r.value, m, inputs, k + 1)
  {
    var key := RequiredFields[k];
    KeptFieldMeansMerged(c, m, inputs, k);
    if Has(c, key) {
      FilledKeepingField(c, m, inputs, k);
      return Some(c), used;
    }
    if used == |inputs| {
      return None, used;
    }
    FilledByAnswer(c, m, inputs, k);
    return Some(c[key := Strip(inputs[used])]), used + 1;
  }

  /** Before field `k` is handled, its entry is still the merged one. */
  lemma KeptFieldMeansMerged(c: Config, m: Config, inputs: seq<string>, k: nat)
    requires k < |RequiredFields|
    requires FilledUpTo(c, m, inputs, k)
    ensures Has(c, RequiredFields[k]) <==> Has(m, RequiredFields[k])
  {
    assert RequiredFields[k] !in RequiredFields[..k];
    assert SameAt(c, m, RequiredFields[k]);
  }

  /** A field that is already set is kept, and no answer is consumed. */
  lemma FilledKeepingField(c: Config, m: Config, inputs: seq<string>, k: nat)
    requires k < |RequiredFields|
    requires FilledUpTo(c, m, inputs, k) && Has(c, RequiredFields[k])
    ensures MissingBefore(m, k + 1) == MissingBefore(m, k)
    ensures FilledUpTo(c, m, inputs, k + 1)
  {
    var key := RequiredFields[k];
    KeptFieldMeansMerged(c, m, inputs, k);
    SliceExtend(RequiredFields, k);
    assert SameAt(c, m, key);
  }

  /** A missing field takes the stripped next answer. */
  lemma FilledByAnswer(c: Config, m: Config, inputs: seq<string>, k: nat)
    requires k < |RequiredFields|
    requires FilledUpTo(c, m, inputs, k) && !Has(c, RequiredFields[k])
    requires MissingBefore(m, k) < |inputs|
    ensures MissingBefore(m, k + 1) == MissingBefore(m, k) + 1
    ensures FilledUpTo(c[RequiredFields[k] := Strip(inputs[MissingBefore(m, k)])], m, inputs, k + 1)
  {
    KeptFieldMeansMerged(c, m, inputs, k);
    var v := Strip(inputs[MissingBefore(m, k)]);
    var c' := c[RequiredFields[k] := v];
    AnswerKeepsOthers(c, c', m, k);
    AnswerKeepsEarlier(c, c', m, inputs, k);
    assert Filled(c[RequiredFields[k] := v], m, inputs, k);
  }

  /** Setting field `k` leaves every key not yet handled as merged. */
  lemma AnswerKeepsOthers(c: Config, c': Config, m: Config, k: nat)
    requires k < |RequiredFields| && RequiredFields[k] in c'
    requires c' == c[RequiredFields[k] := c'[RequiredFields[k]]]
    requires forall key :: key !in RequiredFields[..k] ==> SameAt(c, m, key)
    ensures forall key :: key !in RequiredFields[..k + 1] ==> SameAt(c', m, key)
  {
    SliceExtend(RequiredFields, k);
  }

  /** Setting field `k` leaves the fields handled before it as they were. */
  lemma AnswerKeepsEarlier(c: Config, c': Config, m: Config, inputs: seq<string>, k: nat)
    requires k < |RequiredFields| && RequiredFields[k] in c'
    requires c' == c[RequiredFields[k] := c'[RequiredFields[k]]]
    requires forall i :: 0 <= i < k ==> Filled(c, m, inputs, i)
    ensures forall i :: 0 <= i < k ==> Filled(c', m, inputs, i)
  {
    RequiredDistinct();
    forall i | 0 <= i < k ensures Filled(c', m, inputs, i) {
      assert Filled(c, m, inputs, i);
    }
  }

  /** Taking one more element of a sequence appends that element. */
  lemma SliceExtend(s: seq<string>, k: nat)
    requires k < |s|
    ensures s[..k + 1] == s[..k] + [s[k]]
  {
    assert s[..k + 1][k] == s[k];
  }

  /** The required fields are four different keys. */
  lemma RequiredDistinct()
    ensures forall i, j :: 0 <= i < j < |RequiredFields| ==> RequiredFields[i] != RequiredFields[j]
  {
    KeysDistinct();
  }

  /** `load_config`: the saved configuration, then the environment overrides,
      then one prompt per required field still missing or empty, in field
      order, each answer stripped. `inputs` are the lines typed at the
      prompts; `None` means input ended before every prompt was answered. */
  method LoadConfig(f: FileState, env: Env, inputs: seq<string>) returns (r: Option<Config>, used: nat)
    ensures used <= |inputs|
    ensures r.None? <==> |inputs| < MissingBefore(Merged(f, env), 4)
    ensures r.Some? ==> used == MissingBefore(Merged(f, env), 4)
    ensures r.Some? ==> forall k :: k !in FieldKeys ==> SameAt(r.value, Merged(f, env), k)
    ensures r.Some? ==> forall i :: 0 <= i < |RequiredFields| ==> Filled(r.value, Merged(f, env), inputs, i)
    ensures r.Some? ==> (IsComplete(r.value) <==> forall j :: 0 <= j < used ==> !AllSpace(inputs[j]))
  {
    ghost var m := Merged(f, env);
    var config := Contents(f);
    config := WithEnv(config, env);
    used := 0;
    assert FilledUpTo(config, m, inputs, 0);
    var step: Option<Config>;
    step, used := PromptIfMissing(config, 0, inputs, used, m);
    if step.None? {
      MissingBeforeMonotone(m, 1, 4);
      return None, used;
    }
    config := step.value;
    step, used := PromptIfMissing(config, 1, inputs, used, m);
    if step.None? {
      MissingBeforeMonotone(m, 2, 4);
      return None, used;
    }
    config := step.value;
    step, used := PromptIfMissing(config, 2, inputs, used, m);
    if step.None? {
      MissingBeforeMonotone(m, 3, 4);
      return None, used;
    }
    config := step.value;
    step, used := PromptIfMissing(config, 3, inputs, used, m);
    if step.None? {
      return None, used;
    }
    config := step.value;
    assert RequiredFields[..4] == RequiredFields;
    LoadedCompleteIff(config, m, inputs);
    return Some(config), used;
  }

  /** After all four prompts, the configuration is complete exactly when no
      prompt answer was blank. */
  lemma LoadedCompleteIff(c: Config, m: Config, inputs: seq<string>)
    requires FilledUpTo(c, m, inputs, 4)
    ensures IsComplete(c) <==> forall j :: 0 <= j < MissingBefore(m, 4) ==> !AllSpace(inputs[j])
  {
    CompleteIffRequired(c);
    if forall j :: 0 <= j < MissingBefore(m, 4) ==> !AllSpace(inputs[j]) {
      forall i | 0 <= i < 4 ensures Has(c, RequiredFields[i]) {
        assert Filled(c, m, inputs, i);
        if !Has(m, RequiredFields[i]) {
          MissingBeforeMonotone(m, i + 1, 4);
          StripSpec(inputs[MissingBefore(m, i)]);
        }
      }
    }
    if IsComplete(c) {
      forall j | 0 <= j < MissingBefore(m, 4) ensures !AllSpace(inputs[j]) {
        var i := PromptedField(m, 4, j);
        assert Filled(c, m, inputs, i);
        StripSpec(inputs[j]);
      }
    }
  }
}
