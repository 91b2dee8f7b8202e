/** The window of `gcp_vm_manager/gui.py` with its widgets stripped away:
    the configuration dialog's field shaping, the configuration summary, and
    `GCPVMManagerGUI` as a record of flags that its handlers update. */
module Window {
  import opened Wrappers
  import opened Text
  import opened Config
  import Console
  import opened Worker

  // ---------------------------------------------------------------------
  // ConfigDialog

  /** The raw text of the dialog's four line edits. */
  datatype DialogFields = DialogFields(projectId: string, zone: string, instanceName: string, serviceKeyPath: string)

  /** `dict.get(key, default)`. */
  function Get(c: Config, key: string, default: string): (v: string)
    ensures key in c ==> v == c[key]
    ensures key !in c ==> v == default
  {
    if key in c then c[key] else default
  }

  /** `ConfigDialog.load_config`: each edit starts with the field's value,
      or empty when the field is missing. */
  function Prefill(c: Config): (d: DialogFields)
    ensures ProjectId in c ==> d.projectId == c[ProjectId]
    ensures Zone in c ==> d.zone == c[Zone]
    ensures InstanceName in c ==> d.instanceName == c[InstanceName]
    ensures ServiceKeyPath in c ==> d.serviceKeyPath == c[ServiceKeyPath]
    ensures ProjectId !in c ==> d.projectId == ""
    ensures Zone !in c ==> d.zone == ""
    ensures InstanceName !in c ==> d.instanceName == ""
    ensures ServiceKeyPath !in c ==> d.serviceKeyPath == ""
  {
    DialogFields(Get(c, ProjectId, ""), Get(c, Zone, ""), Get(c, InstanceName, ""), Get(c, ServiceKeyPath, ""))
  }

  /** The dictionary literal `{"project_id": p, "zone": z, ...}`. */
  function FieldMap(p: string, z: string, i: string, k: string): (c: Config)
    ensures c.Keys == FieldKeys
    ensures c[ProjectId] == p && c[Zone] == z && c[InstanceName] == i && c[ServiceKeyPath] == k
    ensures IsComplete(c) <==> p != "" && z != "" && i != "" && k != ""
    ensures IsStripped(p) && IsStripped(z) && IsStripped(i) && IsStripped(k) ==>
              forall key :: key in c ==> IsStripped(c[key])
  {
    KeysDistinct();
    map[ProjectId := p, Zone := z, InstanceName := i, ServiceKeyPath := k]
  }

  /** `ConfigDialog.get_config`: exactly the four fields, each the stripped
      text of its edit; so a field is set exactly when its edit is not blank. */
  function GetConfig(d: DialogFields): (c: Config)
    ensures c.Keys == FieldKeys
    ensures c[ProjectId] == Strip(d.projectId) && c[Zone] == Strip(d.zone)
    ensures c[InstanceName] == Strip(d.instanceName) && c[ServiceKeyPath] == Strip(d.serviceKeyPath)
    ensures Has(c, ProjectId) <==> !AllSpace(d.projectId)
    ensures Has(c, Zone) <==> !AllSpace(d.zone)
    ensures Has(c, InstanceName) <==> !AllSpace(d.instanceName)
    ensures Has(c, ServiceKeyPath) <==> !AllSpace(d.serviceKeyPath)
  {
    StripSpec(d.projectId);
    StripSpec(d.zone);
    StripSpec(d.instanceName);
    StripSpec(d.serviceKeyPath);
    FieldMap(Strip(d.projectId), Strip(d.zone), Strip(d.instanceName), Strip(d.serviceKeyPath))
  }

  /** Opening the dialog on a configuration of four stripped fields and
      saving it untouched gives that configuration back. */
  lemma DialogRoundTrip(c: Config)
    requires c.Keys == FieldKeys
    requires IsStripped(c[ProjectId]) && IsStripped(c[Zone])
    requires IsStripped(c[InstanceName]) && IsStripped(c[ServiceKeyPath])
    ensures GetConfig(Prefill(c)) == c
  {
    var d := Prefill(c);
    var r := GetConfig(d);
    assert d == DialogFields(c[ProjectId], c[Zone], c[InstanceName], c[ServiceKeyPath]);
    StripFixes(d.projectId);
    StripFixes(d.zone);
    StripFixes(d.instanceName);
    StripFixes(d.serviceKeyPath);
    SameFields(r, c);
  }

  /** `ConfigDialog.save_and_accept`: validates the stripped fields and only
      then saves them; the dialog is accepted only when both succeed.
      `config` is what `get_config` returns for the fields. */
  method SaveAndAccept(store: ConfigStore, d: DialogFields, fault: IoFault) returns (accepted: bool, config: Config)
    modifies store
    ensures config == GetConfig(d)
    ensures accepted <==> IsComplete(config) && fault == NoFault
    ensures accepted ==> store.file == Holds(config)
    ensures !IsComplete(config) || fault == FaultBeforeChange ==> store.file == old(store.file)
    ensures IsComplete(config) && fault == FaultDuringChange ==> store.file == Unreadable
  {
    config := GetConfig(d);
    var valid := ValidateConfig(config);
    if !valid {
      return false, config;
    }
    accepted := store.SaveConfig(config, fault);
  }

  // ---------------------------------------------------------------------
  // Configuration summary (`update_config_display`)

  /** Written as two literals so that the verifier sees its characters. */
  const NoConfigText := "No configuration loaded. " + "Click Configure to set up."
  const NotSet := "❌ Not set"
  const MaxKeyDisplay := 50

  predicate IsSuffix(a: string, b: string) {
    |a| <= |b| && b[|b| - |a|..] == a
  }

  /** The service-key path as shown: a path longer than 50 characters becomes
      "..." followed by its last 47 characters. */
  function KeyDisplay(v: string): (r: string)
    ensures |r| == if |v| > MaxKeyDisplay then MaxKeyDisplay else |v|
    ensures |v| <= MaxKeyDisplay ==> r == v
    ensures |v| > MaxKeyDisplay ==> r[..3] == "..." && IsSuffix(r[3..], v)
  {
    if v != NotSet && |v| > MaxKeyDisplay then "..." + v[|v| - 47..] else v
  }

  /** The summary text: the fixed message for an empty configuration,
      otherwise one line per field, each showing the field's value or
      "❌ Not set", the service-key path shortened for display. */
  function ConfigText(c: Config): (t: string)
    ensures t == NoConfigText <==> c == map[]
    ensures c != map[] ==>
              t == "Project: " + Get(c, ProjectId, NotSet) + "\nZone: " + Get(c, Zone, NotSet)
                   + "\nInstance: " + Get(c, InstanceName, NotSet)
                   + "\nService Key: " + KeyDisplay(Get(c, ServiceKeyPath, NotSet))
  {
    if c == map[] then NoConfigText
    else
      var t := "Project: " + Get(c, ProjectId, NotSet) + "\nZone: " + Get(c, Zone, NotSet)
               + "\nInstance: " + Get(c, InstanceName, NotSet)
               + "\nService Key: " + KeyDisplay(Get(c, ServiceKeyPath, NotSet));
      assert t[0] == 'P';
      assert NoConfigText[0] == 'N';
      t
  }

  /** Each line of the summary shows its field's value when the key is
      present and "❌ Not set" when it is missing; a missing service key is
      never shortened. */
  lemma ConfigTextShowsFields(c: Config)
    requires c != map[]
    ensures ConfigText(c) ==
              "Project: " + (if ProjectId in c then c[ProjectId] else NotSet)
              + "\nZone: " + (if Zone in c then c[Zone] else NotSet)
              + "\nInstance: " + (if InstanceName in c then c[InstanceName] else NotSet)
              + "\nService Key: " + (if ServiceKeyPath in c then KeyDisplay(c[ServiceKeyPath]) else NotSet)
  {
    assert |NotSet| <= MaxKeyDisplay;
    assert KeyDisplay(Get(c, ServiceKeyPath, NotSet)) ==
           if ServiceKeyPath in c then KeyDisplay(c[ServiceKeyPath]) else NotSet;
  }

  // ---------------------------------------------------------------------
  // Status-dependent controls and error dialogs

  const Unknown := "Unknown"

  /** The enabled flags of the start and stop buttons after `update_status`;
      they agree with the actions the console menu offers for the status. */
  function StatusControls(status: string): (r: (bool, bool))
    ensures r.0 <==> Console.Start in Console.MenuOptions(status)
    ensures r.1 <==> Console.Stop in Console.MenuOptions(status)
  {
    if status == "RUNNING" then (false, true)
    else if status == "TERMINATED" then (true, false)
    else (true, true)
  }

  const Authentication := "authentication"
  const Connection := "connection"

  /** `handle_error` shows a warning dialog for these messages only; a
      message shorter than the shorter keyword never shows one. */
  function ShowsWarning(message: string): (w: bool)
    ensures w ==> |message| >= |Connection| == 10
  {
    Contains(Lower(message), Authentication) || Contains(Lower(message), Connection)
  }

  /** The test ignores case: a message warns exactly when its lower-cased
      form does. */
  lemma WarningIgnoresCase(message: string)
    ensures ShowsWarning(Lower(message)) == ShowsWarning(message)
  {
    LowerIdempotent(message);
  }

  /** Facts about the two keywords the warning looks for. */
  lemma KeywordLetters()
    ensures |Authentication| == 14 && Authentication[3] == 'h'
    ensures |Connection| == 10 && Connection[0] == 'c'
    ensures forall j :: 0 <= j < |Authentication| ==> Authentication[j] != ' '
    ensures forall j :: 0 <= j < |Connection| ==> Connection[j] != ' '
  {
  }

  /** A worker error caused by an exception warns exactly when the
      exception's own text mentions authentication or a connection: the
      fixed prefixes never do. The bare status failure never warns. */
  lemma WorkerErrorWarnsIffCause(error: string)
    ensures ShowsWarning(StatusErrorPrefix + error) <==> ShowsWarning(error)
    ensures ShowsWarning(StartErrorPrefix + error) <==> ShowsWarning(error)
    ensures ShowsWarning(StopErrorPrefix + error) <==> ShowsWarning(error)
    ensures !ShowsWarning(StatusFailedMessage)
  {
    WorkerMessageLetters();
    PrefixNeverWarns(StatusErrorPrefix, error);
    PrefixNeverWarns(StartErrorPrefix, error);
    PrefixNeverWarns(StopErrorPrefix, error);
    NeverWarns(StatusFailedMessage);
  }

  /** `s` has no 'h' and no 'c', in either case. */
  predicate LacksKeywordLetters(s: string) {
    forall i :: 0 <= i < |s| ==> s[i] != 'h' && s[i] != 'H' && s[i] != 'c' && s[i] != 'C'
  }

  /** The worker's fixed message texts spell neither keyword, and each
      prefix ends in a space. */
  lemma WorkerMessageLetters()
    ensures LacksKeywordLetters(StatusErrorPrefix) && StatusErrorPrefix[|StatusErrorPrefix| - 1] == ' '
    ensures LacksKeywordLetters(StartErrorPrefix) && StartErrorPrefix[|StartErrorPrefix| - 1] == ' '
    ensures LacksKeywordLetters(StopErrorPrefix) && StopErrorPrefix[|StopErrorPrefix| - 1] == ' '
    ensures LacksKeywordLetters(StatusFailedMessage)
  {
  }

  /** A message with neither 'h' nor 'c' in any case cannot mention
      "authentication" or "connection". */
  lemma NeverWarns(m: string)
    requires LacksKeywordLetters(m)
    ensures !ShowsWarning(m)
  {
    var lm := Lower(m);
    forall i | 0 <= i < |lm| ensures lm[i] != 'h' && lm[i] != 'c' {
      assert lm[i] == LowerChar(m[i]);
    }
    KeywordLetters();
    NoMatchWithoutChar(lm, Authentication, 3);
    NoMatchWithoutChar(lm, Connection, 0);
  }

  /** Text behind a prefix that cannot spell a keyword and ends in a space
      warns exactly when the text alone does. */
  lemma PrefixNeverWarns(p: string, error: string)
    requires p != [] && LacksKeywordLetters(p) && p[|p| - 1] == ' '
    ensures ShowsWarning(p + error) <==> ShowsWarning(error)
  {
    NeverWarns(p);
    var lp := Lower(p);
    LowerConcat(p, error);
    assert lp[|lp| - 1] == ' ';
    KeywordLetters();
    ContainsAfterPrefix(lp, Lower(error), Authentication);
    ContainsAfterPrefix(lp, Lower(error), Connection);
  }

  // ---------------------------------------------------------------------
  // GCPVMManagerGUI

  /** Enabled flags of the start, stop, refresh and cancel buttons, and
      whether the progress bar is visible. */
  datatype Controls = Controls(start: bool, stop: bool, refresh: bool, cancel: bool, progress: bool)

  /** The worker method a handler hands to the worker thread. */
  datatype Job = StatusJob | StartJob | StopJob

  /** The message box `initialize_vm_manager` raises, if any. */
  datatype Alert = NoAlert | AuthFailedAlert | InitErrorAlert

  /** All four fields are present (possibly empty), so `GCPVMManager` can
      be constructed without a `KeyError`. */
  predicate FieldsPresent(c: Config) {
    ProjectId in c && Zone in c && InstanceName in c && ServiceKeyPath in c
  }

  class ManagerWindow {
    const store: ConfigStore
    var config: Config
    /** `self.vm_manager` is set. */
    var hasVmManager: bool
    /** `self.worker` (and its thread) is set. */
    var hasWorker: bool
    /** The 30-second auto-refresh timer is running. */
    var timerActive: bool
    var controls: Controls
    /** The status label's text. */
    var statusText: string
    /** The configuration label's text. */
    var configText: string
    /** Every job handed to the worker thread, in order. */
    var dispatched: seq<Job>
    /** Delayed refreshes scheduled after a successful operation, not yet run. */
    var pendingRefreshes: nat

    /** What every handler keeps: a worker only exists beside a VM manager,
        the cancel button is enabled exactly while the progress bar shows. */
    ghost predicate Wired()
      reads this
    {
      (hasWorker ==> hasVmManager) && controls.cancel == controls.progress
    }

    /** ... and, once the initial configuration is loaded, the summary
        label shows the current configuration. */
    ghost predicate Valid()
      reads this
    {
      Wired() && configText == ConfigText(config)
    }

    /** `__init__`: the widgets' initial state, then `load_initial_config`. */
    constructor (store: ConfigStore, env: Env, authOk: bool)
      ensures Valid() && this.store == store
      ensures config == WithEnv(Contents(store.file), env)
      ensures hasWorker == hasVmManager
      ensures hasWorker <==> IsComplete(config) && authOk
      ensures controls == Controls(false, false, true, false, false)
      ensures statusText == Unknown && !timerActive && dispatched == [] && pendingRefreshes == 0
    {
      this.store := store;
      config := map[];
      hasVmManager := false;
      hasWorker := false;
      timerActive := false;
      controls := Controls(false, false, true, false, false);
      statusText := Unknown;
      configText := "No configuration loaded";
      dispatched := [];
      pendingRefreshes := 0;
      new;
      var _ := LoadInitialConfig(env, authOk);
    }

    /** `load_initial_config`: the saved configuration with the environment
        overrides; the VM manager is initialised only if it validates. */
    method LoadInitialConfig(env: Env, authOk: bool) returns (alert: Alert)
      requires Wired()
      modifies this
      ensures Valid()
      ensures config == WithEnv(Contents(store.file), env)
      ensures IsComplete(config) ==> hasWorker == hasVmManager == authOk
      ensures IsComplete(config) ==> alert == if authOk then NoAlert else AuthFailedAlert
      ensures !IsComplete(config) ==> hasWorker == old(hasWorker) && hasVmManager == old(hasVmManager) && alert == NoAlert
      ensures controls == old(controls) && statusText == old(statusText) && timerActive == old(timerActive)
      ensures dispatched == old(dispatched) && pendingRefreshes == old(pendingRefreshes)
    {
      var saved := store.LoadSavedConfig();
      alert := TakeConfig(WithEnv(saved, env), authOk);
    }

    /** `initialize_vm_manager`: drops any old worker, builds the VM manager
        and, if authentication succeeds, a new worker. */
    method InitializeVmManager(authOk: bool) returns (alert: Alert)
      requires Valid()
      modifies this
      ensures Valid()
      ensures hasWorker == hasVmManager
      ensures hasWorker <==> FieldsPresent(config) && authOk
      ensures alert == if !FieldsPresent(config) then InitErrorAlert else if authOk then NoAlert else AuthFailedAlert
      ensures config == old(config) && controls == old(controls) && statusText == old(statusText)
      ensures timerActive == old(timerActive) && dispatched == old(dispatched) && pendingRefreshes == old(pendingRefreshes)
    {
      if hasWorker {
        hasWorker := false;
      }
      if !FieldsPresent(config) {
        hasVmManager := false;
        return InitErrorAlert;
      }
      hasVmManager := true;
      if authOk {
        hasWorker := true;
        alert := NoAlert;
      } else {
        hasVmManager := false;
        alert := AuthFailedAlert;
      }
    }

    /** `show_config_dialog`, for one submission of the dialog: `fields` is
        what the user saved, `None` if the dialog was cancelled. The window
        takes the new configuration only if the dialog accepted it. */
    method ShowConfigDialog(fields: Option<DialogFields>, fault: IoFault, authOk: bool) returns (alert: Alert)
      requires Valid()
      modifies this, store
      ensures Valid()
      ensures fields.Some? && IsComplete(GetConfig(fields.value)) && fault == NoFault ==>
                config == GetConfig(fields.value) && store.file == Holds(config)
                && hasWorker == hasVmManager == authOk
                && alert == if authOk then NoAlert else AuthFailedAlert
      ensures fields.None? || !IsComplete(GetConfig(fields.value)) || fault != NoFault ==>
                config == old(config) && hasWorker == old(hasWorker) && hasVmManager == old(hasVmManager)
                && alert == NoAlert
      ensures fields.None? || !IsComplete(GetConfig(fields.value)) || fault == FaultBeforeChange ==> store.file == old(store.file)
      ensures fields.Some? && IsComplete(GetConfig(fields.value)) && fault == FaultDuringChange ==> store.file == Unreadable
      ensures controls == old(controls) && statusText == old(statusText) && timerActive == old(timerActive)
      ensures dispatched == old(dispatched) && pendingRefreshes == old(pendingRefreshes)
    {
      if fields.None? {
        return NoAlert;
      }
      var accepted, newConfig := SaveAndAccept(store, fields.value, fault);
      if !accepted {
        return NoAlert;
      }
      alert := TakeConfig(newConfig, authOk);
    }

    /** The steps `load_initial_config` and the accepted branch of
        `show_config_dialog` share: the window takes the configuration,
        redraws the summary, and initialises the VM manager if the
        configuration validates. */
    method TakeConfig(newConfig: Config, authOk: bool) returns (alert: Alert)
      requires Wired()
      modifies this
      ensures Valid()
      ensures config == newConfig
      ensures IsComplete(newConfig) ==> hasWorker == hasVmManager == authOk
      ensures IsComplete(newConfig) ==> alert == if authOk then NoAlert else AuthFailedAlert
      ensures !IsComplete(newConfig) ==> hasWorker == old(hasWorker) && hasVmManager == old(hasVmManager) && alert == NoAlert
      ensures controls == old(controls) && statusText == old(statusText) && timerActive == old(timerActive)
      ensures dispatched == old(dispatched) && pendingRefreshes == old(pendingRefreshes)
    {
      config := newConfig;
      configText := ConfigText(config);
      var valid := ValidateConfig(newConfig);
      if valid {
        alert := InitializeVmManager(authOk);
      } else {
        alert := NoAlert;
      }
    }

    /** `reset_config`: if confirmed and the saved file is cleared, forgets
        the configuration, the VM manager and the worker. The timer, the
        refresh and cancel buttons and the progress bar are left alone. */
    method ResetConfig(confirmed: bool, fault: IoFault) returns (cleared: bool)
      requires Valid()
      modifies this, store
      ensures Valid()
      ensures cleared <==> confirmed && (fault == NoFault || (fault == FaultDuringChange && old(store.file) == Absent))
      ensures cleared ==> store.file == Absent && config == map[] && configText == NoConfigText
      ensures cleared ==> !hasVmManager && !hasWorker && statusText == Unknown
      ensures cleared ==> controls == old(controls).(start := false, stop := false)
      ensures !cleared ==> store.file == old(store.file) && config == old(config) && statusText == old(statusText)
      ensures !cleared ==> hasVmManager == old(hasVmManager) && hasWorker == old(hasWorker) && controls == old(controls)
      ensures timerActive == old(timerActive) && dispatched == old(dispatched) && pendingRefreshes == old(pendingRefreshes)
    {
      if !confirmed {
        return false;
      }
      cleared := store.ClearSavedConfig(fault);
      if cleared {
        config := map[];
        hasVmManager := false;
        hasWorker := false;
        configText := ConfigText(config);
        statusText := Unknown;
        controls := controls.(start := false, stop := false);
      }
    }

    /** `refresh_status`: without both a worker and a VM manager nothing
        changes; otherwise a status job is dispatched, refresh is disabled
        and cancel and progress are shown. No request is refused as busy. */
    method RefreshStatus()
      requires Valid()
      modifies this
      ensures Valid()
      ensures old(hasWorker && hasVmManager) ==>
                controls == old(controls).(refresh := false, cancel := true, progress := true)
                && dispatched == old(dispatched) + [StatusJob]
      ensures !old(hasWorker && hasVmManager) ==> controls == old(controls) && dispatched == old(dispatched)
      ensures config == old(config) && hasVmManager == old(hasVmManager) && hasWorker == old(hasWorker)
      ensures statusText == old(statusText) && timerActive == old(timerActive) && pendingRefreshes == old(pendingRefreshes)
    {
      if !hasWorker || !hasVmManager {
        return;
      }
      controls := controls.(progress := true, cancel := true);
      controls := controls.(refresh := false);
      dispatched := dispatched + [StatusJob];
    }

    /** `update_status`: shows the status, re-enables refresh, hides the
        progress, and enables start/stop as the menu for that status would. */
    method UpdateStatus(status: string)
      requires Valid()
      modifies this
      ensures Valid()
      ensures statusText == status
      ensures controls == Controls(StatusControls(status).0, StatusControls(status).1, true, false, false)
      ensures config == old(config) && hasVmManager == old(hasVmManager) && hasWorker == old(hasWorker)
      ensures timerActive == old(timerActive) && dispatched == old(dispatched) && pendingRefreshes == old(pendingRefreshes)
    {
      statusText := status;
      controls := controls.(progress := false, cancel := false);
      controls := controls.(refresh := true);
      var (start, stop) := StatusControls(status);
      controls := controls.(start := start, stop := stop);
    }

    /** `start_vm`: without a worker nothing changes; otherwise a start job
        is dispatched and both start and stop are disabled. */
    method StartVm()
      requires Valid()
      modifies this
      ensures Valid()
      ensures old(hasWorker) ==>
                controls == old(controls).(start := false, stop := false, cancel := true, progress := true)
                && dispatched == old(dispatched) + [StartJob]
      ensures !old(hasWorker) ==> controls == old(controls) && dispatched == old(dispatched)
      ensures config == old(config) && hasVmManager == old(hasVmManager) && hasWorker == old(hasWorker)
      ensures statusText == old(statusText) && timerActive == old(timerActive) && pendingRefreshes == old(pendingRefreshes)
    {
      if !hasWorker {
        return;
      }
      controls := controls.(progress := true, cancel := true);
      controls := controls.(start := false, stop := false);
      dispatched := dispatched + [StartJob];
    }

    /** `stop_vm`: as `start_vm`, dispatching a stop job. */
    method StopVm()
      requires Valid()
      modifies this
      ensures Valid()
      ensures old(hasWorker) ==>
                controls == old(controls).(start := false, stop := false, cancel := true, progress := true)
                && dispatched == old(dispatched) + [StopJob]
      ensures !old(hasWorker) ==> controls == old(controls) && dispatched == old(dispatched)
      ensures config == old(config) && hasVmManager == old(hasVmManager) && hasWorker == old(hasWorker)
      ensures statusText == old(statusText) && timerActive == old(timerActive) && pendingRefreshes == old(pendingRefreshes)
    {
      if !hasWorker {
        return;
      }
      controls := controls.(progress := true, cancel := true);
      controls := controls.(start := false, stop := false);
      dispatched := dispatched + [StopJob];
    }

    /** `operation_completed`: hides the progress; a failure re-enables
        start, stop and refresh, a success leaves them and schedules a
        refresh when both the VM manager and the worker are still there. */
    method OperationCompleted(success: bool, message: string)
      requires Valid()
      modifies this
      ensures Valid()
      ensures success ==> controls == old(controls).(cancel := false, progress := false)
      ensures success ==> pendingRefreshes == old(pendingRefreshes) + if old(hasVmManager && hasWorker) then 1 else 0
      ensures !success ==> controls == old(controls).(start := true, stop := true, refresh := true, cancel := false, progress := false)
      ensures !success ==> pendingRefreshes == old(pendingRefreshes)
      ensures config == old(config) && hasVmManager == old(hasVmManager) && hasWorker == old(hasWorker)
      ensures statusText == old(statusText) && timerActive == old(timerActive) && dispatched == old(dispatched)
    {
      controls := controls.(progress := false, cancel := false);
      if success {
        if hasVmManager && hasWorker {
          pendingRefreshes := pendingRefreshes + 1;
        }
      } else {
        controls := controls.(start := true, stop := true, refresh := true);
      }
    }

    /** `handle_error`: hides the progress, disables start and stop,
        enables refresh and shows "Error"; the warning dialog appears exactly
        when the message mentions authentication or a connection. */
    method HandleError(message: string) returns (warned: bool)
      requires Valid()
      modifies this
      ensures Valid()
      ensures warned <==> ShowsWarning(message)
      ensures controls == Controls(false, false, true, false, false) && statusText == "Error"
      ensures config == old(config) && hasVmManager == old(hasVmManager) && hasWorker == old(hasWorker)
      ensures timerActive == old(timerActive) && dispatched == old(dispatched) && pendingRefreshes == old(pendingRefreshes)
    {
      controls := controls.(progress := false, cancel := false);
      var lowered := Lower(message);
      warned := Contains(lowered, Authentication) || Contains(lowered, Connection);
      controls := controls.(refresh := true, start := false, stop := false);
      statusText := "Error";
    }

    /** `toggle_auto_refresh`. */
    method ToggleAutoRefresh()
      requires Valid()
      modifies this
      ensures Valid()
      ensures timerActive == !old(timerActive)
      ensures config == old(config) && hasVmManager == old(hasVmManager) && hasWorker == old(hasWorker)
      ensures controls == old(controls) && statusText == old(statusText)
      ensures dispatched == old(dispatched) && pendingRefreshes == old(pendingRefreshes)
    {
      timerActive := !timerActive;
    }

    /** `cancel_operations`: stops the timer, drops the worker (the VM
        manager stays), and resets the controls with status "Cancelled". */
    method CancelOperations()
      requires Valid()
      modifies this
      ensures Valid()
      ensures !timerActive && !hasWorker && hasVmManager == old(hasVmManager)
      ensures controls == Controls(false, false, true, false, false) && statusText == "Cancelled"
      ensures config == old(config) && dispatched == old(dispatched) && pendingRefreshes == old(pendingRefreshes)
    {
      if timerActive {
        timerActive := false;
      }
      if hasWorker {
        hasWorker := false;
      }
      controls := controls.(progress := false, cancel := false);
      controls := controls.(refresh := true, start := false, stop := false);
      statusText := "Cancelled";
    }

    /** A signal from the worker arrives at the handler it is connected to. */
    method Receive(e: WorkerEvent) returns (warned: bool)
      requires Valid()
      modifies this
      ensures Valid()
      ensures e.StatusUpdated? ==> statusText == e.status && !warned
      ensures e.StatusUpdated? ==> controls == Controls(StatusControls(e.status).0, StatusControls(e.status).1, true, false, false)
      ensures e.ErrorOccurred? ==> statusText == "Error" && warned == ShowsWarning(e.message)
      ensures e.OperationCompleted? ==> statusText == old(statusText) && !warned
      ensures e.OperationCompleted? && e.success ==>
                controls == old(controls).(cancel := false, progress := false)
                && pendingRefreshes == old(pendingRefreshes) + if old(hasVmManager && hasWorker) then 1 else 0
      ensures e.OperationCompleted? && !e.success ==>
                controls == old(controls).(start := true, stop := true, refresh := true, cancel := false, progress := false)
      ensures e.ErrorOccurred? ==> controls == Controls(false, false, true, false, false)
      ensures !(e.OperationCompleted? && e.success) ==> pendingRefreshes == old(pendingRefreshes)
      ensures !controls.progress && !controls.cancel
      ensures config == old(config) && hasVmManager == old(hasVmManager) && hasWorker == old(hasWorker)
      ensures timerActive == old(timerActive) && dispatched == old(dispatched)
    {
      match e
      case StatusUpdated(status) =>
        UpdateStatus(status);
        warned := false;
      case OperationCompleted(success, message) =>
        OperationCompleted(success, message);
        warned := false;
      case ErrorOccurred(message) =>
        warned := HandleError(message);
    }

    /** The running auto-refresh timer fires. */
    method TimerTick()
      requires Valid() && timerActive
      modifies this
      ensures Valid()
      ensures old(hasWorker && hasVmManager) <==> dispatched == old(dispatched) + [StatusJob]
      ensures old(hasWorker && hasVmManager) ==> controls == old(controls).(refresh := false, cancel := true, progress := true)
      ensures !old(hasWorker && hasVmManager) ==> dispatched == old(dispatched) && controls == old(controls)
      ensures config == old(config) && hasVmManager == old(hasVmManager) && hasWorker == old(hasWorker)
      ensures timerActive && statusText == old(statusText) && pendingRefreshes == old(pendingRefreshes)
    {
      RefreshStatus();
    }

    /** A delayed refresh scheduled by `operation_completed` comes due; it
        checks for the worker again, so after a cancel it does nothing. */
    method ScheduledRefreshDue()
      requires Valid() && pendingRefreshes > 0
      modifies this
      ensures Valid()
      ensures pendingRefreshes == old(pendingRefreshes) - 1
      ensures old(hasWorker && hasVmManager) <==> dispatched == old(dispatched) + [StatusJob]
      ensures old(hasWorker && hasVmManager) ==> controls == old(controls).(refresh := false, cancel := true, progress := true)
      ensures !old(hasWorker && hasVmManager) ==> dispatched == old(dispatched) && controls == old(controls)
      ensures config == old(config) && hasVmManager == old(hasVmManager) && hasWorker == old(hasWorker)
      ensures timerActive == old(timerActive) && statusText == old(statusText)
    {
      pendingRefreshes := pendingRefreshes - 1;
      RefreshStatus();
    }
  }

  // ---------------------------------------------------------------------
  // Consequences for callers

  /** Nothing rejects a second request while one is in flight: two refreshes
      in a row dispatch two status jobs. */
  method RefreshTwice(w: ManagerWindow)
    requires w.Valid() && w.hasWorker
    modifies w
    ensures w.Valid()
    ensures w.dispatched == old(w.dispatched) + [StatusJob, StatusJob]
    ensures !w.controls.refresh && w.controls.cancel
  {
    w.RefreshStatus();
    w.RefreshStatus();
  }

  /** After a cancel, refresh, start and stop dispatch nothing until the VM
      manager is initialised again. */
  method CancelThenRequest(w: ManagerWindow)
    requires w.Valid()
    modifies w
    ensures w.Valid()
    ensures !w.hasWorker && !w.timerActive
    ensures w.dispatched == old(w.dispatched)
    ensures w.controls == Controls(false, false, true, false, false) && w.statusText == "Cancelled"
  {
    w.CancelOperations();
    w.RefreshStatus();
    w.StartVm();
    w.StopVm();
  }
}
