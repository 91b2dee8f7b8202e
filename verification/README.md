# gcp-vm-manager, modelled in Dafny

The application starts and stops one Google Compute Engine VM. It reads a configuration of four fields: `project_id`, `zone`, `instance_name` and `service_key_path`. These come from a saved JSON file, from `GCP_*` environment variables and, in the console version, from prompts. It then authenticates with a service-account key, asks for the VM's status and offers the actions that fit that status. The PySide6 window does the same through buttons, with a worker thread making the remote calls.

This project models the decision logic under that I/O:

| file | module | models |
|---|---|---|
| `wrappers.dfy` | `Wrappers` | `Option` |
| `text.dfy` | `Text` | Python's `str.strip()`, `str.lower()` and substring test |
| `config.dfy` | `Config` | `validate_config`, the environment overrides, `load_config`'s prompts, and the saved-configuration file as a single-slot store (`ConfigStore`) |
| `console.dfy` | `Console` | `display_menu`, `get_user_choice` and the `main` pipeline of the console program |
| `worker.dfy` | `Worker` | `VMWorker`: one remote-call outcome mapped to one signal |
| `window.dfy` | `Window` | `ConfigDialog`'s field shaping, the summary text of `update_config_display`, and `GCPVMManagerGUI` as a class whose handlers update its flags |

Remote calls, the file system, the environment and the user's answers are all parameters:
- Remote calls are `authenticate`, `get_instance_status`, `start_instance` and `stop_instance`.
- The file system is `FileState` together with an `IoFault` saying where an exception is raised: before the file is touched (creating the directory, or `open` itself failing), or while the file is being changed (`json.dump` writing into the truncated file, or `unlink`).
- The environment is a map.
- The user's answers are a sequence of input lines, or the dialog's field texts.

In the window, the widgets are reduced to a few pieces of state:
- the enabled flags of start, stop, refresh and cancel;
- whether the progress bar is visible;
- the status label's text and the configuration label's text;
- whether a VM manager, a worker and the auto-refresh timer exist.

A handler that hands a job to the worker thread appends it to `dispatched`. A refresh delayed by `operation_completed` is counted in `pendingRefreshes`.

Three facts about the code shape the model:
- `validate_config` does not trim. A field of spaces is valid, and only the dialog's `get_config` strips.
- No request is refused as busy. A second refresh while one is in flight dispatches a second job (`Window.RefreshTwice`).
- Cancelling produces no event of its own. `cancel_operations` only quits the thread and resets the controls.

## Model

| member | source | states |
|---|---|---|
| Config.ValidateConfig | gcp_vm_manager/main.py:250-267 | The result is true exactly when all four required fields are present and non-empty. |
| Config.ValidationIgnoresWhitespaceAndExtras | gcp_vm_manager/main.py:260-267 | Values made only of spaces pass validation. Adding keys other than the four never changes the verdict. |
| Config.WithEnv | gcp_vm_manager/main.py:223-231 | A set, non-empty `GCP_*` variable replaces its field. An unset or empty one leaves the field exactly as saved. Keys outside the four are untouched. |
| Config.ConfigStore.LoadSavedConfig | gcp_vm_manager/main.py:188-203 | Returns the saved configuration. A missing or unreadable file reads as the empty map. |
| Config.ConfigStore.SaveConfig | gcp_vm_manager/main.py:149-167 | Succeeds exactly when no exception is raised, and then the file holds the given map unvalidated. A fault before the file is opened for writing (creating the directory, or `open` failing) leaves the file alone. A fault while `json.dump` writes leaves a truncated, unreadable file. |
| Config.ConfigStore.ClearSavedConfig | gcp_vm_manager/main.py:170-185 | Succeeds when nothing raises, including when there was no file (then `unlink` is not called), so clearing twice succeeds twice. After a success the file is absent and loads as the empty map. A failure leaves the file as it was. |
| Config.PromptedField | gcp_vm_manager/main.py:235-245 | The `j`-th answer read belongs to a field that was missing after merging, and to exactly the field whose prompt came `j`-th. |
| Config.PromptIfMissing | gcp_vm_manager/main.py:235-245 | One `if not config.get(key)` step. A field already set is kept and consumes no input. A missing field takes the next answer, stripped. The step fails only when the field is missing and the input has ended. |
| Config.LoadConfig | gcp_vm_manager/main.py:206-247 | Saved file, then environment overrides, then prompts. It fails exactly when fewer lines are typed than fields are missing. On success it consumes exactly as many answers as there were missing fields. Each field holds its merged value if that was non-empty, and otherwise the stripped answer to its prompt. Other keys are as merged. The result is complete exactly when no answer was blank. |
| Config.LoadedCompleteIff | gcp_vm_manager/main.py:235-247 | After the four prompt steps, the configuration validates exactly when none of the consumed answers was whitespace only. |
| Text.StripSpec | gcp_vm_manager/gui.py:169-172 | `strip()` keeps a contiguous middle slice of the text and removes only whitespace before and after it. The result has no whitespace at either end, is never longer, and is "" exactly for all-whitespace text. |
| Text.StripIdempotent | gcp_vm_manager/gui.py:169-172 | Stripping twice is the same as stripping once. |
| Text.LowerIdempotent | gcp_vm_manager/gui.py:557 | Lower-casing twice is lower-casing once. |
| Text.LowerConcat | gcp_vm_manager/gui.py:557 | Lower-casing distributes over concatenation. |
| Text.ContainsAfterPrefix | gcp_vm_manager/gui.py:557 | A keyword occurs in `prefix + text` exactly when it occurs in `text`, provided the prefix cannot hold or begin a match. |
| Console.MenuOptions | gcp_vm_manager/main.py:270-295 | Shows 2 options for RUNNING or TERMINATED and 3 otherwise. They are distinct, "do nothing" comes last, start is offered exactly when the status is not RUNNING, and stop exactly when it is not TERMINATED. |
| Console.ParseChoice | gcp_vm_manager/main.py:310-327 | One pass of the `get_user_choice` loop on a stripped line. An accepted action is always on the menu for the status, and "do nothing" is chosen exactly by the last number shown. |
| Console.ChoiceMatchesMenu | gcp_vm_manager/main.py:308-327 | A stripped input line selects an action exactly when it is the number printed beside that action in the menu. |
| Console.RejectedIffNotShown | gcp_vm_manager/main.py:308-327 | A line is rejected, and the user re-prompted, exactly when it is none of the numbers shown. So the accepted answers are as many as the options. |
| Console.GetUserChoice | gcp_vm_manager/main.py:298-330 | Returns the parse of the first line that is a valid choice, with every earlier line rejected. It returns nothing only after all input is consumed with every line rejected. |
| Console.RunConsole | gcp_vm_manager/main.py:333-388 | The prompts go unanswered exactly when fewer lines are typed than fields are missing. `AuthFailed` happens only when authentication fails, and `NoStatus` only when the status query returns None. The choice acted on is the action of the first line typed after the configuration answers that the menu accepts. `NoChoice` means the menu accepted none of those lines. `start_instance` is called exactly when that choice is start, and `stop_instance` exactly when it is stop, so never both. Before either come `authenticate` and `get_instance_status`, and only with a complete configuration, a successful authentication and a non-None status. No remote call is made when the prompts go unanswered or validation fails. The outcome reports the remote success flag of the call made. |
| Console.Operate | gcp_vm_manager/main.py:354-386 | After validation: authentication first, then the status query, then the menu answer read from the given line on, then at most one start or stop request matching that answer. It stops with `AuthFailed` only when authentication fails, and with `NoStatus` only when the query returns None. |
| Console.ChooseAfter | gcp_vm_manager/main.py:368-369 | The menu's answer is the action of the first line from the given index on that the menu accepts, and there is none exactly when it accepts none of them. |
| Worker.GetStatus | gcp_vm_manager/gui.py:37-46 | The worker emits `status_updated` exactly when a non-empty status is returned. `None`, "" and exceptions give `error_occurred`, with the exception text behind a fixed prefix. A `None` or "" status gives exactly "Failed to get VM status". It never emits `operation_completed`. |
| Worker.StartVm | gcp_vm_manager/gui.py:48-57 | The worker emits `operation_completed` with the manager's success flag exactly when no exception is raised. Otherwise it emits `error_occurred` with the exception text behind a fixed prefix. |
| Worker.StopVm | gcp_vm_manager/gui.py:59-68 | As `start_vm`, for the stop request. |
| Window.Prefill | gcp_vm_manager/gui.py:147-152 | Each edit starts with its field's value when that field is present, whatever the other fields, and a field missing from the configuration leaves its edit empty. |
| Window.FieldMap | gcp_vm_manager/gui.py:168-173 | The dictionary has exactly the four keys holding the given values. It validates exactly when none of them is empty. |
| Window.GetConfig | gcp_vm_manager/gui.py:166-173 | The dialog yields exactly the four keys, each the stripped text of its edit. A field counts as set exactly when its edit is not all whitespace. |
| Window.DialogRoundTrip | gcp_vm_manager/gui.py:147-173 | Opening the dialog on four stripped fields and saving it unchanged returns the same configuration. |
| Window.SaveAndAccept | gcp_vm_manager/gui.py:154-164 | The dialog is accepted exactly when the stripped fields validate and the save succeeds. An invalid form never reaches the file. |
| Window.KeyDisplay | gcp_vm_manager/gui.py:403-405 | A key path of more than 50 characters is shown as exactly 50: "..." followed by a suffix of the path. Shorter paths are shown unchanged. |
| Window.Get | gcp_vm_manager/gui.py:398-401 | `dict.get(key, default)`: the value when the key is present, the default otherwise. |
| Window.ConfigText | gcp_vm_manager/gui.py:392-412 | Gives the fixed "No configuration loaded" text exactly for the empty configuration. Otherwise it gives the four lines "Project: ", "Zone: ", "Instance: " and "Service Key: ", each followed by its field as `Get` finds it with "❌ Not set" as the default; the key is passed through `KeyDisplay`. |
| Window.ConfigTextShowsFields | gcp_vm_manager/gui.py:398-412 | For a non-empty configuration, each line shows the field's value when its key is present and "❌ Not set" when it is missing. Only a present service key is shortened. |
| Window.StatusControls | gcp_vm_manager/gui.py:497-507 | The start and stop buttons are enabled exactly when the console menu offers start and stop for the same status. |
| Window.ShowsWarning | gcp_vm_manager/gui.py:557 | The warning test on the lower-cased message. A message shorter than 10 characters, the length of "connection", never warns. |
| Window.WarningIgnoresCase | gcp_vm_manager/gui.py:557 | The test ignores case: a message warns exactly when its lower-cased form does. |
| Window.WorkerErrorWarnsIffCause | gcp_vm_manager/gui.py:551-567 | A worker error warns exactly when the exception text itself mentions "authentication" or "connection", since the fixed prefixes never do. "Failed to get VM status" never warns. |
| Window.NeverWarns | gcp_vm_manager/gui.py:557 | A message with no 'h' and no 'c', in either case, never raises the warning. |
| Window.PrefixNeverWarns | gcp_vm_manager/gui.py:557 | Behind a prefix that cannot spell either keyword and ends in a space, a message warns exactly when the message alone would. |
| Window.ManagerWindow.constructor | gcp_vm_manager/gui.py:179-198 | Sets up the initial widget state: start, stop and cancel disabled, no progress, status "Unknown", timer off (gui.py:225-298). Then it loads the saved configuration with overrides. A worker exists exactly when that configuration validates and authentication succeeds. |
| Window.ManagerWindow.LoadInitialConfig | gcp_vm_manager/gui.py:320-343 | The configuration is the saved one with the environment overrides, and the summary shows it. The VM manager is initialised only if it validates. The controls are untouched. |
| Window.ManagerWindow.InitializeVmManager | gcp_vm_manager/gui.py:420-458 | Any old worker is dropped. A worker and VM manager exist afterwards exactly when all four keys are present and authentication succeeds. Otherwise the authentication or initialisation alert is raised. |
| Window.ManagerWindow.ShowConfigDialog | gcp_vm_manager/gui.py:350-361 | Only an accepted dialog replaces the configuration: the saved file then holds it and the manager is reinitialised. A cancelled or refused dialog changes neither the configuration nor the worker. |
| Window.ManagerWindow.TakeConfig | gcp_vm_manager/gui.py:350-361 | Takes the configuration and redraws the summary. It initialises the VM manager exactly when the configuration validates. |
| Window.ManagerWindow.ResetConfig | gcp_vm_manager/gui.py:363-390 | Only a confirmed, successful clear forgets the configuration, VM manager and worker. It shows "Unknown" and disables start and stop, leaving the timer, refresh, cancel and progress alone. Otherwise nothing changes. |
| Window.ManagerWindow.RefreshStatus | gcp_vm_manager/gui.py:477-487 | Without both a worker and a VM manager nothing changes. Otherwise one status job is dispatched, refresh is disabled, and cancel and progress are shown. |
| Window.ManagerWindow.UpdateStatus | gcp_vm_manager/gui.py:489-509 | Shows the status and sets start and stop as `StatusControls` says. Refresh is enabled; cancel and progress are hidden. |
| Window.ManagerWindow.StartVm | gcp_vm_manager/gui.py:511-521 | Without a worker nothing changes. Otherwise one start job is dispatched, start and stop are disabled, and cancel and progress are shown. |
| Window.ManagerWindow.StopVm | gcp_vm_manager/gui.py:523-533 | As `start_vm`, dispatching a stop job. |
| Window.ManagerWindow.OperationCompleted | gcp_vm_manager/gui.py:535-549 | Progress is hidden in both cases. A failure re-enables start, stop and refresh. A success leaves them and schedules one refresh exactly when both the VM manager and the worker exist. |
| Window.ManagerWindow.HandleError | gcp_vm_manager/gui.py:551-567 | Ends with start and stop disabled, refresh enabled, no progress and status "Error". The warning dialog appears exactly when the lower-cased message contains "authentication" or "connection". |
| Window.ManagerWindow.ToggleAutoRefresh | gcp_vm_manager/gui.py:569-578 | Flips the timer and changes nothing else. |
| Window.ManagerWindow.CancelOperations | gcp_vm_manager/gui.py:592-616 | Leaves the timer off and no worker, while keeping the VM manager. Start and stop are disabled, refresh enabled, there is no progress, and the status is "Cancelled". |
| Window.ManagerWindow.Receive | gcp_vm_manager/gui.py:471-473 | Each worker signal reaches its connected handler, and all of them hide the progress and the cancel button. `status_updated` shows the status and sets the controls by `StatusControls`. `operation_completed(False, _)` re-enables start, stop and refresh. `operation_completed(True, _)` leaves them and schedules a refresh exactly when the manager and the worker exist. `error_occurred` leaves start and stop disabled, refresh enabled and status "Error", and warns exactly as `ShowsWarning` says. No other signal schedules a refresh. |
| Window.ManagerWindow.TimerTick | gcp_vm_manager/gui.py:194-195 | A tick of the running timer dispatches a status job exactly when a worker and a VM manager exist. Refresh is then disabled and progress and cancel shown; otherwise the controls are unchanged. |
| Window.ManagerWindow.ScheduledRefreshDue | gcp_vm_manager/gui.py:542-543 | A delayed refresh re-checks for the worker when it comes due, so after a cancel it dispatches nothing. When it dispatches, refresh is disabled and progress and cancel shown. |
| Window.RefreshTwice | gcp_vm_manager/gui.py:477-487 | Nothing refuses a second request while one is in flight: two refreshes dispatch two status jobs. |
| Window.CancelThenRequest | gcp_vm_manager/gui.py:592-616 | After a cancel, refresh, start and stop dispatch nothing, and the controls stay as the cancel left them. |

Every handler of `ManagerWindow` keeps `Valid()`:
- a worker exists only beside a VM manager;
- the cancel button is enabled exactly while the progress bar is shown;
- the configuration label shows `ConfigText` of the current configuration.

## Left out

- Qt itself is not modelled:
  - widgets, layouts, style sheets and icons;
  - the log area and every `log_message` and `print` text;
  - the texts of message boxes (only which alert appears is modelled);
  - the Browse button's file dialog (`browse_service_key`);
  - the auto-refresh button's caption and the configuration label's tooltip.
- Threads and timers are not modelled. Dispatching a job records it in `dispatched`, and the worker's answer arrives through `Receive` whenever the caller decides. The 2 second delay and the 30 second interval are not modelled; only the count of pending delayed refreshes and the timer's on/off state are.
- `closeEvent` stops the timer and the thread on exit; it changes no state the model observes afterwards.
- The remote side is not modelled. The work of `GCPVMManager` (authentication, status query, start, stop, main.py:21-133) is a parameter of each operation that uses it.
- JSON and the file system are not modelled:
  - the `~/.gcp-vm-manager/config.json` path and `mkdir`;
  - JSON values that are not strings, and a JSON file that is not an object;
  - an exception from `get_config_file_path` inside `update_config_display`, and with it the `except` branch of `load_initial_config` (gui.py:345-348).
- Window.ManagerWindow.ShowConfigDialog: models one submission of the dialog. A save refused by validation or by a failed write keeps the dialog open in the program, and the user may try again; that repetition is not modelled.
- Console.RunConsole: does not model `KeyboardInterrupt`, which at the menu exits with status 0 and elsewhere aborts the program. The input stream ending (`EOFError`) appears as `PromptsUnanswered` or `NoChoice`, and each `sys.exit(1)` as its own outcome value (`InvalidConfig`, `AuthFailed`, `NoStatus`).
- Text.LowerChar: folds only ASCII letters, where `str.lower()` folds all of Unicode. The keywords searched for are ASCII, but a non-ASCII capital that lower-cases to an ASCII letter (for example the Kelvin sign) is not folded.
