/** The console application of `gcp_vm_manager/main.py`: the action menu
    offered for a VM status, the parse of the user's answer, and the
    linear `main` pipeline validate, authenticate, query, choose, act. */
module Console {
  import opened Wrappers
  import opened Text
  import opened Config

  /** The three answers `get_user_choice` returns: 'start', 'stop', 'nothing'. */
  datatype Action = Start | Stop | Nothing

  const Running := "RUNNING"
  const Terminated := "TERMINATED"

  /** `display_menu`: the actions printed as options 1, 2 (and 3), in order. */
  function MenuOptions(status: string): (opts: seq<Action>)
    ensures |opts| == if status == Running || status == Terminated then 2 else 3
    ensures opts[|opts| - 1] == Nothing
    ensures Start in opts <==> status != Running
    ensures Stop in opts <==> status != Terminated
    ensures forall i, j :: 0 <= i < j < |opts| ==> opts[i] != opts[j]
  {
    if status == Running then [Stop, Nothing]
    else if status == Terminated then [Start, Nothing]
    else [Start, Stop, Nothing]
  }

  /** The text of menu option number `k`. */
  function Numeral(k: nat): string
    requires 1 <= k <= 9
  {
    [(48 + k) as char]
  }

  /** One pass of the `get_user_choice` loop: the stripped input line mapped
      to an action, or `None` for an invalid entry (the loop re-prompts). */
  function ParseChoice(status: string, line: string): (r: Option<Action>)
    ensures r.Some? ==> r.value in MenuOptions(status)
    ensures r == Some(Nothing) <==> Strip(line) == Numeral(|MenuOptions(status)|)
  {
    var choice := Strip(line);
    if status == Running || status == Terminated then
      if choice == "1" then Some(if status == Running then Stop else Start)
      else if choice == "2" then Some(Nothing)
      else None
    else
      if choice == "1" then Some(Start)
      else if choice == "2" then Some(Stop)
      else if choice == "3" then Some(Nothing)
      else None
  }

  /** The answers accepted are exactly the option numbers shown, each one
      selecting the action printed beside it. */
  lemma ChoiceMatchesMenu(status: string, line: string, a: Action)
    ensures ParseChoice(status, line) == Some(a) <==>
              exists k :: 1 <= k <= |MenuOptions(status)| && Strip(line) == Numeral(k) && MenuOptions(status)[k - 1] == a
  {
    var opts := MenuOptions(status);
    assert Numeral(1) == "1" && Numeral(2) == "2" && Numeral(3) == "3";
    if ParseChoice(status, line) == Some(a) {
      var k := if Strip(line) == "1" then 1 else if Strip(line) == "2" then 2 else 3;
      assert 1 <= k <= |opts| && Strip(line) == Numeral(k) && opts[k - 1] == a;
    }
  }

  /** An input line is rejected exactly when it is not one of the numbers
      shown, so the number of answers accepted equals the number of options. */
  lemma RejectedIffNotShown(status: string, line: string)
    ensures ParseChoice(status, line).None? <==>
              forall k :: 1 <= k <= |MenuOptions(status)| ==> Strip(line) != Numeral(k)
  {
    var opts := MenuOptions(status);
    if ParseChoice(status, line).Some? {
      ChoiceMatchesMenu(status, line, ParseChoice(status, line).value);
    } else {
      forall k | 1 <= k <= |opts| ensures Strip(line) != Numeral(k) {
        ChoiceMatchesMenu(status, line, opts[k - 1]);
      }
    }
  }

  /** `get_user_choice`: reads lines until one parses. `inputs` are the
      remaining lines; `None` means input ended before a valid answer. */
  method GetUserChoice(status: string, inputs: seq<string>) returns (choice: Option<Action>, used: nat)
    ensures used <= |inputs|
    ensures choice.Some? ==> 0 < used && ParseChoice(status, inputs[used - 1]) == choice
    ensures choice.None? ==> used == |inputs|
    ensures forall j :: 0 <= j < used && (choice.None? || j < used - 1) ==> ParseChoice(status, inputs[j]).None?
  {
    var i := 0;
    while i < |inputs|
      invariant 0 <= i <= |inputs|
      invariant forall j :: 0 <= j < i ==> ParseChoice(status, inputs[j]).None?
    {
      var c := ParseChoice(status, inputs[i]);
      if c.Some? {
        return c, i + 1;
      }
      i := i + 1;
    }
    return None, |inputs|;
  }

  /** The remote calls `main` makes, in order. */
  datatype RemoteCall = Authenticate | GetStatus | StartInstance | StopInstance

  /** What the remote side answers: whether authentication succeeds, the
      status `get_instance_status` returns (`None` on error), and whether
      `start_instance` / `stop_instance` report success. */
  datatype Remote = Remote(authOk: bool, status: Option<string>, startOk: bool, stopOk: bool)

  /** How `main` ends. `PromptsUnanswered` and `NoChoice` stand for the
      input stream closing at a configuration prompt or at the menu. */
  datatype ConsoleOutcome =
    | PromptsUnanswered
    | NoChoice
    | InvalidConfig
    | AuthFailed
    | NoStatus
    | Done(choice: Action, success: Option<bool>)

  /** Line `j` of `lines` is the first one from index `from` on that the
      menu for `status` accepts. */
  predicate FirstAccepted(status: string, lines: seq<string>, from: nat, j: nat) {
    && from <= j < |lines|
    && ParseChoice(status, lines[j]).Some?
    && forall j' :: from <= j' < j ==> ParseChoice(status, lines[j']).None?
  }

  /** The menu for `status` accepts none of `lines` from index `from` on. */
  predicate NoneAccepted(status: string, lines: seq<string>, from: nat) {
    forall j :: from <= j < |lines| ==> ParseChoice(status, lines[j]).None?
  }

  /** `main`: load, validate, authenticate, query, choose, and make at most
      one start or stop request. The menu reads the lines left after the
      configuration prompts. */
  method RunConsole(f: FileState, env: Env, inputs: seq<string>, remote: Remote)
    returns (outcome: ConsoleOutcome, calls: seq<RemoteCall>)
    ensures StartInstance in calls <==> outcome.Done? && outcome.choice == Start
    ensures StopInstance in calls <==> outcome.Done? && outcome.choice == Stop
    ensures !(StartInstance in calls && StopInstance in calls)
    ensures calls == [] <==> outcome == PromptsUnanswered || outcome == InvalidConfig
    ensures outcome == PromptsUnanswered <==> |inputs| < MissingBefore(Merged(f, env), 4)
    ensures calls != [] <==>
              var prompts := MissingBefore(Merged(f, env), 4);
              prompts <= |inputs| && forall j :: 0 <= j < prompts ==> !AllSpace(inputs[j])
    ensures outcome == NoChoice || outcome == NoStatus || outcome == Done(Nothing, None) ==> calls == [Authenticate, GetStatus]
    ensures calls != [] ==> calls[0] == Authenticate && |calls| <= 3
    ensures outcome == AuthFailed <==> calls == [Authenticate]
    ensures outcome == AuthFailed ==> !remote.authOk
    ensures outcome == NoStatus ==> remote.status.None?
    ensures |calls| >= 2 ==> calls[1] == GetStatus && remote.authOk
    ensures |calls| == 3 ==> remote.status.Some?
    ensures outcome.Done? ==> remote.authOk && remote.status.Some? && outcome.choice in MenuOptions(remote.status.value)
    ensures outcome.Done? ==>
              var prompts := MissingBefore(Merged(f, env), 4);
              exists j: nat :: FirstAccepted(remote.status.value, inputs, prompts, j)
                          && ParseChoice(remote.status.value, inputs[j]) == Some(outcome.choice)
    ensures outcome == NoChoice ==>
              remote.status.Some? && NoneAccepted(remote.status.value, inputs, MissingBefore(Merged(f, env), 4))
    ensures outcome.Done? ==> outcome.success == match outcome.choice
                                                 case Start => Some(remote.startOk)
                                                 case Stop => Some(remote.stopOk)
                                                 case Nothing => None
  {
    var config, used := LoadConfig(f, env, inputs);
    if config.None? {
      return PromptsUnanswered, [];
    }
    var valid := ValidateConfig(config.value);
    if !valid {
      return InvalidConfig, [];
    }
    outcome, calls := Operate(inputs, used, remote);
  }

  /** What `main` does once the configuration validates: authenticate,
      query the status, read the menu answer from the lines after index
      `from`, and make at most one start or stop request. */
  method Operate(inputs: seq<string>, from: nat, remote: Remote)
    returns (outcome: ConsoleOutcome, calls: seq<RemoteCall>)
    requires from <= |inputs|
    ensures calls != [] && calls[0] == Authenticate && |calls| <= 3
    ensures outcome != PromptsUnanswered && outcome != InvalidConfig
    ensures StartInstance in calls <==> outcome.Done? && outcome.choice == Start
    ensures StopInstance in calls <==> outcome.Done? && outcome.choice == Stop
    ensures outcome == NoChoice || outcome == NoStatus || outcome == Done(Nothing, None) ==> calls == [Authenticate, GetStatus]
    ensures outcome == AuthFailed <==> calls == [Authenticate]
    ensures outcome == AuthFailed ==> !remote.authOk
    ensures outcome == NoStatus ==> remote.status.None?
    ensures |calls| >= 2 ==> calls[1] == GetStatus && remote.authOk
    ensures |calls| == 3 ==> remote.status.Some?
    ensures outcome.Done? ==> remote.authOk && remote.status.Some?
    ensures outcome.Done? ==>
              exists j: nat :: FirstAccepted(remote.status.value, inputs, from, j)
                          && ParseChoice(remote.status.value, inputs[j]) == Some(outcome.choice)
    ensures outcome == NoChoice ==> remote.status.Some? && NoneAccepted(remote.status.value, inputs, from)
    ensures outcome.Done? ==> outcome.success == match outcome.choice
                                                 case Start => Some(remote.startOk)
                                                 case Stop => Some(remote.stopOk)
                                                 case Nothing => None
  {
    calls := [Authenticate];
    if !remote.authOk {
      return AuthFailed, calls;
    }
    calls := calls + [GetStatus];
    if remote.status.None? {
      return NoStatus, calls;
    }
    var status := remote.status.value;
    var choice := ChooseAfter(status, inputs, from);
    if choice.None? {
      return NoChoice, calls;
    }
    match choice.value
    case Start =>
      calls := calls + [StartInstance];
      outcome := Done(Start, Some(remote.startOk));
    case Stop =>
      calls := calls + [StopInstance];
      outcome := Done(Stop, Some(remote.stopOk));
    case Nothing =>
      outcome := Done(Nothing, None);
  }


  /** The menu step of `main`: `get_user_choice` reading the lines left
      after index `from`. The action is that of the first line the menu
      accepts; `None` when it accepts none of them. */
  method ChooseAfter(status: string, inputs: seq<string>, from: nat) returns (choice: Option<Action>)
    requires from <= |inputs|
    ensures choice.Some? ==>
              exists j: nat :: FirstAccepted(status, inputs, from, j) && ParseChoice(status, inputs[j]) == choice
    ensures choice.None? ==> NoneAccepted(status, inputs, from)
  {
    var n;
    choice, n := GetUserChoice(status, inputs[from..]);
    if choice.None? {
      MenuLinesRejected(status, inputs, from, n);
    } else {
      MenuLineAccepted(status, inputs, from, n);
    }
  }

  /** The menu read the lines after index `used`, rejected the first
      `n - 1` of them and accepted the next: that is the first line from
      `used` on that the menu accepts. */
  lemma MenuLineAccepted(status: string, inputs: seq<string>, used: nat, n: nat)
    requires used < used + n <= |inputs|
    requires ParseChoice(status, inputs[used..][n - 1]).Some?
    requires forall j :: 0 <= j < n - 1 ==> ParseChoice(status, inputs[used..][j]).None?
    ensures FirstAccepted(status, inputs, used, used + n - 1)
    ensures ParseChoice(status, inputs[used + n - 1]) == ParseChoice(status, inputs[used..][n - 1])
  {
    forall j' | used <= j' < used + n - 1 ensures ParseChoice(status, inputs[j']).None? {
      assert inputs[j'] == inputs[used..][j' - used];
    }
  }

  /** The menu rejected every line after index `used`. */
  lemma MenuLinesRejected(status: string, inputs: seq<string>, used: nat, n: nat)
    requires used <= |inputs| && n == |inputs| - used
    requires forall j :: 0 <= j < n ==> ParseChoice(status, inputs[used..][j]).None?
    ensures NoneAccepted(status, inputs, used)
  {
    forall j | used <= j < |inputs| ensures ParseChoice(status, inputs[j]).None? {
      assert inputs[j] == inputs[used..][j - used];
    }
  }
}
