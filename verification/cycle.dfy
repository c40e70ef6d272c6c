/**
 One click on "Switch GPU" as the sequence of effects it has on the tray and
 the system: the UI thread shows the switching state and starts the worker;
 the worker issues the switch command and queues callbacks; the UI thread runs
 them in the order they were queued (`GLib.idle_add` keeps FIFO order at one
 priority, and both callbacks return `None`, so each runs once).
 */
module Cycle {
  import opened Tray

  /** What the applet does that is visible from outside: setting the label
      or the icon, and issuing (attempting to start) a command. Whether an
      issued command then did what it was asked is not an effect. */
  datatype Effect = SetLabel(text: string) | SetIcon(icon: Icon) | Exec(cmd: Command)

  /** Everything the outside world contributes to one switch cycle: the query
      `switch_gpu` makes, the switch command's outcome, the two queries
      `update_gpu` makes (one for the label, one inside `get_icon_path`), and
      the button the user presses in the logout dialog. */
  datatype World = World(
    before: QueryResult,
    switchRun: RunResult,
    labelQuery: QueryResult,
    iconQuery: QueryResult,
    response: int)

  const SwitchingLabel := "Switching..."

  /** What the queued callbacks find when they run: the label and icon
      `update_gpu` derives from its two queries, and the command the logout
      dialog's answer calls for. */
  datatype Observed = Observed(labelText: string, icon: Icon, logout: Option<Command>)

  function Observe(w: World): Observed {
    Observed(Label(DetectGpu(w.labelQuery)), QueryIcon(w.iconQuery), LogoutCommand(w.response))
  }

  /** `show_logout_notification`: the logout command, if the answer calls for it. */
  function LogoutEffects(logout: Option<Command>): seq<Effect> {
    match logout
    case Some(cmd) => [Exec(cmd)]
    case None => []
  }

  function CallbackEffects(cb: Callback, obs: Observed): seq<Effect> {
    match cb
    case UpdateGpu => [SetLabel(obs.labelText), SetIcon(obs.icon)]
    case ShowLogoutNotification => LogoutEffects(obs.logout)
  }

  /** The UI thread draining the idle queue in order. */
  function RunQueue(queue: seq<Callback>, obs: Observed): seq<Effect>
    decreases |queue|
  {
    if queue == [] then [] else CallbackEffects(queue[0], obs) + RunQueue(queue[1..], obs)
  }

  /** The part of `switch_gpu` that runs before and inside the worker. */
  function SwitchingEffects(target: string): seq<Effect> {
    [SetLabel(SwitchingLabel), SetIcon(LoadingIcon), Exec(SwitchTo(target))]
  }

  /** A cycle that requested `target`, whose switch command ended with `run`,
      and whose callbacks saw `obs`. */
  function Trace(target: string, run: RunResult, obs: Observed): seq<Effect> {
    SwitchingEffects(target) + RunQueue(DoSwitch(run), obs)
  }

  /** The whole cycle of one click: the switching state, the switch command,
      the tray update from the fresh queries, and at most one more effect. */
  function SwitchCycle(w: World): (t: seq<Effect>)
    ensures 5 <= |t| <= 6
    ensures t[0] == SetLabel(SwitchingLabel) && t[1] == SetIcon(LoadingIcon)
    ensures t[3] == SetLabel(Label(DetectGpu(w.labelQuery))) && t[4] == SetIcon(QueryIcon(w.iconQuery))
  {
    var obs := Observe(w);
    TraceShape(SwitchTarget(w.before), w.switchRun, obs);
    Trace(SwitchTarget(w.before), w.switchRun, obs)
  }

  /* Observations of a trace, defined independently of how traces are built. */

  function LabelOf(e: Effect): Option<string> {
    if e.SetLabel? then Some(e.text) else None
  }

  function IconOf(e: Effect): Option<Icon> {
    if e.SetIcon? then Some(e.icon) else None
  }

  /** The last value `pick` finds in the trace: what the tray shows at the end. */
  function LastOf<T>(trace: seq<Effect>, pick: Effect -> Option<T>): Option<T>
    decreases |trace|
  {
    if trace == [] then None
    else if pick(trace[|trace| - 1]).Some? then pick(trace[|trace| - 1])
    else LastOf(trace[..|trace| - 1], pick)
  }

  /** The final value comes from the later part when it has one. */
  lemma {:induction false} LastOfAppend<T>(a: seq<Effect>, b: seq<Effect>, pick: Effect -> Option<T>)
    ensures LastOf(a + b, pick) == if LastOf(b, pick).Some? then LastOf(b, pick) else LastOf(a, pick)
    decreases |b|
  {
    if b == [] {
      assert a + b == a;
    } else {
      var ab := a + b;
      assert ab[|ab| - 1] == b[|b| - 1];
      assert ab[..|ab| - 1] == a + b[..|b| - 1];
      LastOfAppend(a, b[..|b| - 1], pick);
    }
  }

  predicate IsSwitchCommand(e: Effect) {
    e.Exec? && e.cmd.SwitchTo?
  }

  function CountSwitchCommands(trace: seq<Effect>): nat
    decreases |trace|
  {
    if trace == [] then 0
    else (if IsSwitchCommand(trace[0]) then 1 else 0) + CountSwitchCommands(trace[1..])
  }

  lemma {:induction false} CountSwitchCommandsAppend(a: seq<Effect>, b: seq<Effect>)
    ensures CountSwitchCommands(a + b) == CountSwitchCommands(a) + CountSwitchCommands(b)
    decreases |a|
  {
    if a == [] {
      assert a + b == b;
    } else {
      assert (a + b)[0] == a[0];
      assert (a + b)[1..] == a[1..] + b;
      CountSwitchCommandsAppend(a[1..], b);
    }
  }

  /** The effects of a cycle in three parts: the switching state with the
      switch command, the tray update, and the logout decision when the
      switch succeeded. */
  lemma TraceParts(target: string, run: RunResult, obs: Observed)
    ensures Trace(target, run, obs) ==
      SwitchingEffects(target) + [SetLabel(obs.labelText), SetIcon(obs.icon)]
      + (if SwitchSucceeded(run) then LogoutEffects(obs.logout) else [])
  {
    var queued := DoSwitch(run);
    var upd := [SetLabel(obs.labelText), SetIcon(obs.icon)];
    if SwitchSucceeded(run) {
      assert queued == [UpdateGpu, ShowLogoutNotification];
      assert queued[1..] == [ShowLogoutNotification];
      assert RunQueue(queued[1..][1..], obs) == [];
      assert RunQueue(queued[1..], obs) == LogoutEffects(obs.logout) + [];
    } else {
      assert queued == [UpdateGpu];
      assert RunQueue(queued, obs) == upd + [];
    }
  }

  /** Where each part of a cycle sits in its trace. */
  lemma TraceShape(target: string, run: RunResult, obs: Observed)
    ensures var t := Trace(target, run, obs);
      && 5 <= |t| <= 6
      && t[0] == SetLabel(SwitchingLabel) && t[1] == SetIcon(LoadingIcon)
      && t[3] == SetLabel(obs.labelText) && t[4] == SetIcon(obs.icon)
  {
    TraceParts(target, run, obs);
  }

  /** The last value of a one-element trace. */
  lemma LastOfSingle<T>(e: Effect, pick: Effect -> Option<T>)
    ensures LastOf([e], pick) == pick(e)
  {
    assert [e][..0] == [];
  }

  lemma {:induction false} LastOfNone<T>(s: seq<Effect>, pick: Effect -> Option<T>)
    requires forall e :: e in s ==> pick(e) == None
    ensures LastOf(s, pick) == None
    decreases |s|
  {
    if s != [] {
      assert s[|s| - 1] in s;
      var s' := s[..|s| - 1];
      assert forall e :: e in s' ==> e in s;
      LastOfNone(s', pick);
    }
  }

  /** Whatever came before, an update followed by effects `pick` ignores
      leaves the update's value last. */
  lemma ShapeLast<T>(pre: seq<Effect>, l: Effect, i: Effect, tail: seq<Effect>,
                     pick: Effect -> Option<T>)
    requires pick(i).Some? || pick(l).Some?
    requires forall e :: e in tail ==> pick(e) == None
    ensures LastOf(pre + [l, i] + tail, pick) == if pick(i).Some? then pick(i) else pick(l)
  {
    LastOfNone(tail, pick);
    LastOfAppend(pre + [l, i], tail, pick);
    assert pre + [l, i] == (pre + [l]) + [i];
    LastOfAppend(pre + [l], [i], pick);
    LastOfSingle(i, pick);
    LastOfAppend(pre, [l], pick);
    LastOfSingle(l, pick);
  }

  /** A cycle ends showing what its callbacks observed, whatever it requested
      and however the switch command ended. */
  lemma TraceShowsObserved(target: string, run: RunResult, obs: Observed)
    ensures LastOf(Trace(target, run, obs), LabelOf) == Some(obs.labelText)
    ensures LastOf(Trace(target, run, obs), IconOf) == Some(obs.icon)
  {
    TraceParts(target, run, obs);
    var tail := if SwitchSucceeded(run) then LogoutEffects(obs.logout) else [];
    assert forall e :: e in tail ==> e.Exec?;
    ShapeLast(SwitchingEffects(target), SetLabel(obs.labelText), SetIcon(obs.icon), tail, LabelOf);
    ShapeLast(SwitchingEffects(target), SetLabel(obs.labelText), SetIcon(obs.icon), tail, IconOf);
  }

  /** At the end of every cycle, whatever the switch command did, the tray
      shows the freshly queried state: the label names what the label query
      detected and the icon is the one the icon query selects, never the
      loading icon and never a value derived from the requested target. */
  lemma CycleShowsQueriedState(w: World)
    ensures LastOf(SwitchCycle(w), LabelOf) == Some(Label(DetectGpu(w.labelQuery)))
    ensures LastOf(SwitchCycle(w), IconOf) == Some(QueryIcon(w.iconQuery))
    ensures LastOf(SwitchCycle(w), IconOf) != Some(LoadingIcon)
  {
    TraceShowsObserved(SwitchTarget(w.before), w.switchRun, Observe(w));
  }

  /** The label at the end of a cycle depends on the label query alone: two
      cycles that start from different states, ask for different modes or
      see different switch outcomes end with the same label when that query
      answers the same. */
  lemma LabelIgnoresRequest(w1: World, w2: World)
    requires w1.labelQuery == w2.labelQuery
    ensures LastOf(SwitchCycle(w1), LabelOf) == LastOf(SwitchCycle(w2), LabelOf)
  {
    CycleShowsQueriedState(w1);
    CycleShowsQueriedState(w2);
  }

  lemma {:induction false} CountNone(s: seq<Effect>)
    requires forall e :: e in s ==> !IsSwitchCommand(e)
    ensures CountSwitchCommands(s) == 0
    decreases |s|
  {
    if s != [] {
      assert s[0] in s;
      assert forall e :: e in s[1..] ==> e in s;
      CountNone(s[1..]);
    }
  }

  lemma CountOfSingle(e: Effect)
    ensures CountSwitchCommands([e]) == if IsSwitchCommand(e) then 1 else 0
  {
    assert [e][1..] == [];
  }

  /** One switch command between effects that are not switch commands. */
  lemma CountOnce(head: seq<Effect>, x: Effect, rest: seq<Effect>)
    requires forall e :: e in head ==> !IsSwitchCommand(e)
    requires IsSwitchCommand(x)
    requires forall e :: e in rest ==> !IsSwitchCommand(e)
    ensures CountSwitchCommands(head + [x] + rest) == 1
  {
    CountNone(head);
    CountNone(rest);
    CountOfSingle(x);
    CountSwitchCommandsAppend(head, [x]);
    CountSwitchCommandsAppend(head + [x], rest);
  }

  /** A cycle issues exactly one switch command, and it is the one for the
      requested mode; there is no retry. */
  lemma TraceRunsSwitchOnce(target: string, run: RunResult, obs: Observed)
    requires obs.logout.Some? ==> obs.logout.value == Logout
    ensures CountSwitchCommands(Trace(target, run, obs)) == 1
    ensures Trace(target, run, obs)[2] == Exec(SwitchTo(target))
  {
    TraceParts(target, run, obs);
    var head := [SetLabel(SwitchingLabel), SetIcon(LoadingIcon)];
    var x := Exec(SwitchTo(target));
    var tail := if SwitchSucceeded(run) then LogoutEffects(obs.logout) else [];
    var rest := [SetLabel(obs.labelText), SetIcon(obs.icon)] + tail;
    assert SwitchingEffects(target) == head + [x];
    assert forall e :: e in tail ==> e == Exec(Logout);
    assert Trace(target, run, obs) == head + [x] + rest;
    CountOnce(head, x, rest);
  }

  /** Every click issues (attempts to start) the switch command exactly once, for "nvidia" or
      "intel", whatever the outcome. */
  lemma CycleRunsSwitchOnce(w: World)
    ensures CountSwitchCommands(SwitchCycle(w)) == 1
    ensures SwitchCycle(w)[2] == Exec(SwitchTo(SwitchTarget(w.before)))
    ensures SwitchTarget(w.before) == "nvidia" || SwitchTarget(w.before) == "intel"
  {
    var obs := Observe(w);
    assert obs.logout == LogoutCommand(w.response);
    TraceRunsSwitchOnce(SwitchTarget(w.before), w.switchRun, obs);
  }

  /** An effect absent from the first parts and at most once at the end can
      only be the final effect. */
  lemma OnlyAtEnd(front: seq<Effect>, tail: seq<Effect>, x: Effect)
    requires x !in front && |tail| <= 1
    ensures forall i :: 0 <= i < |front + tail| && (front + tail)[i] == x ==>
      i == |front + tail| - 1 && i == |front|
  {
    forall i | 0 <= i < |front + tail| && (front + tail)[i] == x
      ensures i == |front|
    {
      if i < |front| {
        assert false;
      }
    }
  }

  /** Any logout in `t` is its final effect and directly follows the update
      to `icon`. */
  predicate LogoutLastAfter(t: seq<Effect>, icon: Icon) {
    forall i :: 0 <= i < |t| && t[i] == Exec(Logout) ==>
      i == |t| - 1 && 0 < i && t[i - 1] == SetIcon(icon)
  }

  /** A cycle runs the logout command exactly when its switch succeeded and
      the dialog asked for it, and then as its final effect, right after the
      tray's icon update. */
  lemma TraceLogsOut(target: string, run: RunResult, obs: Observed)
    ensures Exec(Logout) in Trace(target, run, obs) <==>
      run == Exited(0) && obs.logout == Some(Logout)
    ensures LogoutLastAfter(Trace(target, run, obs), obs.icon)
  {
    TraceParts(target, run, obs);
    var front := SwitchingEffects(target) + [SetLabel(obs.labelText), SetIcon(obs.icon)];
    var tail := if SwitchSucceeded(run) then LogoutEffects(obs.logout) else [];
    assert Trace(target, run, obs) == front + tail;
    assert Exec(Logout) !in front;
    OnlyAtEnd(front, tail, Exec(Logout));
    assert front[|front| - 1] == SetIcon(obs.icon);
  }

  /** The logout decision of a cycle in terms of the dialog's response. */
  lemma TraceLogsOutOnResponse(target: string, run: RunResult, obs: Observed, response: int)
    requires obs.logout == LogoutCommand(response)
    ensures Exec(Logout) in Trace(target, run, obs) <==>
      run == Exited(0) && response == ResponseOk
    ensures response == ResponseCancel ==> Exec(Logout) !in Trace(target, run, obs)
  {
    TraceLogsOut(target, run, obs);
    assert ResponseCancel != ResponseOk;
  }

  /** The logout command is issued exactly when the switch command exited
      with code 0 and the user pressed OK; a failed switch never opens the
      dialog, and Cancel never issues it. */
  lemma CycleLogsOutIff(w: World)
    ensures Exec(Logout) in SwitchCycle(w) <==>
      w.switchRun == Exited(0) && w.response == ResponseOk
    ensures w.response == ResponseCancel ==> Exec(Logout) !in SwitchCycle(w)
  {
    var obs := Observe(w);
    TraceLogsOutOnResponse(SwitchTarget(w.before), w.switchRun, obs, w.response);
  }

  /** The logout, when it happens, is the last effect of the cycle and comes
      right after the tray's icon update. */
  lemma CycleLogoutIsLast(w: World)
    ensures LogoutLastAfter(SwitchCycle(w), QueryIcon(w.iconQuery))
  {
    var obs := Observe(w);
    TraceLogsOut(SwitchTarget(w.before), w.switchRun, obs);
  }
}
