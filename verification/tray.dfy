/**
 The decision rules of the GPU tray applet: how the output of
 `prime-select query` becomes a displayed name, which mode a click on
 "Switch GPU" asks for, which icon the tray shows, which callbacks the
 switch worker queues for the UI thread, and whether the logout dialog
 ends the session. External commands are inputs here: a query either
 prints text or fails, a switch either exits with a code or raises.
 */
module Tray {
  import opened Text

  datatype Option<T> = None | Some(value: T)

  /** The outcome of `prime-select query`: its printed text, or any failure
      (missing executable, non-zero exit, decoding error). */
  datatype QueryResult = Ok(text: string) | Failed

  /** The outcome of `subprocess.run([...], check=True)`: the process exited
      with a code, or starting it raised. */
  datatype RunResult = Exited(code: int) | Raised

  /** The callbacks the switch worker hands to `GLib.idle_add`. */
  datatype Callback = UpdateGpu | ShowLogoutNotification

  const UnknownGpu := "Unknown"
  const IconBase := "/mnt/Work/Python_Projects/GPU_DETECTION_TOOL/icons/"

  /** The icons the tray shows; `Loading` only while a switch is running. */
  datatype Icon = NvidiaIcon | IntelIcon | AmdIcon | LoadingIcon

  /** `Gtk.ResponseType.OK` and `Gtk.ResponseType.CANCEL`. */
  const ResponseOk: int := -5
  const ResponseCancel: int := -6

  /** The two commands the applet issues besides the query. */
  datatype Command = SwitchTo(target: string) | Logout

  /** The command line each command runs. */
  function Argv(cmd: Command): seq<string> {
    match cmd
    case SwitchTo(target) => ["sudo", "/usr/bin/prime-select", target]
    case Logout => ["gnome-session-quit", "--logout", "--no-prompt"]
  }

  /** A command is determined by its command line, so effects can name the
      command instead of its argument list: the switch command carries its
      target as the last argument, and the two commands never coincide. */
  lemma ArgvDetermines(a: Command, b: Command)
    ensures |Argv(a)| == 3
    ensures a.SwitchTo? ==> Argv(a)[2] == a.target
    ensures Argv(a) == Argv(b) ==> a == b
  {
  }

  /** `get_current_gpu`: the stripped output, capitalised, or "Unknown" when
      the query fails. */
  function DetectGpu(q: QueryResult): (name: string)
    ensures q.Failed? ==> name == UnknownGpu
    ensures q.Ok? ==> Lower(name) == Lower(Strip(q.text))
  {
    match q
    case Failed => UnknownGpu
    case Ok(text) => Capitalize(Strip(text))
  }

  /** What detection promises: a failed query reads "Unknown"; a successful
      one keeps the letters of the stripped output up to case, has no padding,
      and is capitalised (no lower-case first letter, no capital after it). */
  lemma DetectGpuSpec(q: QueryResult)
    ensures var name := DetectGpu(q);
      && (q.Failed? ==> name == UnknownGpu)
      && (q.Ok? ==> Lower(name) == Lower(Strip(q.text)) && Trimmed(name))
      && (|name| > 0 ==> !IsLowerLetter(name[0]))
      && (forall i :: 1 <= i < |name| ==> !IsUpperLetter(name[i]))
  {
    if q.Ok? {
      CapitalizeKeepsTrimmed(Strip(q.text));
    }
  }

  /** Detection is capitalisation of the stripped output and nothing else:
      any text padded with whitespace is detected as its capitalisation. */
  lemma DetectPadded(pre: string, core: string, post: string)
    requires AllSpace(pre) && AllSpace(post) && Trimmed(core)
    ensures DetectGpu(Ok(pre + core + post)) == Capitalize(core)
  {
    StripOfPadded(pre, core, post);
  }

  /** Empty or all-whitespace query output is detected as the empty name,
      not as "Unknown": only a failed query reads "Unknown". */
  lemma DetectBlank(t: string)
    requires AllSpace(t)
    ensures DetectGpu(Ok(t)) == ""
  {
    assert t == t + [] + [];
    StripOfPadded(t, [], []);
  }

  /** The toggle rule of `switch_gpu`, applied to the detected name. */
  function ToggleTarget(current: string): (target: string)
    ensures target == "nvidia" || target == "intel"
    ensures target == "nvidia" <==> Lower(current) == "intel"
  {
    if Lower(current) == "intel" then "nvidia" else "intel"
  }

  /** The mode a click on "Switch GPU" requests, given the query outcome. */
  function SwitchTarget(q: QueryResult): (target: string)
    ensures target == "nvidia" || target == "intel"
  {
    ToggleTarget(DetectGpu(q))
  }

  /** The requested mode is "nvidia" exactly when the query succeeded and its
      stripped output is "intel" in any letter case; a failed query, "nvidia",
      "on-demand" or anything else requests "intel". */
  lemma SwitchTargetFromQuery(q: QueryResult)
    ensures SwitchTarget(q) == "nvidia" <==> q.Ok? && Lower(Strip(q.text)) == "intel"
    ensures q.Failed? ==> SwitchTarget(q) == "intel"
  {
    if q.Failed? {
      assert |Lower(DetectGpu(q))| == 7;
    }
  }

  /** On the two modes the toggle is an involution: if the next query
      reports the requested mode (in any letter case, with any padding), the
      following click asks for the mode the first query reported. */
  lemma ToggleInvolution(t: string, next: string)
    requires Lower(Strip(t)) == "intel" || Lower(Strip(t)) == "nvidia"
    requires Lower(Strip(next)) == SwitchTarget(Ok(t))
    ensures SwitchTarget(Ok(next)) == Lower(Strip(t))
  {
    SwitchTargetFromQuery(Ok(t));
    SwitchTargetFromQuery(Ok(next));
  }

  /** The file name of each icon inside the icon directory. */
  function IconFile(icon: Icon): string {
    match icon
    case NvidiaIcon => "nvidia.ico"
    case IntelIcon => "intel.ico"
    case AmdIcon => "amd.ico"
    case LoadingIcon => "loading.ico"
  }

  /** The full path of an icon, as handed to the indicator. */
  function IconPath(icon: Icon): string {
    IconBase + IconFile(icon)
  }

  /** Every icon path lies in the icon directory and ends in ".ico", and
      different icons have different paths. */
  lemma IconPathShape(icon: Icon, other: Icon)
    ensures var path := IconPath(icon);
      && |IconBase| < |path| && path[..|IconBase|] == IconBase
      && path[|path| - 4..] == ".ico"
    ensures IconPath(icon) == IconPath(other) ==> icon == other
  {
    var path := IconPath(icon);
    assert path[|IconBase|..] == IconFile(icon);
    assert path[|path| - 4..] == IconFile(icon)[|IconFile(icon)| - 4..];
    assert IconPath(other)[|IconBase|..] == IconFile(other);
  }

  /** The icon `get_icon_path` selects for an already lower-cased name: the
      first of "nvidia", "intel", "amd" that occurs in it, and the Intel icon
      when none does. */
  function SelectIcon(gpu: string): (icon: Icon)
    ensures icon != LoadingIcon
    ensures icon == NvidiaIcon <==> HasSubstring(gpu, "nvidia")
    ensures icon == AmdIcon <==>
      !HasSubstring(gpu, "nvidia") && !HasSubstring(gpu, "intel") && HasSubstring(gpu, "amd")
    ensures icon == IntelIcon <==>
      !HasSubstring(gpu, "nvidia") && (HasSubstring(gpu, "intel") || !HasSubstring(gpu, "amd"))
  {
    ContainsIffHasSubstring(gpu, "nvidia");
    ContainsIffHasSubstring(gpu, "intel");
    ContainsIffHasSubstring(gpu, "amd");
    if Contains(gpu, "nvidia") then NvidiaIcon
    else if Contains(gpu, "intel") then IntelIcon
    else if Contains(gpu, "amd") then AmdIcon
    else IntelIcon
  }

  /** `get_icon_path`: the icon for the lower-cased name a fresh query
      detects. */
  function QueryIcon(q: QueryResult): (icon: Icon)
    ensures icon != LoadingIcon
    ensures q.Ok? ==> (icon == NvidiaIcon <==> HasSubstring(Lower(Strip(q.text)), "nvidia"))
  {
    SelectIcon(Lower(DetectGpu(q)))
  }

  /** Icon choice read off the raw query output, in priority order: a name
      with "nvidia" in it shows the Nvidia icon even when it also names
      another vendor, and so on down the list. */
  lemma IconFromQuery(t: string)
    ensures var icon := QueryIcon(Ok(t));
      var gpu := Lower(Strip(t));
      && (HasSubstring(gpu, "nvidia") ==> icon == NvidiaIcon)
      && (!HasSubstring(gpu, "nvidia") && HasSubstring(gpu, "intel") ==> icon == IntelIcon)
      && (!HasSubstring(gpu, "nvidia") && !HasSubstring(gpu, "intel") && HasSubstring(gpu, "amd")
          ==> icon == AmdIcon)
      && (!HasSubstring(gpu, "nvidia") && !HasSubstring(gpu, "intel") && !HasSubstring(gpu, "amd")
          ==> icon == IntelIcon)
  {
  }

  /** A failed query shows the Intel icon: "unknown" names no vendor. */
  lemma IconOfFailedQuery()
    ensures QueryIcon(Failed) == IntelIcon
  {
    var gpu := Lower(DetectGpu(Failed));
    LowerUnknown();
    NoVendorInUnknown(gpu);
  }

  lemma LowerUnknown()
    ensures Lower(UnknownGpu) == "unknown"
  {
    var r := Lower(UnknownGpu);
    assert r[0] == 'u';
  }

  /** "unknown" lacks the 'v' of "nvidia", the 't' of "intel" and the 'a'
      of "amd". */
  lemma NoVendorInUnknown(gpu: string)
    requires gpu == "unknown"
    ensures !Contains(gpu, "nvidia") && !Contains(gpu, "intel") && !Contains(gpu, "amd")
  {
    MissingCharNotContained(gpu, "nvidia", 1);
    MissingCharNotContained(gpu, "intel", 2);
    MissingCharNotContained(gpu, "amd", 0);
  }

  /** `switch_success` in `do_switch`: `check=True` turns a non-zero exit into
      an exception, so only an exit with code 0 counts as success. */
  function SwitchSucceeded(run: RunResult): (ok: bool)
    ensures ok <==> run == Exited(0)
  {
    match run
    case Raised => false
    case Exited(code) => code == 0
  }

  /** The callbacks `do_switch` queues for the UI thread, in order. */
  function DoSwitch(run: RunResult): (queued: seq<Callback>)
    ensures |queued| > 0 && queued[0] == UpdateGpu
    ensures multiset(queued)[UpdateGpu] == 1
    ensures multiset(queued)[ShowLogoutNotification] == if run == Exited(0) then 1 else 0
    ensures |queued| == if run == Exited(0) then 2 else 1
    ensures ShowLogoutNotification in queued <==> run == Exited(0)
    ensures forall i :: 0 <= i < |queued| && queued[i] == ShowLogoutNotification ==> i > 0
  {
    [UpdateGpu] + (if SwitchSucceeded(run) then [ShowLogoutNotification] else [])
  }

  /** The tray label `update_gpu` sets for a detected name. */
  function Label(gpu: string): (shown: string)
    ensures |shown| == 5 + |gpu|
    ensures shown[..5] == "GPU: " && shown[5..] == gpu
  {
    "GPU: " + gpu
  }

  /** The command `show_logout_notification` runs for a dialog response:
      the logout command on OK, nothing otherwise. */
  function LogoutCommand(response: int): (cmd: Option<Command>)
    ensures cmd.Some? <==> response == ResponseOk
    ensures cmd.Some? ==> cmd.value == Logout
  {
    if response == ResponseOk then Some(Logout) else None
  }
}
