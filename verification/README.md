# GPU tray applet: decision rules in Dafny

A model of the pure decision logic inside `tray_gpu.py`, a system-tray applet for
Ubuntu/Zorin that shows which GPU `prime-select` has selected and switches between
the Intel and Nvidia profiles. The GTK widgets, threads and subprocesses around that
logic are replaced by inputs and an effect trace. The model covers:

- **Detection** (`get_current_gpu`). The output of `prime-select query` is stripped
  of whitespace (Python's `str.strip()` with its full `str.isspace` set) and
  capitalised. Any failure reads as `"Unknown"`.
- **Toggle** (`switch_gpu`). The requested mode is `"nvidia"` exactly when the
  lower-cased detected name is `"intel"`. Every other name asks for `"intel"`,
  including `"Unknown"`, `"Nvidia"` and `"On-demand"`.
- **Icon** (`get_icon_path`). The lower-cased name is searched for `"nvidia"`, then
  `"intel"`, then `"amd"`. The first match picks the icon, and the Intel icon is the
  fallback. Each icon is a fixed directory plus a file name.
- **Switch completion** (`do_switch`). Once the switch command returns,
  `update_gpu` is always queued for the UI thread. `show_logout_notification` is
  queued once after it, and only when the switch command exited with code 0.
- **Label and logout** (`update_gpu`, `show_logout_notification`). The label is
  `"GPU: "` plus a freshly detected name. The logout command is issued only on OK.
- **One click end to end** (module `Cycle`). The click is modelled as a sequence of
  effects: set label, set icon, issue a command. An issued command is an attempt
  to start it: whether it started, or did what it was asked, is not recorded.

Files:

- `text.dfy` (module `Text`) holds the Python string operations the applet uses:
  strip, lower, capitalize and `in`.
- `tray.dfy` (module `Tray`) holds the applet's rules.
- `cycle.dfy` (module `Cycle`) holds the effect trace of one switch click.

External commands are inputs:

- `QueryResult` is `Ok(text)` or `Failed`.
- `RunResult` is `Exited(code)` or `Raised`.
- The dialog answer is a GTK response code. `Gtk.ResponseType.OK` is -5 and
  `CANCEL` is -6.

`update_gpu` queries `prime-select` twice: once for the label, and once more inside
`get_icon_path`. The model therefore gives it two separate query results.

Four facts about the code shape the model:

- Every detected name except `intel`, `Unknown` included, asks for `intel`
  (tray_gpu.py:124, `Tray.SwitchTargetFromQuery`).
- Empty or all-whitespace query output is detected as the empty name, not as
  `Unknown` (tray_gpu.py:95-96, `Tray.DetectBlank`). The label is then `"GPU: "`
  and the icon is the Intel fallback.
- There is no guard against a switch already in progress. Every click starts a
  new worker thread (tray_gpu.py:149), so the model has no in-progress flag and
  claims no single-flight property.
- The capitalised query text is kept as it is (tray_gpu.py:96), so `On-demand`
  stays `On-demand`. It is not mapped onto a fixed set of modes.

## Model

| member | source | states |
|---|---|---|
| Text.TrimStart | tray_gpu.py:95 | leading-whitespace removal: the result is a suffix of the input, does not start with whitespace, and everything dropped is whitespace |
| Text.TrimEnd | tray_gpu.py:95 | trailing-whitespace removal: the result is a prefix of the input, does not end with whitespace, and everything dropped is whitespace |
| Text.Strip | tray_gpu.py:95 | `.strip()` leaves no whitespace at either end |
| Text.StripSplits | tray_gpu.py:95 | the stripped text sits in the input between two runs of whitespace |
| Text.StripOfPadded | tray_gpu.py:95 | partner of strip: any trimmed text padded with whitespace on both sides strips back to itself |
| Text.StripIdempotent | tray_gpu.py:95 | stripping a second time removes nothing |
| Text.Lower | tray_gpu.py:104 | `.lower()` keeps the length and lower-cases each character on its own |
| Text.Capitalize | tray_gpu.py:96 | `.capitalize()` keeps the letters up to case: its lower-casing equals the input's; the first character is not a lower-case letter and no later one is upper-case |
| Text.CapitalizeUnique | tray_gpu.py:96 | those three properties determine the result: any string that has them is the capitalisation |
| Text.CapitalizeKeepsTrimmed | tray_gpu.py:95-96 | capitalising stripped text leaves no whitespace at either end |
| Text.ContainsIffHasSubstring | tray_gpu.py:107-111 | the left-to-right scan for `sub in s` answers true exactly when `sub` occurs at some index of `s` |
| Tray.DetectGpu | tray_gpu.py:92-101 | `get_current_gpu`: a failed query reads "Unknown"; a successful one lower-cases like the stripped output |
| Tray.DetectGpuSpec | tray_gpu.py:92-101 | a failed query gives "Unknown"; a successful one agrees with the stripped output up to case, has no padding, and is capitalised |
| Tray.DetectPadded | tray_gpu.py:95-98 | output made of whitespace, a trimmed core and whitespace is detected as the capitalised core (e.g. "nvidia\n" gives "Nvidia") |
| Tray.DetectBlank | tray_gpu.py:95-98 | a query that succeeds with empty or all-whitespace output is detected as the empty name, not "Unknown" |
| Tray.ArgvDetermines | tray_gpu.py:139 | the switch command line and the logout command line (tray_gpu.py:174) have three words each, the switch command's last word is its target, and different commands have different command lines, so effects may name the command |
| Tray.ToggleTarget | tray_gpu.py:123-124 | the requested mode is always "nvidia" or "intel"; it is "nvidia" exactly when the lower-cased current name is "intel" |
| Tray.SwitchTarget | tray_gpu.py:123-124 | a click on "Switch GPU" asks for "nvidia" or "intel" and for nothing else |
| Tray.SwitchTargetFromQuery | tray_gpu.py:95-124 | read off the raw query: the request is "nvidia" exactly when the query succeeded and its stripped output lower-cases to "intel"; a failed query asks for "intel" |
| Tray.ToggleInvolution | tray_gpu.py:123-124 | on the two modes, toggling twice returns to the start: if the next query reports the requested mode, the next click asks for the original mode |
| Tray.IconPathShape | tray_gpu.py:105-114 | every icon path starts with the icon directory and ends in ".ico", and different icons have different paths, so a vendor icon's path is never the loading icon's (tray_gpu.py:152) |
| Tray.SelectIcon | tray_gpu.py:107-114 | priority order stated against the substring reference: Nvidia iff "nvidia" occurs; AMD iff "amd" occurs and neither "nvidia" nor "intel" does; Intel otherwise; never the loading icon |
| Tray.QueryIcon | tray_gpu.py:103-117 | `get_icon_path` on a fresh query: never the loading icon, and the Nvidia icon exactly when the lower-cased stripped output contains "nvidia" |
| Tray.IconFromQuery | tray_gpu.py:103-114 | the same priority read off the raw query output: "nvidia" wins over "intel" and "amd", then "intel", then "amd", else the Intel fallback |
| Tray.IconOfFailedQuery | tray_gpu.py:99-114 | a failed query ("Unknown") names no vendor and shows the Intel icon |
| Tray.SwitchSucceeded | tray_gpu.py:136-143 | with `check=True`, only an exit with code 0 counts as success; a non-zero exit or a spawn failure does not |
| Tray.DoSwitch | tray_gpu.py:135-147 | the update callback is queued first and exactly once; the logout notification is queued once if the command exited with 0 and not at all otherwise, never before the update; nothing else is queued |
| Tray.Label | tray_gpu.py:189 | the label reads back: its first five characters are "GPU: " and the rest is the detected name |
| Tray.LogoutCommand | tray_gpu.py:171-179 | the logout command is chosen exactly when the response is OK; any other response, Cancel included, runs nothing |
| Cycle.SwitchCycle | tray_gpu.py:119-195 | one click (`switch_gpu`, then `do_switch`, then `update_gpu`) has five or six effects: the "Switching..." label and the loading icon first, then the label and icon from the fresh queries at positions 3 and 4 |
| Cycle.TraceParts | tray_gpu.py:123-147 | a click consists of the switching state with the switch command, then the tray update, then the logout decision if the switch succeeded |
| Cycle.TraceShape | tray_gpu.py:128-195 | where each part of a cycle sits in its trace, for any requested mode, switch outcome and observed state |
| Cycle.TraceShowsObserved | tray_gpu.py:184-195 | whatever mode was requested and however the switch ended, the last label and the last icon shown are the ones the callbacks observed |
| Cycle.CycleShowsQueriedState | tray_gpu.py:184-195 | once the switch command returns, the tray ends showing "GPU: " plus the name detected by the fresh label query, and the icon the fresh icon query selects; the loading icon does not remain |
| Cycle.LabelIgnoresRequest | tray_gpu.py:186-189 | the final label depends only on the label query: not on the earlier state, the requested mode or the switch outcome |
| Cycle.TraceRunsSwitchOnce | tray_gpu.py:128-149 | a cycle issues exactly one switch command, the one for the requested mode, as its third effect |
| Cycle.CycleRunsSwitchOnce | tray_gpu.py:119-149 | every click issues (attempts to start) the switch command `sudo /usr/bin/prime-select <target>` exactly once, for "nvidia" or "intel", whatever the outcome, with no retry (the `prime-select query` calls are inputs, not effects) |
| Cycle.TraceLogsOut | tray_gpu.py:145-179 | the logout command is issued iff the switch exited with 0 and the dialog chose logout; when it is issued it is the final effect, right after the icon update |
| Cycle.TraceLogsOutOnResponse | tray_gpu.py:145-179 | the logout command is issued iff the switch exited with 0 and the dialog response is OK; never on Cancel |
| Cycle.CycleLogsOutIff | tray_gpu.py:145-179 | the logout command is issued (whether the session then ends is outside the model) iff the switch exited with code 0 and the user pressed OK; never on Cancel |
| Cycle.CycleLogoutIsLast | tray_gpu.py:145-195 | an issued logout is always the last effect of a click, right after the tray's icon was set from the fresh icon query |

## Left out

- GTK, AppIndicator, menus, the event pump and the dialog widget (tray_gpu.py:78-89, 128-133, 158-169, 197-222) are UI code. Only their visible effects, label text and icon choice, are modelled. The dialog is reduced to the response code it returns.
- The real `prime-select`, `sudo` and `gnome-session-quit` processes are not modelled. Their outcomes are inputs. A logout command that fails is only logged in the source, so it has no effect in the trace.
- `threading.Thread` and `GLib.idle_add` are left out as concurrency mechanisms. The idle queue is modelled as an ordered list that the UI thread drains in order. Both callbacks return `None`, so each runs once. Interleavings with other clicks are not modelled, and there is no guard against a second click, as in the code.
- The switch command (tray_gpu.py:139) and the query (tray_gpu.py:95) run without a timeout. If `sudo` waits for a password, or the command hangs in some other way, `do_switch` never reaches tray_gpu.py:145, and the tray keeps "Switching..." and the loading icon. `RunResult` covers only commands that return or fail to start, so every statement about the end of a click holds once the switch command returns.
- Logging setup and deleting the previous day's log file (tray_gpu.py:14-68) depend on the filesystem, the clock and the logging library.
- `main`, start-up (`__init__` calls `get_current_gpu`, `get_icon_path` and `update_gpu` once) and quitting (tray_gpu.py:70-90, 219-245) are UI plumbing. Start-up runs the same `update_gpu` modelled here.
- Text.Lower: maps the ASCII letters A-Z only. Python's `str.lower` also maps non-ASCII letters. `prime-select` prints ASCII mode names.
- Text.Capitalize: upper-cases ASCII a-z only. Python's title-casing of a non-ASCII first character is not modelled.
