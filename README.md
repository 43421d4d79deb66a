# Jacinto server browser: a verified model of its core

This project models the core of a small lobby system for a game called Jacinto. It has three parts:

- **The registry service (`server.py`).** It keeps an in-memory list of announced game servers. Each record is keyed by its public IP and port and is stamped with the time it was last announced. A listing returns only the records announced in the last 60 seconds.
- **The lobby window (`ez_browser.py`).** It keeps a list of the user's own servers and refuses a duplicate public IP and port. It runs one heartbeat loop per hosted server. Each loop re-announces the server, counts consecutive failures and drives a status LED: lime on success, red from two failures on. The window also launches a game: as host (dedicated server, a 10-second warm-up, then a client on the local address) or as guest (a client on the public address). A guest can also join a server listed as `name - ip:port`.
- **The older window (`jacinto_ui_redesign.py`).** It keeps one saved host configuration and a plain list of heartbeat stop events with no duplicate guard. Its launch decision is the same. Its LED is lime when the registry lists a server whose name contains `Caleb's Server`.

## Files

- `common.dfy` (module `Common`): shared helpers. It holds `Option`, Python's decimal rendering of an `int` (`str(n)`), and substring search (`pat in text`, `str.find`).
- `registry.dfy` (module `Registry`): `server.py`.
  - The store is a class whose `servers` field is reassigned by `AddServer`.
  - `Upsert` and `Live` are the specification functions that the store is proved against.
  - The lemmas prove the uniqueness invariant, the in-place refresh, the append, the stamp, the liveness window and the order of the listing.
- `heartbeat.dfy` (module `Heartbeat`): the `_hb_loop` state machine.
  - `Step` is one pass of the loop.
  - `Run` is a sequence of passes.
  - `HeartbeatLoop` is the loop itself, proved against `Run`.
  - `StopEvent` is the shared stop flag.
- `launch.dfy` (module `Launch`): the host/guest decision shared by both windows.
  - `Plan` gives the argument lists and the wait.
  - `Perform` carries out a plan until the first spawn that raises.
  - `Execute` is the straight-line spawn code of both windows, proved against `Perform`.
- `rows.dfy` (module `Rows`): the `name - ip:port` row format and the endpoint parse.
- `browser.dfy` (module `Browser`): the `ez_browser.py` window as a class over its host list, its `hb_threads` table, a log of the loops started, the LED colours and the process log.
- `legacy.dfy` (module `Legacy`): the `jacinto_ui_redesign.py` window as a class, plus its status check.

Time, the network, the file dialogs and process creation are parameters:

- `now` is an integer clock.
- An `Attempt` is what one announce request observed.
- `stopSeen` is what the stop flag read before each attempt.
- `Prompt` and `Option` values stand for dialog answers.
- `canSpawn` says whether `subprocess.Popen` raises for a given argument list.
- Spawns and the warm-up wait are recorded as `Effect`s in a `processes` log.

## Model

| member | source | states |
|---|---|---|
| Registry.FirstMatch | server.py:18-19 | the result is the first index whose (public_ip, port) equals the payload's, and it is None exactly when no record has that key |
| Registry.Refresh | server.py:19-21 | `s.update(d)` then a stamp: the payload's fields win, the record's other fields stay, and `last_seen` is `now` whatever the payload carried |
| Registry.Upsert | server.py:16-27 | the store after a well-formed announce; `UpsertUpdatesInPlace`, `UpsertAppendsNew`, `UpsertKeepsWellFormed`, `UpsertStampsOneRecord` and `UpsertLeavesOthers` state what it does |
| Registry.LastSeen | server.py:35 | `s.get("last_seen", 0)`; `FreshnessBoundary` states that a missing stamp reads as 0 |
| Registry.Store.constructor | server.py:6 | the store starts empty and well formed |
| Registry.Store.AddServer | server.py:8-29 | a payload missing any of name/public_ip/port/map gives 400 and leaves `servers` unchanged; otherwise the result is 200 and `servers` becomes `Upsert` of the old list; the invariant of at most one record per key is preserved |
| Registry.Store.ListLive | server.py:31-36 | the listing is read-only and holds exactly the stored records with `now - last_seen < 60` |
| Registry.Live | server.py:34-35 | a record is in the listing if and only if it is stored and fresh; the listing is never longer than the store |
| Registry.RefreshKeepsKey | server.py:19-21 | a refreshed record has the payload's key and all the fields a stored record needs |
| Registry.UpsertUpdatesInPlace | server.py:17-23 | announcing a key already stored replaces that one record in place and keeps the list length |
| Registry.UpsertAppendsNew | server.py:25-27 | announcing a new key appends exactly the stamped payload at the end |
| Registry.UpsertKeepsWellFormed | server.py:16-27 | every announce keeps at most one record per (public_ip, port) |
| Registry.UpsertStampsOneRecord | server.py:17-27 | after an announce at `now`, exactly one record has the payload's key; it carries the payload's fields and `last_seen == now`, even when the payload sent its own `last_seen` |
| Registry.UpsertLeavesOthers | server.py:18-23 | an announce changes no record with a different key and moves none; the list grows by at most one |
| Registry.LiveIsSubsequence | server.py:35 | the listing keeps stored order and only drops records |
| Registry.LiveAppend | server.py:35 | listing a concatenation is the concatenation of the listings |
| Registry.LiveKeepsUniqueKeys | server.py:35 | a listing of a store without duplicate keys has none either |
| Registry.FreshnessBoundary | server.py:34-35 | age 59 is listed and age 60 is not; a record without `last_seen` counts as stamped at 0 |
| Registry.AnnounceThenList | server.py:8-36 | a listing at the time of an announce returns exactly one record for the key, carrying the announced fields |
| Registry.FirstAnnounceListedAlone | server.py:8-36 | Alpha announced on 1.2.3.4:7777 into an empty registry is stored stamped and is the only record listed |
| Registry.SecondPortAddsRecord | server.py:8-36 | the same IP announced on port 7778 is appended as a second record, and both are listed |
| Registry.FirstKeyExpires | server.py:8-36 | when only the 7778 record keeps announcing, the 7777 record drops out of the listing 61 seconds after its stamp |
| Heartbeat.StopEvent.constructor | ez_browser.py:411 | a new stop event is not set |
| Heartbeat.Step | ez_browser.py:435-443 | one pass of the loop body; `StepSignals` states its counter and its colours |
| Heartbeat.Run | ez_browser.py:430-444 | the passes over a sequence of attempts; `RunCountsTrailingFailures`, `DegradedAfterTwoFailures`, `RecoversOnSuccess` and `FirstFailureIsSilent` state the counter and colours it produces, and `HeartbeatLoop` is proved equal to it |
| Heartbeat.StepSignals | ez_browser.py:433-443 | a 2xx status resets the counter to 0 and signals lime; any other status or a raised request adds exactly 1; red is signalled exactly when the counter is at least 2; amber is never signalled |
| Heartbeat.RunCountsTrailingFailures | ez_browser.py:430-443 | the counter equals the number of failures since the last success, plus the initial count when nothing has succeeded |
| Heartbeat.DegradedAfterTwoFailures | ez_browser.py:438-443 | two failures in a row signal red, whatever came before |
| Heartbeat.RecoversOnSuccess | ez_browser.py:435-437 | a success resets the counter to 0 and signals only lime |
| Heartbeat.FirstFailureIsSilent | ez_browser.py:438-443 | one failure after a success signals no colour and leaves the counter at 1 |
| Heartbeat.HeartbeatLoop | ez_browser.py:429-444 | the loop checks the flag before each attempt, makes no attempt once it is set, and ends with the counter and colours that `Run` gives for the attempts made |
| Launch.Perform | ez_browser.py:367-379 | the effects carried out are a prefix of the plan; the run is complete exactly when no spawn raised; a failure names the refused spawn and ends the run; every spawn carried out was allowed |
| Launch.Plan | ez_browser.py:367-377 | the effects a launch attempts; `HostLaunch`, `GuestLaunch` and `BlankPasswordIsGuest` state which plan is chosen and what it spawns |
| Launch.ServerArgs | ez_browser.py:370 | the dedicated-server command line; `HostLaunch` states that it is the first spawn of the host path |
| Launch.Execute | ez_browser.py:367-379 | the spawns and the wait a launch carries out, and the spawn that raised, are exactly those `Perform` gives for the host or guest plan |
| Launch.HostLaunch | ez_browser.py:367-372 | on the host path: the server spawn with the king-of-the-hill template, then a 10-second wait, then the client at `local_ip:port`; a spawn that raises stops everything after it |
| Launch.GuestLaunch | ez_browser.py:373-377 | in every other case, including a cancelled dialog, exactly one spawn is attempted, a client at `public_ip:port` |
| Launch.BlankPasswordIsGuest | ez_browser.py:367 | a blank password against a non-blank stored one, or a cancelled dialog, takes the guest path |
| Rows.ParseEndpoint | ez_browser.py:386-391 | `split(" - ", 1)[1]`: the text after the first separator, and an error exactly when there is no separator |
| Rows.FormatRow | ez_browser.py:281 | `name - ip:port`; `FormatThenParse` and `TrailingDashName` state when parsing it gives back the endpoint |
| Rows.RowRoundTrip | ez_browser.py:388 | parsing `name + " - " + rest` gives back `rest` if and only if `name + " -"` contains no `" - "` |
| Rows.FormatThenParse | ez_browser.py:281 | a rendered row parses back to `ip:port` for such names |
| Rows.TrailingDashName | ez_browser.py:388 | a name without `" - "` that ends in `" -"` parses to the wrong endpoint |
| Browser.WithExe | ez_browser.py:350-355 | only the first host with the id gets the new executable; the list keeps its length |
| Browser.ResolveExe | ez_browser.py:344-348 | the executable a launch uses; `EnsureHostExe` returns exactly it, and `LaunchMine` spawns nothing when it is None |
| Browser.LobbyBrowser.constructor | ez_browser.py:181 | the window starts with the stored hosts and no heartbeat |
| Browser.LobbyBrowser.AddServer | ez_browser.py:292-302 | a cancelled prompt changes nothing; a host with the same public IP and port as a listed one gives Duplicate and leaves the list unchanged; otherwise exactly that host is appended; unique endpoints are preserved |
| Browser.LobbyBrowser.EnsureHostExe | ez_browser.py:343-356 | the host's own path when it is set and exists; otherwise the chosen path, recorded on the first host with the id; None when nothing was chosen |
| Browser.LobbyBrowser.LaunchMine | ez_browser.py:358-380 | no executable gives an error and no spawn; otherwise the effects logged are exactly those `Perform` carries out for the host or guest plan, and a spawn that raises is reported |
| Browser.LobbyBrowser.JoinListed | ez_browser.py:382-398 | no selection, or a row without a separator, spawns nothing and reports it; a cancelled file dialog spawns nothing silently; otherwise exactly one spawn of the parsed endpoint |
| Browser.LobbyBrowser.ManualStartHeartbeat | ez_browser.py:401-415 | a loop already running for the id gives Already Running and changes nothing; otherwise a fresh unset event replaces the id's entry, one loop is started with it, and the LED turns amber |
| Browser.LobbyBrowser.ManualStopHeartbeat | ez_browser.py:417-427 | every tracked event is set, the table is empty, every loop ever started is stopped, and Stopped (with red) is reported exactly when some event was unset |
| Browser.LobbyBrowser.Close | ez_browser.py:458-460 | every tracked event, and so every loop started, is set |
| Browser.OneRunningLoopPerId | ez_browser.py:408-412 | at most one heartbeat loop per host id is running at any time |
| Legacy.ParsePortRoundTrip | jacinto_ui_redesign.py:208 | a port typed as Python prints it reads back as the same integer |
| Legacy.ParsePort | jacinto_ui_redesign.py:208 | `int(port)` for an optionally signed run of decimal digits; `ParsePortRoundTrip` states that it reads back every integer Python prints |
| Legacy.StatusLimeIff | jacinto_ui_redesign.py:158-165 | the LED is lime if and only if some listed server's name contains `Caleb's Server` and no earlier name makes the `in` test raise; a failed request is red |
| Legacy.ScanForWatched | jacinto_ui_redesign.py:162 | the short-circuiting `any`, stopping at the first match or at the first name the `in` test raises on; `StatusLimeIff` characterises its result |
| Legacy.StatusColor | jacinto_ui_redesign.py:159-165 | lime when the scan finds the watched name, red otherwise and when the request raised; `StatusLimeIff` and `AnnouncedWatchedServerIsLime` state when it is lime |
| Legacy.AnnouncedWatchedServerIsLime | jacinto_ui_redesign.py:158-165 | once an announce under a name containing `Caleb's Server` has been stored, a status check at that time is lime, provided every stored name is a string |
| Legacy.LegacyBrowser.constructor | jacinto_ui_redesign.py:31-51 | the window starts with a red LED and the saved configuration; the startup host question starts exactly one fresh heartbeat when it is answered Yes with the built-in password and a configuration exists, and none otherwise |
| Legacy.LegacyBrowser.LaunchHeartbeat | jacinto_ui_redesign.py:214-218 | exactly one new unset stop event is appended, with no duplicate check |
| Legacy.LegacyBrowser.AddServer | jacinto_ui_redesign.py:196-212 | unless all six dialogs were accepted with non-empty text (the password included), nothing changes; a port that is not an integer saves nothing; otherwise the configuration is saved and one heartbeat is started |
| Legacy.LegacyBrowser.ManualStartHeartbeat | jacinto_ui_redesign.py:271-278 | without a saved configuration nothing changes; otherwise one more heartbeat is started, even when one is running |
| Legacy.LegacyBrowser.ManualStopHeartbeat | jacinto_ui_redesign.py:280-287 | a non-empty list has every event set and is then cleared, reporting Stopped; an empty list reports No Active Heartbeat |
| Legacy.LegacyBrowser.RemoveServer | jacinto_ui_redesign.py:230-235 | the saved configuration is gone afterwards; a missing one is reported; heartbeats keep running |
| Legacy.LegacyBrowser.LaunchServer | jacinto_ui_redesign.py:237-269 | the executable is the recorded one or the one asked for (and then recorded); a missing executable or configuration spawns nothing; otherwise the effects are exactly those `Perform` carries out for the host or guest plan |
| Legacy.LegacyBrowser.Close | jacinto_ui_redesign.py:297-299 | every tracked stop event is set |
| Legacy.LegacyBrowser.CheckHeartbeatStatus | jacinto_ui_redesign.py:158-165 | the LED takes the colour `StatusColor` gives for the fetched listing |

## Left out

- Flask routing, `request.get_json()` and `jsonify` (server.py:2-10, 38-39) are not modelled. A payload is an already decoded map from field names to `Json` values. A body that is not a JSON object is outside the model.
- `Json` has null, booleans, integers and strings only. Floats, lists and objects are left out. So is Python's `True == 1` in the key comparison.
- `Registry.LastSeen`: reads a `last_seen` that is not an integer as 0. Python would raise. No stored record can have one, because every stored record carries an integer stamp.
- `time.time()` is a float. The model uses integer seconds passed in as `now`.
- Threads, `Event.wait`, the 5-second interval and the unsynchronised shared `servers` list are not modelled. The heartbeat loop is run sequentially; its stop flag is the sequence of values it reads.
- Network calls are not modelled. Each request is replaced by the outcome it observed: an `Attempt`, or a fetched listing or None.
- `subprocess.Popen` and `time.sleep(10)` are recorded as `Effect`s in a log and not executed.
- Files are not modelled:
  - the hosts file (`load_hosts`/`save_hosts` and the legacy migration, ez_browser.py:123-155);
  - `owners.json` and `host_config.json`.
  The window classes hold their contents as fields instead.
- The PyQt widgets, themes, splash screen, `paintEvent`, pygame audio, `resource_path`, `choose_exe_path`, `uuid` generation and `get_public_ip` are left out. These are foreign library calls or file lookups. A dialog's answer or a file check is a parameter.
- Other window operations are left out:
  - `edit_or_remove` and `_refresh_mine` (ez_browser.py) are UI list editing;
  - the periodic `update_server_list` (jacinto_ui_redesign.py:171-178) renders the same row format as `Rows.FormatRow`, with errors only printed.
- `send_heartbeat` in jacinto_ui_redesign.py:220-228 is not modelled. It only posts and prints, with no state beyond its stop event, and it is represented by that event.
- `Legacy.ParsePort`: accepts only an optional sign followed by ASCII digits. Python's `int()` also accepts surrounding whitespace, underscores between digits and non-ASCII digits; such ports count as `PortNotInteger` here.
- `Legacy.StatusColor`: a name whose value is a list or an object is left out, because `Json` has neither. The `in` test is modelled for strings; any other name value raises.
- `Browser.LobbyBrowser.ManualStartHeartbeat`: requires the selected row to be within the host list. The window's list shows exactly the stored hosts, so a larger row cannot be selected.
- `Browser.LobbyBrowser.LaunchMine`: requires the selected row to be within the host list, for the same reason.
- `Legacy.LegacyBrowser.AddServer`: a port that `int()` rejects raises a `ValueError` that nothing catches (jacinto_ui_redesign.py:208). Under PyQt5 that ends the application, and the heartbeat threads with it. The model reports `PortNotInteger` instead and leaves the window as it was; the application exit is not modelled.
