/** The older window of jacinto_ui_redesign.py: a single saved host configuration, a plain
    list of heartbeat stop events with no duplicate guard, the same launch decision, and an
    LED driven by whether the registry lists a server with a fixed name. */
module Legacy {

  import opened Common
  import opened Heartbeat
  import opened Launch
  import Registry

  /** The contents of host_config.json. */
  datatype HostConfig = HostConfig(name: string, publicIp: string, localIp: string, port: int,
                                   mapName: string, password: string)

  function TargetOf(c: HostConfig): Target
  {
    Target(c.mapName, c.port, c.localIp, c.publicIp, c.password)
  }

  /** The answer to one input dialog: the text typed and whether OK was pressed. */
  datatype Prompt = Prompt(text: string, ok: bool)

  /** The message box an action ends with (`Silent` when it shows none). `PortNotInteger`
      stands for the `ValueError` the window does not catch. */
  datatype Notice =
    | Silent
    | FieldsRequired
    | PortNotInteger
    | ExecutableNotFound
    | NoHostConfig
    | NothingToRemove
    | Removed
    | LaunchError(args: seq<string>)
    | Stopped
    | NoActiveHeartbeat

  /** The server name whose presence in the listing turns the LED lime. */
  const WatchedName: string := "Caleb's Server"

  /** The password built into the startup "Are you the host?" question. */
  const StartupPassword: string := "1207706"

  /** `ask_if_host` starts a heartbeat when the user answers Yes, accepts the password dialog
      with the built-in password, and a saved configuration exists. */
  predicate StartsHeartbeatAtStartup(config: Option<HostConfig>, isHost: bool, pw: Prompt)
  {
    isHost && pw.ok && pw.text == StartupPassword && config.Some?
  }

  predicate Filled(p: Prompt)
  {
    p.ok && p.text != ""
  }

  predicate IsDigit(c: char)
  {
    '0' <= c <= '9'
  }

  predicate AllDigits(s: string)
  {
    forall i :: 0 <= i < |s| ==> IsDigit(s[i])
  }

  /** The number a string of decimal digits denotes. */
  function DigitsValue(s: string): nat
    requires AllDigits(s)
  {
    if s == [] then 0
    else DigitsValue(s[..|s| - 1]) * 10 + (s[|s| - 1] as int - '0' as int)
  }

  /** `int(text)` for an optionally signed run of decimal digits; anything else raises. */
  function ParsePort(text: string): Option<int>
  {
    if text != [] && AllDigits(text) then Some(DigitsValue(text))
    else if |text| > 1 && text[0] in "+-" && AllDigits(text[1..]) then
      Some(if text[0] == '-' then -(DigitsValue(text[1..]) as int) else DigitsValue(text[1..]))
    else None
  }

  lemma {:induction false} NatStringValue(n: nat)
    ensures AllDigits(NatString(n)) && DigitsValue(NatString(n)) == n
  {
    var s := NatString(n);
    if n >= 10 {
      NatStringValue(n / 10);
      assert s[..|s| - 1] == NatString(n / 10);
    }
  }

  lemma ParseSigned(digits: string)
    requires digits != [] && AllDigits(digits)
    ensures ParsePort("-" + digits) == Some(-(DigitsValue(digits) as int))
  {
    var text := "-" + digits;
    assert text[1..] == digits;
    assert !IsDigit(text[0]);
  }

  lemma ParseUnsigned(digits: string)
    requires digits != [] && AllDigits(digits)
    ensures ParsePort(digits) == Some(DigitsValue(digits))
  {
  }

  /** A port typed as Python would print it is read back as the same number. */
  lemma ParsePortRoundTrip(n: int)
    ensures ParsePort(DecimalString(n)) == Some(n)
  {
    var m: nat := if n < 0 then -n else n;
    var digits := NatString(m);
    NatStringValue(m);
    if n < 0 {
      assert DecimalString(n) == "-" + digits;
      ParseSigned(digits);
    } else {
      assert DecimalString(n) == digits;
      ParseUnsigned(digits);
    }
  }

  /** `s.get("name", "")` as the `in` test sees it: the name string, or None when the value
      is not a string and the test raises. */
  function NameField(s: Registry.Record): Option<string>
  {
    if "name" !in s then Some("")
    else match s["name"]
      case JStr(n) => Some(n)
      case _ => None
  }

  predicate NamesWatched(s: Registry.Record)
  {
    NameField(s).Some? && Contains(NameField(s).value, WatchedName)
  }

  /** `any("Caleb's Server" in s.get("name", "") for s in servers)`, scanning left to right
      and stopping at the first match; None when a name that is not a string is reached first. */
  function ScanForWatched(servers: seq<Registry.Record>): Option<bool>
  {
    if servers == [] then Some(false)
    else match NameField(servers[0])
      case None => None
      case Some(n) => if Contains(n, WatchedName) then Some(true) else ScanForWatched(servers[1..])
  }

  /** The LED colour after a status check; `fetched` is None when the request or its JSON
      decoding raised. */
  function StatusColor(fetched: Option<seq<Registry.Record>>): Color
  {
    match fetched
    case None => Red
    case Some(servers) => if ScanForWatched(servers) == Some(true) then Lime else Red
  }

  /** The LED is lime exactly when some listed server carries the watched name and every
      server before it has a string name (or none); a failed request is red. */
  lemma {:induction false} StatusLimeIff(servers: seq<Registry.Record>)
    ensures StatusColor(None) == Red
    ensures StatusColor(Some(servers)) == Lime <==>
      exists i :: 0 <= i < |servers| && NamesWatched(servers[i]) &&
        forall j :: 0 <= j < i ==> NameField(servers[j]).Some?
  {
    if servers != [] {
      StatusLimeIff(servers[1..]);
      if ScanForWatched(servers) == Some(true) && !NamesWatched(servers[0]) {
        var i :| 0 <= i < |servers[1..]| && NamesWatched(servers[1..][i]) &&
          forall j :: 0 <= j < i ==> NameField(servers[1..][j]).Some?;
        assert NamesWatched(servers[i + 1]);
        forall j | 0 <= j < i + 1 ensures NameField(servers[j]).Some? {
          if j > 0 {
            assert servers[j] == servers[1..][j - 1];
          }
        }
      }
      if exists i :: 0 <= i < |servers| && NamesWatched(servers[i]) &&
          forall j :: 0 <= j < i ==> NameField(servers[j]).Some? {
        var i :| 0 <= i < |servers| && NamesWatched(servers[i]) &&
          forall j :: 0 <= j < i ==> NameField(servers[j]).Some?;
        if i > 0 && !NamesWatched(servers[0]) {
          assert NameField(servers[0]).Some?;
          assert NamesWatched(servers[1..][i - 1]);
          forall j | 0 <= j < i - 1 ensures NameField(servers[1..][j]).Some? {
            assert servers[1..][j] == servers[j + 1];
          }
        }
      }
    }
  }

  /** Once the host's announce under the watched name has reached the registry, the next
      status check shows lime, provided every name already stored is a string. */
  lemma AnnouncedWatchedServerIsLime(ss: seq<Registry.Record>, d: Registry.Record, now: int, n: string)
    requires Registry.WellFormed(ss) && Registry.HasRequiredFields(d)
    requires d["name"] == Registry.JStr(n) && Contains(n, WatchedName)
    requires forall i :: 0 <= i < |ss| ==> NameField(ss[i]).Some?
    ensures StatusColor(Some(Registry.Live(Registry.Upsert(ss, d, now), now))) == Lime
  {
    var r := Registry.Upsert(ss, d, now);
    var live := Registry.Live(r, now);
    match Registry.FirstMatch(ss, d) {
    case Some(i) =>
      assert r == ss[i := Registry.Refresh(ss[i], d, now)];
      forall j | 0 <= j < |r| ensures NameField(r[j]).Some? {
        if j == i {
          assert r[j]["name"] == d["name"];
        } else {
          assert r[j] == ss[j];
        }
      }
    case None =>
      assert r == ss + [Registry.Refresh(map[], d, now)];
      forall j | 0 <= j < |r| ensures NameField(r[j]).Some? {
        if j == |ss| {
          assert r[j]["name"] == d["name"];
        } else {
          assert r[j] == ss[j];
        }
      }
    }
    forall k | 0 <= k < |live| ensures NameField(live[k]).Some? {
      assert live[k] in r;
    }
    Registry.AnnounceThenList(ss, d, now);
    var k :| 0 <= k < |live| && Registry.SameKey(live[k], d) &&
      Registry.Carries(live[k], d);
    assert NamesWatched(live[k]);
    StatusLimeIff(live);
  }

  class LegacyBrowser {
    /** `heartbeat_threads`: the stop event of every heartbeat loop started and not yet cleared. */
    var heartbeatThreads: seq<StopEvent>
    /** host_config.json, when present. */
    var hostConfig: Option<HostConfig>
    /** The executable path recorded in owners.json, when present. */
    var ownerExe: Option<string>
    /** The processes started and the waits made by launches. */
    var processes: seq<Effect>
    /** The heartbeat LED. */
    var statusColor: Color

    /** A new window: no heartbeat tracked and a red LED, then the startup `ask_if_host`,
        answered with `isHost` and the password dialog `pw`. */
    constructor (config: Option<HostConfig>, exe: Option<string>, isHost: bool, pw: Prompt)
      ensures hostConfig == config && ownerExe == exe
      ensures processes == [] && statusColor == Red
      ensures !StartsHeartbeatAtStartup(config, isHost, pw) ==> heartbeatThreads == []
      ensures StartsHeartbeatAtStartup(config, isHost, pw) ==>
        |heartbeatThreads| == 1 && fresh(heartbeatThreads[0]) && !heartbeatThreads[0].isSet
    {
      heartbeatThreads := [];
      hostConfig := config;
      ownerExe := exe;
      processes := [];
      statusColor := Red;
      new;
      if isHost && pw.ok && pw.text == StartupPassword && hostConfig.Some? {
        var ev := LaunchHeartbeat();
      }
    }

    /** `launch_heartbeat`: start a loop with a fresh unset event and remember the event,
        whatever is already running. */
    method LaunchHeartbeat() returns (ev: StopEvent)
      modifies this
      ensures fresh(ev) && !ev.isSet
      ensures heartbeatThreads == old(heartbeatThreads) + [ev]
      ensures hostConfig == old(hostConfig) && ownerExe == old(ownerExe)
      ensures processes == old(processes) && statusColor == old(statusColor)
    {
      ev := new StopEvent();
      heartbeatThreads := heartbeatThreads + [ev];
    }

    /** "Add Your Server": every dialog must be accepted with a non-empty answer, the password
        included; the port must read as an integer; then the configuration is saved and a
        heartbeat is started. */
    method AddServer(name: Prompt, publicIp: Prompt, localIp: Prompt, port: Prompt, mapName: Prompt, pw: Prompt)
      returns (notice: Notice)
      modifies this
      ensures var filled := Filled(name) && Filled(publicIp) && Filled(localIp) && Filled(port) &&
                            Filled(mapName) && Filled(pw);
        && (!filled ==> notice == FieldsRequired && unchanged(this))
        && (filled && ParsePort(port.text).None? ==> notice == PortNotInteger && unchanged(this))
        && (filled && ParsePort(port.text).Some? ==>
              && notice == Silent
              && hostConfig == Some(HostConfig(name.text, publicIp.text, localIp.text, ParsePort(port.text).value,
                                               mapName.text, pw.text))
              && |heartbeatThreads| == |old(heartbeatThreads)| + 1
              && heartbeatThreads[..|old(heartbeatThreads)|] == old(heartbeatThreads)
              && fresh(heartbeatThreads[|old(heartbeatThreads)|])
              && !heartbeatThreads[|old(heartbeatThreads)|].isSet)
      ensures ownerExe == old(ownerExe) && processes == old(processes) && statusColor == old(statusColor)
    {
      if !(Filled(name) && Filled(publicIp) && Filled(localIp) && Filled(port) && Filled(mapName) && Filled(pw)) {
        return FieldsRequired;
      }
      var portValue := ParsePort(port.text);
      if portValue.None? {
        return PortNotInteger;
      }
      hostConfig := Some(HostConfig(name.text, publicIp.text, localIp.text, portValue.value, mapName.text, pw.text));
      var ev := LaunchHeartbeat();
      notice := Silent;
    }

    /** Heartbeat > Start: needs a saved configuration; starts another loop even when one
        is already running. */
    method ManualStartHeartbeat() returns (notice: Notice)
      modifies this
      ensures old(hostConfig).None? ==> notice == NoHostConfig && unchanged(this)
      ensures old(hostConfig).Some? ==>
        && notice == Silent
        && |heartbeatThreads| == |old(heartbeatThreads)| + 1
        && heartbeatThreads[..|old(heartbeatThreads)|] == old(heartbeatThreads)
        && fresh(heartbeatThreads[|old(heartbeatThreads)|])
        && !heartbeatThreads[|old(heartbeatThreads)|].isSet
      ensures hostConfig == old(hostConfig) && ownerExe == old(ownerExe)
      ensures processes == old(processes) && statusColor == old(statusColor)
    {
      if hostConfig.None? {
        return NoHostConfig;
      }
      var ev := LaunchHeartbeat();
      notice := Silent;
    }

    /** Heartbeat > Stop: with events tracked, set them all and clear the list; with none,
        report that nothing runs and change nothing. */
    method ManualStopHeartbeat() returns (notice: Notice)
      modifies this, heartbeatThreads
      ensures old(heartbeatThreads) == [] ==> notice == NoActiveHeartbeat && heartbeatThreads == []
      ensures old(heartbeatThreads) != [] ==>
        && notice == Stopped
        && heartbeatThreads == []
        && forall k :: 0 <= k < |old(heartbeatThreads)| ==> old(heartbeatThreads)[k].isSet
      ensures hostConfig == old(hostConfig) && ownerExe == old(ownerExe)
      ensures processes == old(processes) && statusColor == old(statusColor)
    {
      if heartbeatThreads == [] {
        return NoActiveHeartbeat;
      }
      var i := 0;
      while i < |heartbeatThreads|
        invariant 0 <= i <= |heartbeatThreads|
        invariant heartbeatThreads == old(heartbeatThreads)
        invariant hostConfig == old(hostConfig) && ownerExe == old(ownerExe)
        invariant processes == old(processes) && statusColor == old(statusColor)
        invariant forall k :: 0 <= k < i ==> heartbeatThreads[k].isSet
      {
        heartbeatThreads[i].isSet := true;
        i := i + 1;
      }
      heartbeatThreads := [];
      notice := Stopped;
    }

    /** "Edit/Remove Server": forget the saved configuration; heartbeats keep running. */
    method RemoveServer() returns (notice: Notice)
      modifies this
      ensures hostConfig == None
      ensures notice == if old(hostConfig).None? then NothingToRemove else Removed
      ensures heartbeatThreads == old(heartbeatThreads) && ownerExe == old(ownerExe)
      ensures processes == old(processes) && statusColor == old(statusColor)
    {
      if hostConfig.None? {
        return NothingToRemove;
      }
      hostConfig := None;
      notice := Removed;
    }

    /** "Launch Selected": find the executable (asking once and recording it when none is
        recorded), require a saved configuration, then run the host or the guest plan. */
    method LaunchServer(prompted: Option<string>, dialogOk: bool, pw: string, canSpawn: seq<string> -> bool)
      returns (notice: Notice)
      modifies this
      ensures ownerExe == if old(ownerExe).Some? then old(ownerExe) else prompted
      ensures ownerExe.None? ==> notice == ExecutableNotFound && processes == old(processes)
      ensures ownerExe.Some? && hostConfig.None? ==> notice == NoHostConfig && processes == old(processes)
      ensures ownerExe.Some? && hostConfig.Some? ==>
        var d := Perform(Plan(ownerExe.value, TargetOf(hostConfig.value), dialogOk, pw), canSpawn);
        && processes == old(processes) + d.performed
        && notice == (if d.failed.Some? then LaunchError(d.failed.value) else Silent)
      ensures heartbeatThreads == old(heartbeatThreads) && hostConfig == old(hostConfig)
      ensures statusColor == old(statusColor)
    {
      if ownerExe.None? {
        if prompted.None? {
          return ExecutableNotFound;
        }
        ownerExe := prompted;
      }
      var exe := ownerExe.value;
      if hostConfig.None? {
        return NoHostConfig;
      }
      var performed, failed := Execute(exe, TargetOf(hostConfig.value), dialogOk, pw, canSpawn);
      processes := processes + performed;
      notice := if failed.Some? then LaunchError(failed.value) else Silent;
    }

    /** Closing the window sets every tracked stop event; the list itself is left as it is. */
    method Close()
      modifies heartbeatThreads
      ensures forall k :: 0 <= k < |heartbeatThreads| ==> heartbeatThreads[k].isSet
    {
      var i := 0;
      while i < |heartbeatThreads|
        invariant 0 <= i <= |heartbeatThreads|
        invariant forall k :: 0 <= k < i ==> heartbeatThreads[k].isSet
      {
        heartbeatThreads[i].isSet := true;
        i := i + 1;
      }
    }

    /** The periodic status check: set the LED from the fetched listing. */
    method CheckHeartbeatStatus(fetched: Option<seq<Registry.Record>>)
      modifies this
      ensures statusColor == StatusColor(fetched)
      ensures heartbeatThreads == old(heartbeatThreads) && hostConfig == old(hostConfig)
      ensures ownerExe == old(ownerExe) && processes == old(processes)
    {
      statusColor := StatusColor(fetched);
    }
  }
}
