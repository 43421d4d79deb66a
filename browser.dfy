/** The window of ez_browser.py: the user's own servers, the heartbeat supervisor that
    starts and stops one heartbeat loop per hosted server, and the launch/join actions. */
module Browser {

  import opened Common
  import opened Heartbeat
  import opened Launch
  import opened Rows

  /** One of "My Servers", as stored in the hosts file. */
  datatype Host = Host(id: string, name: string, publicIp: string, localIp: string, port: int,
                       mapName: string, password: string, exePath: string)

  function TargetOf(h: Host): Target
  {
    Target(h.mapName, h.port, h.localIp, h.publicIp, h.password)
  }

  /** The message box an action ends with (`Silent` when it shows none). */
  datatype Notice =
    | Silent
    | Select
    | Duplicate
    | AlreadyRunning
    | ExecutableRequired
    | LaunchError(args: seq<string>)
    | ParseError
    | Stopped
    | NoActiveHeartbeat

  predicate SameEndpoint(a: Host, b: Host)
  {
    a.publicIp == b.publicIp && a.port == b.port
  }

  predicate HasEndpoint(hosts: seq<Host>, h: Host)
  {
    exists i :: 0 <= i < |hosts| && SameEndpoint(hosts[i], h)
  }

  predicate UniqueEndpoints(hosts: seq<Host>)
  {
    forall i, j :: 0 <= i < j < |hosts| ==> !SameEndpoint(hosts[i], hosts[j])
  }

  /** The executable a launch uses: the host's own path when it is set and exists on disk,
      otherwise what the file dialog returned. */
  function ResolveExe(h: Host, exeExists: bool, chosen: Option<string>): Option<string>
  {
    if h.exePath != "" && exeExists then Some(h.exePath) else chosen
  }

  /** The host list after recording `exe` on the first host whose id is `id`. */
  function WithExe(hosts: seq<Host>, id: string, exe: string): (r: seq<Host>)
    ensures |r| == |hosts|
    ensures forall i :: 0 <= i < |hosts| ==>
      r[i] == if hosts[i].id == id && (forall j :: 0 <= j < i ==> hosts[j].id != id)
              then hosts[i].(exePath := exe) else hosts[i]
  {
    if hosts == [] then []
    else if hosts[0].id == id then [hosts[0].(exePath := exe)] + hosts[1..]
    else [hosts[0]] + WithExe(hosts[1..], id, exe)
  }

  /** No two ids share a stop event. */
  predicate Distinct(m: map<string, StopEvent>)
  {
    forall a, b :: a in m && b in m && a != b ==> m[a] != m[b]
  }

  class LobbyBrowser {
    var hosts: seq<Host>
    /** `hb_threads`: the stop event of the heartbeat loop started for each host id. */
    var hbThreads: map<string, StopEvent>
    /** Every heartbeat loop started so far: its host id and its stop event. */
    var loops: seq<(string, StopEvent)>
    /** The LED colours signalled by the window. */
    var colors: seq<Color>
    /** The processes started and the waits made by launches. */
    var processes: seq<Effect>

    function LoopEvents(): set<StopEvent>
      reads this
    {
      set k | 0 <= k < |loops| :: loops[k].1
    }

    /** Every loop still running is the one tracked for its id, so stopping the tracked
        events stops every loop. */
    ghost predicate Valid()
      reads this, hbThreads.Values, LoopEvents()
    {
      && Distinct(hbThreads)
      && (forall k, l :: 0 <= k < l < |loops| ==> loops[k].1 != loops[l].1)
      && (forall k :: 0 <= k < |loops| && !loops[k].1.isSet ==>
            loops[k].0 in hbThreads && hbThreads[loops[k].0] == loops[k].1)
    }

    /** A heartbeat is running for `id`: its event is tracked and not set. */
    ghost predicate Running(id: string)
      reads this, hbThreads.Values
    {
      id in hbThreads && !hbThreads[id].isSet
    }

    constructor (stored: seq<Host>)
      ensures Valid()
      ensures hosts == stored && hbThreads == map[] && loops == [] && colors == [] && processes == []
    {
      hosts := stored;
      hbThreads := map[];
      loops := [];
      colors := [];
      processes := [];
    }

    /** "Add My Server": a cancelled prompt changes nothing, a host whose public IP and port
        are already listed is refused, any other host is appended. */
    method AddServer(newHost: Option<Host>) returns (notice: Notice)
      requires Valid()
      modifies this
      ensures Valid()
      ensures notice == (if newHost.Some? && HasEndpoint(old(hosts), newHost.value) then Duplicate else Silent)
      ensures hosts == if newHost.Some? && !HasEndpoint(old(hosts), newHost.value)
                       then old(hosts) + [newHost.value] else old(hosts)
      ensures UniqueEndpoints(old(hosts)) ==> UniqueEndpoints(hosts)
      ensures hbThreads == old(hbThreads) && loops == old(loops)
      ensures colors == old(colors) && processes == old(processes)
    {
      if newHost.None? {
        return Silent;
      }
      var h := newHost.value;
      var i := 0;
      while i < |hosts|
        invariant 0 <= i <= |hosts|
        invariant forall j :: 0 <= j < i ==> !SameEndpoint(hosts[j], h)
      {
        if SameEndpoint(hosts[i], h) {
          return Duplicate;
        }
        i := i + 1;
      }
      hosts := hosts + [h];
      notice := Silent;
    }

    /** `_ensure_host_exe`: use the host's own executable when it is set and exists,
        otherwise ask for one and record it on the first host with the same id. */
    method EnsureHostExe(cfg: Host, exeExists: bool, chosen: Option<string>) returns (exe: Option<string>)
      requires Valid()
      modifies this
      ensures Valid()
      ensures exe == ResolveExe(cfg, exeExists, chosen)
      ensures hosts == if !(cfg.exePath != "" && exeExists) && chosen.Some?
                       then WithExe(old(hosts), cfg.id, chosen.value) else old(hosts)
      ensures hbThreads == old(hbThreads) && loops == old(loops)
      ensures colors == old(colors) && processes == old(processes)
    {
      if cfg.exePath != "" && exeExists {
        return Some(cfg.exePath);
      }
      if chosen.None? {
        return None;
      }
      var i := 0;
      while i < |hosts|
        invariant 0 <= i <= |hosts|
        invariant hosts == old(hosts)
        invariant forall j :: 0 <= j < i ==> hosts[j].id != cfg.id
      {
        if hosts[i].id == cfg.id {
          hosts := hosts[i := hosts[i].(exePath := chosen.value)];
          break;
        }
        i := i + 1;
      }
      assert forall k :: 0 <= k < |hosts| ==> hosts[k] == WithExe(old(hosts), cfg.id, chosen.value)[k];
      exe := chosen;
    }

    /** "Launch Selected" with a row of "My Servers" selected: resolve the executable, ask for
        the password, then run the host or the guest plan, stopping at a spawn that raises. */
    method LaunchMine(idx: int, exeExists: bool, chosen: Option<string>, dialogOk: bool, pw: string,
                      canSpawn: seq<string> -> bool) returns (notice: Notice)
      requires Valid() && 0 <= idx < |hosts|
      modifies this
      ensures Valid()
      ensures var exe := ResolveExe(old(hosts)[idx], exeExists, chosen);
        exe.None? ==> notice == ExecutableRequired && processes == old(processes)
      ensures var exe := ResolveExe(old(hosts)[idx], exeExists, chosen);
        exe.Some? ==>
          var d := Perform(Plan(exe.value, TargetOf(old(hosts)[idx]), dialogOk, pw), canSpawn);
          && processes == old(processes) + d.performed
          && notice == (if d.failed.Some? then LaunchError(d.failed.value) else Silent)
      ensures hosts == if !(old(hosts)[idx].exePath != "" && exeExists) && chosen.Some?
                       then WithExe(old(hosts), old(hosts)[idx].id, chosen.value) else old(hosts)
      ensures hbThreads == old(hbThreads) && loops == old(loops) && colors == old(colors)
    {
      var cfg := hosts[idx];
      var exe := EnsureHostExe(cfg, exeExists, chosen);
      if exe.None? {
        return ExecutableRequired;
      }
      var performed, failed := Execute(exe.value, TargetOf(cfg), dialogOk, pw, canSpawn);
      processes := processes + performed;
      notice := if failed.Some? then LaunchError(failed.value) else Silent;
    }

    /** "Launch Selected" with nothing selected in "My Servers": join the selected row of
        "Available Servers" at the endpoint parsed from its text. */
    method JoinListed(row: Option<string>, chosen: Option<string>, canSpawn: seq<string> -> bool)
      returns (notice: Notice)
      requires Valid()
      modifies this
      ensures Valid()
      ensures row.None? ==> notice == Select && processes == old(processes)
      ensures row.Some? && ParseEndpoint(row.value).None? ==> notice == ParseError && processes == old(processes)
      ensures row.Some? && ParseEndpoint(row.value).Some? && chosen.None? ==>
        notice == Silent && processes == old(processes)
      ensures row.Some? && ParseEndpoint(row.value).Some? && chosen.Some? ==>
        var args := [chosen.value, ParseEndpoint(row.value).value];
        && processes == old(processes) + (if canSpawn(args) then [Spawn(args)] else [])
        && notice == (if canSpawn(args) then Silent else LaunchError(args))
      ensures hosts == old(hosts) && hbThreads == old(hbThreads) && loops == old(loops) && colors == old(colors)
    {
      if row.None? {
        return Select;
      }
      var endpoint := ParseEndpoint(row.value);
      if endpoint.None? {
        return ParseError;
      }
      if chosen.None? {
        return Silent;
      }
      var args := [chosen.value, endpoint.value];
      if !canSpawn(args) {
        return LaunchError(args);
      }
      processes := processes + [Spawn(args)];
      notice := Silent;
    }

    /** Heartbeat > Start: refused while the selected host's loop is running; otherwise a
        fresh unset event replaces any entry for the id, a new loop is started with it and
        the LED turns amber. */
    method ManualStartHeartbeat(idx: int) returns (notice: Notice)
      requires Valid() && idx < |hosts|
      modifies this
      ensures hosts == old(hosts) && processes == old(processes)
      ensures Valid()
      ensures idx < 0 ==> notice == Select && unchanged(this)
      ensures idx >= 0 && old(Running(hosts[idx].id)) ==> notice == AlreadyRunning && unchanged(this)
      ensures idx >= 0 && !old(Running(hosts[idx].id)) ==>
        var id := hosts[idx].id;
        && notice == Silent
        && id in hbThreads && fresh(hbThreads[id]) && !hbThreads[id].isSet
        && hbThreads == old(hbThreads)[id := hbThreads[id]]
        && loops == old(loops) + [(id, hbThreads[id])]
        && colors == old(colors) + [Amber]
    {
      if idx < 0 {
        return Select;
      }
      var id := hosts[idx].id;
      if id in hbThreads && !hbThreads[id].isSet {
        return AlreadyRunning;
      }
      var ev := new StopEvent();
      hbThreads := hbThreads[id := ev];
      colors := colors + [Amber];
      loops := loops + [(id, ev)];
      notice := Silent;
    }

    /** Heartbeat > Stop All: set every unset tracked event, forget them all, and report
        whether any loop was running. */
    method ManualStopHeartbeat() returns (notice: Notice)
      requires Valid()
      modifies this, hbThreads.Values
      ensures Valid()
      ensures hbThreads == map[]
      ensures forall e :: e in old(hbThreads).Values ==> e.isSet
      ensures notice == Stopped <==> exists id :: id in old(hbThreads) && !old(hbThreads[id].isSet)
      ensures notice == Stopped || notice == NoActiveHeartbeat
      ensures colors == old(colors) + (if notice == Stopped then [Red] else [])
      ensures forall k :: 0 <= k < |loops| ==> loops[k].1.isSet
      ensures hosts == old(hosts) && loops == old(loops) && processes == old(processes)
    {
      var anyRunning := false;
      var pending := hbThreads.Keys;
      while pending != {}
        invariant pending <= hbThreads.Keys
        invariant hbThreads == old(hbThreads) && loops == old(loops) && colors == old(colors)
        invariant hosts == old(hosts) && processes == old(processes)
        invariant forall id :: id in hbThreads && id !in pending ==> hbThreads[id].isSet
        invariant forall id :: id in pending ==> hbThreads[id].isSet == old(hbThreads[id].isSet)
        invariant anyRunning <==> exists id :: id in hbThreads && id !in pending && !old(hbThreads[id].isSet)
        decreases pending
      {
        var id :| id in pending;
        var ev := hbThreads[id];
        if !ev.isSet {
          ev.isSet := true;
          anyRunning := true;
        }
        pending := pending - {id};
      }
      hbThreads := map[];
      if anyRunning {
        colors := colors + [Red];
        notice := Stopped;
      } else {
        notice := NoActiveHeartbeat;
      }
    }

    /** Closing the window sets every tracked event (the entries stay). */
    method Close()
      requires Valid()
      modifies hbThreads.Values
      ensures Valid()
      ensures forall e :: e in hbThreads.Values ==> e.isSet
      ensures forall k :: 0 <= k < |loops| ==> loops[k].1.isSet
    {
      var pending := hbThreads.Keys;
      while pending != {}
        invariant pending <= hbThreads.Keys
        invariant forall id :: id in hbThreads && id !in pending ==> hbThreads[id].isSet
        invariant forall id :: id in pending ==> hbThreads[id].isSet == old(hbThreads[id].isSet)
        decreases pending
      {
        var id :| id in pending;
        hbThreads[id].isSet := true;
        pending := pending - {id};
      }
    }
  }

  /** At most one heartbeat loop runs per host id. */
  lemma OneRunningLoopPerId(b: LobbyBrowser)
    requires b.Valid()
    ensures forall k, l :: 0 <= k < l < |b.loops| && b.loops[k].0 == b.loops[l].0 ==>
      b.loops[k].1.isSet || b.loops[l].1.isSet
  {
  }
}
