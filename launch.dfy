/** The launch decision shared by both windows: a password check chooses between hosting
    (dedicated server, warm-up wait, client on the local address) and joining as a guest
    (client on the public address). Process spawns and the wait are recorded as effects. */
module Launch {

  import opened Common

  /** A side effect of a launch: a process started with these arguments, or a wait. */
  datatype Effect = Spawn(args: seq<string>) | Sleep(seconds: nat)

  /** Seconds the host path waits between starting the server and starting the client. */
  const WarmUp: nat := 10

  /** `f"{ip}:{port}"`. */
  function Endpoint(ip: string, port: int): string
  {
    ip + ":" + DecimalString(port)
  }

  /** The dedicated-server command line: king-of-the-hill, ten players, six bots. */
  function ServerArgs(exe: string, mapName: string, port: int): seq<string>
  {
    [exe, "server", mapName + ".gear?game=koth?MaxPlayers=10?bots=6?", "-port=" + DecimalString(port),
     "-useallavailablecores", "-log"]
  }

  /** The fields of a server configuration a launch reads. */
  datatype Target = Target(mapName: string, port: int, localIp: string, publicIp: string, password: string)

  /** The host path is taken only when the dialog was accepted and the password matches exactly. */
  predicate IsHostPath(t: Target, dialogOk: bool, pw: string)
  {
    dialogOk && pw == t.password
  }

  /** The effects a launch attempts, in order. */
  function Plan(exe: string, t: Target, dialogOk: bool, pw: string): seq<Effect>
  {
    if IsHostPath(t, dialogOk, pw) then
      [Spawn(ServerArgs(exe, t.mapName, t.port)), Sleep(WarmUp), Spawn([exe, Endpoint(t.localIp, t.port)])]
    else
      [Spawn([exe, Endpoint(t.publicIp, t.port)])]
  }

  /** What a launch actually did: the effects carried out and, if a spawn raised, its arguments. */
  datatype Done = Done(performed: seq<Effect>, failed: Option<seq<string>>)

  /** Carry out `plan` in order; the first spawn that `canSpawn` refuses raises and ends the
      sequence (the `try` block around the spawns). */
  function Perform(plan: seq<Effect>, canSpawn: seq<string> -> bool): (r: Done)
    ensures |r.performed| <= |plan| && r.performed == plan[..|r.performed|]
    ensures r.failed.None? <==> |r.performed| == |plan|
    ensures r.failed.Some? ==> plan[|r.performed|] == Spawn(r.failed.value) && !canSpawn(r.failed.value)
    ensures forall k :: 0 <= k < |r.performed| && r.performed[k].Spawn? ==> canSpawn(r.performed[k].args)
  {
    if plan == [] then Done([], None)
    else if plan[0].Spawn? && !canSpawn(plan[0].args) then Done([], Some(plan[0].args))
    else
      var rest := Perform(plan[1..], canSpawn);
      Done([plan[0]] + rest.performed, rest.failed)
  }

  /** Perform of a one-spawn plan. */
  lemma PerformOne(args: seq<string>, canSpawn: seq<string> -> bool)
    ensures Perform([Spawn(args)], canSpawn) ==
      if canSpawn(args) then Done([Spawn(args)], None) else Done([], Some(args))
  {
    assert [Spawn(args)][1..] == [];
  }

  /** The host path starts the server, waits the warm-up, then starts the client on the local
      address; a spawn that raises stops everything after it. */
  lemma HostLaunch(exe: string, t: Target, dialogOk: bool, pw: string, canSpawn: seq<string> -> bool)
    requires IsHostPath(t, dialogOk, pw)
    ensures var server := ServerArgs(exe, t.mapName, t.port);
      var client := [exe, Endpoint(t.localIp, t.port)];
      var d := Perform(Plan(exe, t, dialogOk, pw), canSpawn);
      && (!canSpawn(server) ==> d == Done([], Some(server)))
      && (canSpawn(server) && !canSpawn(client) ==> d == Done([Spawn(server), Sleep(WarmUp)], Some(client)))
      && (canSpawn(server) && canSpawn(client) ==> d == Done([Spawn(server), Sleep(WarmUp), Spawn(client)], None))
  {
    var server := ServerArgs(exe, t.mapName, t.port);
    var client := [exe, Endpoint(t.localIp, t.port)];
    var plan := Plan(exe, t, dialogOk, pw);
    assert plan == [Spawn(server), Sleep(WarmUp), Spawn(client)];
    PerformOne(client, canSpawn);
    var last := Perform([Spawn(client)], canSpawn);
    assert [Sleep(WarmUp), Spawn(client)][1..] == [Spawn(client)];
    var wait := Perform([Sleep(WarmUp), Spawn(client)], canSpawn);
    assert wait == Done([Sleep(WarmUp)] + last.performed, last.failed);
    assert plan[1..] == [Sleep(WarmUp), Spawn(client)];
    if canSpawn(server) {
      assert Perform(plan, canSpawn) == Done([Spawn(server)] + wait.performed, wait.failed);
    }
  }

  /** Every other case, including a cancelled dialog, makes exactly one spawn attempt, for a
      client on the public address, and never starts a server. */
  lemma GuestLaunch(exe: string, t: Target, dialogOk: bool, pw: string, canSpawn: seq<string> -> bool)
    requires !IsHostPath(t, dialogOk, pw)
    ensures var client := [exe, Endpoint(t.publicIp, t.port)];
      Perform(Plan(exe, t, dialogOk, pw), canSpawn) ==
        if canSpawn(client) then Done([Spawn(client)], None) else Done([], Some(client))
  {
    PerformOne([exe, Endpoint(t.publicIp, t.port)], canSpawn);
  }

  /** The `try` blocks of a launch: spawn the server, wait and spawn the local client on the
      host path, or spawn the public client; the first spawn that raises ends the launch. */
  method Execute(exe: string, t: Target, dialogOk: bool, pw: string, canSpawn: seq<string> -> bool)
    returns (performed: seq<Effect>, failed: Option<seq<string>>)
    ensures Done(performed, failed) == Perform(Plan(exe, t, dialogOk, pw), canSpawn)
  {
    performed := [];
    if dialogOk && pw == t.password {
      HostLaunch(exe, t, dialogOk, pw, canSpawn);
      var server := ServerArgs(exe, t.mapName, t.port);
      if !canSpawn(server) {
        return performed, Some(server);
      }
      performed := performed + [Spawn(server)];
      performed := performed + [Sleep(WarmUp)];
      var client := [exe, Endpoint(t.localIp, t.port)];
      if !canSpawn(client) {
        return performed, Some(client);
      }
      performed := performed + [Spawn(client)];
    } else {
      GuestLaunch(exe, t, dialogOk, pw, canSpawn);
      var client := [exe, Endpoint(t.publicIp, t.port)];
      if !canSpawn(client) {
        return performed, Some(client);
      }
      performed := performed + [Spawn(client)];
    }
    failed := None;
  }

  /** A blank password joins as a guest unless the stored password is blank too; a cancelled
      dialog always joins as a guest. */
  lemma BlankPasswordIsGuest(t: Target, dialogOk: bool, pw: string)
    ensures pw == "" && t.password != "" ==> !IsHostPath(t, dialogOk, pw)
    ensures !dialogOk ==> !IsHostPath(t, dialogOk, pw)
  {
  }
}
