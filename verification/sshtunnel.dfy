/** The tunnel entity: nine configuration fields and an optional handle on an
    SSH forwarder. The forwarder itself (the sshtunnel library) is abstract:
    it records what it was built from and whether it reports itself active,
    and the outcome of its own start and stop is a parameter. */
module SshTunnel {
  import opened Wrappers
  import Json

  const DefaultName: string := ""
  const DefaultLocalIp: string := "127.0.0.1"
  const DefaultServerPort: int := 22

  /** The record keys of `to_dict`, which are also the keyword parameters of
      the constructor. */
  const Fields: set<string> :=
    {"name", "local_ip", "local_port", "host_ip", "host_port", "server_port", "user", "password", "server_ip"}

  /** Keyword parameters without a default value. */
  const RequiredFields: set<string> := {"local_port", "host_ip", "host_port", "user", "password"}

  /** Ports are unconstrained integers: no range check happens here. */
  datatype Config = Config(
    name: string,
    localIp: string,
    localPort: int,
    hostIp: string,
    hostPort: int,
    serverPort: int,
    user: string,
    password: string,
    serverIp: string)

  datatype Address = Address(host: string, port: int)

  /** What a forwarder is built from. */
  datatype Binding = Binding(
    sshAddress: Address,
    remoteBind: Address,
    localBind: Address,
    sshUsername: string,
    sshPassword: string)

  datatype Forwarder = Forwarder(binding: Binding, isActive: bool)

  datatype Tunnel = Tunnel(config: Config, handle: Option<Forwarder>)

  datatype TunnelError =
    | BuildFailed        // the forwarder's constructor raised
    | ConnectionFailed   // the forwarder's start raised
    | TeardownFailed     // the forwarder's stop raised

  /** The tunnel after an operation, and the error it raised, if any. */
  datatype Transition = Transition(after: Tunnel, error: Option<TunnelError>)

  /** Python truthiness of the optional `server_ip` argument. */
  predicate IsFalsy(s: Option<string>)
  {
    s.None? || s.value == ""
  }

  /** The constructor: fields are stored as given, except that a falsy
      `server_ip` falls back to `host_ip`; there is no handle yet. */
  function NewTunnel(localPort: int, hostIp: string, hostPort: int, user: string, password: string,
                     name: string := DefaultName, localIp: string := DefaultLocalIp,
                     serverIp: Option<string> := None, serverPort: int := DefaultServerPort): (t: Tunnel)
    ensures t.handle.None? && !IsActive(t)
    ensures t.config.name == name && t.config.localIp == localIp && t.config.localPort == localPort
    ensures t.config.hostIp == hostIp && t.config.hostPort == hostPort && t.config.serverPort == serverPort
    ensures t.config.user == user && t.config.password == password
    ensures IsFalsy(serverIp) ==> t.config.serverIp == hostIp
    ensures !IsFalsy(serverIp) ==> t.config.serverIp == serverIp.value
  {
    Tunnel(Config(name, localIp, localPort, hostIp, hostPort, serverPort, user, password,
                  if IsFalsy(serverIp) then hostIp else serverIp.value),
           None)
  }

  /** The server address is empty only when the host address is empty too. */
  lemma ServerIpEmptyOnlyWithHostIp(localPort: int, hostIp: string, hostPort: int, user: string, password: string,
                                    name: string, localIp: string, serverIp: Option<string>, serverPort: int)
    ensures NewTunnel(localPort, hostIp, hostPort, user, password, name, localIp, serverIp, serverPort).config.serverIp == ""
      <==> hostIp == "" && IsFalsy(serverIp)
  {
  }

  /** `is_active`: false without a handle, otherwise the handle's own flag. */
  function IsActive(t: Tunnel): (active: bool)
    ensures t.handle.None? ==> !active
    ensures t.handle.Some? ==> (active <==> t.handle.value.isActive)
  {
    t.handle.Some? && t.handle.value.isActive
  }

  /** The forwarder `start` builds: SSH server (server_ip, server_port),
      remote end (host_ip, host_port), local listener (local_ip, local_port),
      authenticated with user and password. */
  function BindingFor(c: Config): Binding
  {
    Binding(Address(c.serverIp, c.serverPort), Address(c.hostIp, c.hostPort),
            Address(c.localIp, c.localPort), c.user, c.password)
  }

  /** `start`: builds a forwarder only when there is none, and starts it only
      when the tunnel is not already active. `forwarderBuilds` is whether the
      forwarder's constructor succeeds; when it raises, nothing is assigned and
      the tunnel keeps no handle. `forwarderStarts` is whether the forwarder's
      own start succeeds; when it does not, the built handle is kept, inactive,
      and the connection error is raised. */
  function Start(t: Tunnel, forwarderBuilds: bool, forwarderStarts: bool): (r: Transition)
    ensures r.after.config == t.config
    ensures r.after.handle.Some? <==> t.handle.Some? || forwarderBuilds
    ensures t.handle.None? && !forwarderBuilds ==> r == Transition(t, Some(BuildFailed))
    ensures t.handle.Some? ==> r.after.handle.value.binding == t.handle.value.binding
    ensures t.handle.None? && forwarderBuilds ==>
      r.after.handle.value.binding.sshAddress == Address(t.config.serverIp, t.config.serverPort)
    ensures t.handle.None? && forwarderBuilds ==>
      r.after.handle.value.binding.remoteBind == Address(t.config.hostIp, t.config.hostPort)
    ensures t.handle.None? && forwarderBuilds ==>
      r.after.handle.value.binding.localBind == Address(t.config.localIp, t.config.localPort)
    ensures t.handle.None? && forwarderBuilds ==> r.after.handle.value.binding.sshUsername == t.config.user
    ensures t.handle.None? && forwarderBuilds ==> r.after.handle.value.binding.sshPassword == t.config.password
    ensures IsActive(t) ==> r == Transition(t, None)
    ensures IsActive(r.after) <==> IsActive(t) || ((t.handle.Some? || forwarderBuilds) && forwarderStarts)
    ensures r.error.None? <==> IsActive(r.after)
    ensures r.error.Some? && r.after.handle.Some? ==> r.error.value == ConnectionFailed
  {
    if t.handle.None? && !forwarderBuilds then
      Transition(t, Some(BuildFailed))
    else
      var handle := if t.handle.Some? then t.handle.value else Forwarder(BindingFor(t.config), false);
      if handle.isActive then
        Transition(Tunnel(t.config, Some(handle)), None)
      else if forwarderStarts then
        Transition(Tunnel(t.config, Some(handle.(isActive := true))), None)
      else
        Transition(Tunnel(t.config, Some(handle)), Some(ConnectionFailed))
  }

  /** `stop`: stops the forwarder (forcibly) only when active, then drops the
      handle. `teardownRaises` is whether the forwarder's stop raises; the
      handle is then left in place and the error propagates. */
  function Stop(t: Tunnel, teardownRaises: bool): (r: Transition)
    ensures r.after.config == t.config
    ensures r.error.None? <==> !(IsActive(t) && teardownRaises)
    ensures r.error.None? ==> r.after.handle.None? && !IsActive(r.after)
    ensures r.error.Some? ==> r.after == t && r.error.value == TeardownFailed
  {
    if IsActive(t) && teardownRaises then
      Transition(t, Some(TeardownFailed))
    else
      Transition(Tunnel(t.config, None), None)
  }

  /** Starting a tunnel that a start left active changes nothing. */
  lemma StartIdempotent(t: Tunnel, builds: bool, starts: bool, builds': bool, starts': bool)
    requires Start(t, builds, starts).error.None?
    ensures Start(Start(t, builds, starts).after, builds', starts') == Start(t, builds, starts)
  {
    var r := Start(t, builds, starts);
    assert IsActive(r.after);
  }

  /** Stopping a tunnel that a stop has cleared changes nothing and cannot
      fail, whatever the forwarder would do. */
  lemma StopIdempotent(t: Tunnel, first: bool, second: bool)
    requires Stop(t, first).error.None?
    ensures Stop(Stop(t, first).after, second) == Stop(t, first)
  {
    var r := Stop(t, first);
    assert !IsActive(r.after);
  }

  /** After a stop the handle is gone, so the next start builds a new one from
      the configuration, exactly as on a freshly constructed tunnel. */
  lemma StartAfterStopBuildsFreshHandle(t: Tunnel, teardownRaises: bool, forwarderBuilds: bool, forwarderStarts: bool)
    requires Stop(t, teardownRaises).error.None?
    ensures Start(Stop(t, teardownRaises).after, forwarderBuilds, forwarderStarts)
      == Start(Tunnel(t.config, None), forwarderBuilds, forwarderStarts)
    ensures forwarderBuilds ==>
      Start(Stop(t, teardownRaises).after, forwarderBuilds, forwarderStarts).after.handle
        == Some(Forwarder(BindingFor(t.config), forwarderStarts))
  {
    assert Stop(t, teardownRaises).after == Tunnel(t.config, None);
  }

  /** The lifecycle of a new tunnel: inactive; active after a successful
      start; inactive after a stop; and a second stop does not raise. */
  lemma Lifecycle(localPort: int, hostIp: string, hostPort: int, user: string, password: string,
                  name: string, localIp: string, serverIp: Option<string>, serverPort: int, teardownRaises: bool)
    ensures var t0 := NewTunnel(localPort, hostIp, hostPort, user, password, name, localIp, serverIp, serverPort);
      var t1 := Start(t0, true, true);
      var t2 := Stop(t1.after, false);
      var t3 := Stop(t2.after, teardownRaises);
      && !IsActive(t0)
      && t1.error.None? && IsActive(t1.after)
      && t2.error.None? && !IsActive(t2.after)
      && t3.error.None? && t3.after == t2.after
  {
  }

  /** `to_dict`: the nine fields as a JSON object, ports as numbers and
      everything else as strings. */
  function ToDict(c: Config): (d: map<string, Json.Value>)
    ensures d.Keys == Fields
    ensures d["name"] == Json.JString(c.name) && d["local_ip"] == Json.JString(c.localIp)
    ensures d["local_port"] == Json.JNumber(c.localPort)
    ensures d["host_ip"] == Json.JString(c.hostIp) && d["host_port"] == Json.JNumber(c.hostPort)
    ensures d["server_port"] == Json.JNumber(c.serverPort)
    ensures d["user"] == Json.JString(c.user) && d["password"] == Json.JString(c.password)
    ensures d["server_ip"] == Json.JString(c.serverIp)
  {
    map[
      "name" := Json.JString(c.name),
      "local_ip" := Json.JString(c.localIp),
      "local_port" := Json.JNumber(c.localPort),
      "host_ip" := Json.JString(c.hostIp),
      "host_port" := Json.JNumber(c.hostPort),
      "server_port" := Json.JNumber(c.serverPort),
      "user" := Json.JString(c.user),
      "password" := Json.JString(c.password),
      "server_ip" := Json.JString(c.serverIp)
    ]
  }
}
