/** The listener switch of src/smtp.go, `SMTPServer`: a run flag over a port
    that never changes. Binding the port happens in a goroutine whose error
    is dropped, so no operation here ever reports one. */
module Server {
  import opened Wrappers

  /** `hasListener` records that Start has created the library server at
      least once (the non-nil `server` field); Stop keeps it. It says nothing
      about a bound socket: the bind happens later, in a goroutine whose
      error is dropped. */
  datatype Server = Server(port: int, running: bool, hasListener: bool)

  /** What Start and Toggle return: the updated server and the error result. */
  datatype Reply = Reply(server: Server, err: Option<string>)

  /** A running server has a created library server behind it. */
  predicate Inv(s: Server) {
    s.running ==> s.hasListener
  }

  /** NewSMTPServer: configured but not yet started. */
  function NewServer(port: int): (s: Server)
    ensures s.port == port && !s.running && Inv(s)
  {
    Server(port, false, false)
  }

  /** Start: a no-op on a running server; otherwise the library server is created and
      the flag is set. Always succeeds. */
  function Start(s: Server): (r: Reply)
    ensures r.err.None?
    ensures r.server.running && r.server.port == s.port
    ensures Inv(s) ==> Inv(r.server)
    ensures s.running ==> r.server == s
  {
    if s.running then Reply(s, None)
    else Reply(s.(running := true, hasListener := true), None)
  }

  /** Stop: closes the listener and clears the flag when both are set. */
  function Stop(s: Server): (r: Server)
    ensures r.port == s.port && r.hasListener == s.hasListener
    ensures Inv(s) ==> !r.running
    ensures !s.running ==> r == s
    ensures Inv(s) ==> Inv(r)
  {
    if s.hasListener && s.running then s.(running := false) else s
  }

  /** IsRunning: the flag Start sets and Stop clears. */
  function IsRunning(s: Server): (b: bool)
    ensures b == s.running
    ensures Inv(s) && b ==> s.hasListener
  {
    s.running
  }

  /** Port: the port the server was configured with. */
  function Port(s: Server): (p: int)
    ensures p == s.port
  {
    s.port
  }

  /** Toggle: Stop when running, Start otherwise. */
  function Toggle(s: Server): (r: Reply)
    ensures r.err.None?
    ensures r.server.port == s.port
    ensures Inv(s) ==> Inv(r.server) && IsRunning(r.server) == !IsRunning(s)
  {
    if IsRunning(s) then Reply(Stop(s), None) else Start(s)
  }

  /** Stopping twice is stopping once. */
  lemma StopIdempotent(s: Server)
    ensures Stop(Stop(s)) == Stop(s)
  {
  }

  /** Toggling twice restores the flag. */
  lemma ToggleTwice(s: Server)
    requires Inv(s)
    ensures IsRunning(Toggle(Toggle(s).server).server) == IsRunning(s)
    ensures Port(Toggle(Toggle(s).server).server) == Port(s)
  {
  }

  datatype Command = StartCmd | StopCmd | ToggleCmd

  function Apply(s: Server, c: Command): Server {
    match c
    case StartCmd => Start(s).server
    case StopCmd => Stop(s)
    case ToggleCmd => Toggle(s).server
  }

  function ApplyAll(s: Server, cs: seq<Command>): Server
    decreases |cs|
  {
    if |cs| == 0 then s else ApplyAll(Apply(s, cs[0]), cs[1..])
  }

  /** Over any sequence of commands from a new server the port stays the one
      configured, a running server always has a listener, and the flag is the
      one the last state-changing command left. */
  lemma {:induction false} ApplyAllKeeps(s: Server, cs: seq<Command>)
    requires Inv(s)
    ensures Inv(ApplyAll(s, cs))
    ensures Port(ApplyAll(s, cs)) == Port(s)
    ensures |cs| > 0 && cs[|cs| - 1] == StartCmd ==> IsRunning(ApplyAll(s, cs))
    ensures |cs| > 0 && cs[|cs| - 1] == StopCmd ==> !IsRunning(ApplyAll(s, cs))
    decreases |cs|
  {
    if |cs| > 0 {
      ApplyAllKeeps(Apply(s, cs[0]), cs[1..]);
      if |cs| > 1 {
        assert cs[1..][|cs[1..]| - 1] == cs[|cs| - 1];
      }
    }
  }
}
