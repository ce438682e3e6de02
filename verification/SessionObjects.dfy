/** The client and server objects themselves, joined by two channels: they take the steps of a session. */
module SessionObjects {
  import opened Protocol
  import opened ClientConnection
  import opened Session
  import S = ServerConnection

  function StateOf(c: ClientCnx, s: S.ServerClientConnection, toServer: seq<Message>, toClient: seq<Message>): System
    reads c, s
  {
    System(c.cnxState, c.extEvent, c.socketStopped, s.state, s.lastRejectedCause, toServer, toClient)
  }

  /** The credentials a registration request carries are those the client object holds. */
  function Resolved(c: ClientCnx, step: Step): Step
    reads c
  {
    if step.ServeEvents? then ServeEvents(RegistrationReq(c.userName, c.userPasswd, c.userEmail)) else step
  }

  /** What the application may do, the objects carry out as the session says, and none of the asserts
      in their methods fires. */
  method Perform(c: ClientCnx, s: S.ServerClientConnection, step: Step, v: Versions,
                 toServer: seq<Message>, toClient: seq<Message>)
    returns (toServer': seq<Message>, toClient': seq<Message>)
    requires c.version == v.client && s.version == v.server
    requires InStep(StateOf(c, s, toServer, toClient), v)
    requires Allowed(StateOf(c, s, toServer, toClient), Resolved(c, step), v)
    modifies c, s
    ensures Next(old(StateOf(c, s, toServer, toClient)), old(Resolved(c, step)), v) ==
      To(StateOf(c, s, toServer', toClient'))
    ensures InStep(StateOf(c, s, toServer', toClient'), v)
  {
    hide InStep;
    ghost var before := StateOf(c, s, toServer, toClient);
    StepSafe(before, Resolved(c, step), v);
    toServer', toClient' := toServer, toClient;
    var sentBefore, repliedBefore, open := |c.outbox|, |s.outbox|, !c.socketStopped;
    match step {
      case Start =>
        c.StartConnectionToServer();
      case SubmitCredentials =>
        var name: string, passwd: string, email: string := *, *, *;
        c.RegistrationDataFromUserInterface(name, passwd, email);
      case Stop(flushed, kept) =>
        if flushed <= |toClient| {
          toClient' := toClient[flushed..];
        } else {
          toClient' := [];
        }
        if kept <= |toServer| {
          toServer' := toServer[..kept];
        }
        c.StopConnectionToServer();
      case ServeEvents(_) =>
        if Active(c.cnxState) {
          c.HandleExtEvents();
        }
      case ClientReceives =>
        if Active(c.cnxState) && !c.socketStopped && toClient != [] {
          c.HandleServerMessage(toClient[0]);
          toClient' := if c.socketStopped then [] else toClient[1..];
        }
      case ServerReceives(db) =>
        if toServer != [] {
          s.HandleClientMessage(toServer[0], db);
          toServer' := toServer[1..];
          toClient' := if c.socketStopped then [] else toClient + s.outbox[repliedBefore..];
        }
    }
    if open {
      toServer' := toServer' + c.outbox[sentBefore..];
    }
  }

  /** Any sequence of steps, each taken when it is allowed: the two objects go through a run of the session. */
  method Run(c: ClientCnx, s: S.ServerClientConnection, steps: seq<Step>, v: Versions)
    returns (toServer: seq<Message>, toClient: seq<Message>, ghost taken: seq<Step>)
    requires c.version == v.client && s.version == v.server
    requires StateOf(c, s, [], []) == INITIAL
    modifies c, s
    ensures AllAllowed(INITIAL, taken, v)
    ensures Session.Run(INITIAL, taken, v) == To(StateOf(c, s, toServer, toClient))
    ensures c.cnxState == Registered ==> s.state == S.Registered && toServer == toClient == []
  {
    hide InStep, Allowed, Next;
    toServer, toClient, taken := [], [], [];
    for k := 0 to |steps|
      invariant AllAllowed(INITIAL, taken, v)
      invariant Session.Run(INITIAL, taken, v) == To(StateOf(c, s, toServer, toClient))
    {
      var step := Resolved(c, steps[k]);
      if Allowed(StateOf(c, s, toServer, toClient), step, v) {
        InitialInStep(v);
        RunSafe(INITIAL, taken, v);
        RunLonger(INITIAL, taken, step, v);
        toServer, toClient := Perform(c, s, step, v, toServer, toClient);
        taken := taken + [step];
      }
    }
    SessionSafe(taken, v);
  }

  lemma InitialInStep(v: Versions)
    ensures InStep(INITIAL, v)
  {
  }
}
