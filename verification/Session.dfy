/** Client and server together, joined by two FIFO channels: every interleaving of the user, the two
    programs and the network, with any answers of the user database. */
module Session {
  import opened Protocol
  import C = ClientConnection
  import S = ServerConnection

  /** The versions the two programs were built with; they need not agree. */
  datatype Versions = Versions(client: string, server: string)

  datatype System = System(
    client: C.CnxState,
    events: set<C.CnxExtEvent>,
    stopped: bool,               // the client has stopped its socket
    server: S.State,
    cause: ConnRejCause,
    toServer: seq<Message>,
    toClient: seq<Message>)

  const INITIAL: System := System(C.NoSocket, {}, false, S.Empty, ConnNoCause, [], [])

  datatype Step =
    | Start                                    // the application starts the connection
    | SubmitCredentials                        // the user interface hands over credentials
    | Stop(flushed: nat, kept: nat)            // the application stops the connection; a flush may drop
                                               // messages not yet handled and messages not yet sent
    | ServeEvents(request: Message)            // poll() serves the pending events
    | ClientReceives                           // poll() handles the next message from the server
    | ServerReceives(db: S.Lookups)            // the server handles the next message from the client

  /** When the application may take a step, with the state it is in. A connection is started once,
      credentials are submitted when they are asked for, and a connection is stopped unless an answer
      of the server is still to come. */
  predicate Allowed(s: System, step: Step, v: Versions) {
    match step
    case Start => s.client == C.NoSocket
    case SubmitCredentials => s.client == C.ConnectedNoCredentials
    case Stop(_, _) =>
      && s.client != C.Registering
      && (s.client == C.ConnectedNoCredentials ==> s.events == {})
      && (s.client == C.Connecting ==> v.client != v.server)
    case ServeEvents(m) => m.RegistrationReq?
    case _ => true
  }

  /** What a step leads to; Broken is an assert of the source firing. */
  datatype Outcome = Broken | To(system: System)

  /** Nothing leaves a stopped socket. */
  function Sent(s: System, ms: seq<Message>): seq<Message> {
    if s.stopped then s.toServer else s.toServer + ms
  }

  /** A step that has nothing to act on changes nothing. */
  function Next(s: System, step: Step, v: Versions): Outcome {
    match step
    case Start =>
      if !C.MayEnter(s.client, C.Connecting) then Broken
      else To(s.(client := C.Connecting, toServer := Sent(s, [ConnectionReq(v.client)])))
    case SubmitCredentials =>
      To(s.(events := s.events + {C.NewCredentials}))
    case Stop(flushed, kept) =>
      var unread := if flushed <= |s.toClient| then s.toClient[flushed..] else [];
      var unsent := if kept <= |s.toServer| then s.toServer[..kept] else s.toServer;
      var t := s.(client := C.Disconnecting, toClient := unread, toServer := unsent);
      To(t.(toServer := Sent(t, [DisconnectionReq(UserShutdown)])))
    case ServeEvents(request) =>
      if !C.Active(s.client) then To(s)
      else
        var r := C.ServeEvents(s.client, s.events, request);
        if r.AssertFails? then Broken
        else To(s.(client := r.state, events := r.events, toServer := Sent(s, r.sent)))
    case ClientReceives =>
      if !C.Active(s.client) || s.stopped || s.toClient == [] then To(s)
      else
        var r := C.React(s.client, s.events, s.toClient[0]);
        if r.AssertFails? then Broken
        else
          var stopped := s.toClient[0] == DisconnectionCnf;
          To(s.(client := r.state, events := r.events, stopped := stopped, toServer := Sent(s, r.sent),
                toClient := if stopped then [] else s.toClient[1..]))
    case ServerReceives(db) =>
      if s.toServer == [] then To(s)
      else
        var r := S.React(s.server, s.cause, s.toServer[0], db, v.server);
        if r.AssertFails? then Broken
        else To(s.(server := r.state, cause := r.cause, toServer := s.toServer[1..],
                   toClient := if s.stopped then [] else s.toClient + r.replies))
  }

  // ----- safety -----

  predicate Quiet(s: System) {
    s.toServer == [] && s.toClient == [] && s.events == {}
  }

  predicate One(ms: seq<Message>, m: Message) {
    ms == [m]
  }

  /** What is under way once the client is leaving: a rejected connection request at most, and the
      disconnection. */
  predicate Leaving(s: System, v: Versions) {
    && s.events == {}
    && (s.stopped ==> s.toClient == [])
    && (forall m | m in s.toServer ::
          m == DisconnectionReq(UserShutdown) || (m == ConnectionReq(v.client) && v.client != v.server))
    && (forall m | m in s.toClient :: m == DisconnectionCnf || m.ConnectionRej?)
  }

  /** The confirmation that ends the disconnection is under way, or will be. */
  predicate Answerable(s: System) {
    DisconnectionReq(UserShutdown) in s.toServer || DisconnectionCnf in s.toClient
  }

  /** Where client, server and channels can stand together. */
  predicate InStep(s: System, v: Versions) {
    match s.client
    case NoSocket => Quiet(s) && s.server == S.Empty && !s.stopped
    case Connecting =>
      && s.events == {} && !s.stopped
      && (if v.client == v.server then
            || (One(s.toServer, ConnectionReq(v.client)) && s.toClient == [] && s.server == S.Empty)
            || (s.toServer == [] && One(s.toClient, ConnectionCnf) && s.server == S.Registering)
          else
            || (One(s.toServer, ConnectionReq(v.client)) && s.toClient == [] && s.server == S.Empty)
            || (s.toServer == [] && One(s.toClient, ConnectionRej(BadClientVersion)) && s.server == S.ConnRejected)
            || (Quiet(s) && s.server == S.ConnRejected))
    case ConnectedNoCredentials =>
      && s.toServer == [] && s.toClient == [] && s.events <= {C.NewCredentials}
      && s.server == S.Registering && !s.stopped && v.client == v.server
    case Registering =>
      && s.events == {} && !s.stopped && v.client == v.server
      && (  || (|s.toServer| == 1 && s.toServer[0].RegistrationReq? && s.toClient == [] && s.server == S.Registering)
            || (s.toServer == [] && One(s.toClient, RegistrationCnf) && s.server == S.Registered)
            || (s.toServer == [] && |s.toClient| == 1 && s.toClient[0].RegistrationRej? && s.server == S.Registering))
    case Registered => Quiet(s) && s.server == S.Registered && !s.stopped && v.client == v.server
    case Disconnecting => Leaving(s, v) && (s.stopped || Answerable(s))
    case Closing => Leaving(s, v) && s.stopped
    case _ => false
  }

  /** Whatever is flushed, stopping leaves nothing under way that the client could not take any more. */
  lemma StopSafe(s: System, step: Step, v: Versions)
    requires InStep(s, v) && step.Stop? && Allowed(s, step, v)
    ensures Next(s, step, v).To?
    ensures var t := Next(s, step, v).system;
      t.client == C.Disconnecting && t.stopped == s.stopped && InStep(t, v)
  {
    assert Leaving(s, v);
    var t := Next(s, step, v).system;
    if !t.stopped {
      assert t.toServer[|t.toServer| - 1] == DisconnectionReq(UserShutdown);
    }
    forall m | m in t.toServer ensures m == DisconnectionReq(UserShutdown) || m in s.toServer {
    }
    forall m | m in t.toClient ensures m in s.toClient {
    }
  }

  lemma LeavingSafe(s: System, step: Step, v: Versions)
    requires InStep(s, v) && (s.client == C.Disconnecting || s.client == C.Closing)
    requires Allowed(s, step, v) && !step.Stop?
    ensures Next(s, step, v).To? && InStep(Next(s, step, v).system, v)
    ensures Next(s, step, v).system.client == s.client
      || (!s.stopped && s.toClient != [] && Next(s, step, v).system.client == C.Closing)
  {
    if step.ServerReceives? && s.toServer != [] {
      ServerTakesLeave(s, step, v);
    } else if step.ClientReceives? && s.toClient != [] && !s.stopped {
      ClientTakesLeave(s, step, v);
    }
  }

  /** While the client is leaving, whatever the server receives it answers once. */
  lemma ServerTakesLeave(s: System, step: Step, v: Versions)
    requires InStep(s, v) && (s.client == C.Disconnecting || s.client == C.Closing)
    requires step.ServerReceives? && s.toServer != []
    ensures Next(s, step, v).To?
    ensures var t := Next(s, step, v).system;
      && InStep(t, v) && t.client == s.client && t.stopped == s.stopped
      && |t.toServer| == |s.toServer| - 1 && (!s.stopped ==> |t.toClient| == |s.toClient| + 1)
  {
    var m := s.toServer[0];
    assert m in s.toServer;
    var t := Next(s, step, v).system;
    assert forall x | x in s.toServer :: x == m || x in t.toServer;
    assert forall x | x in t.toServer :: x in s.toServer;
    if !s.stopped {
      var reply := t.toClient[|s.toClient|];
      assert t.toClient == s.toClient + [reply] && reply in t.toClient;
    }
  }

  lemma ClientTakesLeave(s: System, step: Step, v: Versions)
    requires InStep(s, v) && s.client == C.Disconnecting && !s.stopped
    requires step.ClientReceives? && s.toClient != []
    ensures Next(s, step, v).To?
    ensures var t := Next(s, step, v).system;
      && InStep(t, v) && t.toServer == s.toServer
      && (t.client == C.Closing || (t.client == C.Disconnecting && !t.stopped && |t.toClient| == |s.toClient| - 1))
  {
    var m := s.toClient[0];
    assert m in s.toClient;
    var t := Next(s, step, v).system;
    assert t.toServer == s.toServer;
    if m != DisconnectionCnf {
      assert forall x | x in s.toClient :: x == m || x in t.toClient;
    }
  }

  predicate InHandshake(s: System) {
    s.client == C.NoSocket || s.client == C.Connecting || s.client == C.ConnectedNoCredentials
    || s.client == C.Registering || s.client == C.Registered
  }

  lemma HandshakeSafe(s: System, step: Step, v: Versions)
    requires InStep(s, v) && InHandshake(s) && Allowed(s, step, v) && !step.Stop?
    ensures Next(s, step, v).To? && InStep(Next(s, step, v).system, v)
  {
    hide InStep, Next, Allowed;
    match step
    case ClientReceives => ClientSafe(s, step, v);
    case ServerReceives(_) => ServerSafe(s, step, v);
    case _ => UserSafe(s, step, v);
  }

  lemma ClientSafe(s: System, step: Step, v: Versions)
    requires InStep(s, v) && InHandshake(s) && step.ClientReceives?
    ensures Next(s, step, v).To? && InStep(Next(s, step, v).system, v)
  {
    hide Leaving, Answerable, S.React;
  }

  lemma ServerSafe(s: System, step: Step, v: Versions)
    requires InStep(s, v) && InHandshake(s) && step.ServerReceives?
    ensures Next(s, step, v).To? && InStep(Next(s, step, v).system, v)
  {
    hide Leaving, Answerable, C.React, C.ServeEvents;
  }

  lemma UserSafe(s: System, step: Step, v: Versions)
    requires InStep(s, v) && InHandshake(s) && Allowed(s, step, v)
    requires !step.Stop? && !step.ClientReceives? && !step.ServerReceives?
    ensures Next(s, step, v).To? && InStep(Next(s, step, v).system, v)
  {
    hide Leaving, Answerable, C.React, S.React;
  }

  /** One allowed step: no assert fires, and the system stays in step. */
  lemma StepSafe(s: System, step: Step, v: Versions)
    requires InStep(s, v) && Allowed(s, step, v)
    ensures Next(s, step, v).To? && InStep(Next(s, step, v).system, v)
  {
    hide Leaving, Answerable, Allowed, Next;
    if step.Stop? {
      StopSafe(s, step, v);
    } else if s.client == C.Disconnecting || s.client == C.Closing {
      LeavingSafe(s, step, v);
    } else {
      HandshakeSafe(s, step, v);
    }
  }

  /** The states a run goes through, as long as no assert fires. */
  function Run(s: System, steps: seq<Step>, v: Versions): Outcome
    decreases |steps|
  {
    if steps == [] then To(s)
    else
      match Next(s, steps[0], v)
      case Broken => Broken
      case To(t) => Run(t, steps[1..], v)
  }

  predicate AllAllowed(s: System, steps: seq<Step>, v: Versions)
    decreases |steps|
  {
    steps == []
    || (Allowed(s, steps[0], v)
        && match Next(s, steps[0], v)
           case Broken => true
           case To(t) => AllAllowed(t, steps[1..], v))
  }

  lemma {:induction false} RunSafe(s: System, steps: seq<Step>, v: Versions)
    requires InStep(s, v) && AllAllowed(s, steps, v)
    ensures Run(s, steps, v).To? && InStep(Run(s, steps, v).system, v)
    decreases |steps|
  {
    if steps != [] {
      StepSafe(s, steps[0], v);
      hide InStep, Allowed, Next;
      RunSafe(Next(s, steps[0], v).system, steps[1..], v);
    }
  }

  lemma {:induction false} RunLonger(s: System, steps: seq<Step>, step: Step, v: Versions)
    requires AllAllowed(s, steps, v) && Run(s, steps, v).To? && Allowed(Run(s, steps, v).system, step, v)
    ensures AllAllowed(s, steps + [step], v)
    ensures Run(s, steps + [step], v) == Next(Run(s, steps, v).system, step, v)
    decreases |steps|
  {
    hide Next, Allowed;
    if steps == [] {
      assert [] + [step] == [step];
    } else {
      assert (steps + [step])[1..] == steps[1..] + [step];
      RunLonger(Next(s, steps[0], v).system, steps[1..], step, v);
    }
  }

  /** Over every run: no assert of client or server fires; until the client leaves, at most one message
      is under way; and a client that is registered knows a server that has registered it. */
  lemma SessionSafe(steps: seq<Step>, v: Versions)
    requires AllAllowed(INITIAL, steps, v)
    ensures var r := Run(INITIAL, steps, v);
      && r.To?
      && (r.system.client != C.Disconnecting && r.system.client != C.Closing ==>
            |r.system.toServer| + |r.system.toClient| <= 1)
      && (r.system.client == C.Registered ==> r.system.server == S.Registered && Quiet(r.system))
  {
    RunSafe(INITIAL, steps, v);
  }

  // ----- the channels are first in, first out -----

  /** Whether a receiving step of the client handles a message. */
  predicate Handles(s: System, step: Step) {
    step.ClientReceives? && C.Active(s.client) && !s.stopped && s.toClient != []
  }

  /** What a step makes the client hand to its socket, and the server to its. */
  function ByClient(s: System, step: Step, v: Versions): seq<Message> {
    match step
    case Start => [ConnectionReq(v.client)]
    case Stop(_, _) => [DisconnectionReq(UserShutdown)]
    case ServeEvents(request) =>
      if C.Active(s.client) && C.ServeEvents(s.client, s.events, request).Goes?
      then C.ServeEvents(s.client, s.events, request).sent else []
    case ClientReceives =>
      if Handles(s, step) && C.React(s.client, s.events, s.toClient[0]).Goes?
      then C.React(s.client, s.events, s.toClient[0]).sent else []
    case _ => []
  }

  function ByServer(s: System, step: Step, v: Versions): seq<Message> {
    if step.ServerReceives? && s.toServer != []
       && S.React(s.server, s.cause, s.toServer[0], step.db, v.server).Goes?
    then S.React(s.server, s.cause, s.toServer[0], step.db, v.server).replies else []
  }

  /** What a step takes off the front of a channel: the message it handles. */
  function AtClient(s: System, step: Step): seq<Message> {
    if Handles(s, step) then s.toClient[..1] else []
  }

  function AtServer(s: System, step: Step): seq<Message> {
    if step.ServerReceives? then s.toServer[..if s.toServer == [] then 0 else 1] else []
  }

  /** What went into each channel over a run, and what was handled out of it. */
  datatype Traffic = Traffic(byClient: seq<Message>, byServer: seq<Message>,
                             atClient: seq<Message>, atServer: seq<Message>)

  function Seen(s: System, steps: seq<Step>, v: Versions): Traffic
    decreases |steps|
  {
    if steps == [] || Next(s, steps[0], v).Broken? then Traffic([], [], [], [])
    else
      var r := Seen(Next(s, steps[0], v).system, steps[1..], v);
      Traffic(ByClient(s, steps[0], v) + r.byClient, ByServer(s, steps[0], v) + r.byServer,
              AtClient(s, steps[0]) + r.atClient, AtServer(s, steps[0]) + r.atServer)
  }

  /** No step of the run throws messages away: none flushes, and the socket is not stopped. */
  predicate AllKept(s: System, steps: seq<Step>, v: Versions)
    decreases |steps|
  {
    !s.stopped
    && (steps == []
        || ((steps[0].Stop? ==> steps[0].flushed == 0 && steps[0].kept >= |s.toServer|)
            && Next(s, steps[0], v).To? && AllKept(Next(s, steps[0], v).system, steps[1..], v)))
  }

  lemma StepInOrder(s: System, step: Step, v: Versions)
    requires !s.stopped && Next(s, step, v).To? && !Next(s, step, v).system.stopped
    requires step.Stop? ==> step.flushed == 0 && step.kept >= |s.toServer|
    ensures var t := Next(s, step, v).system;
      && s.toClient + ByServer(s, step, v) == AtClient(s, step) + t.toClient
      && s.toServer + ByClient(s, step, v) == AtServer(s, step) + t.toServer
  {
    hide C.React, C.ServeEvents, S.React;
    if step.Stop? {
      assert s.toServer[..|s.toServer|] == s.toServer;
    }
  }

  /** Over every run that throws nothing away, what each side has handled, followed by what waits for it,
      is what the other side has sent, in the order it was sent. */
  lemma {:induction false} InOrder(s: System, steps: seq<Step>, v: Versions)
    requires AllKept(s, steps, v)
    ensures Run(s, steps, v).To?
    ensures var t, seen := Run(s, steps, v).system, Seen(s, steps, v);
      && s.toClient + seen.byServer == seen.atClient + t.toClient
      && s.toServer + seen.byClient == seen.atServer + t.toServer
    decreases |steps|
  {
    if steps == [] {
      assert s.toClient + [] == [] + s.toClient && s.toServer + [] == [] + s.toServer;
    } else {
      StepInOrder(s, steps[0], v);
      var t, r := Next(s, steps[0], v).system, Seen(Next(s, steps[0], v).system, steps[1..], v);
      hide Next, ByClient, ByServer, AtClient, AtServer;
      InOrder(t, steps[1..], v);
      var u := Run(t, steps[1..], v).system;
      ThroughQueue(s.toClient, ByServer(s, steps[0], v), AtClient(s, steps[0]), t.toClient,
                   r.byServer, r.atClient, u.toClient);
      ThroughQueue(s.toServer, ByClient(s, steps[0], v), AtServer(s, steps[0]), t.toServer,
                   r.byClient, r.atServer, u.toServer);
    }
  }

  lemma ThroughQueue(a: seq<Message>, sent: seq<Message>, taken: seq<Message>, b: seq<Message>,
                     sentLater: seq<Message>, takenLater: seq<Message>, c: seq<Message>)
    requires a + sent == taken + b && b + sentLater == takenLater + c
    ensures a + (sent + sentLater) == (taken + takenLater) + c
  {
    assert a + (sent + sentLater) == (a + sent) + sentLater;
    assert (taken + b) + sentLater == taken + (b + sentLater);
    assert taken + (takenLater + c) == (taken + takenLater) + c;
  }

  /** Stopping may throw away only what the client has not handled yet, oldest first, and what it has not
      sent yet, newest first; the disconnection comes after all that is left. */
  lemma StopInOrder(s: System, flushed: nat, kept: nat, v: Versions)
    requires !s.stopped
    ensures var t := Next(s, Stop(flushed, kept), v).system;
      && t.toServer != [] && t.toServer[|t.toServer| - 1] == DisconnectionReq(UserShutdown)
      && t.toServer[..|t.toServer| - 1] <= s.toServer
      && |t.toServer| - 1 == (if kept < |s.toServer| then kept else |s.toServer|)
      && |t.toClient| == (if flushed < |s.toClient| then |s.toClient| - flushed else 0)
      && t.toClient == s.toClient[|s.toClient| - |t.toClient|..]
  {
  }

  // ----- exactly which steps are safe -----

  /** No allowed way to go on from here makes an assert fire. */
  ghost predicate NeverBroken(s: System, v: Versions) {
    forall steps: seq<Step> :: AllAllowed(s, steps, v) ==> Run(s, steps, v).To?
  }

  /** Taking a step is safe when no assert fires then, nor on any allowed way to go on. */
  ghost predicate Safe(s: System, step: Step, v: Versions) {
    Next(s, step, v).To? && NeverBroken(Next(s, step, v).system, v)
  }

  lemma InStepNeverBroken(s: System, v: Versions)
    requires InStep(s, v)
    ensures NeverBroken(s, v)
  {
    forall steps: seq<Step> | AllAllowed(s, steps, v) ensures Run(s, steps, v).To? {
      RunSafe(s, steps, v);
    }
  }

  lemma Doomed(s: System, step: Step, v: Versions)
    requires Allowed(s, step, v) && !Safe(s, step, v)
    ensures !NeverBroken(s, v)
  {
    hide Allowed, Next;
    if Next(s, step, v).Broken? {
      assert AllAllowed(s, [step], v) && Run(s, [step], v).Broken?;
    } else {
      var t := Next(s, step, v).system;
      var steps: seq<Step> :| AllAllowed(t, steps, v) && Run(t, steps, v).Broken?;
      assert ([step] + steps)[1..] == steps;
      assert AllAllowed(s, [step] + steps, v) && Run(s, [step] + steps, v).Broken?;
    }
  }

  const ANY_DB := S.Lookups(false, false, false)

  /** Credentials nobody asked for reach an assert with the next poll, or the one after the start. */
  lemma StrayCredentials(s: System, v: Versions)
    requires InStep(s, v) && s.client != C.ConnectedNoCredentials
    ensures !Safe(s, SubmitCredentials, v)
  {
    var t := Next(s, SubmitCredentials, v).system;
    var serve := ServeEvents(RegistrationReq("", "", ""));
    hide NeverBroken;
    if s.client == C.NoSocket {
      var u := Next(t, Start, v).system;
      assert Next(u, serve, v).Broken?;
      Doomed(u, serve, v);
      Doomed(t, Start, v);
    } else {
      assert Next(t, serve, v).Broken?;
      Doomed(t, serve, v);
    }
  }

  /** Stopping while an answer is still to come: the answer reaches an assert. */
  lemma StopTooEarly(s: System, v: Versions)
    requires InStep(s, v) && !Allowed(s, Stop(0, |s.toServer|), v)
    ensures !Safe(s, Stop(0, |s.toServer|), v)
  {
    hide NeverBroken, Leaving, Answerable;
    var stop := Stop(0, |s.toServer|);
    var t := Next(s, stop, v).system;
    if s.client == C.ConnectedNoCredentials {
      Doomed(t, ServeEvents(RegistrationReq("", "", "")), v);
    } else if s.toServer == [] {
      assert t.toClient == s.toClient;
      Doomed(t, ClientReceives, v);
    } else {
      assert t == s.(client := C.Disconnecting, toServer := s.toServer + [DisconnectionReq(UserShutdown)]);
      AnswerTooLate(s, t, v);
    }
  }

  /** The request under way is answered with what a client that is disconnecting cannot take. */
  lemma AnswerTooLate(s: System, t: System, v: Versions)
    requires InStep(s, v) && (s.client == C.Registering || (s.client == C.Connecting && v.client == v.server))
    requires s.toServer != []
    requires t == s.(client := C.Disconnecting, toServer := s.toServer + [DisconnectionReq(UserShutdown)])
    ensures !NeverBroken(t, v)
  {
    hide NeverBroken, Leaving, Answerable, C.ServeEvents;
    assert t.toServer[0] == s.toServer[0];
    var u := Next(t, ServerReceives(ANY_DB), v).system;
    Doomed(u, ClientReceives, v);
    Doomed(t, ServerReceives(ANY_DB), v);
  }

  /** What the application may do is exactly what is safe: starting once, submitting credentials when
      they are asked for, and stopping, whatever is flushed, unless an answer is still to come. */
  lemma AllowedIsSafe(s: System, v: Versions)
    requires InStep(s, v)
    ensures Safe(s, Start, v) <==> Allowed(s, Start, v)
    ensures Safe(s, SubmitCredentials, v) <==> Allowed(s, SubmitCredentials, v)
    ensures (forall flushed: nat, kept: nat :: Safe(s, Stop(flushed, kept), v)) <==> Allowed(s, Stop(0, 0), v)
  {
    forall step | Allowed(s, step, v) ensures Safe(s, step, v) {
      StepSafe(s, step, v);
      InStepNeverBroken(Next(s, step, v).system, v);
    }
    if s.client != C.ConnectedNoCredentials {
      StrayCredentials(s, v);
    }
    if !Allowed(s, Stop(0, 0), v) {
      StopTooEarly(s, v);
    }
  }

  // ----- where a session can still get to -----

  predicate Ends(r: Outcome, goal: C.CnxState) {
    r.To? && r.system.client == goal
  }

  /** Some allowed way on takes the client to a state. */
  ghost predicate CanReach(s: System, goal: C.CnxState, v: Versions) {
    exists steps: seq<Step> :: AllAllowed(s, steps, v) && Ends(Run(s, steps, v), goal)
  }

  lemma AlreadyThere(s: System, v: Versions)
    ensures CanReach(s, s.client, v)
  {
    assert AllAllowed(s, [], v) && Ends(Run(s, [], v), s.client);
  }

  lemma Onward(s: System, step: Step, goal: C.CnxState, v: Versions)
    requires Allowed(s, step, v) && Next(s, step, v).To? && CanReach(Next(s, step, v).system, goal, v)
    ensures CanReach(s, goal, v)
  {
    hide Allowed, Next;
    var t := Next(s, step, v).system;
    var steps: seq<Step> :| AllAllowed(t, steps, v) && Ends(Run(t, steps, v), goal);
    assert ([step] + steps)[1..] == steps;
    assert AllAllowed(s, [step] + steps, v) && Ends(Run(s, [step] + steps, v), goal);
  }

  /** How far a handshake still has to go. */
  function ToGo(s: System): nat {
    match s.client
    case NoSocket => 9
    case Connecting => if s.toServer != [] then 8 else 7
    case ConnectedNoCredentials => if s.events == {} then 5 else 4
    case Registering => if s.toServer != [] then 3 else if One(s.toClient, RegistrationCnf) then 2 else 6
    case _ => 0
  }

  /** The step that brings a handshake forward. */
  function Forward(s: System): Step {
    match s.client
    case NoSocket => Start
    case ConnectedNoCredentials =>
      if s.events == {} then SubmitCredentials else ServeEvents(RegistrationReq("", "", ""))
    case _ => if s.toServer != [] then ServerReceives(ANY_DB) else ClientReceives
  }

  predicate Forwards(s: System, step: Step, v: Versions) {
    && Allowed(s, step, v) && Next(s, step, v).To?
    && var t := Next(s, step, v).system;
       InHandshake(t) && ToGo(t) < ToGo(s)
  }

  lemma ForwardByServer(s: System, v: Versions)
    requires InStep(s, v) && v.client == v.server && InHandshake(s) && s.toServer != []
    ensures Forwards(s, ServerReceives(ANY_DB), v)
  {
    hide Leaving, Answerable, C.React, C.ServeEvents;
  }

  lemma ForwardByClient(s: System, v: Versions)
    requires InStep(s, v) && v.client == v.server && InHandshake(s) && s.toClient != []
    ensures Forwards(s, ClientReceives, v)
  {
    hide Leaving, Answerable, S.React, C.ServeEvents;
  }

  lemma ForwardByUser(s: System, v: Versions)
    requires InStep(s, v) && v.client == v.server && InHandshake(s) && s.client != C.Registered
    requires s.toServer == [] && s.toClient == []
    ensures Forwards(s, Forward(s), v)
  {
    hide Leaving, Answerable, S.React, C.React;
  }

  lemma ForwardStep(s: System, v: Versions)
    requires InStep(s, v) && v.client == v.server && InHandshake(s) && s.client != C.Registered
    ensures Forwards(s, Forward(s), v) && InStep(Next(s, Forward(s), v).system, v)
  {
    hide Next, Leaving, Answerable, Allowed, ToGo;
    if s.toServer != [] {
      ForwardByServer(s, v);
    } else if s.toClient != [] {
      ForwardByClient(s, v);
    } else {
      ForwardByUser(s, v);
    }
    HandshakeSafe(s, Forward(s), v);
  }

  lemma {:induction false} CanGoOn(s: System, v: Versions)
    requires InStep(s, v) && v.client == v.server && InHandshake(s)
    ensures CanReach(s, C.Registered, v)
    decreases ToGo(s)
  {
    if s.client == C.Registered {
      AlreadyThere(s, v);
    } else {
      ForwardStep(s, v);
      hide InStep, Next, ToGo, Forward, InHandshake, Allowed, CanReach;
      CanGoOn(Next(s, Forward(s), v).system, v);
      Onward(s, Forward(s), C.Registered, v);
    }
  }

  lemma {:induction false} NoWayOn(s: System, steps: seq<Step>, v: Versions)
    requires InStep(s, v) && AllAllowed(s, steps, v)
    requires v.client != v.server || !InHandshake(s)
    ensures !Ends(Run(s, steps, v), C.Registered)
    decreases |steps|
  {
    if steps != [] {
      StepSafe(s, steps[0], v);
      var t := Next(s, steps[0], v).system;
      if !InHandshake(s) {
        StillLeaving(s, steps[0], v);
      }
      hide Next, Allowed, InHandshake;
      NoWayOn(t, steps[1..], v);
    }
  }

  lemma StillLeaving(s: System, step: Step, v: Versions)
    requires InStep(s, v) && Allowed(s, step, v) && !InHandshake(s)
    ensures Next(s, step, v).To? && !InHandshake(Next(s, step, v).system)
  {
    if step.Stop? {
      StopSafe(s, step, v);
    } else {
      LeavingSafe(s, step, v);
    }
  }

  /** A handshake can get stuck nowhere: from every point it can go on to where the client, and so the
      server, is registered, whatever was rejected before. With other versions, or once the client is
      leaving, no run gets there. */
  lemma WhenItCanRegister(s: System, v: Versions)
    requires InStep(s, v)
    ensures CanReach(s, C.Registered, v) <==> v.client == v.server && InHandshake(s)
  {
    if v.client == v.server && InHandshake(s) {
      CanGoOn(s, v);
    } else {
      forall steps: seq<Step> | AllAllowed(s, steps, v) ensures !Ends(Run(s, steps, v), C.Registered) {
        NoWayOn(s, steps, v);
      }
    }
  }

  /** A client that has asked to disconnect gets its confirmation. */
  lemma {:induction false} CanLeave(s: System, v: Versions)
    requires InStep(s, v) && s.client == C.Disconnecting && !s.stopped
    ensures CanReach(s, C.Closing, v)
    decreases 2 * |s.toServer| + |s.toClient|
  {
    var step := if s.toClient != [] then ClientReceives else ServerReceives(ANY_DB);
    if s.toClient != [] {
      ClientTakesLeave(s, step, v);
    } else {
      ServerTakesLeave(s, step, v);
    }
    var t := Next(s, step, v).system;
    assert Allowed(s, step, v);
    hide InStep, Next, Allowed, CanReach;
    if t.client == C.Closing {
      AlreadyThere(t, v);
    } else {
      CanLeave(t, v);
    }
    Onward(s, step, C.Closing, v);
  }

  lemma {:induction false} CanClose(s: System, v: Versions)
    requires InStep(s, v) && InHandshake(s)
    ensures CanReach(s, C.Closing, v)
    decreases ToGo(s)
  {
    var stop := Stop(0, 0);
    if Allowed(s, stop, v) {
      StopSafe(s, stop, v);
      assert !s.stopped;
      hide InStep, Next, Allowed, CanReach;
      CanLeave(Next(s, stop, v).system, v);
      Onward(s, stop, C.Closing, v);
    } else {
      ForwardStep(s, v);
      hide InStep, Next, ToGo, Forward, InHandshake, Allowed, CanReach;
      CanClose(Next(s, Forward(s), v).system, v);
      Onward(s, Forward(s), C.Closing, v);
    }
  }

  /** Stopping once more after the socket is gone: the client waits for ever. */
  lemma {:induction false} NeverCloses(s: System, steps: seq<Step>, v: Versions)
    requires InStep(s, v) && s.client == C.Disconnecting && s.stopped && AllAllowed(s, steps, v)
    ensures !Ends(Run(s, steps, v), C.Closing)
    decreases |steps|
  {
    if steps != [] {
      StepSafe(s, steps[0], v);
      assert Next(s, steps[0], v).system.client == C.Disconnecting && Next(s, steps[0], v).system.stopped;
      hide Next, Allowed, InStep;
      NeverCloses(Next(s, steps[0], v).system, steps[1..], v);
    }
  }

  /** From every point the client can still get its connection closed, unless it stopped once more after
      it was closed. */
  lemma WhenItCanClose(s: System, v: Versions)
    requires InStep(s, v)
    ensures CanReach(s, C.Closing, v) <==> !(s.client == C.Disconnecting && s.stopped)
  {
    if s.client == C.Disconnecting && s.stopped {
      forall steps: seq<Step> | AllAllowed(s, steps, v) ensures !Ends(Run(s, steps, v), C.Closing) {
        NeverCloses(s, steps, v);
      }
    } else if s.client == C.Disconnecting {
      CanLeave(s, v);
    } else if s.client == C.Closing {
      AlreadyThere(s, v);
    } else {
      CanClose(s, v);
    }
  }
}
