/** The client's end of the connection: its states, the asserts that guard the changes between them,
    and the events the user interface leaves for the next poll. */
module ClientConnection {
  import opened Protocol

  datatype CnxState = NoSocket | CnxError | NoConnection | Connecting | ConnectedNoCredentials | Connected
                    | Registering | Registered | Disconnecting | Closing | CnxRejected | AuthRejected

  datatype CnxExtEvent = NoEvent | NewCredentials

  /** The assert with which a state may be entered. */
  predicate MayEnter(now: CnxState, next: CnxState) {
    match next
    case Connecting => now == NoSocket
    case ConnectedNoCredentials => now == Connecting || now == Registering
    case Connected => now == ConnectedNoCredentials
    case Registering => now == Connected
    case Registered => now == Registering
    case CnxRejected => now == Connecting
    case AuthRejected => now == Registering
    case _ => true
  }

  /** poll() serves the connection only beyond this state; the enumeration order matters. */
  predicate Active(s: CnxState) {
    s != NoSocket && s != CnxError && s != NoConnection
  }

  /** Each state of a history may be entered from the one before. */
  predicate History(p: seq<CnxState>) {
    forall k | 0 < k < |p| :: MayEnter(p[k - 1], p[k])
  }

  /** The asserts leave one way to be registered: through connecting, being asked for credentials, having
      them, and registering. */
  lemma {:induction false} RegisteredOnlyAfter(p: seq<CnxState>, k: int)
    requires History(p) && 0 <= k < |p| && p[k] == Registered && p[0] == NoSocket
    ensures k >= 5 && p[k - 1] == Registering && p[k - 2] == Connected && p[k - 3] == ConnectedNoCredentials
    ensures exists j :: 0 < j < k - 3 && p[j] == Connecting && p[j - 1] == NoSocket
  {
    assert MayEnter(p[k - 1], p[k]);
    RegisteringOnlyAfter(p, k - 1);
    var j := AskedOnlyAfter(p, k - 3);
  }

  lemma RegisteringOnlyAfter(p: seq<CnxState>, k: int)
    requires History(p) && 0 < k < |p| && p[k] == Registering && p[0] == NoSocket
    ensures k >= 3 && p[k - 1] == Connected && p[k - 2] == ConnectedNoCredentials
  {
    assert MayEnter(p[k - 1], p[k]);
    assert k > 1 && MayEnter(p[k - 2], p[k - 1]);
  }

  lemma {:induction false} AskedOnlyAfter(p: seq<CnxState>, k: int) returns (j: int)
    requires History(p) && 0 < k < |p| && p[k] == ConnectedNoCredentials && p[0] == NoSocket
    ensures 0 < j < k && p[j] == Connecting && p[j - 1] == NoSocket
    decreases k
  {
    assert MayEnter(p[k - 1], p[k]);
    if p[k - 1] == Connecting {
      assert k > 1 && MayEnter(p[k - 2], p[k - 1]);
      j := k - 1;
    } else {
      RegisteringOnlyAfter(p, k - 1);
      j := AskedOnlyAfter(p, k - 3);
    }
  }

  datatype Reaction = AssertFails | Goes(state: CnxState, events: set<CnxExtEvent>, sent: seq<Message>)

  function Enter(now: CnxState, next: CnxState, events: set<CnxExtEvent>, sent: seq<Message>): Reaction {
    if MayEnter(now, next) then Goes(next, events, sent) else AssertFails
  }

  /** How the client reacts to a message from the server. */
  function React(s: CnxState, events: set<CnxExtEvent>, m: Message): Reaction {
    match m
    case ConnectionCnf =>
      // credentials are submitted at once, since there is no user interface yet
      if s == Connecting then Goes(ConnectedNoCredentials, events + {NewCredentials}, []) else AssertFails
    case ConnectionRej(_) => Goes(s, events, [])
    case RegistrationCnf => Enter(s, Registered, events, [])
    case RegistrationRej(_) => Enter(s, ConnectedNoCredentials, events, [])
    case UserLoginCnf => Enter(s, Registered, events, [])
    case UserLoginRej(_) => Enter(s, AuthRejected, events, [])
    case DisconnectionReq(c) => if c == ServerShutdown then Goes(Closing, events, [DisconnectionCnf]) else AssertFails
    case DisconnectionCnf => if s == Disconnecting then Goes(Closing, events, []) else AssertFails
    case _ => if Ignored(m) then Goes(s, events, []) else AssertFails
  }

  /** Exactly when a message from the server reaches an assert of the client. */
  lemma AssertsWhen(s: CnxState, events: set<CnxExtEvent>, m: Message)
    ensures React(s, events, m) == AssertFails
      <==> || m.ConnectionReq? || m.UserLoginReq? || m.RegistrationReq?
           || (m.ConnectionCnf? && s != Connecting)
           || ((m.RegistrationCnf? || m.UserLoginCnf? || m.UserLoginRej?) && s != Registering)
           || (m.RegistrationRej? && s != Connecting && s != Registering)
           || (m.DisconnectionReq? && m.discCause != ServerShutdown)
           || (m.DisconnectionCnf? && s != Disconnecting)
  {
  }

  /** What a message from the server does otherwise: only a confirmed connection raises an event, only a
      shutdown is answered, and each answer leads to the state it announces. */
  lemma ReactMeans(s: CnxState, events: set<CnxExtEvent>, m: Message)
    requires React(s, events, m).Goes?
    ensures var r := React(s, events, m);
      && r.events == (if m.ConnectionCnf? then events + {NewCredentials} else events)
      && r.sent == (if m.DisconnectionReq? then [DisconnectionCnf] else [])
      && r.state == if m.ConnectionCnf? || m.RegistrationRej? then ConnectedNoCredentials
                    else if m.RegistrationCnf? || m.UserLoginCnf? then Registered
                    else if m.UserLoginRej? then AuthRejected
                    else if m.DisconnectionReq? || m.DisconnectionCnf? then Closing
                    else s
  {
  }

  /** Handling the pending events: each new-credentials event sends a registration request. */
  function ServeEvents(s: CnxState, events: set<CnxExtEvent>, request: Message): Reaction {
    if events == {} then Goes(s, {}, [])
    else if NoEvent in events || s != ConnectedNoCredentials then AssertFails
    else Goes(Registering, {}, [request])
  }

  const USER_NAME_LENGTH: nat := 32
  const USER_PASSWD_LENGTH: nat := 32
  const USER_MAIL_LENGTH: nat := 128

  /** A string that leaves room for its terminator. */
  function Shortened(s: string, length: nat): (r: string)
    requires length > 0
    ensures r <= s && |r| == if |s| < length then |s| else length - 1
  {
    if |s| >= length then s[..length - 1] else s
  }

  class ClientCnx {
    const version: string
    var cnxState: CnxState
    var extEvent: set<CnxExtEvent>
    var userName: string
    var userPasswd: string
    var userEmail: string
    var outbox: seq<Message>   // handed to the socket, in order
    var socketStopped: bool

    constructor (version: string)
      ensures cnxState == NoSocket && extEvent == {} && outbox == [] && !socketStopped && this.version == version
    {
      this.version := version;
      cnxState, extEvent, outbox, socketStopped := NoSocket, {}, [], false;
      userName, userPasswd, userEmail := "", "", "";
    }

    /** What the fields say, in the form the reactions use. */
    ghost predicate Is(r: Reaction, sentBefore: seq<Message>)
      reads this
    {
      r.Goes? && cnxState == r.state && extEvent == r.events && outbox == sentBefore + r.sent
    }

    method SetState(newState: CnxState)
      requires MayEnter(cnxState, newState)
      modifies `cnxState
      ensures cnxState == newState
    {
      match newState
      case Connecting => assert cnxState == NoSocket; cnxState := newState;
      case ConnectedNoCredentials => assert cnxState == Connecting || cnxState == Registering; cnxState := newState;
      case Connected => assert cnxState == ConnectedNoCredentials; cnxState := newState;
      case Registering => assert cnxState == Connected; cnxState := newState;
      case Registered => assert cnxState == Registering; cnxState := newState;
      case CnxRejected => assert cnxState == Connecting; cnxState := newState;
      case AuthRejected => assert cnxState == Registering; cnxState := newState;
      case _ => cnxState := newState;
    }

    method SendMsgToServer(m: Message)
      modifies `outbox
      ensures outbox == old(outbox) + [m]
    {
      outbox := outbox + [m];
    }

    method StartConnectionToServer()
      requires cnxState == NoSocket
      modifies `cnxState, `outbox
      ensures Is(Goes(Connecting, old(extEvent), [ConnectionReq(version)]), old(outbox))
    {
      SetState(Connecting);
      SendMsgToServer(ConnectionReq(version));
    }

    method StopConnectionToServer()
      modifies `cnxState, `outbox
      ensures Is(Goes(Disconnecting, old(extEvent), [DisconnectionReq(UserShutdown)]), old(outbox))
    {
      SetState(Disconnecting);
      SendMsgToServer(DisconnectionReq(UserShutdown));
    }

    /** May be called from the user interface at any time; the next poll serves it. */
    method RegistrationDataFromUserInterface(name: string, passwd: string, email: string)
      modifies `userName, `userPasswd, `userEmail, `extEvent
      ensures extEvent == old(extEvent) + {NewCredentials}
      ensures userName == Shortened(name, USER_NAME_LENGTH)
      ensures userPasswd == Shortened(passwd, USER_PASSWD_LENGTH)
      ensures userEmail == Shortened(email, USER_MAIL_LENGTH)
    {
      userName, userPasswd, userEmail := name, passwd, email;
      if |userName| >= USER_NAME_LENGTH {
        userName := userName[..USER_NAME_LENGTH - 1];
      }
      if |userPasswd| >= USER_PASSWD_LENGTH {
        userPasswd := userPasswd[..USER_PASSWD_LENGTH - 1];
      }
      if |userEmail| >= USER_MAIL_LENGTH {
        userEmail := userEmail[..USER_MAIL_LENGTH - 1];
      }
      extEvent := extEvent + {NewCredentials};
    }

    method HandleConnectionCnf()
      requires cnxState == Connecting
      modifies `cnxState, `extEvent, `userName, `userPasswd, `userEmail
      ensures Is(Goes(ConnectedNoCredentials, old(extEvent) + {NewCredentials}, []), old(outbox))
      ensures userName == "Alberto" && userPasswd == "toto66" && userEmail == "alberto.alberto@zazou.com"
    {
      SetState(ConnectedNoCredentials);
      RegistrationDataFromUserInterface("Alberto", "toto66", "alberto.alberto@zazou.com");
      assert old(outbox) + [] == outbox;
    }

    method HandleDisconnectionReq(cause: DisconnectionCause)
      requires cause == ServerShutdown
      modifies `cnxState, `outbox
      ensures Is(Goes(Closing, old(extEvent), [DisconnectionCnf]), old(outbox))
    {
      SendMsgToServer(DisconnectionCnf);
      SetState(Closing);
    }

    method HandleDisconnectionCnf()
      requires cnxState == Disconnecting
      modifies `cnxState, `socketStopped
      ensures cnxState == Closing && socketStopped
    {
      socketStopped := true;
      SetState(Closing);
    }

    /** Route a received message to its handler; the asserts are what the precondition rules out. */
    method HandleServerMessage(m: Message)
      requires React(cnxState, extEvent, m) != AssertFails
      modifies this
      ensures Is(old(React(cnxState, extEvent, m)), old(outbox))
      ensures socketStopped == (old(socketStopped) || m == DisconnectionCnf)
    {
      assert outbox + [] == outbox;
      match m
      case ConnectionCnf => HandleConnectionCnf();
      case ConnectionRej(_) =>
      case UserLoginCnf => SetState(Registered);
      case UserLoginRej(_) => SetState(AuthRejected);
      case RegistrationCnf => SetState(Registered);
      case RegistrationRej(_) => SetState(ConnectedNoCredentials);
      case DisconnectionReq(c) => HandleDisconnectionReq(c);
      case DisconnectionCnf => HandleDisconnectionCnf();
      case PollReq =>
      case PollCnf =>
      case DataTransferReq =>
      case TransferDataBlk =>
      case FileTransferReq =>
    }

    method HandleOneExtEvent(ev: CnxExtEvent)
      requires ev == NewCredentials && cnxState == ConnectedNoCredentials
      modifies `cnxState, `outbox
      ensures cnxState == Registering
      ensures outbox == old(outbox) + [RegistrationReq(userName, userPasswd, userEmail)]
    {
      SetState(Connected);
      SendMsgToServer(RegistrationReq(userName, userPasswd, userEmail));
      SetState(Registering);
    }

    /** Serve every pending event, in any order, and forget them. */
    method HandleExtEvents()
      requires ServeEvents(cnxState, extEvent, PollReq) != AssertFails
      modifies `cnxState, `outbox, `extEvent
      ensures Is(old(ServeEvents(cnxState, extEvent, RegistrationReq(userName, userPasswd, userEmail))), old(outbox))
    {
      var todo := extEvent;
      assert outbox + [] == outbox;
      while todo != {}
        invariant todo <= extEvent == old(extEvent)
        invariant todo == extEvent ==> cnxState == old(cnxState) && outbox == old(outbox)
        invariant todo != extEvent ==> todo == {} && cnxState == Registering
        invariant todo != extEvent ==> outbox == old(outbox) + [RegistrationReq(userName, userPasswd, userEmail)]
        decreases todo
      {
        var ev :| ev in todo;
        assert NoEvent !in extEvent;
        HandleOneExtEvent(ev);
        todo := todo - {ev};
        assert forall e | e in todo :: e == NewCredentials;
      }
      extEvent := {};
    }
  }
}
