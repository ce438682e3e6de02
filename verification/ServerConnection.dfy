/** The server's end of one client connection: registration and login, decided by lookups that
    are parameters here. */
module ServerConnection {
  import opened Protocol

  datatype State = Empty | CnxError | Disconnected | ConnRejected | Registering | Rejected
                 | Registered | Disconnecting | Closing

  /** What the user database answers about the credentials at hand. */
  datatype Lookups = Lookups(knownUser: bool, passwdOk: bool, correctEmail: bool)

  /** The outcome of handling one message: an assert of the source fires, or a new state and the replies. */
  datatype Reaction = AssertFails | Goes(state: State, cause: ConnRejCause, replies: seq<Message>)

  /** How a connection reacts to a message, as one value. */
  function React(state: State, cause: ConnRejCause, m: Message, db: Lookups, version: string): (r: Reaction)
    ensures FromClient(m) ==> r.Goes?
  {
    match m
    case ConnectionReq(v) =>
      if state == Empty then
        if v == version then Goes(Registering, cause, [ConnectionCnf])
        else Goes(ConnRejected, BadClientVersion, [ConnectionRej(BadClientVersion)])
      else if state == ConnRejected then
        Goes(ConnRejected, cause, [ConnectionRej(cause)])
      else
        Goes(ConnRejected, UnexpectedConnReq, [ConnectionRej(UnexpectedConnReq)])
    case RegistrationReq(_, _, _) =>
      if state != Registering then Goes(state, cause, [RegistrationRej(UnexpectedRegistration)])
      else if db.knownUser then Goes(state, cause, [RegistrationRej(UserAlreadyExisting)])
      else if db.correctEmail then Goes(state, cause, [RegistrationRej(IncorrectEmail)])
      else Goes(Registered, cause, [RegistrationCnf])
    case UserLoginReq(_, _) =>
      if state != Registering then Goes(state, cause, [UserLoginRej(UnexpectedLoginProc)])
      else if !db.knownUser then Goes(state, cause, [UserLoginRej(UserUnknown)])
      else if !db.passwdOk then Goes(state, cause, [UserLoginRej(WrongPassword)])
      else Goes(Registered, cause, [RegistrationCnf])
    case DisconnectionReq(c) =>
      if c == UserShutdown then Goes(Closing, cause, [DisconnectionCnf]) else AssertFails
    case DisconnectionCnf =>
      if state == Disconnecting then Goes(Closing, cause, []) else AssertFails
    case _ =>
      if Ignored(m) then Goes(state, cause, []) else AssertFails
  }

  class ServerClientConnection {
    const version: string
    const socketDescr: int
    var state: State
    var lastRejectedCause: ConnRejCause
    var userName: string
    var userPwd: string
    var userEmail: string
    var outbox: seq<Message>   // handed to the socket, in order

    constructor (socketDescr: int, version: string)
      ensures state == Empty && outbox == [] && lastRejectedCause == ConnNoCause
      ensures this.socketDescr == socketDescr && this.version == version
    {
      this.version, this.socketDescr := version, socketDescr;
      state, lastRejectedCause := Empty, ConnNoCause;
      userName, userPwd, userEmail, outbox := "", "", "", [];
    }

    ghost function Expected(m: Message, db: Lookups): Reaction
      reads this
    {
      React(state, lastRejectedCause, m, db, version)
    }

    method SendMsgToClient(m: Message)
      modifies `outbox
      ensures outbox == old(outbox) + [m]
    {
      outbox := outbox + [m];
    }

    method HandleConnectionReq(clientVersion: string)
      modifies this
      ensures state == Registering && outbox == old(outbox) + [ConnectionCnf]
        <==> old(state) == Empty && clientVersion == version
      ensures !(old(state) == Empty && clientVersion == version) ==>
        && state == ConnRejected && outbox == old(outbox) + [ConnectionRej(lastRejectedCause)]
        && lastRejectedCause == (if old(state) == Empty then BadClientVersion
                                 else if old(state) == ConnRejected then old(lastRejectedCause)
                                 else UnexpectedConnReq)
      ensures var r := old(Expected(ConnectionReq(clientVersion), Lookups(false, false, false)));
        old(outbox) <= outbox && Goes(state, lastRejectedCause, outbox[|old(outbox)|..]) == r
    {
      if state == Empty {
        if clientVersion == version {
          SendMsgToClient(ConnectionCnf);
          state := Registering;
        } else {
          lastRejectedCause := BadClientVersion;
          SendMsgToClient(ConnectionRej(lastRejectedCause));
          state := ConnRejected;
        }
      } else if state == ConnRejected {
        SendMsgToClient(ConnectionRej(lastRejectedCause));
        state := ConnRejected;
      } else {
        lastRejectedCause := UnexpectedConnReq;
        SendMsgToClient(ConnectionRej(lastRejectedCause));
        state := ConnRejected;
      }
      assert (old(outbox) + [ConnectionCnf])[|old(outbox)|] == ConnectionCnf;
    }

    method HandleRegistrationReq(user: string, password: string, email: string, db: Lookups)
      modifies this
      ensures state == Registered && outbox == old(outbox) + [RegistrationCnf]
        <==> old(state) == Registering && !db.knownUser && !db.correctEmail
      ensures !(old(state) == Registering && !db.knownUser && !db.correctEmail) ==>
        && state == old(state)
        && outbox == old(outbox) + [RegistrationRej(if old(state) != Registering then UnexpectedRegistration
                                                    else if db.knownUser then UserAlreadyExisting
                                                    else IncorrectEmail)]
      ensures lastRejectedCause == old(lastRejectedCause)
      ensures var r := old(Expected(RegistrationReq(user, password, email), db));
        old(outbox) <= outbox && Goes(state, lastRejectedCause, outbox[|old(outbox)|..]) == r
      ensures old(state) == Registering ==> userName == user && userEmail == email
      ensures old(state) == Registering && state == Registered ==> userPwd == password
      ensures old(state) != Registering ==> userName == old(userName) && userEmail == old(userEmail)
      ensures state != Registered || old(state) == Registered ==> userPwd == old(userPwd)
    {
      if state == Registering {
        userName := user;
        userEmail := email;
        if db.knownUser {
          SendMsgToClient(RegistrationRej(UserAlreadyExisting));
        } else if db.correctEmail {
          SendMsgToClient(RegistrationRej(IncorrectEmail));
        } else {
          userPwd := password;
          SendMsgToClient(RegistrationCnf);
          state := Registered;
        }
      } else {
        SendMsgToClient(RegistrationRej(UnexpectedRegistration));
      }
      assert (old(outbox) + [RegistrationCnf])[|old(outbox)|] == RegistrationCnf;
    }

    method HandleUserLoginReq(user: string, password: string, db: Lookups)
      modifies this
      ensures state == Registered && outbox == old(outbox) + [RegistrationCnf]
        <==> old(state) == Registering && db.knownUser && db.passwdOk
      ensures !(old(state) == Registering && db.knownUser && db.passwdOk) ==>
        && state == old(state)
        && outbox == old(outbox) + [UserLoginRej(if old(state) != Registering then UnexpectedLoginProc
                                                 else if !db.knownUser then UserUnknown
                                                 else WrongPassword)]
      ensures lastRejectedCause == old(lastRejectedCause)
      ensures var r := old(Expected(UserLoginReq(user, password), db));
        old(outbox) <= outbox && Goes(state, lastRejectedCause, outbox[|old(outbox)|..]) == r
      ensures old(state) == Registering ==> userName == user && userPwd == password
      ensures old(state) != Registering ==> userName == old(userName) && userPwd == old(userPwd)
    {
      if state == Registering {
        userName := user;
        userPwd := password;
        if !db.knownUser {
          SendMsgToClient(UserLoginRej(UserUnknown));
        } else if !db.passwdOk {
          SendMsgToClient(UserLoginRej(WrongPassword));
        } else {
          SendMsgToClient(RegistrationCnf);
          state := Registered;
        }
      } else {
        SendMsgToClient(UserLoginRej(UnexpectedLoginProc));
      }
      assert (old(outbox) + [RegistrationCnf])[|old(outbox)|] == RegistrationCnf;
    }

    method HandleDisconnectionReq(cause: DisconnectionCause)
      requires cause == UserShutdown
      modifies this
      ensures state == Closing && outbox == old(outbox) + [DisconnectionCnf]
      ensures lastRejectedCause == old(lastRejectedCause)
    {
      SendMsgToClient(DisconnectionCnf);
      state := Closing;
    }

    method HandleDisconnectionCnf()
      requires state == Disconnecting
      modifies this
      ensures state == Closing && outbox == old(outbox) && lastRejectedCause == old(lastRejectedCause)
    {
      state := Closing;
    }

    /** Route a received message to its handler; the asserts are what the precondition rules out. */
    method HandleClientMessage(m: Message, db: Lookups)
      requires Expected(m, db) != AssertFails
      modifies this
      ensures old(outbox) <= outbox
      ensures Goes(state, lastRejectedCause, outbox[|old(outbox)|..]) == old(Expected(m, db))
    {
      match m
      case ConnectionReq(v) => HandleConnectionReq(v);
      case UserLoginReq(u, p) => HandleUserLoginReq(u, p, db);
      case RegistrationReq(u, p, e) => HandleRegistrationReq(u, p, e, db);
      case DisconnectionReq(c) => HandleDisconnectionReq(c);
      case DisconnectionCnf => HandleDisconnectionCnf();
      case PollReq =>
      case PollCnf =>
      case DataTransferReq =>
      case TransferDataBlk =>
      case FileTransferReq =>
    }
  }

  // ----- runs of one connection -----

  datatype AnyInput = Received(msg: Message, db: Lookups)

  predicate IsRequest(m: Message) {
    m.ConnectionReq? || m.UserLoginReq? || m.RegistrationReq? || m == DisconnectionReq(UserShutdown)
  }

  /** The messages a client may send without tripping an assert of the server. */
  predicate FromClient(m: Message) {
    IsRequest(m) || Ignored(m)
  }

  /** One message a client may send, with what the lookups say when it is handled. */
  type Input = i: AnyInput | FromClient(i.msg) witness Received(PollReq, Lookups(false, false, false))

  /** The asserts on a received message fire exactly for what no client sends: a message only a server
      sends, a disconnection for another cause, an acknowledgement nobody asked for. */
  lemma AssertsWhen(s: State, c: ConnRejCause, m: Message, db: Lookups, version: string)
    ensures React(s, c, m, db, version) == AssertFails
      <==> || m.ConnectionCnf? || m.ConnectionRej? || m.UserLoginCnf? || m.UserLoginRej?
           || m.RegistrationCnf? || m.RegistrationRej?
           || (m.DisconnectionReq? && m.discCause != UserShutdown) || (m.DisconnectionCnf? && s != Disconnecting)
    ensures FromClient(m) ==> React(s, c, m, db, version).Goes?
  {
  }

  /** A connection becomes registered by one of two messages only, and what the lookups have to say. */
  lemma RegisteredWhen(s: State, c: ConnRejCause, m: Message, db: Lookups, version: string)
    requires s != Registered && React(s, c, m, db, version).Goes?
    ensures React(s, c, m, db, version).state == Registered
      <==> s == Registering && ((m.RegistrationReq? && !db.knownUser && !db.correctEmail)
                                || (m.UserLoginReq? && db.knownUser && db.passwdOk))
    ensures React(s, c, m, db, version).replies == [RegistrationCnf]
      <==> React(s, c, m, db, version).state == Registered
  {
  }

  /** A connection is confirmed only when it is new and of the same version. */
  lemma ConfirmedWhen(s: State, c: ConnRejCause, m: Message, db: Lookups, version: string)
    requires React(s, c, m, db, version).Goes?
    ensures React(s, c, m, db, version).replies == [ConnectionCnf]
      <==> s == Empty && m == ConnectionReq(version)
    ensures s != Registering ==>
      (React(s, c, m, db, version).state == Registering <==> s == Empty && m == ConnectionReq(version))
  {
  }

  function Rank(s: State): nat {
    match s
    case Empty => 0
    case Registering => 1
    case Registered => 2
    case _ => 3
  }

  /** Before registering, registering, registered, and the states a connection ends in. */
  lemma RankOrders()
    ensures Rank(Empty) < Rank(Registering) < Rank(Registered) < Rank(ConnRejected) == Rank(Closing)
  {
  }

  function Count(ms: seq<Message>, m: Message): nat {
    if ms == [] then 0 else (if ms[0] == m then 1 else 0) + Count(ms[1..], m)
  }

  lemma {:induction false} CountAppend(a: seq<Message>, b: seq<Message>, m: Message)
    ensures Count(a + b, m) == Count(a, m) + Count(b, m)
  {
    if a == [] {
      assert a + b == b;
    } else {
      assert (a + b)[1..] == a[1..] + b;
      CountAppend(a[1..], b, m);
    }
  }

  /** The replies of a run, one group for each input. */
  function Replies(s: State, c: ConnRejCause, ins: seq<Input>, version: string): seq<seq<Message>>
    decreases |ins|
  {
    if ins == [] then []
    else
      var r := React(s, c, ins[0].msg, ins[0].db, version);
      [r.replies] + Replies(r.state, r.cause, ins[1..], version)
  }

  function StateAfter(s: State, c: ConnRejCause, ins: seq<Input>, version: string): State
    decreases |ins|
  {
    if ins == [] then s
    else
      var r := React(s, c, ins[0].msg, ins[0].db, version);
      StateAfter(r.state, r.cause, ins[1..], version)
  }

  function Flatten(rs: seq<seq<Message>>): seq<Message> {
    if rs == [] then [] else rs[0] + Flatten(rs[1..])
  }

  /** Whether a reply is one the protocol has for a request. An accepted login is confirmed as a registration. */
  predicate Answers(reply: Message, request: Message) {
    match request
    case ConnectionReq(_) => reply.ConnectionCnf? || reply.ConnectionRej?
    case RegistrationReq(_, _, _) => reply.RegistrationCnf? || reply.RegistrationRej?
    case UserLoginReq(_, _) => reply.RegistrationCnf? || reply.UserLoginRej?
    case _ => reply == DisconnectionCnf
  }

  /** How many confirmations a connection has sent by the time it is in a state. */
  predicate Confirmed(s: State, cnfs: nat, regs: nat) {
    match s
    case Empty => cnfs == 0 && regs == 0
    case Registering => cnfs == 1 && regs == 0
    case Registered => cnfs == 1 && regs == 1
    case _ => regs <= cnfs <= 1
  }

  lemma RequestStep(s: State, c: ConnRejCause, m: Message, db: Lookups, version: string)
    requires IsRequest(m)
    ensures var r := React(s, c, m, db, version);
      r.Goes? && Rank(s) <= Rank(r.state) && |r.replies| == 1 && Answers(r.replies[0], m)
  {
  }

  /** One message: the reply it gets, and what it does to rank and confirmations. */
  lemma ReactStep(s: State, c: ConnRejCause, i: Input, version: string)
    ensures var m := i.msg; var r := React(s, c, m, i.db, version);
      && r.Goes? && Rank(s) <= Rank(r.state)
      && (IsRequest(m) ==> |r.replies| == 1 && Answers(r.replies[0], m))
      && (Ignored(m) ==> r.replies == [])
  {
    if IsRequest(i.msg) {
      hide React, Rank, Answers;
      RequestStep(s, c, i.msg, i.db, version);
      assert !Ignored(i.msg);
    }
  }

  lemma ConfirmedStep(s: State, c: ConnRejCause, i: Input, version: string, cnfs: nat, regs: nat)
    requires Confirmed(s, cnfs, regs)
    ensures var r := React(s, c, i.msg, i.db, version);
      && Confirmed(r.state, cnfs + Count(r.replies, ConnectionCnf), regs + Count(r.replies, RegistrationCnf))
      && Count(r.replies, UserLoginCnf) == 0
  {
    var r := React(s, c, i.msg, i.db, version);
    ReactStep(s, c, i, version);
    assert r.replies != [] ==> r.replies == [r.replies[0]] && r.replies[1..] == [];
  }

  /** Every request gets exactly one reply, of its own kind; an ignored message gets none. */
  lemma {:induction false} OneReplyEach(s: State, c: ConnRejCause, ins: seq<Input>, version: string, k: nat)
    requires k < |ins|
    ensures var rs := Replies(s, c, ins, version);
      && |rs| == |ins|
      && (IsRequest(ins[k].msg) ==> |rs[k]| == 1 && Answers(rs[k][0], ins[k].msg))
      && (Ignored(ins[k].msg) ==> rs[k] == [])
    decreases |ins|
  {
    hide React, Answers;
    var r := React(s, c, ins[0].msg, ins[0].db, version);
    ReactStep(s, c, ins[0], version);
    if |ins| > 1 {
      OneReplyEach(r.state, r.cause, ins[1..], version, if k > 0 then k - 1 else 0);
    }
  }

  /** A run of confirmations, as a whole: what ConfirmedAlong establishes. */
  ghost predicate StaysConfirmed(s: State, c: ConnRejCause, ins: seq<Input>, version: string, cnfs: nat, regs: nat) {
    var sent := Flatten(Replies(s, c, ins, version));
    && Confirmed(StateAfter(s, c, ins, version), cnfs + Count(sent, ConnectionCnf), regs + Count(sent, RegistrationCnf))
    && Count(sent, UserLoginCnf) == 0
  }

  /** Along a run the state and the confirmations sent stay in step. */
  lemma {:induction false} ConfirmedAlong(s: State, c: ConnRejCause, ins: seq<Input>, version: string,
                                          cnfs: nat, regs: nat)
    requires Confirmed(s, cnfs, regs)
    ensures StaysConfirmed(s, c, ins, version, cnfs, regs)
    decreases |ins|
  {
    hide React, Confirmed, Count, StaysConfirmed;
    if ins == [] {
      ConfirmedAtStart(s, c, version, cnfs, regs);
    } else {
      var r := React(s, c, ins[0].msg, ins[0].db, version);
      ConfirmedStep(s, c, ins[0], version, cnfs, regs);
      ConfirmedAlong(r.state, r.cause, ins[1..], version,
                     cnfs + Count(r.replies, ConnectionCnf), regs + Count(r.replies, RegistrationCnf));
      ConfirmedOnce(s, c, ins, version, cnfs, regs);
    }
  }

  lemma ConfirmedAtStart(s: State, c: ConnRejCause, version: string, cnfs: nat, regs: nat)
    requires Confirmed(s, cnfs, regs)
    ensures StaysConfirmed(s, c, [], version, cnfs, regs)
  {
    hide Confirmed;
  }

  lemma ConfirmedOnce(s: State, c: ConnRejCause, ins: seq<Input>, version: string, cnfs: nat, regs: nat)
    requires ins != []
    requires var r := React(s, c, ins[0].msg, ins[0].db, version);
      && Count(r.replies, UserLoginCnf) == 0
      && StaysConfirmed(r.state, r.cause, ins[1..], version,
                        cnfs + Count(r.replies, ConnectionCnf), regs + Count(r.replies, RegistrationCnf))
    ensures StaysConfirmed(s, c, ins, version, cnfs, regs)
  {
    hide React, Confirmed, Count;
    var r := React(s, c, ins[0].msg, ins[0].db, version);
    var rest := Flatten(Replies(r.state, r.cause, ins[1..], version));
    RunOnce(s, c, ins, version);
    hide Replies, Flatten, StateAfter;
    CountAppend(r.replies, rest, ConnectionCnf);
    CountAppend(r.replies, rest, RegistrationCnf);
    CountAppend(r.replies, rest, UserLoginCnf);
  }

  lemma RunOnce(s: State, c: ConnRejCause, ins: seq<Input>, version: string)
    requires ins != []
    ensures var r := React(s, c, ins[0].msg, ins[0].db, version);
      && StateAfter(s, c, ins, version) == StateAfter(r.state, r.cause, ins[1..], version)
      && Flatten(Replies(s, c, ins, version)) == r.replies + Flatten(Replies(r.state, r.cause, ins[1..], version))
  {
    hide React;
  }

  /** Whatever a client sends and the lookups say, a connection moves only forward, confirms the
      connection at most once and the registration at most once, and is registered only after both.
      k is any moment of the run. */
  lemma ConnectionLife(ins: seq<Input>, version: string, k: nat)
    requires k <= |ins|
    ensures var t := StateAfter(Empty, ConnNoCause, ins, version);
      var sent := Flatten(Replies(Empty, ConnNoCause, ins, version));
      && Count(sent, ConnectionCnf) <= 1 && Count(sent, RegistrationCnf) <= 1
      && (t == Registered ==> Count(sent, ConnectionCnf) == 1 && Count(sent, RegistrationCnf) == 1)
      && Rank(StateAfter(Empty, ConnNoCause, ins[..k], version)) <= Rank(t)
  {
    hide React, Replies, StateAfter, Flatten, Count;
    ConfirmedAlong(Empty, ConnNoCause, ins, version, 0, 0);
    RankAlong(Empty, ConnNoCause, ins, version, k);
  }

  lemma {:induction false} RankAlong(s: State, c: ConnRejCause, ins: seq<Input>, version: string, k: nat)
    requires k <= |ins|
    ensures Rank(StateAfter(s, c, ins[..k], version)) <= Rank(StateAfter(s, c, ins, version))
    decreases |ins|
  {
    hide React, Rank;
    if k == 0 {
      OnlyRank(s, c, ins, version);
    } else {
      var r := React(s, c, ins[0].msg, ins[0].db, version);
      assert ins[..k][1..] == ins[1..][..k - 1];
      RankAlong(r.state, r.cause, ins[1..], version, k - 1);
    }
  }

  lemma {:induction false} OnlyRank(s: State, c: ConnRejCause, ins: seq<Input>, version: string)
    ensures Rank(s) <= Rank(StateAfter(s, c, ins, version))
    decreases |ins|
  {
    if ins != [] {
      hide React;
      ReactStep(s, c, ins[0], version);
      var r := React(s, c, ins[0].msg, ins[0].db, version);
      OnlyRank(r.state, r.cause, ins[1..], version);
    }
  }

  // ----- the cause a rejected client is told again -----

  /** The cause of the last rejection among some messages, or what it was before. */
  function LastCause(sent: seq<Message>, before: ConnRejCause): ConnRejCause {
    if sent == [] then before
    else
      var n := |sent| - 1;
      if sent[n].ConnectionRej? then sent[n].connCause else LastCause(sent[..n], before)
  }

  function CauseAfter(s: State, c: ConnRejCause, ins: seq<Input>, version: string): ConnRejCause
    decreases |ins|
  {
    if ins == [] then c
    else
      var r := React(s, c, ins[0].msg, ins[0].db, version);
      CauseAfter(r.state, r.cause, ins[1..], version)
  }

  lemma {:induction false} LastCauseAppend(a: seq<Message>, b: seq<Message>, before: ConnRejCause)
    ensures LastCause(a + b, before) == LastCause(b, LastCause(a, before))
  {
    if b == [] {
      assert a + b == a;
    } else {
      var n := |b| - 1;
      assert (a + b)[..|a + b| - 1] == a + b[..n];
      LastCauseAppend(a, b[..n], before);
    }
  }

  lemma CauseStep(s: State, c: ConnRejCause, i: Input, version: string)
    ensures var r := React(s, c, i.msg, i.db, version); r.cause == LastCause(r.replies, c)
  {
    var r := React(s, c, i.msg, i.db, version);
    ReactStep(s, c, i, version);
    assert r.replies != [] ==> r.replies[..0] == [];
  }

  /** Over every run the cause remembered is that of the last rejection sent. */
  lemma {:induction false} CauseRemembered(s: State, c: ConnRejCause, ins: seq<Input>, version: string)
    ensures CauseAfter(s, c, ins, version) == LastCause(Flatten(Replies(s, c, ins, version)), c)
    decreases |ins|
  {
    if ins != [] {
      hide React, LastCause;
      var r := React(s, c, ins[0].msg, ins[0].db, version);
      CauseStep(s, c, ins[0], version);
      CauseRemembered(r.state, r.cause, ins[1..], version);
      RunOnce(s, c, ins, version);
      LastCauseAppend(r.replies, Flatten(Replies(r.state, r.cause, ins[1..], version)), c);
    }
  }

  /** After every run, a request on a rejected connection is told the cause of the last rejection again. */
  lemma RepeatedRejection(ins: seq<Input>, v: string, db: Lookups, version: string)
    requires StateAfter(Empty, ConnNoCause, ins, version) == ConnRejected
    ensures var sent := Flatten(Replies(Empty, ConnNoCause, ins, version));
      var c := CauseAfter(Empty, ConnNoCause, ins, version);
      React(ConnRejected, c, ConnectionReq(v), db, version)
        == Goes(ConnRejected, c, [ConnectionRej(LastCause(sent, ConnNoCause))])
  {
    CauseRemembered(Empty, ConnNoCause, ins, version);
  }

  lemma EmptyRun(s: State, c: ConnRejCause, version: string)
    ensures StateAfter(s, c, [], version) == s && Flatten(Replies(s, c, [], version)) == []
  {
  }

  method HandleOne(cnx: ServerClientConnection, i: Input) returns (ghost r: Reaction)
    modifies cnx
    ensures r == old(React(cnx.state, cnx.lastRejectedCause, i.msg, i.db, cnx.version)) && r.Goes?
    ensures cnx.state == r.state && cnx.lastRejectedCause == r.cause && cnx.outbox == old(cnx.outbox) + r.replies
  {
    r := cnx.Expected(i.msg, i.db);
    ReactStep(cnx.state, cnx.lastRejectedCause, i, cnx.version);
    cnx.HandleClientMessage(i.msg, i.db);
  }

  /** A connection object carries out a run as the functions above say. */
  method HandleAll(cnx: ServerClientConnection, ins: seq<Input>)
    modifies cnx
    ensures cnx.state == StateAfter(old(cnx.state), old(cnx.lastRejectedCause), ins, cnx.version)
    ensures cnx.lastRejectedCause == CauseAfter(old(cnx.state), old(cnx.lastRejectedCause), ins, cnx.version)
    ensures cnx.outbox ==
      old(cnx.outbox) + Flatten(Replies(old(cnx.state), old(cnx.lastRejectedCause), ins, cnx.version))
  {
    hide React, FromClient, Replies, StateAfter, Flatten;
    ghost var s0, c0, sent := cnx.state, cnx.lastRejectedCause, cnx.outbox;
    ghost var all := Flatten(Replies(s0, c0, ins, cnx.version));
    ghost var rest: seq<Message> := all;
    for k := 0 to |ins|
      invariant StateAfter(cnx.state, cnx.lastRejectedCause, ins[k..], cnx.version)
             == StateAfter(s0, c0, ins, cnx.version)
      invariant CauseAfter(cnx.state, cnx.lastRejectedCause, ins[k..], cnx.version)
             == CauseAfter(s0, c0, ins, cnx.version)
      invariant rest == Flatten(Replies(cnx.state, cnx.lastRejectedCause, ins[k..], cnx.version))
      invariant cnx.outbox + rest == sent + all
    {
      ghost var next: seq<Input>, now := ins[k..], cnx.outbox;
      assert next[0] == ins[k] && next[1..] == ins[k + 1..];
      RunOnce(cnx.state, cnx.lastRejectedCause, next, cnx.version);
      ghost var r := HandleOne(cnx, ins[k]);
      rest := Flatten(Replies(r.state, r.cause, ins[k + 1..], cnx.version));
      assert now + (r.replies + rest) == (now + r.replies) + rest;
    }
    assert ins[|ins|..] == [];
    EmptyRun(cnx.state, cnx.lastRejectedCause, cnx.version);
    assert cnx.outbox + [] == cnx.outbox;
  }
}
