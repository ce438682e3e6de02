/** The sending half of a message socket: queued requests become frames on the wire, at most one
    frame a call. Each send is taken to accept its whole buffer. */
module MsgSocketSender {
  import opened Wire
  import opened Transfer

  datatype TxState = TxInit | TxReady | TxBusy

  /** A request to send one message. It counts as sent as soon as its message is built. */
  class MsgRequest {
    const msg: Msg
    const l2PayloadLength: int
    var nbPayloadBytesSent: int

    constructor (msg: Msg)
      requires |msg.body| < MAX_BODY_SIZE
      ensures this.msg == msg && Consistent() && nbPayloadBytesSent == 0
    {
      this.msg := msg;
      l2PayloadLength := |msg.body|;
      nbPayloadBytesSent := 0;
    }

    ghost predicate Consistent() {
      l2PayloadLength == |msg.body| < MAX_BODY_SIZE
    }

    predicate SomeDataToSend()
      reads this
    {
      l2PayloadLength > nbPayloadBytesSent
    }

    /** Nothing is built once the message has been. */
    method BuildNextL2Msg(before: Built) returns (body: Option<seq<byte>>, built: Built)
      requires Consistent() && nbPayloadBytesSent >= 0
      modifies this
      ensures !old(SomeDataToSend()) ==>
        body == None && built == before && nbPayloadBytesSent == old(nbPayloadBytesSent)
      ensures old(SomeDataToSend()) ==>
        body == Some(msg.body) && built == Built(msg.id, |msg.body|) && !SomeDataToSend()
      ensures nbPayloadBytesSent >= 0
    {
      body, built := None, before;
      if SomeDataToSend() {
        built := Built(msg.id, l2PayloadLength);
        nbPayloadBytesSent := nbPayloadBytesSent + l2PayloadLength;
        body := Some(msg.body);
      }
    }
  }

  /** The requests a queue may hold: one message, or a whole file in several. */
  datatype Request = Single(req: MsgRequest) | FileTransfer(transfer: FileTransferRequest) {
    ghost function Footprint(): set<object> {
      match this
      case Single(r) => {r}
      case FileTransfer(t) => {t, t.msg}
    }

    predicate SomeDataToSend()
      reads Footprint()
    {
      match this
      case Single(r) => r.SomeDataToSend()
      case FileTransfer(t) => t.SomeDataToSend()
    }

    ghost predicate Valid(from: byte)
      reads Footprint()
    {
      match this
      case Single(r) => r.Consistent() && r.nbPayloadBytesSent >= 0 && r.msg.from == from
      case FileTransfer(t) => t.Valid()
    }

    /** The messages the request still has to send. */
    ghost function Rest(from: byte): seq<Msg>
      requires Valid(from)
      reads Footprint()
    {
      match this
      case Single(r) => if r.SomeDataToSend() then [r.msg] else []
      case FileTransfer(t) => t.Rest(from)
    }

    lemma RestSendable(from: byte)
      requires Valid(from)
      ensures AllSendable(Rest(from)) && (Rest(from) == [] <==> !SomeDataToSend())
    {
      match this
      case Single(r) =>
      case FileTransfer(t) =>
        MessagesSendable(t.file, t.msg[..], t.nbPayloadBytesSent, from);
        RestIs(t, from);
    }

    /** The next message of the request: its id, its length, and a body that starts with it. */
    method BuildNextL2Msg(from: byte) returns (body: seq<byte>, built: Built)
      requires Valid(from) && SomeDataToSend()
      modifies Footprint()
      ensures Valid(from) && old(Rest(from)) != [] && Sendable(old(Rest(from))[0])
      ensures var m := old(Rest(from))[0];
        && m.from == from && m.id == built.id && |m.body| == built.length <= |body|
        && body[..built.length] == m.body
      ensures Rest(from) == old(Rest(from))[1..]
    {
      hide FileTransferRequest.Rest;
      match this {
        case Single(r) =>
          var single: Option<seq<byte>>;
          single, built := r.BuildNextL2Msg(Built(0, 0));
          body := single.value;
        case FileTransfer(t) =>
          ghost var m: Msg;
          built, m := NextMessage(t, from);
          body := t.msg[..];
      }
    }
  }

  // ----- queues of requests -----

  ghost function Objects(rs: seq<Request>): set<object> {
    if rs == [] then {} else rs[0].Footprint() + Objects(rs[1..])
  }

  /** The requests of a queue are well formed and share no memory. */
  ghost predicate Queue(rs: seq<Request>, from: byte)
    reads Objects(rs)
  {
    rs == [] || (rs[0].Valid(from) && rs[0].Footprint() !! Objects(rs[1..]) && Queue(rs[1..], from))
  }

  /** The messages a queue of requests still has to send. */
  ghost function Unsent(rs: seq<Request>, from: byte): seq<Msg>
    requires Queue(rs, from)
    reads Objects(rs)
  {
    if rs == [] then [] else rs[0].Rest(from) + Unsent(rs[1..], from)
  }

  lemma NothingUnsent(from: byte)
    ensures Queue([], from) && Unsent([], from) == []
  {
  }

  lemma {:induction false} QueueAppend(rs: seq<Request>, r: Request, from: byte)
    requires Queue(rs, from) && r.Valid(from) && r.Footprint() !! Objects(rs)
    ensures Objects(rs + [r]) == Objects(rs) + r.Footprint()
    ensures Queue(rs + [r], from) && Unsent(rs + [r], from) == Unsent(rs, from) + r.Rest(from)
  {
    if rs == [] {
      assert rs + [r] == [r] && [r][1..] == [];
      assert r.Rest(from) + [] == r.Rest(from);
    } else {
      assert (rs + [r])[1..] == rs[1..] + [r];
      QueueAppend(rs[1..], r, from);
      Regroup(rs[0].Rest(from), Unsent(rs[1..], from), r.Rest(from));
    }
  }

  /** The frame header as it lies in the sender's memory, its numbers already converted. */
  datatype Header = Header(length: u32, id: u16, from: byte, pad: byte) {
    function Bytes(host: Host): seq<byte> {
      Store32(host, length) + Store16(host, id) + [from, pad]
    }
  }

  class Sender {
    const host: Host
    const from: byte
    var txState: TxState
    var txLength: int            // bytes of the current frame sent so far
    var txMsgLength: int         // length of the current frame, its header included
    var txL1MsgId: u16
    var txMsg: Option<seq<byte>> // body of the frame under emission
    var txHeader: Header
    var txFifo: seq<Request>
    var txReq: Option<Request>
    var wire: seq<byte>          // everything handed to the kernel
    ghost var submitted: seq<Msg>
    ghost var repr: set<object>  // the memory of the requests, past and present

    constructor (host: Host, from: byte, pad: byte)
      ensures this.host == host && this.from == from && txHeader.pad == pad
      ensures Conserving() && repr == {} && wire == [] && submitted == [] && Pending() == []
      ensures txFifo == [] && txReq == None
    {
      this.host, this.from := host, from;
      txState, txLength, txMsgLength, txL1MsgId, txMsg := TxInit, 0, 0, 0, None;
      txHeader := Header(0, 0, from, pad);
      txFifo, txReq, wire, submitted, repr := [], None, [], [], {};
    }

    /** The requests the sender holds, the one being served first. */
    ghost function Requests(): seq<Request>
      reads this
    {
      if txReq.None? then txFifo else [txReq.value] + txFifo
    }

    /** Between two calls no frame is half sent, and the requests held share no memory. */
    ghost predicate Valid()
      reads this, repr
    {
      && txLength == 0 && txMsgLength == 0 && txMsg == None
      && this !in repr && Objects(Requests()) <= repr && Queue(Requests(), from)
    }

    /** The messages still to be sent, oldest first. */
    ghost function Pending(): seq<Msg>
      requires Valid()
      reads this, repr
    {
      Unsent(Requests(), from)
    }

    /** Wire bytes and pending messages together are the frames of everything submitted, in order. */
    ghost predicate Conserving()
      reads this, repr
    {
      && Valid() && AllSendable(submitted) && AllSendable(Pending())
      && Frames(submitted, txHeader.pad) == wire + Frames(Pending(), txHeader.pad)
    }

    /** Queue one more request, of either kind. */
    method Submit(r: Request)
      requires Conserving() && r.Valid(from) && r.Footprint() !! repr && this !in r.Footprint()
      modifies `txFifo, `submitted, `repr
      ensures Conserving() && repr == old(repr) + r.Footprint()
      ensures submitted == old(submitted) + r.Rest(from) && Pending() == old(Pending()) + r.Rest(from)
    {
      hide Frames, Queue, Unsent, Objects, AllSendable, Request.Footprint, Request.Valid, Request.Rest;
      ghost var rs: seq<Request>, added: seq<Msg>, pending: seq<Msg> := Requests(), r.Rest(from), Pending();
      QueueAppend(rs, r, from);
      r.RestSendable(from);
      SubmittedConserved(submitted, wire, pending, added, txHeader.pad);
      Regroup(if txReq.None? then [] else [txReq.value], txFifo, [r]);
      txFifo := txFifo + [r];
      submitted := submitted + added;
      repr := repr + r.Footprint();
      assert Requests() == rs + [r];
    }

    method SendMsg(req: MsgRequest)
      requires Conserving() && Single(req).Valid(from) && req !in repr
      modifies `txFifo, `submitted, `repr
      ensures Conserving() && repr == old(repr) + {req}
      ensures submitted == old(submitted) + if req.SomeDataToSend() then [req.msg] else []
    {
      Submit(Single(req));
    }

    method TxPopNextRequest() returns (req: Option<Request>)
      modifies `txFifo
      ensures old(txFifo) == [] ==> req == None && txFifo == []
      ensures old(txFifo) != [] ==> req == Some(old(txFifo)[0]) && txFifo == old(txFifo)[1..]
    {
      if txFifo != [] {
        req := Some(txFifo[0]);
        txFifo := txFifo[1..];
      } else {
        req := None;
      }
    }

    method TxReset()
      modifies `txState, `txLength, `txMsgLength, `txMsg, `txL1MsgId
      ensures txState == TxInit && txLength == 0 && txMsgLength == 0 && txMsg == None && txL1MsgId == 0
    {
      txState := TxInit;
      txLength := 0;
      txMsgLength := 0;
      txMsg := None;
      txL1MsgId := 0;
    }

    method SocketSend(buffer: seq<byte>) returns (nbSent: int)
      modifies `wire
      ensures nbSent == |buffer| && wire == old(wire) + buffer
    {
      wire := wire + buffer;
      nbSent := |buffer|;
    }

    /** Build the next message of the current request, and its header in network order. */
    method BuildFrame(r: Request, ghost m: Msg)
      requires r.Valid(from) && r.SomeDataToSend() && this !in r.Footprint() && m == FirstOf(r)
      modifies `txMsg, `txL1MsgId, `txMsgLength, `txHeader, r.Footprint()
      ensures r.Valid(from) && old(r.Rest(from)) == [m] + r.Rest(from) && Sendable(m)
      ensures txHeader.pad == old(txHeader.pad) && Carries(m)
    {
      hide Request.Rest, Frame, Header.Bytes;
      ghost var rest := r.Rest(from);
      r.RestSendable(from);
      var body, built := r.BuildNextL2Msg(from);
      HeaderFrame(host, m, txHeader.pad);
      txMsg, txL1MsgId := Some(body), built.id;
      txMsgLength := built.length + HEADER_SIZE;
      txHeader := Header(NetworkSwap32(host, txMsgLength), NetworkSwap16(host, built.id), from, txHeader.pad);
      assert rest == [rest[0]] + rest[1..];
    }

    ghost function FirstOf(r: Request): Msg
      requires r.Valid(from) && r.SomeDataToSend()
      reads r.Footprint()
    {
      r.RestSendable(from);
      r.Rest(from)[0]
    }

    /** Header and body under emission make the frame of a message. */
    ghost predicate Carries(m: Msg)
      reads this
    {
      && Sendable(m) && txMsg.Some? && txMsgLength == HEADER_SIZE + |m.body|
      && |m.body| <= |txMsg.value| && txMsg.value[..|m.body|] == m.body
      && |txHeader.Bytes(host)| == HEADER_SIZE
      && txHeader.Bytes(host) + m.body == Frame(m, txHeader.pad)
    }

    /** Send the frame under emission, header first. */
    method EmitFrame(ghost m: Msg)
      requires txLength == 0 && Carries(m)
      modifies `txState, `txLength, `txMsgLength, `txMsg, `txL1MsgId, `wire
      ensures txState == TxInit && txLength == 0 && txMsgLength == 0 && txMsg == None
      ensures wire == old(wire) + Frame(m, txHeader.pad)
    {
      hide Frame, Header.Bytes;
      if txLength == 0 {
        var nbSent := SocketSend(txHeader.Bytes(host));
        txLength := txLength + nbSent;
      }
      Regroup(old(wire), txHeader.Bytes(host), m.body);
      if txLength < txMsgLength {
        var nbSent := SocketSend(txMsg.value[..txMsgLength - txLength]);
        txLength := txLength + nbSent;
      }
      if txLength == txMsgLength {
        TxReset();
      }
    }

    /** Send the next frame of the current request. */
    method SendFrame()
      requires Valid() && txReq.Some? && txReq.value.SomeDataToSend()
      modifies this, txReq.value.Footprint()
      ensures Valid() && txState == TxInit && repr == old(repr) && txReq == old(txReq)
      ensures submitted == old(submitted) && txHeader.pad == old(txHeader.pad)
      ensures OneStep(old(Pending()), old(wire))
    {
      hide Frame, Header.Bytes, Request.Valid, Request.Rest, Queue, Unsent;
      Parts();
      var r := txReq.value;
      r.RestSendable(from);
      ghost var m, rest, later := FirstOf(r), r.Rest(from), Unsent(txFifo, from);
      Regroup([m], rest[1..], later);
      if txMsg == None {
        BuildFrame(r, m);
      }
      EmitFrame(m);
      Parts();
      assert Pending() == rest[1..] + later;
    }

    /** What holds of the requests held, by the current one and the queue. */
    lemma Parts()
      requires txReq.Some?
      ensures var r := txReq.value;
        && Objects(Requests()) == r.Footprint() + Objects(txFifo)
        && (Queue(Requests(), from) <==> r.Valid(from) && r.Footprint() !! Objects(txFifo) && Queue(txFifo, from))
        && (Queue(Requests(), from) ==> Unsent(Requests(), from) == r.Rest(from) + Unsent(txFifo, from))
    {
      hide Request.Valid, Request.Rest, Request.Footprint;
      assert Requests()[0] == txReq.value && Requests()[1..] == txFifo;
    }

    /** Go on to the next queued request, the present one having been served. */
    method TakeNext()
      requires Valid() && (txReq.Some? ==> !txReq.value.SomeDataToSend())
      modifies `txFifo, `txReq
      ensures Valid() && Pending() == old(Pending()) && repr == old(repr)
      ensures if old(txFifo) == [] then txReq == None && txFifo == []
        else txReq == Some(old(txFifo)[0]) && txFifo == old(txFifo)[1..]
    {
      hide Request.Valid, Request.Rest, Queue, Unsent;
      if txReq.Some? {
        Parts();
        txReq.value.RestSendable(from);
        assert [] + Unsent(txFifo, from) == Unsent(txFifo, from);
      }
      txReq := TxPopNextRequest();
      assert Requests() == old(txFifo);
    }

    /** The same, with the id of the message that was under emission forgotten. */
    method PassOn()
      requires Valid() && (txReq.Some? ==> !txReq.value.SomeDataToSend())
      modifies `txFifo, `txReq, `txL1MsgId
      ensures Valid() && Pending() == old(Pending()) && repr == old(repr)
      ensures if old(txFifo) == [] then txReq == None && txFifo == []
        else txReq == Some(old(txFifo)[0]) && txFifo == old(txFifo)[1..]
    {
      TakeNext();
      txL1MsgId := 0;
    }

    method SendLoop()
      requires Valid() && txState == TxReady
      modifies this, repr
      ensures Valid() && submitted == old(submitted) && txHeader.pad == old(txHeader.pad)
      ensures OneStep(old(Pending()), old(wire)) && repr == old(repr)
    {
      hide Frame, Sendable, Queue, Unsent, Request.Valid, Request.Rest, Request.Footprint;
      ghost var before := Pending();
      NothingUnsent(from);
      if txReq == None {
        TakeNext();
      }
      while txState == TxReady && txReq != None
        invariant Valid() && submitted == old(submitted) && txHeader.pad == old(txHeader.pad)
        invariant txReq == None ==> txFifo == []
        invariant if txState == TxReady then wire == old(wire) && Pending() == before
          else txReq != None && OneStep(before, old(wire))
        invariant repr == old(repr)
        decreases if txState == TxReady then 1 else 0, |Requests()|
      {
        if txReq.value.SomeDataToSend() {
          SendFrame();
        } else {
          assert txLength == 0 && txMsgLength == 0;
          PassOn();
        }
      }
    }

    /** Either nothing was pending and nothing is left, or exactly the oldest pending message went out. */
    ghost predicate OneStep(before: seq<Msg>, wireBefore: seq<byte>)
      requires Valid()
      reads this, repr
    {
      if before == [] then
        wire == wireBefore && Pending() == [] && txReq == None && txFifo == []
      else
        && Sendable(before[0]) && wire == wireBefore + Frame(before[0], txHeader.pad)
        && Pending() == before[1..] && txReq != None
    }

    /** Called when the socket is writable. */
    method SendNextData() returns (again: int)
      requires Conserving()
      modifies this, repr
      ensures Conserving() && submitted == old(submitted) && txHeader.pad == old(txHeader.pad)
      ensures repr == old(repr)
      ensures OneStep(old(Pending()), old(wire)) && again == if old(Pending()) == [] then 0 else 1
      ensures old(wire) <= wire
    {
      hide Queue, Unsent, Objects;
      ghost var before, pad := Pending(), txHeader.pad;
      txState := TxReady;
      assert Pending() == before;
      SendLoop();
      if before != [] {
        FrameConserved(old(submitted), old(wire), before, pad);
      }
      if txReq == None {
        again := 0;
      } else {
        again := 1;
      }
    }
  }

  /** One call, as it shows in the stream the wire and the pending messages make together. */
  method ServeOnce(tx: Sender) returns (again: int)
    requires tx.Conserving()
    modifies tx, tx.repr
    ensures tx.Conserving() && tx.txHeader.pad == old(tx.txHeader.pad) && tx.repr == old(tx.repr)
    ensures AllSendable(old(tx.Pending())) && AllSendable(tx.Pending())
    ensures tx.wire + Frames(tx.Pending(), tx.txHeader.pad)
         == old(tx.wire) + Frames(old(tx.Pending()), tx.txHeader.pad)
    ensures if old(tx.Pending()) == [] then again == 0 && tx.Pending() == []
      else again == 1 && tx.Pending() == old(tx.Pending())[1..]
  {
    hide Frame, Sendable, Sender.Valid, Objects;
    ghost var pending, wireBefore, pad := tx.Pending(), tx.wire, tx.txHeader.pad;
    again := tx.SendNextData();
    if pending != [] {
      Regroup(wireBefore, Frame(pending[0], pad), Frames(pending[1..], pad));
    }
  }

  /** With k messages pending, the socket has to be served k + 1 times before it reports nothing left. */
  method Drain(tx: Sender) returns (calls: int)
    requires tx.Conserving()
    modifies tx, tx.repr
    ensures tx.Conserving() && tx.Pending() == [] && calls == |old(tx.Pending())| + 1
    ensures AllSendable(old(tx.Pending()))
      && tx.wire == old(tx.wire) + Frames(old(tx.Pending()), tx.txHeader.pad)
  {
    hide Frames, AllSendable, Sender.Valid, Sender.Pending, Objects;
    ghost var before, wireBefore, pad := tx.Pending(), tx.wire, tx.txHeader.pad;
    calls := 0;
    var again := 1;
    while again != 0
      invariant tx.Conserving() && tx.txHeader.pad == pad && tx.repr == old(tx.repr)
      invariant AllSendable(tx.Pending())
      invariant if again != 0 then calls <= |before| && tx.Pending() == before[calls..]
        else calls == |before| + 1 && tx.Pending() == []
      invariant wireBefore + Frames(before, pad) == tx.wire + Frames(tx.Pending(), pad)
      decreases |before| + 1 - calls
    {
      again := ServeOnce(tx);
      calls := calls + 1;
    }
    NoFrames(tx.wire, pad);
  }

  lemma NoFrames(wire: seq<byte>, pad: byte)
    ensures wire + Frames([], pad) == wire
  {
  }

  lemma {:induction false} FramesAppend(a: seq<Msg>, b: seq<Msg>, pad: byte)
    requires AllSendable(a) && AllSendable(b)
    ensures AllSendable(a + b) && Frames(a + b, pad) == Frames(a, pad) + Frames(b, pad)
  {
    if a == [] {
      assert a + b == b;
    } else {
      assert (a + b)[1..] == a[1..] + b;
      FramesAppend(a[1..], b, pad);
      Regroup(Frame(a[0], pad), Frames(a[1..], pad), Frames(b, pad));
    }
  }

  lemma SubmittedConserved(submitted: seq<Msg>, wire: seq<byte>, pending: seq<Msg>, added: seq<Msg>, pad: byte)
    requires AllSendable(submitted) && AllSendable(pending) && AllSendable(added)
    requires Frames(submitted, pad) == wire + Frames(pending, pad)
    ensures AllSendable(submitted + added) && AllSendable(pending + added)
    ensures Frames(submitted + added, pad) == wire + Frames(pending + added, pad)
  {
    hide Sendable;
    FramesAppend(submitted, added, pad);
    FramesAppend(pending, added, pad);
    Regroup(wire, Frames(pending, pad), Frames(added, pad));
  }

  lemma HeaderFrame(host: Host, m: Msg, pad: byte)
    requires Sendable(m)
    ensures var n := HEADER_SIZE + |m.body|;
      var h := Header(NetworkSwap32(host, n), NetworkSwap16(host, m.id), m.from, pad).Bytes(host);
      |h| == HEADER_SIZE && Frame(m, pad) == h + m.body
  {
    NetworkOrder(host, m.id, HEADER_SIZE + |m.body|);
  }

  lemma FrameConserved(submitted: seq<Msg>, wire: seq<byte>, pending: seq<Msg>, pad: byte)
    requires pending != [] && AllSendable(submitted) && AllSendable(pending)
    requires Frames(submitted, pad) == wire + Frames(pending, pad)
    ensures AllSendable(pending[1..])
    ensures Frames(submitted, pad) == (wire + Frame(pending[0], pad)) + Frames(pending[1..], pad)
  {
    Regroup(wire, Frame(pending[0], pad), Frames(pending[1..], pad));
  }
}
