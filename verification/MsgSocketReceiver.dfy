/** The receiving half of a message socket: it rebuilds frames from whatever pieces the kernel
    hands over, in a message buffer of fixed size, and queues the complete messages. */
module MsgSocketReceiver {
  import opened Wire

  datatype RxState = RxInit | RxIdle | RxData

  class Receiver {
    const host: Host
    var rxState: RxState
    var rxLength: int           // bytes of the current message received so far, its length field included
    var rxMsgLength: int        // length field of the current message, in host order
    var rxMsg: array<byte>      // memory of the current message; its first four bytes stand for rxMsgLength
    var rxFifo: seq<Msg>        // complete messages not yet taken
    var kernel: seq<byte>       // bytes that have arrived and have not been read
    ghost var arrived: seq<byte>
    ghost var taken: seq<Msg>

    constructor (host: Host)
      ensures this.host == host && Faithful()
      ensures arrived == [] && taken == [] && rxFifo == [] && kernel == []
      ensures fresh(rxMsg)
    {
      this.host := host;
      rxState, rxLength, rxMsgLength := RxInit, 0, 0;
      rxMsg := new byte[MESSAGE_SIZE];
      rxFifo, kernel := [], [];
      arrived, taken := [], [];
    }

    ghost predicate Valid()
      reads this, rxMsg
    {
      && rxMsg.Length == MESSAGE_SIZE
      && (rxLength == 0 || (ValidLength(rxMsgLength) && 4 <= rxLength <= rxMsgLength))
    }

    /** The wire bytes of the message under construction. */
    ghost function Partial(): seq<byte>
      requires Valid()
      reads this, rxMsg
    {
      if rxLength == 0 then [] else Be32(rxMsgLength) + rxMsg[4..rxLength]
    }

    /** What has been read of the message under construction, and what still waits in the kernel. */
    ghost function Unparsed(): seq<byte>
      requires Valid()
      reads this, rxMsg
    {
      Partial() + kernel
    }

    /** All that arrived is accounted for: messages taken, messages queued, bytes still to parse. */
    ghost predicate Faithful()
      reads this, rxMsg
    {
      && Valid() && WellFormed(Unparsed())
      && var p, q := Parse(arrived), Parse(Unparsed());
         p.msgs == taken + rxFifo + q.msgs && p.rest == q.rest
    }

    /** The network delivers some more bytes. */
    method Arrive(bytes: seq<byte>)
      requires Faithful() && WellFormed(arrived + bytes)
      modifies `kernel, `arrived
      ensures Faithful()
      ensures kernel == old(kernel) + bytes && arrived == old(arrived) + bytes
    {
      hide Parse, WellFormed, Be32;
      ArrivalFaithful(arrived, taken + rxFifo, Unparsed(), bytes);
      kernel := kernel + bytes;
      arrived := arrived + bytes;
      assert Unparsed() == old(Unparsed()) + bytes;
    }

    /** A read of the kernel buffer: any positive number of bytes up to the request, none if there are none. */
    method SocketReceive(length: int) returns (data: seq<byte>)
      requires length > 0
      modifies `kernel
      ensures |data| <= length && old(kernel) == data + kernel
      ensures data == [] <==> old(kernel) == []
    {
      if kernel == [] {
        data := [];
      } else {
        var n :| 1 <= n <= length && n <= |kernel|;
        data := kernel[..n];
        kernel := kernel[n..];
      }
    }

    /** Read the length field of the next message, if all of it is there. */
    method RecvBeginNewMsg() returns (started: bool)
      requires Valid() && rxLength == 0 && WellFormed(kernel)
      modifies this
      ensures Valid() && rxFifo == old(rxFifo) && arrived == old(arrived) && taken == old(taken)
      ensures Unparsed() == old(kernel)
      ensures !started ==> rxLength == 0 && kernel == old(kernel) && |kernel| < 4 && rxMsg == old(rxMsg)
      ensures started ==> rxLength == 4 && kernel == old(kernel)[4..] && rxMsgLength == Val32(old(kernel)[..4])
      ensures started ==> fresh(rxMsg) && rxState == old(rxState)
    {
      // look at the next four bytes without consuming them
      if |kernel| >= 4 {
        var length := Load32(host, kernel[..4]);
        kernel := kernel[4..];
        rxMsg := new byte[MESSAGE_SIZE];
        rxMsgLength := NetworkSwap32(host, length);
        rxLength := 4;
        started := true;
        assert old(kernel)[..4] == Be32(Val32(old(kernel)[..4])) by {
          var b := old(kernel)[..4];
          FromDigits(b[0], b[1], b[2], b[3]);
        }
        HostOrder(host, 0, Val32(old(kernel)[..4]));
      } else {
        rxState := RxIdle;
        started := false;
      }
    }

    /** Convert the completed message to host order in place and queue it. */
    method QueueMessage()
      requires Valid() && rxLength == rxMsgLength > 0
      modifies this, rxMsg
      ensures Valid() && rxLength == 0 && rxMsg == old(rxMsg)
      ensures rxFifo == old(rxFifo) + [Decode(old(Partial()))]
      ensures kernel == old(kernel) && arrived == old(arrived) && taken == old(taken) && rxState == old(rxState)
    {
      hide Be32;
      ghost var f, tail := Partial(), rxMsg[4..rxMsgLength];
      FrameParts(Be32(rxMsgLength), tail);
      assert rxMsg[4..6] == tail[..2] && rxMsg[HEADER_SIZE..rxMsgLength] == tail[4..];
      var id := NetworkSwap16(host, Load16(host, rxMsg[4..6]));
      IdOrder(host, f[4..6]);
      var stored := Store16(host, id);
      rxMsg[4], rxMsg[5] := stored[0], stored[1];
      LoadStore(host, id);
      assert rxMsg[4..6] == stored;
      assert rxMsg[HEADER_SIZE..rxMsgLength] == tail[4..] && rxMsg[6] == tail[2];
      rxFifo := rxFifo + [Msg(Load16(host, rxMsg[4..6]), rxMsg[6], rxMsg[HEADER_SIZE..rxMsgLength])];
      rxLength := 0;
    }

    /** Read some of the nb missing bytes of the current message into its buffer. */
    method RecvMore(nb: int) returns (more: bool)
      requires Valid() && 0 < rxLength < rxMsgLength && nb == rxMsgLength - rxLength
      modifies `rxLength, `kernel, rxMsg
      ensures Valid() && Unparsed() == old(Unparsed())
      ensures more <==> |kernel| < |old(kernel)|
      ensures !more ==> kernel == [] && rxLength == old(rxLength)
      ensures more ==> rxLength > 0
    {
      ghost var partial := Partial();
      var data := SocketReceive(nb);
      more := |data| > 0;
      forall i | 0 <= i < |data| {
        rxMsg[rxLength + i] := data[i];
      }
      rxLength := rxLength + |data|;
      Regroup(Be32(rxMsgLength), old(rxMsg[4..rxLength]), data);
      assert rxMsg[4..rxLength] == old(rxMsg[4..rxLength]) + data;
      Regroup(partial, data, kernel);
    }

    /** Read and queue messages until the kernel has no more to give. */
    method RecvLoop()
      requires Valid() && WellFormed(Unparsed()) && rxState == RxData
      modifies this, rxMsg
      ensures Valid() && arrived == old(arrived) && taken == old(taken)
      ensures rxMsg == old(rxMsg) || fresh(rxMsg)
      ensures var p := Parse(old(Unparsed())); rxFifo == old(rxFifo) + p.msgs && Unparsed() == p.rest
      ensures if rxLength == 0 then |kernel| < 4 else kernel == [] && rxLength < rxMsgLength
    {
      hide Parse, Decode, Be32, Val32;
      ghost var all := Unparsed();
      ghost var read: seq<Msg> := [];
      while rxState == RxData
        invariant Valid() && arrived == old(arrived) && taken == old(taken)
        invariant rxMsg == old(rxMsg) || fresh(rxMsg)
        invariant WellFormed(Unparsed()) && rxFifo == old(rxFifo) + read
        invariant Parse(all) == Parsed(read + Parse(Unparsed()).msgs, Parse(Unparsed()).rest)
        invariant rxState == RxData
        decreases |kernel|, rxLength
      {
        ghost var u := Unparsed();
        if rxLength == 0 {
          assert u == kernel;
          var started := RecvBeginNewMsg();
          if !started {
            assert Unparsed() == kernel;
            NoLength(kernel);
            break;
          }
        }
        var nb := rxMsgLength - rxLength;
        if nb > 0 {
          var more := RecvMore(nb);
          if !more {
            assert Unparsed() == Partial();
            PartialFrame(Partial(), rxMsgLength);
            break;
          }
        } else {
          assert nb == 0;
          CompleteFrame(Partial(), rxMsgLength, kernel);
          ghost var m := Decode(Partial());
          QueueMessage();
          assert Unparsed() == kernel;
          Regroup(read, [m], Parse(kernel).msgs);
          Regroup(old(rxFifo), read, [m]);
          read := read + [m];
        }
      }
      assert read + [] == read;
    }

    /** Called when the socket is readable. True exactly when a message can be taken. */
    method RecvNextData() returns (available: bool)
      requires Faithful()
      modifies this, rxMsg
      ensures Faithful() && arrived == old(arrived) && taken == old(taken)
      ensures rxMsg == old(rxMsg) || fresh(rxMsg)
      ensures available <==> rxFifo != []
      ensures taken + rxFifo == Parse(arrived).msgs && Unparsed() == Parse(arrived).rest
      ensures if rxLength == 0 then |kernel| < 4 else kernel == [] && rxLength < rxMsgLength
    {
      ghost var q := Parse(Unparsed());
      RestIsPartial(Unparsed());
      Regroup(taken, rxFifo, q.msgs);
      rxState := RxData;
      RecvLoop();
      available := rxFifo != [];
      assert (taken + rxFifo) + [] == taken + rxFifo;
    }

    method GetNextReceivedMsg() returns (msg: Option<Msg>)
      requires Faithful()
      modifies `rxFifo, `taken
      ensures Faithful()
      ensures old(rxFifo) == [] ==> msg == None && rxFifo == [] && taken == old(taken)
      ensures old(rxFifo) != [] ==>
        msg == Some(old(rxFifo)[0]) && rxFifo == old(rxFifo)[1..] && taken == old(taken) + [old(rxFifo)[0]]
    {
      msg := None;
      if rxFifo != [] {
        msg := Some(rxFifo[0]);
        taken := taken + [rxFifo[0]];
        rxFifo := rxFifo[1..];
        assert taken + rxFifo == old(taken + rxFifo);
      }
    }
  }

  /** Bytes that arrive join what is unparsed; what was read before stands. */
  lemma ArrivalFaithful(arrived: seq<byte>, got: seq<Msg>, u: seq<byte>, bytes: seq<byte>)
    requires WellFormed(u) && WellFormed(arrived + bytes)
    requires Parse(arrived) == Parsed(got + Parse(u).msgs, Parse(u).rest)
    ensures WellFormed(u + bytes)
    ensures Parse(arrived + bytes) == Parsed(got + Parse(u + bytes).msgs, Parse(u + bytes).rest)
  {
    hide Parse, WellFormed;
    ParseAppend(arrived, bytes);
    ParseAppend(u, bytes);
    WellFormedAppend(arrived, bytes);
    WellFormedTogether(u, bytes);
    Regroup(got, Parse(u).msgs, Parse(Parse(u).rest + bytes).msgs);
  }

  lemma CompleteFrame(f: seq<byte>, n: int, t: seq<byte>)
    requires ValidLength(n) && |f| == n && f[..4] == Be32(n)
    ensures Parse(f + t) == Parsed([Decode(f)] + Parse(t).msgs, Parse(t).rest)
    ensures WellFormed(f + t) ==> WellFormed(t)
  {
    Digits(n);
    assert (f + t)[..4] == f[..4] && (f + t)[..n] == f && (f + t)[n..] == t;
  }

  lemma FrameParts(length: seq<byte>, tail: seq<byte>)
    requires |length| == 4 && |tail| >= 4
    ensures var f := length + tail;
      f[4..6] == tail[..2] && f[6] == tail[2] && f[HEADER_SIZE..] == tail[4..]
  {
  }

  lemma NoLength(s: seq<byte>)
    requires |s| < 4
    ensures Parse(s) == Parsed([], s)
  {
  }

  lemma PartialFrame(f: seq<byte>, n: int)
    requires ValidLength(n) && 4 <= |f| < n && f[..4] == Be32(n)
    ensures Parse(f) == Parsed([], f)
  {
    Digits(n);
  }

  lemma IdOrder(host: Host, s: seq<byte>)
    requires |s| == 2
    ensures NetworkSwap16(host, Load16(host, s)) == Val16(s)
  {
    if host.LittleEndian? {
      var v := Val16([s[1], s[0]]);
      assert v as int == s[1] as int * 0x100 + s[0];
      assert v / 0x100 == s[1] && v % 0x100 == s[0];
    }
  }

  lemma LoadStore(host: Host, v: u16)
    ensures Load16(host, Store16(host, v)) == v
  {
  }
}
