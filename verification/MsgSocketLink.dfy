/** A sender and a receiver joined by a byte stream: whatever the pieces in which the network
    delivers the bytes, the receiver's queue is what the sender's callers submitted, in order. */
module MsgSocketLink {
  import opened Wire
  import opened Transfer
  import opened MsgSocketReceiver
  import opened MsgSocketSender

  datatype LinkStep =
    | Submit(msg: Msg)         // a caller of the sender queues a message
    | SubmitFile(file: File)   // a caller of the sender queues a file transfer
    | Emit                     // the sender's socket is writable
    | Carry(n: nat)            // the network delivers up to n more bytes
    | Receive                  // the receiver's socket is readable
    | Take                     // a caller of the receiver takes a message

  /** What a caller may submit: the assert on the length of a message, and the sender's own direction. */
  predicate Allowed(step: LinkStep, from: byte) {
    step.Submit? ==> |step.msg.body| < MAX_BODY_SIZE && step.msg.from == from
  }

  /** The messages a step submits: the message itself unless its body is empty, or messages whose
      blocks partition the file. */
  ghost predicate Submits(step: LinkStep, ms: seq<Msg>, from: byte) {
    match step
    case Submit(m) => ms == if m.body == [] then [] else [m]
    case SubmitFile(f) => IsTransfer(ms, from) && Partition(BlocksOf(ms), f.content)
    case _ => ms == []
  }

  ghost function Flat(groups: seq<seq<Msg>>): seq<Msg> {
    if groups == [] then [] else Flat(groups[..|groups| - 1]) + groups[|groups| - 1]
  }

  /** The receiver has been given a first part of what the sender put on the wire, and shares no memory
      with it. */
  ghost predicate Linked(tx: Sender, rx: Receiver)
    reads tx, tx.repr, rx, rx.rxMsg
  {
    && tx.Conserving() && rx.Faithful() && rx.arrived <= tx.wire
    && rx !in tx.repr && rx.rxMsg !in tx.repr
  }

  /** The bytes between what the receiver was given and the last pending message. */
  ghost function OnTheWay(tx: Sender, rx: Receiver): seq<byte>
    requires Linked(tx, rx)
    reads tx, tx.repr, rx, rx.rxMsg
  {
    tx.wire[|rx.arrived|..] + Frames(tx.Pending(), tx.txHeader.pad)
  }

  /** Every submitted message is taken, queued at the receiver, on its way, or pending at the
      sender, each exactly once and all in the order of submission, with no byte left over. */
  lemma NothingLost(tx: Sender, rx: Receiver)
    requires Linked(tx, rx)
    ensures var p := Parse(rx.Unparsed() + OnTheWay(tx, rx));
      tx.submitted == rx.taken + rx.rxFifo + p.msgs && p.rest == []
  {
    hide Parse, WellFormed, Frames;
    var pad, sent := tx.txHeader.pad, tx.submitted;
    StreamOf(sent, pad);
    SplitStream(Frames(sent, pad), rx.arrived, tx.wire, Frames(tx.Pending(), pad));
    AccountFor(rx.arrived, rx.taken + rx.rxFifo, rx.Unparsed(), OnTheWay(tx, rx));
  }

  lemma StreamOf(sent: seq<Msg>, pad: byte)
    requires AllSendable(sent)
    ensures Parse(Frames(sent, pad)) == Parsed(sent, []) && WellFormed(Frames(sent, pad))
  {
    FramesRoundTrip(sent, pad, []);
    assert Frames(sent, pad) + [] == Frames(sent, pad) && sent + [] == sent;
  }

  lemma SplitStream(all: seq<byte>, arrived: seq<byte>, wire: seq<byte>, rest: seq<byte>)
    requires all == wire + rest && arrived <= wire
    ensures all == arrived + (wire[|arrived|..] + rest)
  {
  }

  lemma AccountFor(arrived: seq<byte>, got: seq<Msg>, u: seq<byte>, more: seq<byte>)
    requires Parse(arrived) == Parsed(got + Parse(u).msgs, Parse(u).rest)
    ensures Parse(arrived + more) == Parsed(got + Parse(u + more).msgs, Parse(u + more).rest)
  {
    hide Parse;
    ParseAppend(arrived, more);
    ParseAppend(u, more);
    Regroup(got, Parse(u).msgs, Parse(Parse(u).rest + more).msgs);
  }

  lemma NoMessages(s: seq<byte>)
    ensures Parse(s).msgs == [] ==> Parse(s).rest == s
  {
  }

  /** The receiver's callers have got, or can take, all that was submitted exactly when the sender has
      nothing pending and the receiver has been given and has read all there is on the wire. */
  lemma DeliveredWhen(tx: Sender, rx: Receiver)
    requires Linked(tx, rx)
    ensures rx.taken + rx.rxFifo == tx.submitted
      <==> tx.Pending() == [] && rx.arrived == tx.wire && rx.Unparsed() == []
  {
    hide Parse, WellFormed, Receiver.Unparsed;
    var u, more, got := rx.Unparsed(), OnTheWay(tx, rx), rx.taken + rx.rxFifo;
    NothingLost(tx, rx);
    NoMessages(u + more);
    NothingToRead();
    assert got == tx.submitted <==> Parse(u + more).msgs == [] by {
      SamePrefix(got, Parse(u + more).msgs);
    }
    assert more == [] <==> tx.wire[|rx.arrived|..] == [] && tx.Pending() == [];
    assert rx.arrived == tx.wire <==> tx.wire[|rx.arrived|..] == [];
  }

  lemma NothingToRead()
    ensures Parse([]) == Parsed([], [])
  {
  }

  lemma SamePrefix<T>(a: seq<T>, b: seq<T>)
    ensures a + b == a <==> b == []
  {
    assert |a + b| == |a| + |b|;
  }

  /** What is taken or queued never runs ahead of what was submitted, nor differs from it. */
  lemma PrefixDelivered(tx: Sender, rx: Receiver)
    requires Linked(tx, rx)
    ensures rx.taken + rx.rxFifo <= tx.submitted
  {
    hide Linked, Parse;
    NothingLost(tx, rx);
  }

  /** A caller of the sender queues something. */
  method Offer(tx: Sender, step: LinkStep) returns (ghost ms: seq<Msg>)
    requires tx.Conserving() && Allowed(step, tx.from)
    modifies tx, tx.repr
    ensures tx.Conserving() && tx.wire == old(tx.wire) && fresh(tx.repr - old(tx.repr))
    ensures tx.submitted == old(tx.submitted) + ms && Submits(step, ms, tx.from)
  {
    hide Sender.Conserving, IsTransfer, Partition, BlocksOf, FileTransferRequest.Rest;
    ms := [];
    match step
    case Submit(m) =>
      var req := new MsgRequest(m);
      ms := if m.body == [] then [] else [m];
      tx.SendMsg(req);
    case SubmitFile(f) =>
      var transfer := new FileTransferRequest(tx.host, f);
      RestIs(transfer, tx.from);
      TransferCovers(f, transfer.msg[..], tx.from);
      ms := transfer.Rest(tx.from);
      tx.Submit(FileTransfer(transfer));
    case _ =>
  }

  /** The network delivers up to n more bytes. */
  method Deliver(tx: Sender, rx: Receiver, n: nat, carried: nat) returns (to: nat)
    requires Linked(tx, rx) && carried == |rx.arrived|
    modifies rx`kernel, rx`arrived
    ensures Linked(tx, rx) && to == |rx.arrived|
    ensures to == if carried + n <= |tx.wire| then carried + n else |tx.wire|
  {
    hide Parse, WellFormed, Receiver.Faithful, Sender.Conserving;
    to := if carried + n <= |tx.wire| then carried + n else |tx.wire|;
    NextBytes(tx, rx, to);
    rx.Arrive(tx.wire[carried..to]);
  }

  lemma NextBytes(tx: Sender, rx: Receiver, to: nat)
    requires Linked(tx, rx) && |rx.arrived| <= to <= |tx.wire|
    ensures WellFormed(rx.arrived + tx.wire[|rx.arrived|..to])
    ensures rx.arrived + tx.wire[|rx.arrived|..to] <= tx.wire
  {
    hide Parse, WellFormed, Receiver.Faithful, Sender.Conserving;
    WireWellFormed(tx, to);
    assert rx.arrived + tx.wire[|rx.arrived|..to] == tx.wire[..to];
  }

  function Later(ms: seq<Msg>): seq<Msg> {
    if ms == [] then [] else ms[1..]
  }

  method Perform(tx: Sender, rx: Receiver, step: LinkStep, carried: nat)
    returns (to: nat, got: seq<Msg>, ghost ms: seq<Msg>)
    requires Linked(tx, rx) && carried == |rx.arrived| && Allowed(step, tx.from)
    modifies tx, tx.repr, rx, rx.rxMsg
    ensures Linked(tx, rx) && to == |rx.arrived| && rx.taken == old(rx.taken) + got
    ensures tx.submitted == old(tx.submitted) + ms && Submits(step, ms, tx.from)
    ensures fresh(tx.repr - old(tx.repr)) && fresh({rx.rxMsg} - {old(rx.rxMsg)})
    ensures step == Emit ==> tx.Pending() == Later(old(tx.Pending()))
    ensures step.Carry? ==>
      && tx.Pending() == old(tx.Pending()) && tx.wire == old(tx.wire)
      && to == if carried + step.n <= |tx.wire| then carried + step.n else |tx.wire|
    ensures step == Receive ==>
      && tx.Pending() == old(tx.Pending()) && tx.wire == old(tx.wire) && to == carried
      && rx.taken + rx.rxFifo == Parse(rx.arrived).msgs
    ensures step != Take ==> got == []
    ensures step == Take ==> got == old(rx.rxFifo)[..if old(rx.rxFifo) == [] then 0 else 1]
  {
    hide Receiver.Faithful, Sender.Conserving, Sender.Valid, Receiver.Unparsed, Parse;
    to, got, ms := carried, [], [];
    match step
    case Submit(_) => ms := Offer(tx, step);
    case SubmitFile(_) => ms := Offer(tx, step);
    case Emit => var _ := tx.SendNextData();
    case Carry(n) => to := Deliver(tx, rx, n, carried);
    case Receive => var _ := rx.RecvNextData();
    case Take =>
      var m := rx.GetNextReceivedMsg();
      if m.Some? {
        got := [m.value];
      }
  }

  /** Any interleaving of the two ends and the network: what the receiver's callers got or can take is
      always a first part of what was submitted, and all of it exactly when nothing is pending, under
      way or half read. */
  method Run(tx: Sender, rx: Receiver, steps: seq<LinkStep>) returns (got: seq<Msg>, ghost groups: seq<seq<Msg>>)
    requires Linked(tx, rx) && tx.submitted == [] && rx.arrived == [] && rx.taken == []
    requires forall step | step in steps :: Allowed(step, tx.from)
    modifies tx, tx.repr, rx, rx.rxMsg
    ensures Linked(tx, rx) && got == rx.taken
    ensures |groups| == |steps| && forall k | 0 <= k < |steps| :: Submits(steps[k], groups[k], tx.from)
    ensures got + rx.rxFifo <= Flat(groups)
    ensures got + rx.rxFifo == Flat(groups)
      <==> tx.Pending() == [] && rx.arrived == tx.wire && rx.Unparsed() == []
  {
    hide Linked, Allowed, Submits;
    got, groups := [], [];
    var carried := 0;
    for k := 0 to |steps|
      invariant Linked(tx, rx) && got == rx.taken && carried == |rx.arrived|
      invariant |groups| == k && forall j | 0 <= j < k :: Submits(steps[j], groups[j], tx.from)
      invariant tx.submitted == Flat(groups)
      invariant fresh(tx.repr - old(tx.repr)) && fresh({rx.rxMsg} - {old(rx.rxMsg)})
    {
      var more;
      ghost var ms;
      carried, more, ms := Perform(tx, rx, steps[k], carried);
      got := got + more;
      assert (groups + [ms])[..k] == groups;
      groups := groups + [ms];
    }
    PrefixDelivered(tx, rx);
    DeliveredWhen(tx, rx);
  }

  /** Serving the sender as often as messages are pending, carrying all there is and reading once delivers
      everything that was submitted. */
  method Finish(tx: Sender, rx: Receiver, carried: nat, emits: nat)
    requires Linked(tx, rx) && carried == |rx.arrived| && emits >= |tx.Pending()|
    modifies tx, tx.repr, rx, rx.rxMsg
    ensures Linked(tx, rx) && tx.submitted == old(tx.submitted)
    ensures rx.taken == old(rx.taken) && rx.taken + rx.rxFifo == tx.submitted
  {
    hide Linked;
    var to, got := carried, [];
    ghost var ms: seq<Msg> := [];
    for k := 0 to emits
      invariant Quiescing(tx, rx, emits - k) && to == |rx.arrived|
      invariant tx.submitted == old(tx.submitted) && rx.taken == old(rx.taken)
      invariant fresh(tx.repr - old(tx.repr)) && fresh({rx.rxMsg} - {old(rx.rxMsg)})
    {
      to, got, ms := Perform(tx, rx, Emit, to);
    }
    to, got, ms := Perform(tx, rx, Carry(|tx.wire|), to);
    to, got, ms := Perform(tx, rx, Receive, to);
    AllRead(tx, rx);
  }

  ghost predicate Quiescing(tx: Sender, rx: Receiver, n: int)
    reads tx, tx.repr, rx, rx.rxMsg
  {
    Linked(tx, rx) && |tx.Pending()| <= n
  }

  lemma AllRead(tx: Sender, rx: Receiver)
    requires Linked(tx, rx) && tx.Pending() == [] && |rx.arrived| == |tx.wire|
    requires rx.taken + rx.rxFifo == Parse(rx.arrived).msgs
    ensures rx.taken + rx.rxFifo == tx.submitted
  {
    StreamOf(tx.submitted, tx.txHeader.pad);
    assert tx.wire + [] == tx.wire && rx.arrived == tx.wire;
  }

  /** The same between a new sender and a new receiver, on hosts of any byte order. */
  method Exchange(sendingHost: Host, receivingHost: Host, from: byte, pad: byte, steps: seq<LinkStep>)
    returns (got: seq<Msg>, queued: seq<Msg>, ghost groups: seq<seq<Msg>>)
    requires forall step | step in steps :: Allowed(step, from)
    ensures |groups| == |steps| && forall k | 0 <= k < |steps| :: Submits(steps[k], groups[k], from)
    ensures got + queued <= Flat(groups)
  {
    hide Allowed, Submits, Flat, Parse, Sender.Conserving, Receiver.Faithful, Receiver.Unparsed;
    var tx := new Sender(sendingHost, from, pad);
    var rx := new Receiver(receivingHost);
    got, groups := Run(tx, rx, steps);
    queued := rx.rxFifo;
  }

  lemma {:induction false} GroupAt(groups: seq<seq<Msg>>, k: nat)
    requires k < |groups|
    ensures var start := |Flat(groups[..k])|;
      start + |groups[k]| <= |Flat(groups)| && Flat(groups)[start..start + |groups[k]|] == groups[k]
  {
    var last := |groups| - 1;
    if k < last {
      GroupAt(groups[..last], k);
      assert groups[..last][..k] == groups[..k];
    }
  }

  /** A file that was submitted arrives: once all is delivered, one stretch of the received messages is
      a transfer whose blocks, joined, are the file. */
  lemma FileArrives(steps: seq<LinkStep>, groups: seq<seq<Msg>>, from: byte, received: seq<Msg>, k: nat)
    requires k < |steps| == |groups| && steps[k].SubmitFile? && Submits(steps[k], groups[k], from)
    requires received == Flat(groups)
    ensures var start := |Flat(groups[..k])|;
      && start + |groups[k]| <= |received|
      && var ms := received[start..start + |groups[k]|];
         IsTransfer(ms, from) && Payloads(BlocksOf(ms)) == steps[k].file.content
  {
    hide BlocksOf, Payloads, Partition;
    GroupAt(groups, k);
    PartitionCovers(BlocksOf(groups[k]), steps[k].file.content);
  }

  lemma WireWellFormed(tx: Sender, to: nat)
    requires tx.Conserving() && to <= |tx.wire|
    ensures WellFormed(tx.wire[..to])
  {
    var all, rest := Frames(tx.submitted, tx.txHeader.pad), Frames(tx.Pending(), tx.txHeader.pad);
    StreamOf(tx.submitted, tx.txHeader.pad);
    SplitStream(all, tx.wire[..to], tx.wire, rest);
    WellFormedAppend(tx.wire[..to], tx.wire[to..] + rest);
  }
}
