/** Long transfers: a file or a memory area goes out as a descriptor message that carries the first
    bytes, followed by positioned data blocks, all built in one shared message body. */
module Transfer {
  import opened Wire

  // sizes of the header structures on a platform with 8-byte long and size_t
  const FILE_TRANSFER_REQ_HEADER: int := 280
  const DATA_TRANSFER_REQ_HEADER: int := 24
  const DATA_TRANSFER_HEADER: int := 16
  const POSITION_OFFSET: int := 8  // of byte_position in the header of a data block

  const DATA_TRANSFER_REQ: u16 := 14
  const TRANSFER_DATA_BLK: u16 := 15
  const FILE_TRANSFER_REQ: u16 := 16

  /** A message as it stands in the shared body: its id and the length announced for its body. */
  datatype Built = Built(id: u16, length: int)

  /** What one message contributes to the transfer. */
  datatype Block = Block(id: u16, position: u32, payload: seq<byte>)

  function HeaderSize(id: u16): int {
    if id == FILE_TRANSFER_REQ then FILE_TRANSFER_REQ_HEADER
    else if id == DATA_TRANSFER_REQ then DATA_TRANSFER_REQ_HEADER
    else DATA_TRANSFER_HEADER
  }

  function Min(a: int, b: int): int {
    if a <= b then a else b
  }

  /** The block in a message body that carries nb bytes of data. A descriptor has no position field. */
  function BlockIn(body: seq<byte>, id: u16, nb: int): Block
    requires 0 <= nb && POSITION_OFFSET + 4 <= |body| && HeaderSize(id) + nb <= |body|
  {
    Block(id,
          if id == TRANSFER_DATA_BLK then Val32(body[POSITION_OFFSET..POSITION_OFFSET + 4]) else 0,
          body[HeaderSize(id)..HeaderSize(id) + nb])
  }

  /** Store a position in network order into a block header. */
  method PutPosition(msg: array<byte>, host: Host, position: int)
    requires msg.Length == MAX_BODY_SIZE && position >= 0
    modifies msg
    ensures msg[..] == old(msg[..POSITION_OFFSET]) + Be32(position % 0x1_0000_0000) + old(msg[POSITION_OFFSET + 4..])
  {
    hide Be32;
    var v: u32 := position % 0x1_0000_0000;
    var b := Store32(host, NetworkSwap32(host, v));
    NetworkOrder(host, 0, v);
    msg[POSITION_OFFSET], msg[POSITION_OFFSET + 1] := b[0], b[1];
    msg[POSITION_OFFSET + 2], msg[POSITION_OFFSET + 3] := b[2], b[3];
  }

  lemma WholeSlice(msg: array<byte>, lo: int, hi: int)
    requires 0 <= lo <= hi <= msg.Length
    ensures msg[..][lo..hi] == msg[lo..hi]
  {
  }

  lemma SamePosition(msg: array<byte>, header: seq<byte>)
    requires msg.Length >= DATA_TRANSFER_HEADER && header == msg[..DATA_TRANSFER_HEADER]
    ensures msg[POSITION_OFFSET..POSITION_OFFSET + 4] == header[POSITION_OFFSET..POSITION_OFFSET + 4]
  {
  }

  /** The blocks carry data piece by piece, each at the position it announces. */
  ghost predicate Partition(blocks: seq<Block>, data: seq<byte>)
    decreases |blocks|
  {
    if blocks == [] then data == []
    else
      var b, n := blocks[|blocks| - 1], |data| - |blocks[|blocks| - 1].payload|;
      && 0 < |b.payload| && 0 <= n && data[n..] == b.payload && b.position == n % 0x1_0000_0000
      && Partition(blocks[..|blocks| - 1], data[..n])
  }

  ghost function Payloads(blocks: seq<Block>): seq<byte> {
    if blocks == [] then [] else Payloads(blocks[..|blocks| - 1]) + blocks[|blocks| - 1].payload
  }

  /** The payloads of a partition are the data, in order and without gap or overlap. */
  lemma {:induction false} PartitionCovers(blocks: seq<Block>, data: seq<byte>)
    requires Partition(blocks, data)
    ensures Payloads(blocks) == data
  {
    if blocks != [] {
      var last := |blocks| - 1;
      var n := |data| - |blocks[last].payload|;
      PartitionCovers(blocks[..last], data[..n]);
      assert data == data[..n] + data[n..];
    }
  }

  /** Block k announces the position at which the payloads before it end; the position field is a
      32-bit number, so it says that position exactly when it is below 4 GiB. */
  lemma {:induction false} PositionOf(blocks: seq<Block>, data: seq<byte>, k: int)
    requires Partition(blocks, data) && 0 <= k < |blocks|
    ensures var start := |Payloads(blocks[..k])|;
      && start < |data| && blocks[k].position == start % 0x1_0000_0000
      && (blocks[k].position == start <==> start < 0x1_0000_0000)
  {
    var last := |blocks| - 1;
    var n := |data| - |blocks[last].payload|;
    if k < last {
      PositionOf(blocks[..last], data[..n], k);
      assert blocks[..last][..k] == blocks[..k];
    } else {
      PartitionCovers(blocks[..last], data[..n]);
    }
  }

  lemma PartitionEmpty()
    ensures Partition([], [])
  {
  }

  lemma PartitionExtend(blocks: seq<Block>, data: seq<byte>, b: Block)
    requires Partition(blocks, data) && 0 < |b.payload| && b.position == |data| % 0x1_0000_0000
    ensures Partition(blocks + [b], data + b.payload)
  {
    assert (blocks + [b])[..|blocks|] == blocks;
    assert (data + b.payload)[..|data|] == data;
  }

  // ----- the two kinds of transfer -----

  /** A file: its bytes, and how many of them a read delivers at each position. Any answers are possible. */
  datatype File = File(content: seq<byte>, supply: int -> int)

  /** What a read of at most limit bytes returns: any positive number of bytes the file has left. */
  function ReadSize(f: File, position: int, limit: int): (nb: int)
    requires 0 <= position < |f.content| && limit > 0
    ensures 0 < nb <= limit && position + nb <= |f.content|
  {
    var most := Min(limit, |f.content| - position);
    if f.supply(position) < 1 then 1 else Min(f.supply(position), most)
  }

  /** Every answer a read can give is the answer for some file, wherever the read starts. */
  lemma AnyReadIsPossible(content: seq<byte>, position: int, limit: int, nb: int)
    requires 0 <= position < |content| && 0 < nb <= limit && position + nb <= |content|
    ensures ReadSize(File(content, (_: int) => nb), position, limit) == nb
  {
  }

  function IdAt(sent: int): u16 {
    if sent == 0 then FILE_TRANSFER_REQ else TRANSFER_DATA_BLK
  }

  function SizeAt(f: File, sent: int): (nb: int)
    requires 0 <= sent < |f.content|
    ensures 0 < nb && sent + nb <= |f.content| && HeaderSize(IdAt(sent)) + nb <= MAX_BODY_SIZE
  {
    ReadSize(f, sent, MAX_BODY_SIZE - HeaderSize(IdAt(sent)))
  }

  /** Reads that deliver all they are asked for fill each message to the brim, but for the end of the file. */
  lemma FullReads(content: seq<byte>, sent: int)
    requires 0 <= sent < |content|
    ensures var nb := SizeAt(File(content, (_: int) => |content|), sent);
      HeaderSize(IdAt(sent)) + nb == MAX_BODY_SIZE || sent + nb == |content|
  {
  }

  /** The header of the next message in a body: a data block gets its position, the rest is left. */
  function HeaderOf(body: seq<byte>, sent: int): (header: seq<byte>)
    requires |body| == MAX_BODY_SIZE && 0 <= sent
    ensures |header| == HeaderSize(IdAt(sent))
  {
    if sent == 0 then body[..FILE_TRANSFER_REQ_HEADER]
    else body[..POSITION_OFFSET] + Be32(sent % 0x1_0000_0000) + body[POSITION_OFFSET + 4..DATA_TRANSFER_HEADER]
  }

  function BodyAfter(f: File, body: seq<byte>, sent: int): (r: seq<byte>)
    requires |body| == MAX_BODY_SIZE && 0 <= sent < |f.content|
    ensures |r| == MAX_BODY_SIZE
  {
    var nb := SizeAt(f, sent);
    HeaderOf(body, sent) + f.content[sent..sent + nb] + body[HeaderSize(IdAt(sent)) + nb..]
  }

  function MessageAt(f: File, body: seq<byte>, sent: int, from: byte): (m: Msg)
    requires |body| == MAX_BODY_SIZE && 0 <= sent < |f.content|
    ensures Sendable(m) && m.from == from
  {
    Msg(IdAt(sent), from, BodyAfter(f, body, sent)[..HeaderSize(IdAt(sent)) + SizeAt(f, sent)])
  }

  /** The messages a file transfer still has to send, given the message body and the bytes sent so far. */
  ghost function Messages(f: File, body: seq<byte>, sent: int, from: byte): seq<Msg>
    requires |body| == MAX_BODY_SIZE && 0 <= sent
    decreases |f.content| - sent
  {
    if sent >= |f.content| then []
    else [MessageAt(f, body, sent, from)] + Messages(f, BodyAfter(f, body, sent), sent + SizeAt(f, sent), from)
  }

  /** The block a received transfer message carries. */
  function BlockOf(m: Msg): Block
    requires HeaderSize(m.id) <= |m.body|
  {
    BlockIn(m.body, m.id, |m.body| - HeaderSize(m.id))
  }

  /** The messages of one transfer: the descriptor, then data blocks, of one sender. */
  ghost predicate IsTransfer(ms: seq<Msg>, from: byte) {
    && (forall m | m in ms :: Sendable(m) && m.from == from && HeaderSize(m.id) <= |m.body|)
    && (forall k | 0 <= k < |ms| :: ms[k].id == if k == 0 then FILE_TRANSFER_REQ else TRANSFER_DATA_BLK)
  }

  ghost function BlocksOf(ms: seq<Msg>): (blocks: seq<Block>)
    requires forall m | m in ms :: HeaderSize(m.id) <= |m.body|
    ensures |blocks| == |ms|
  {
    seq(|ms|, k requires 0 <= k < |ms| => BlockOf(ms[k]))
  }

  class FileTransferRequest {
    const host: Host
    const file: File
    const l2PayloadLength: int
    const msg: array<byte>       // the shared message body
    var nbPayloadBytesSent: int
    var filePos: int

    constructor (host: Host, file: File)
      ensures Valid() && nbPayloadBytesSent == 0 && this.file == file && fresh(msg)
    {
      this.host, this.file, l2PayloadLength := host, file, |file.content|;
      msg := new byte[MAX_BODY_SIZE];
      nbPayloadBytesSent, filePos := 0, 0;
    }

    ghost predicate Valid()
      reads this
    {
      && msg.Length == MAX_BODY_SIZE && l2PayloadLength == |file.content|
      && 0 <= filePos == nbPayloadBytesSent <= l2PayloadLength
    }

    predicate SomeDataToSend()
      reads this
    {
      l2PayloadLength > nbPayloadBytesSent
    }

    /** The messages still to be sent. */
    ghost function Rest(from: byte): seq<Msg>
      requires Valid()
      reads this, msg
    {
      Messages(file, msg[..], nbPayloadBytesSent, from)
    }

    /** Read some bytes into the body from a place on; the bytes around them are left alone. */
    method FileReadData(to: int, nbBytes: int) returns (nb: int)
      requires Valid() && filePos < |file.content| && 0 <= to && 0 < nbBytes && to + nbBytes <= msg.Length
      modifies `filePos, msg
      ensures nb == ReadSize(file, old(filePos), nbBytes) && filePos == old(filePos) + nb
      ensures msg[..] == old(msg[..to]) + file.content[old(filePos)..filePos] + old(msg[to + nb..])
    {
      nb := ReadSize(file, filePos, nbBytes);
      forall i | 0 <= i < nb {
        msg[to + i] := file.content[filePos + i];
      }
      filePos := filePos + nb;
      assert forall k | 0 <= k < msg.Length ::
               msg[k] == if to <= k < to + nb then file.content[old(filePos) + (k - to)] else old(msg[k]);
    }

    /** Build the next message in the body. With nothing left to send the body is returned as it is,
        and id and length are not touched. */
    method BuildNextL2Msg(before: Built) returns (built: Built)
      requires Valid()
      modifies this, msg
      ensures Valid()
      ensures !old(SomeDataToSend()) ==>
        built == before && msg[..] == old(msg[..]) && nbPayloadBytesSent == old(nbPayloadBytesSent)
      ensures old(SomeDataToSend()) ==>
        var sent := old(nbPayloadBytesSent);
          && nbPayloadBytesSent == sent + SizeAt(file, sent)
          && built == Built(IdAt(sent), HeaderSize(IdAt(sent)) + SizeAt(file, sent))
          && msg[..] == BodyAfter(file, old(msg[..]), sent)
    {
      built := before;
      if SomeDataToSend() {
        if nbPayloadBytesSent == 0 {
          built := BuildDescriptor();
        } else {
          built := BuildBlock();
        }
        assert nbPayloadBytesSent <= l2PayloadLength;
      }
    }

    method BuildDescriptor() returns (built: Built)
      requires Valid() && SomeDataToSend() && nbPayloadBytesSent == 0
      modifies this, msg
      ensures Valid() && nbPayloadBytesSent == SizeAt(file, 0)
      ensures built == Built(FILE_TRANSFER_REQ, FILE_TRANSFER_REQ_HEADER + SizeAt(file, 0))
      ensures msg[..] == BodyAfter(file, old(msg[..]), 0)
    {
      var nb := FileReadData(FILE_TRANSFER_REQ_HEADER, MAX_BODY_SIZE - FILE_TRANSFER_REQ_HEADER);
      nbPayloadBytesSent := nb;
      built := Built(FILE_TRANSFER_REQ, nb + FILE_TRANSFER_REQ_HEADER);
    }

    method BuildBlock() returns (built: Built)
      requires Valid() && SomeDataToSend() && nbPayloadBytesSent > 0
      modifies this, msg
      ensures var sent := old(nbPayloadBytesSent);
        && Valid() && nbPayloadBytesSent == sent + SizeAt(file, sent)
        && built == Built(TRANSFER_DATA_BLK, DATA_TRANSFER_HEADER + SizeAt(file, sent))
        && msg[..] == BodyAfter(file, old(msg[..]), sent)
    {
      hide Be32, ReadSize;
      PutPosition(msg, host, nbPayloadBytesSent);
      assert msg[..DATA_TRANSFER_HEADER] == HeaderOf(old(msg[..]), nbPayloadBytesSent);
      var nb := FileReadData(DATA_TRANSFER_HEADER, MAX_BODY_SIZE - DATA_TRANSFER_HEADER);
      nbPayloadBytesSent := nbPayloadBytesSent + nb;
      built := Built(TRANSFER_DATA_BLK, nb + DATA_TRANSFER_HEADER);
    }
  }

  class MemoryTransferRequest {
    const host: Host
    const source: seq<byte>      // the memory area
    const l2PayloadLength: int
    const msg: array<byte>
    var nbPayloadBytesSent: int

    constructor (host: Host, source: seq<byte>)
      ensures Valid() && nbPayloadBytesSent == 0 && this.source == source && fresh(msg)
    {
      this.host, this.source, l2PayloadLength := host, source, |source|;
      msg := new byte[MAX_BODY_SIZE];
      nbPayloadBytesSent := 0;
    }

    ghost predicate Valid()
      reads this
    {
      && msg.Length == MAX_BODY_SIZE && l2PayloadLength == |source|
      && 0 <= nbPayloadBytesSent <= l2PayloadLength
    }

    predicate SomeDataToSend()
      reads this
    {
      l2PayloadLength > nbPayloadBytesSent
    }

    method CopyPayload(to: int, from: int, nb: int)
      requires Valid() && 0 <= to && 0 <= from && 0 <= nb && to + nb <= msg.Length && from + nb <= |source|
      modifies msg
      ensures msg[to..to + nb] == source[from..from + nb] && msg[..to] == old(msg[..to])
    {
      forall i | 0 <= i < nb {
        msg[to + i] := source[from + i];
      }
      assert forall k :: to <= k < to + nb ==> msg[k] == source[from + (k - to)];
    }

    /** Number of bytes the next message can take when its body has room for that many. */
    method NextSize(room: int) returns (nb: int)
      requires Valid() && room > 0
      ensures nb == Min(l2PayloadLength - nbPayloadBytesSent, room)
    {
      nb := l2PayloadLength - nbPayloadBytesSent;
      if nb > room {
        nb := room;
      }
    }

    /** The descriptor announces its length with the header size of a file descriptor. */
    method BuildNextL2Msg(before: Built) returns (built: Built)
      requires Valid()
      modifies this, msg
      ensures Valid()
      ensures !old(SomeDataToSend()) ==>
        built == before && msg[..] == old(msg[..]) && nbPayloadBytesSent == old(nbPayloadBytesSent)
      ensures old(SomeDataToSend()) ==>
        var sent := old(nbPayloadBytesSent);
        var id := if sent == 0 then DATA_TRANSFER_REQ else TRANSFER_DATA_BLK;
        var nb := Min(l2PayloadLength - sent, MAX_BODY_SIZE - HeaderSize(id));
          && nbPayloadBytesSent == sent + nb
          && built == Built(id, nb + if sent == 0 then FILE_TRANSFER_REQ_HEADER else DATA_TRANSFER_HEADER)
          && BlockIn(msg[..], id, nb) == Block(id, sent % 0x1_0000_0000, source[sent..sent + nb])
    {
      built := before;
      if SomeDataToSend() {
        built := BuildBlock();
        assert nbPayloadBytesSent <= l2PayloadLength;
      }
    }

    method BuildBlock() returns (built: Built)
      requires Valid() && SomeDataToSend()
      modifies this, msg
      ensures Valid()
      ensures var sent := old(nbPayloadBytesSent);
        var id := if sent == 0 then DATA_TRANSFER_REQ else TRANSFER_DATA_BLK;
        var nb := Min(l2PayloadLength - sent, MAX_BODY_SIZE - HeaderSize(id));
          && nbPayloadBytesSent == sent + nb
          && built == Built(id, nb + if sent == 0 then FILE_TRANSFER_REQ_HEADER else DATA_TRANSFER_HEADER)
          && BlockIn(msg[..], id, nb) == Block(id, sent % 0x1_0000_0000, source[sent..sent + nb])
    {
      hide Val32, Be32;
      if nbPayloadBytesSent == 0 {
        var nb := NextSize(MAX_BODY_SIZE - DATA_TRANSFER_REQ_HEADER);
        CopyPayload(DATA_TRANSFER_REQ_HEADER, 0, nb);
        nbPayloadBytesSent := nb;
        built := Built(DATA_TRANSFER_REQ, nb + FILE_TRANSFER_REQ_HEADER);
        WholeSlice(msg, DATA_TRANSFER_REQ_HEADER, DATA_TRANSFER_REQ_HEADER + nb);
      } else {
        PutPosition(msg, host, nbPayloadBytesSent);
        assert msg[POSITION_OFFSET..POSITION_OFFSET + 4] == Be32(nbPayloadBytesSent % 0x1_0000_0000) by {
          WholeSlice(msg, POSITION_OFFSET, POSITION_OFFSET + 4);
        }
        Digits(nbPayloadBytesSent % 0x1_0000_0000);
        ghost var header := msg[..DATA_TRANSFER_HEADER];
        SamePosition(msg, header);
        var nb := NextSize(MAX_BODY_SIZE - DATA_TRANSFER_HEADER);
        CopyPayload(DATA_TRANSFER_HEADER, nbPayloadBytesSent, nb);
        nbPayloadBytesSent := nbPayloadBytesSent + nb;
        built := Built(TRANSFER_DATA_BLK, nb + DATA_TRANSFER_HEADER);
        SamePosition(msg, header);
        WholeSlice(msg, POSITION_OFFSET, POSITION_OFFSET + 4);
        WholeSlice(msg, DATA_TRANSFER_HEADER, DATA_TRANSFER_HEADER + nb);
      }
    }
  }

  // ----- whole transfers -----

  lemma BlockOfMessage(f: File, body: seq<byte>, sent: int, from: byte)
    requires |body| == MAX_BODY_SIZE && 0 <= sent < |f.content|
    ensures var m := MessageAt(f, body, sent, from);
      && m.id == IdAt(sent) && HeaderSize(m.id) <= |m.body|
      && BlockOf(m) == Block(IdAt(sent), sent % 0x1_0000_0000, f.content[sent..sent + SizeAt(f, sent)])
  {
    hide Be32, Val32, SizeAt;
    var m, header, nb := MessageAt(f, body, sent, from), HeaderOf(body, sent), SizeAt(f, sent);
    var data := f.content[sent..sent + nb];
    assert m.body == header + data;
    BlockParts(header, data);
    if sent > 0 {
      PositionIn(body, sent);
    }
  }

  lemma BlockParts(header: seq<byte>, data: seq<byte>)
    ensures (header + data)[|header|..] == data
    ensures |header| >= POSITION_OFFSET + 4 ==>
      (header + data)[POSITION_OFFSET..POSITION_OFFSET + 4] == header[POSITION_OFFSET..POSITION_OFFSET + 4]
  {
  }

  lemma PositionIn(body: seq<byte>, sent: int)
    requires |body| == MAX_BODY_SIZE && 0 < sent
    ensures Val32(HeaderOf(body, sent)[POSITION_OFFSET..POSITION_OFFSET + 4]) == sent % 0x1_0000_0000
  {
    hide Be32, Val32;
    Digits(sent % 0x1_0000_0000);
    assert HeaderOf(body, sent)[POSITION_OFFSET..POSITION_OFFSET + 4] == Be32(sent % 0x1_0000_0000);
  }

  lemma BlocksExtend(ms: seq<Msg>, m: Msg, from: byte)
    requires IsTransfer(ms, from) && Sendable(m) && m.from == from && HeaderSize(m.id) <= |m.body|
    requires m.id == if ms == [] then FILE_TRANSFER_REQ else TRANSFER_DATA_BLK
    ensures IsTransfer(ms + [m], from) && BlocksOf(ms + [m]) == BlocksOf(ms) + [BlockOf(m)]
  {
  }

  lemma {:induction false} MessagesPartition(f: File, body: seq<byte>, sent: int, from: byte, ms: seq<Msg>)
    requires |body| == MAX_BODY_SIZE && 0 <= sent <= |f.content| && (sent == 0 <==> ms == [])
    requires IsTransfer(ms, from) && Partition(BlocksOf(ms), f.content[..sent])
    ensures var all := ms + Messages(f, body, sent, from);
      IsTransfer(all, from) && Partition(BlocksOf(all), f.content)
    decreases |f.content| - sent
  {
    hide Partition, IsTransfer, BlocksOf, BodyAfter, MessageAt, BlockOf;
    if sent == |f.content| {
      assert ms + [] == ms && f.content[..sent] == f.content;
    } else {
      var m, next := MessageAt(f, body, sent, from), sent + SizeAt(f, sent);
      BlockOfMessage(f, body, sent, from);
      BlocksExtend(ms, m, from);
      PartitionExtend(BlocksOf(ms), f.content[..sent], BlockOf(m));
      assert f.content[..sent] + f.content[sent..next] == f.content[..next];
      MessagesPartition(f, BodyAfter(f, body, sent), next, from, ms + [m]);
      Regroup(ms, [m], Messages(f, BodyAfter(f, body, sent), next, from));
    }
  }

  /** However short the reads of a file fall, its messages carry blocks that partition it, one descriptor
      first, and each message fits. */
  lemma TransferCovers(f: File, body: seq<byte>, from: byte)
    requires |body| == MAX_BODY_SIZE
    ensures var ms := Messages(f, body, 0, from);
      IsTransfer(ms, from) && Partition(BlocksOf(ms), f.content)
  {
    assert BlocksOf([]) == [] && f.content[..0] == [];
    PartitionEmpty();
    MessagesPartition(f, body, 0, from, []);
    assert [] + Messages(f, body, 0, from) == Messages(f, body, 0, from);
  }

  /** The rest of a transfer is its next message and the rest after that. */
  lemma RestIs(t: FileTransferRequest, from: byte)
    requires t.Valid()
    ensures t.Rest(from) == Messages(t.file, t.msg[..], t.nbPayloadBytesSent, from)
    ensures t.Rest(from) ==
      if !t.SomeDataToSend() then []
      else
        var sent := t.nbPayloadBytesSent;
        [MessageAt(t.file, t.msg[..], sent, from)]
        + Messages(t.file, BodyAfter(t.file, t.msg[..], sent), sent + SizeAt(t.file, sent), from)
  {
  }

  lemma SendableFirst(m: Msg, ms: seq<Msg>)
    requires Sendable(m) && AllSendable(ms)
    ensures AllSendable([m] + ms)
  {
  }

  lemma {:induction false} MessagesSendable(f: File, body: seq<byte>, sent: int, from: byte)
    requires |body| == MAX_BODY_SIZE && 0 <= sent
    ensures AllSendable(Messages(f, body, sent, from))
    decreases |f.content| - sent
  {
    hide BodyAfter, SizeAt, MessageAt, Sendable, AllSendable;
    if sent < |f.content| {
      var next, later := BodyAfter(f, body, sent), sent + SizeAt(f, sent);
      MessagesSendable(f, next, later, from);
      SendableFirst(MessageAt(f, body, sent, from), Messages(f, next, later, from));
    } else {
      NothingSendable();
    }
  }

  lemma NothingSendable()
    ensures AllSendable([])
  {
  }

  /** Building a message takes it off the rest of the transfer. */
  method NextMessage(t: FileTransferRequest, from: byte) returns (built: Built, ghost m: Msg)
    requires t.Valid() && t.SomeDataToSend()
    modifies t, t.msg
    ensures t.Valid() && t.nbPayloadBytesSent > old(t.nbPayloadBytesSent)
    ensures old(t.Rest(from)) == [m] + t.Rest(from)
    ensures Sendable(m) && m.from == from && m.id == built.id
    ensures |m.body| == built.length <= MAX_BODY_SIZE && t.msg[..][..built.length] == m.body
  {
    hide BodyAfter, FileTransferRequest.Rest, Messages;
    RestIs(t, from);
    m := MessageAt(t.file, t.msg[..], t.nbPayloadBytesSent, from);
    built := t.BuildNextL2Msg(Built(0, 0));
    RestIs(t, from);
  }

  /** Build all the messages of a file transfer. */
  method SendFile(t: FileTransferRequest, from: byte) returns (ms: seq<Msg>)
    requires t.Valid() && t.nbPayloadBytesSent == 0
    modifies t, t.msg
    ensures ms == old(t.Rest(from)) && IsTransfer(ms, from) && Partition(BlocksOf(ms), t.file.content)
  {
    hide IsTransfer, Partition, BlocksOf, BodyAfter, FileTransferRequest.Rest;
    ghost var all := t.Rest(from);
    RestIs(t, from);
    TransferCovers(t.file, t.msg[..], from);
    ms := [];
    while t.SomeDataToSend()
      invariant t.Valid() && ms + t.Rest(from) == all
      decreases t.l2PayloadLength - t.nbPayloadBytesSent
    {
      ghost var before := ms;
      var built, m := NextMessage(t, from);
      ms := ms + [Msg(built.id, from, t.msg[..][..built.length])];
      Regroup(before, [m], t.Rest(from));
    }
    RestIs(t, from);
    assert ms + [] == ms;
  }

  const P0: int := MAX_BODY_SIZE - DATA_TRANSFER_REQ_HEADER
  const P1: int := MAX_BODY_SIZE - DATA_TRANSFER_HEADER

  /** One descriptor message, then as many full blocks as the rest needs. */
  function MessageCount(length: int): int {
    if length <= 0 then 0 else 1 + CeilDiv(if length > P0 then length - P0 else 0, P1)
  }

  function CeilDiv(a: int, b: int): int
    requires b > 0
  {
    (a + b - 1) / b
  }

  /** Bytes sent with the first n messages, each as full as it can be. */
  function SentWith(length: int, n: nat): int {
    if n == 0 then 0 else Min(length, P0 + (n - 1) * P1)
  }

  lemma OneMore(length: int, n: nat)
    requires SentWith(length, n) < length
    ensures SentWith(length, n + 1) ==
      SentWith(length, n) + Min(length - SentWith(length, n), if n == 0 then P0 else P1)
    ensures 0 <= SentWith(length, n) && (SentWith(length, n) == 0 <==> n == 0)
  {
  }

  /** As many messages as it takes, and no more. */
  lemma CountIs(length: nat, n: nat)
    requires SentWith(length, n) == length && (n > 0 ==> SentWith(length, n - 1) < length)
    ensures n == MessageCount(length)
  {
    if n > 0 {
      var more := if length > P0 then length - P0 else 0;
      assert (n - 1) * P1 <= more + P1 - 1 < n * P1;
    }
  }

  /** One more message of a memory transfer: its block goes on where those before end. */
  method NextBlock(t: MemoryTransferRequest, ghost blocks: seq<Block>) returns (built: Built, b: Block)
    requires t.Valid() && t.SomeDataToSend() && Partition(blocks, t.source[..t.nbPayloadBytesSent])
    modifies t, t.msg
    ensures t.Valid() && Partition(blocks + [b], t.source[..t.nbPayloadBytesSent])
    ensures var sent := old(t.nbPayloadBytesSent);
      && t.nbPayloadBytesSent == sent + Min(|t.source| - sent, if sent == 0 then P0 else P1)
      && built.length == t.nbPayloadBytesSent - sent
           + if sent == 0 then FILE_TRANSFER_REQ_HEADER else DATA_TRANSFER_HEADER
  {
    hide Partition, BlockIn;
    var sent := t.nbPayloadBytesSent;
    built := t.BuildNextL2Msg(Built(0, 0));
    b := BlockIn(t.msg[..], built.id, t.nbPayloadBytesSent - sent);
    PartitionExtend(blocks, t.source[..sent], b);
    assert t.source[..sent] + b.payload == t.source[..t.nbPayloadBytesSent];
  }

  method SendMemory(t: MemoryTransferRequest) returns (blocks: seq<Block>, fits: bool)
    requires t.Valid() && t.nbPayloadBytesSent == 0
    modifies t, t.msg
    ensures Partition(blocks, t.source) && |blocks| == MessageCount(|t.source|)
    ensures fits <==> |t.source| <= MAX_BODY_SIZE - FILE_TRANSFER_REQ_HEADER
  {
    hide Partition, BlockIn, SentWith, MessageCount;
    blocks, fits := [], true;
    PartitionEmpty();
    SentAtStart(|t.source|);
    assert t.source[..0] == [];
    while t.SomeDataToSend()
      invariant t.Valid() && Partition(blocks, t.source[..t.nbPayloadBytesSent])
      invariant t.nbPayloadBytesSent == SentWith(|t.source|, |blocks|)
      invariant blocks != [] ==> SentWith(|t.source|, |blocks| - 1) < |t.source|
      invariant fits <==> blocks == [] || |t.source| <= MAX_BODY_SIZE - FILE_TRANSFER_REQ_HEADER
      decreases t.l2PayloadLength - t.nbPayloadBytesSent
    {
      OneMore(|t.source|, |blocks|);
      var built, b := NextBlock(t, blocks);
      blocks := blocks + [b];
      fits := fits && built.length <= MAX_BODY_SIZE;
    }
    assert t.source[..t.nbPayloadBytesSent] == t.source;
    CountIs(|t.source|, |blocks|);
  }

  lemma SentAtStart(length: nat)
    ensures SentWith(length, 0) == 0
  {
  }
}
