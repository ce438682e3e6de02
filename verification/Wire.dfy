/** The byte stream between client and server: numbers in network order, length-prefixed frames,
    and what a stream of frames means to a reader that has seen only part of it. */
module Wire {

  datatype Option<T> = None | Some(value: T)

  type byte = x: int | 0 <= x < 256
  type u16 = x: int | 0 <= x < 0x1_0000
  type u32 = x: int | 0 <= x < 0x1_0000_0000

  const HEADER_SIZE: int := 8
  const MAX_BODY_SIZE: int := 1024 * 8
  const MESSAGE_SIZE: int := HEADER_SIZE + MAX_BODY_SIZE

  // ----- numbers in memory and on the wire -----

  /** The byte order of the host a program runs on. */
  datatype Host = LittleEndian | BigEndian

  /** The bytes of v, most significant first. */
  function Be16(v: u16): (r: seq<byte>)
    ensures |r| == 2
  {
    [v / 0x100, v % 0x100]
  }

  function Be32(v: u32): (r: seq<byte>)
    ensures |r| == 4
  {
    [v / 0x100_0000, v / 0x1_0000 % 0x100, v / 0x100 % 0x100, v % 0x100]
  }

  function Val16(s: seq<byte>): u16
    requires |s| == 2
  {
    s[0] as int * 0x100 + s[1]
  }

  function Val32(s: seq<byte>): u32
    requires |s| == 4
  {
    s[0] as int * 0x100_0000 + s[1] as int * 0x1_0000 + s[2] as int * 0x100 + s[3]
  }

  /** How the host lays out a number in memory, and reads one back. */
  function Store16(host: Host, v: u16): seq<byte> {
    if host.BigEndian? then Be16(v) else [Be16(v)[1], Be16(v)[0]]
  }

  function Load16(host: Host, s: seq<byte>): u16
    requires |s| == 2
  {
    if host.BigEndian? then Val16(s) else Val16([s[1], s[0]])
  }

  function Store32(host: Host, v: u32): seq<byte> {
    var b := Be32(v);
    if host.BigEndian? then b else [b[3], b[2], b[1], b[0]]
  }

  function Load32(host: Host, s: seq<byte>): u32
    requires |s| == 4
  {
    if host.BigEndian? then Val32(s) else Val32([s[3], s[2], s[1], s[0]])
  }

  /** htons and ntohs, htonl and ntohl: the identity or a byte swap, by host. */
  function NetworkSwap16(host: Host, v: u16): u16 {
    if host.BigEndian? then v else v % 0x100 * 0x100 + v / 0x100
  }

  function NetworkSwap32(host: Host, v: u32): u32 {
    if host.BigEndian? then v
    else v % 0x100 * 0x100_0000 + v / 0x100 % 0x100 * 0x1_0000 + v / 0x1_0000 % 0x100 * 0x100 + v / 0x100_0000
  }

  /** Byte strings compared at their first difference. */
  ghost predicate Precedes(a: seq<byte>, b: seq<byte>) {
    exists k :: 0 <= k < |a| && k < |b| && a[..k] == b[..k] && a[k] < b[k]
  }

  /** The most significant byte goes first: the order of numbers is the order of their bytes. */
  lemma ByteOrder16(v: u16, w: u16)
    ensures v < w <==> Precedes(Be16(v), Be16(w))
  {
    HostOrder(BigEndian, v, 0);
    HostOrder(BigEndian, w, 0);
    if v < w {
      var k := if v / 0x100 < w / 0x100 then 0 else 1;
      assert Be16(v)[..k] == Be16(w)[..k] && Be16(v)[k] < Be16(w)[k];
    } else {
      forall k | 0 <= k < 2 && Be16(v)[..k] == Be16(w)[..k] ensures Be16(v)[k] >= Be16(w)[k] {
        assert k == 1 ==> Be16(v)[0] == Be16(v)[..k][0] == Be16(w)[..k][0] == Be16(w)[0];
      }
    }
  }

  lemma FirstDifference(v: u32, w: u32) returns (k: nat)
    requires v < w
    ensures k < 4 && Be32(v)[..k] == Be32(w)[..k] && Be32(v)[k] < Be32(w)[k]
  {
    var a, b := Be32(v), Be32(w);
    Digits(v);
    Digits(w);
    k := if a[0] != b[0] then 0 else if a[1] != b[1] then 1 else if a[2] != b[2] then 2 else 3;
    hide Be32;
    assert a[..k] == b[..k];
  }

  lemma OneDifference(a: seq<byte>, b: seq<byte>, k: nat, n: nat)
    requires |a| == |b| && k < |a| && n < |a|
    requires a[..k] == b[..k] && a[k] < b[k] && a[..n] == b[..n]
    ensures a[n] <= b[n]
  {
    if k < n {
      PrefixAgrees(a, b, n, k);
    } else if n < k {
      PrefixAgrees(a, b, k, n);
    }
  }

  lemma PrefixAgrees(a: seq<byte>, b: seq<byte>, n: nat, k: nat)
    requires k < n <= |a| && n <= |b| && a[..n] == b[..n]
    ensures a[k] == b[k]
  {
    assert a[k] == a[..n][k] == b[..n][k];
  }

  lemma ByteOrder32(v: u32, w: u32)
    ensures v < w <==> Precedes(Be32(v), Be32(w))
  {
    if v < w {
      var k := FirstDifference(v, w);
    } else if w < v {
      hide Be32;
      var k := FirstDifference(w, v);
      forall n: nat | n < 4 && Be32(v)[..n] == Be32(w)[..n] ensures Be32(v)[n] >= Be32(w)[n] {
        OneDifference(Be32(w), Be32(v), k, n);
      }
    }
  }

  /** A little-endian host lays a number out least significant byte first, the other way round than a
      big-endian one; each reads back what it stored. */
  lemma HostLayout(v: u16, w: u32)
    ensures forall k | 0 <= k < 2 :: Store16(LittleEndian, v)[k] == Store16(BigEndian, v)[1 - k]
    ensures forall k | 0 <= k < 4 :: Store32(LittleEndian, w)[k] == Store32(BigEndian, w)[3 - k]
    ensures Store16(LittleEndian, v)[0] == v % 0x100 && Store32(LittleEndian, w)[0] == w % 0x100
    ensures forall host :: Load16(host, Store16(host, v)) == v && Load32(host, Store32(host, w)) == w
  {
    Digits(w);
    HostOrder(BigEndian, v, w);
  }

  /** A converted number lies in memory most significant byte first, on either kind of host. */
  lemma NetworkOrder(host: Host, v: u16, w: u32)
    ensures Store16(host, NetworkSwap16(host, v)) == Be16(v)
    ensures Store32(host, NetworkSwap32(host, w)) == Be32(w)
  {
    Digits(w);
    if host.LittleEndian? {
      var b := Be32(w);
      Digits(Val32([b[3], b[2], b[1], b[0]]));
      FromDigits(b[3], b[2], b[1], b[0]);
    }
  }

  lemma Digits(w: u32)
    ensures Val32(Be32(w)) == w
  {
    var q := w / 0x100;
    var p := q / 0x100;
    assert w / 0x1_0000 == p && w / 0x100_0000 == p / 0x100;
  }

  lemma FromDigits(a: byte, b: byte, c: byte, d: byte)
    ensures Be32(Val32([a, b, c, d])) == [a, b, c, d]
  {
    var w := Val32([a, b, c, d]);
    var q, p := a as int * 0x1_0000 + b as int * 0x100 + c, a as int * 0x100 + b;
    assert w / 0x100 == q && q / 0x100 == p;
    assert w / 0x1_0000 == p && w / 0x100_0000 == a;
  }

  /** Loading what the network delivered and converting it gives the sender's number back. */
  lemma HostOrder(host: Host, v: u16, w: u32)
    ensures NetworkSwap16(host, Load16(host, Be16(v))) == v
    ensures NetworkSwap32(host, Load32(host, Be32(w))) == w
    ensures Val16(Be16(v)) == v && Val32(Be32(w)) == w
  {
    Digits(w);
    if host.LittleEndian? {
      var b := Be32(w);
      FromDigits(b[3], b[2], b[1], b[0]);
      assert Load32(host, b) == Val32([b[3], b[2], b[1], b[0]]);
    }
  }

  // ----- frames -----

  datatype Msg = Msg(id: u16, from: byte, body: seq<byte>)

  /** What fits a message. */
  predicate Sendable(m: Msg) {
    0 < |m.body| <= MAX_BODY_SIZE
  }

  /** One frame: total length, id, direction, a padding byte nobody reads, body. */
  function Frame(m: Msg, pad: byte): seq<byte>
    requires Sendable(m)
  {
    Be32(HEADER_SIZE + |m.body|) + Be16(m.id) + [m.from, pad] + m.body
  }

  predicate AllSendable(ms: seq<Msg>) {
    forall m | m in ms :: Sendable(m)
  }

  function Frames(ms: seq<Msg>, pad: byte): seq<byte>
    requires AllSendable(ms)
  {
    if ms == [] then [] else Frame(ms[0], pad) + Frames(ms[1..], pad)
  }

  // ----- reading a stream -----

  /** The message a complete frame carries. */
  function Decode(f: seq<byte>): Msg
    requires |f| >= HEADER_SIZE
  {
    Msg(Val16(f[4..6]), f[6], f[HEADER_SIZE..])
  }

  datatype Parsed = Parsed(msgs: seq<Msg>, rest: seq<byte>)

  /** All complete frames at the front of s, and what is left over. */
  function Parse(s: seq<byte>): Parsed
    decreases |s|
  {
    if |s| < 4 then Parsed([], s)
    else
      var n := Val32(s[..4]);
      if n < HEADER_SIZE || |s| < n then Parsed([], s)
      else
        var p := Parse(s[n..]);
        Parsed([Decode(s[..n])] + p.msgs, p.rest)
  }

  predicate ValidLength(n: int) {
    HEADER_SIZE <= n <= MESSAGE_SIZE
  }

  /** Every length field of the stream is one a message buffer can hold. */
  predicate WellFormed(s: seq<byte>)
    decreases |s|
  {
    |s| < 4
    || var n := Val32(s[..4]);
       ValidLength(n) && (|s| < n || WellFormed(s[n..]))
  }

  /** Reading in two goes gives what reading in one go gives. */
  lemma {:induction false} ParseAppend(a: seq<byte>, b: seq<byte>)
    ensures var p := Parse(a); var q := Parse(p.rest + b);
      Parse(a + b) == Parsed(p.msgs + q.msgs, q.rest)
    decreases |a|
  {
    hide Val32, Decode;
    if |a| >= 4 {
      var n := Val32(a[..4]);
      assert (a + b)[..4] == a[..4];
      if HEADER_SIZE <= n <= |a| {
        assert (a + b)[n..] == a[n..] + b && (a + b)[..n] == a[..n];
        ParseAppend(a[n..], b);
      }
    }
  }

  lemma {:induction false} WellFormedAppend(a: seq<byte>, b: seq<byte>)
    requires WellFormed(a + b)
    ensures WellFormed(a) && WellFormed(Parse(a).rest + b)
    decreases |a|
  {
    if |a| >= 4 {
      var n := Val32(a[..4]);
      assert (a + b)[..4] == a[..4];
      if HEADER_SIZE <= n <= |a| {
        assert (a + b)[n..] == a[n..] + b;
        WellFormedAppend(a[n..], b);
      }
    }
  }

  lemma {:induction false} WellFormedTogether(u: seq<byte>, b: seq<byte>)
    requires WellFormed(u) && WellFormed(Parse(u).rest + b)
    ensures WellFormed(u + b)
    decreases |u|
  {
    if |u| >= 4 {
      var n := Val32(u[..4]);
      assert (u + b)[..4] == u[..4];
      if |u| >= n {
        assert (u + b)[n..] == u[n..] + b;
        WellFormedTogether(u[n..], b);
      }
    }
  }

  /** Nothing more can be read from what is left over. */
  lemma {:induction false} RestIsPartial(s: seq<byte>)
    requires WellFormed(s)
    ensures var r := Parse(s).rest;
      WellFormed(r) && Parse(r) == Parsed([], r) && (|r| < 4 || (ValidLength(Val32(r[..4])) && |r| < Val32(r[..4])))
    decreases |s|
  {
    if |s| >= 4 {
      var n := Val32(s[..4]);
      if |s| >= n {
        RestIsPartial(s[n..]);
      }
    }
  }

  lemma FrameFirst(m: Msg, pad: byte, t: seq<byte>)
    requires Sendable(m)
    ensures Parse(Frame(m, pad) + t) == Parsed([m] + Parse(t).msgs, Parse(t).rest)
    ensures WellFormed(t) ==> WellFormed(Frame(m, pad) + t)
  {
    var f := Frame(m, pad);
    var n := HEADER_SIZE + |m.body|;
    HostOrder(BigEndian, m.id, n);
    assert (f + t)[..4] == Be32(n) && |f| == n;
    assert (f + t)[..n] == f && (f + t)[n..] == t;
    assert f[4..6] == Be16(m.id) && f[6] == m.from && f[HEADER_SIZE..] == m.body;
  }

  /** How a frame is laid out: its first four bytes, most significant first, are the length of all of it;
      the id, the direction and a padding byte follow, and the body from the eighth byte on. */
  lemma FrameLayout(m: Msg, pad: byte)
    requires Sendable(m)
    ensures var f := Frame(m, pad);
      && Val32(f[..4]) == |f| == 8 + |m.body|
      && Val16(f[4..6]) == m.id && f[6] == m.from && f[7] == pad && f[8..] == m.body
  {
    HostOrder(BigEndian, m.id, HEADER_SIZE + |m.body|);
  }

  /** Reading a concatenation of frames gives the messages back, in order, and leaves nothing over. */
  lemma {:induction false} FramesRoundTrip(ms: seq<Msg>, pad: byte, t: seq<byte>)
    requires AllSendable(ms)
    ensures Parse(Frames(ms, pad) + t) == Parsed(ms + Parse(t).msgs, Parse(t).rest)
    ensures WellFormed(t) ==> WellFormed(Frames(ms, pad) + t)
  {
    var q := Parse(t).msgs;
    if ms == [] {
      assert [] + t == t && [] + q == q;
    } else {
      hide Frame, Parse, WellFormed, Sendable;
      var f, u := Frame(ms[0], pad), Frames(ms[1..], pad);
      FramesRoundTrip(ms[1..], pad, t);
      FrameFirst(ms[0], pad, u + t);
      Regroup(f, u, t);
      Regroup([ms[0]], ms[1..], q);
      assert ms == [ms[0]] + ms[1..];
    }
  }

  lemma Regroup<T>(a: seq<T>, b: seq<T>, c: seq<T>)
    ensures (a + b) + c == a + (b + c)
  {
  }
}
