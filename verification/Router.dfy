/** The server's bookkeeping of its client connections: a map of connection objects, a bitmap of their
    descriptors, their number, and a bound one above the highest descriptor, all kept to agree. */
module Router {
  import opened FdSet
  import opened ServerConnection

  /** nfds is one more than the highest live descriptor, and 0 when there is none. */
  predicate TopBound(live: set<int>, nfds: int) {
    if live == {} then nfds == 0
    else nfds - 1 in live && forall s | s in live :: s < nfds
  }

  /** The two ways the bound and the live descriptors can stand: in agreement, or with descriptor 0 alone
      live and not covered. */
  predicate Bounded(live: set<int>, nfds: int) {
    TopBound(live, nfds) || (live == {0} && nfds == 0)
  }

  lemma BoundWhen(live: set<int>, nfds: int)
    requires Bounded(live, nfds)
    ensures TopBound(live, nfds) <==> !(live == {0} && nfds == 0)
  {
  }

  lemma BoundAfterCreate(live: set<int>, nfds: int, s: int)
    requires Bounded(live, nfds) && s !in live && 0 <= s
    ensures var nfds' := if s >= nfds then s + 1 else nfds;
      Bounded(live + {s}, nfds') && nfds' != 0
  {
    assert s in live + {s};
  }

  /** What the scan below a descriptor finds: one above the highest live descriptor, leaving 0 out. */
  predicate ScanFinds(live: set<int>, s: int, found: int) {
    && (found == 0 || (0 < found - 1 < s && found - 1 in live))
    && (forall k | 0 < k < s && k in live :: k < found)
  }

  lemma BoundAfterRelease(live: set<int>, nfds: int, s: int, nfds': int)
    requires Bounded(live, nfds) && s in live && (forall k | k in live :: 0 <= k)
    requires if s + 1 == nfds then ScanFinds(live - {s}, s, nfds') else nfds' == nfds
    ensures Bounded(live - {s}, nfds')
    ensures live - {s} == {0} ==> nfds' == 0
  {
    var rest := live - {s};
    if s + 1 == nfds {
      if nfds' == 0 {
        assert forall k | k in rest :: k == 0;
        if rest != {} {
          assert rest == {0};
        }
      } else {
        assert nfds' - 1 in rest;
      }
    } else if live == {0} {
      assert rest == {};
    } else {
      assert nfds - 1 in rest;
    }
  }

  ghost function Scanned(nfds: nat): nat {
    WORD_BITS * (nfds / WORD_BITS + 1)
  }

  /** The words the bound covers hold every live descriptor, so listing them lists all there is. */
  lemma ScanIsWhole(live: set<int>, nfds: int, part: set<int>, bits: set<int>)
    requires Bounded(live, nfds) && 0 <= nfds < SETSIZE && part <= live
    requires forall s | 0 <= s < Scanned(nfds) :: s in bits <==> s in part
    ensures Ascending(bits, Scanned(nfds)) == Ascending(part, SETSIZE)
  {
    AscendingOf(part, bits, Scanned(nfds), SETSIZE);
  }

  datatype Created = Connection(cnx: ServerClientConnection) | Thrown(what: string)

  datatype Flagging = Flagging | OutOfRange

  /** What pselect reports: the descriptors that are readable, writable, in error. */
  datatype Ready = Ready(read: set<int>, write: set<int>, error: set<int>)

  class ServerSocketsRouter {
    var socketMap: map<int, ServerClientConnection>
    var nbClientConnections: int
    var clientsocksNfds: int
    const clientsocksFds: array<Word>
    const selectReadfds: array<Word>
    const selectWritefds: array<Word>
    const selectErrorfds: array<Word>
    const version: string

    ghost predicate Shape() {
      && clientsocksFds.Length == selectReadfds.Length == selectWritefds.Length == selectErrorfds.Length == WORDS
      && clientsocksFds != selectReadfds && clientsocksFds != selectWritefds && clientsocksFds != selectErrorfds
      && selectReadfds != selectWritefds && selectReadfds != selectErrorfds && selectWritefds != selectErrorfds
    }

    ghost function Live(): set<int>
      reads clientsocksFds
    {
      Bits(clientsocksFds[..])
    }

    /** The descriptors flagged as having outgoing data. */
    ghost function Flagged(): set<int>
      reads selectWritefds
    {
      Bits(selectWritefds[..])
    }

    /** Descriptor 0 alone is live and the bound does not cover it. */
    ghost predicate Stranded()
      reads this, clientsocksFds
    {
      Live() == {0} && clientsocksNfds == 0
    }

    /** The map holds each connection under its descriptor, made for the router's version, and their number
        is right. */
    ghost predicate Counted()
      reads `socketMap, `nbClientConnections
    {
      && nbClientConnections == |socketMap|
      && forall s | s in socketMap :: socketMap[s].socketDescr == s && socketMap[s].version == version
    }

    ghost predicate Valid()
      reads this, clientsocksFds
    {
      && Shape()
      && Live() == socketMap.Keys
      && Counted()
      && 0 <= clientsocksNfds < SETSIZE
      && Bounded(Live(), clientsocksNfds)
    }

    /** The bitmaps handed to pselect start with whatever the memory holds. */
    constructor (version: string, readfds: array<Word>, writefds: array<Word>, errorfds: array<Word>)
      requires readfds.Length == writefds.Length == errorfds.Length == WORDS
      requires readfds != writefds && readfds != errorfds && writefds != errorfds
      ensures Valid() && Live() == {} && !Stranded() && this.version == version
      ensures fresh(clientsocksFds)
      ensures selectReadfds == readfds && selectWritefds == writefds && selectErrorfds == errorfds
    {
      this.version := version;
      socketMap, nbClientConnections, clientsocksNfds := map[], 0, 0;
      clientsocksFds := new Word[WORDS](_ => seq(WORD_BITS, _ => false));
      selectReadfds, selectWritefds, selectErrorfds := readfds, writefds, errorfds;
      new;
      Zero(clientsocksFds);
    }

    /** A descriptor already in use is refused and nothing changes. */
    method CreateClientConnection(clientSock: int) returns (r: Created)
      requires Valid() && 0 <= clientSock < SETSIZE - 1
      modifies this, clientsocksFds
      ensures Valid()
      ensures Live() == old(Live()) + {clientSock}
      ensures r.Thrown? <==> clientSock in old(Live())
      ensures r.Thrown? ==> socketMap == old(socketMap) && clientsocksNfds == old(clientsocksNfds)
      ensures r.Connection? ==> socketMap == old(socketMap)[clientSock := r.cnx] && fresh(r.cnx)
      ensures r.Connection? ==> r.cnx.state == Empty && r.cnx.socketDescr == clientSock && r.cnx.version == version
      ensures Stranded() == (old(Stranded()) && clientSock in old(Live()))
    {
      hide Bits, TopBound, Bounded, ServerSocketsRouter.Counted;
      if IsSet(clientsocksFds, clientSock) {
        return Thrown("socket descr already in clientsocks_fds!");
      }
      BoundAfterCreate(Live(), clientsocksNfds, clientSock);
      if clientSock >= clientsocksNfds {
        clientsocksNfds := clientSock + 1;
      }
      SetBit(clientsocksFds, clientSock);
      r := Register(clientSock);
    }

    /** Enter a new connection object in the map. */
    method Register(clientSock: int) returns (r: Created)
      requires clientSock !in socketMap && Counted()
      modifies `socketMap, `nbClientConnections
      ensures r.Connection? && fresh(r.cnx) && r.cnx.state == Empty && Counted()
      ensures r.cnx.socketDescr == clientSock && r.cnx.version == version
      ensures socketMap == old(socketMap)[clientSock := r.cnx]
      ensures socketMap.Keys == old(socketMap.Keys) + {clientSock}
    {
      var newClient := new ServerClientConnection(clientSock, version);
      socketMap := socketMap[clientSock := newClient];
      nbClientConnections := nbClientConnections + 1;
      return Connection(newClient);
    }

    /** The assert of the source, that exactly one entry is erased, is the precondition. Releasing
        strands descriptor 0 exactly when it is the only one left. */
    method ReleaseClientConnection(clientSock: int)
      requires Valid() && clientSock in socketMap
      modifies this, clientsocksFds, selectWritefds
      ensures Valid()
      ensures Live() == old(Live()) - {clientSock}
      ensures socketMap == old(socketMap) - {clientSock}
      ensures Flagged() == old(Flagged()) - {clientSock}
      ensures Stranded() <==> Live() == {0}
    {
      hide Bits, TopBound, Bounded, ScanFinds, ServerSocketsRouter.Counted;
      ghost var before, bound := Live(), clientsocksNfds;
      BitsInRange(clientsocksFds[..]);
      ClearBit(clientsocksFds, clientSock);
      ClearBit(selectWritefds, clientSock);
      if clientSock + 1 == clientsocksNfds {
        Rescan(clientSock);
      }
      BoundAfterRelease(before, bound, clientSock, clientsocksNfds);
      Forget(clientSock);
    }

    /** Erase a connection object from the map. */
    method Forget(clientSock: int)
      requires clientSock in socketMap && Counted()
      modifies `socketMap, `nbClientConnections
      ensures socketMap == old(socketMap) - {clientSock} && Counted()
      ensures socketMap.Keys == old(socketMap.Keys) - {clientSock}
    {
      assert (socketMap - {clientSock}).Keys == socketMap.Keys - {clientSock};
      socketMap := socketMap - {clientSock};
      nbClientConnections := nbClientConnections - 1;
    }

    /** Look for the highest live descriptor below the one that went. */
    method Rescan(clientSock: int)
      requires clientsocksFds.Length == WORDS && 0 <= clientSock < SETSIZE
      modifies `clientsocksNfds
      ensures ScanFinds(Live(), clientSock, clientsocksNfds) && 0 <= clientsocksNfds < SETSIZE
    {
      hide Bits;
      clientsocksNfds := 0;
      var s := clientSock - 1;
      while s > 0
        invariant s < clientSock && clientsocksNfds == 0
        invariant forall k | 0 < k < clientSock && k in Live() :: k <= s
      {
        if IsSet(clientsocksFds, s) {
          clientsocksNfds := s + 1;
          break;
        }
        s := s - 1;
      }
      assert clientsocksNfds == 0 || clientsocksNfds - 1 in Live();
    }

    /** Flag a connection as having data to send; an unknown descriptor is refused. */
    method OutgoingDataForClient(clientSock: int) returns (r: Flagging)
      requires Valid()
      modifies selectWritefds
      ensures Valid()
      ensures r.OutOfRange? <==> clientSock !in Live()
      ensures Flagged() == if clientSock in Live() then old(Flagged()) + {clientSock} else old(Flagged())
    {
      if clientSock !in socketMap {
        return OutOfRange;
      }
      if !IsSet(selectWritefds, clientSock) {
        SetBit(selectWritefds, clientSock);
      }
      return Flagging;
    }

    /** Release every connection that was found dead. */
    method ReleaseDead(dead: seq<int>)
      requires Valid() && Releasable(Live(), dead)
      modifies this, clientsocksFds, selectWritefds
      ensures Valid()
      ensures Live() == old(Live()) - (set s | s in dead)
      ensures Flagged() == old(Flagged()) - (set s | s in dead)
    {
      hide Bits, Bounded;
      for i := 0 to |dead|
        invariant Valid() && Releasable(Live(), dead[i..])
        invariant Without(Live(), dead[i..]) == Without(old(Live()), dead)
        invariant Without(Flagged(), dead[i..]) == Without(old(Flagged()), dead)
      {
        ReleaseClientConnection(dead[i]);
        assert dead[i..][1..] == dead[i + 1..];
      }
      WithoutMembers(old(Live()), dead);
      WithoutMembers(old(Flagged()), dead);
    }

    /** The lists a round serves, after pselect has left only what is ready. Words above the bound keep
        whatever an earlier round left there, and none of it shows. */
    method Poll(ready: Ready) returns (errors: seq<int>, readers: seq<int>, writers: seq<int>)
      requires Valid()
      modifies selectReadfds, selectWritefds, selectErrorfds
      ensures Valid() && Flagged() == old(Flagged()) * ready.write
      ensures errors == Ascending(Live() * ready.error, SETSIZE)
      ensures readers == Ascending(Live() * ready.read, SETSIZE)
      ensures old(Flagged()) <= Live() ==> writers == Ascending(Flagged(), SETSIZE)
      ensures forall s | s in errors + readers :: s in socketMap
      ensures old(Flagged()) <= Live() ==> forall s | s in writers :: s in socketMap
    {
      hide Bits, Bounded, Ascending;
      ghost var live, flagged, nfds := Live(), Flagged(), clientsocksNfds;
      Copy(clientsocksNfds, clientsocksFds, selectReadfds);
      Copy(clientsocksNfds, clientsocksFds, selectErrorfds);
      Narrow(selectReadfds, ready.read);
      Narrow(selectWritefds, ready.write);
      Narrow(selectErrorfds, ready.error);
      var size: int;
      errors, size := ExtractList(clientsocksNfds, selectErrorfds);
      readers, size := ExtractList(clientsocksNfds, selectReadfds);
      writers, size := ExtractList(clientsocksNfds, selectWritefds);
      ScanIsWhole(live, nfds, live * ready.error, Bits(selectErrorfds[..]));
      ScanIsWhole(live, nfds, live * ready.read, Bits(selectReadfds[..]));
      AscendingSorts(live * ready.error, SETSIZE);
      AscendingSorts(live * ready.read, SETSIZE);
      if flagged <= live {
        ScanIsWhole(live, nfds, Flagged(), Flagged());
        AscendingSorts(Flagged(), SETSIZE);
      }
    }
  }

  ghost function Without(fds: set<int>, dead: seq<int>): set<int> {
    if dead == [] then fds else Without(fds - {dead[0]}, dead[1..])
  }

  lemma {:induction false} WithoutMembers(fds: set<int>, dead: seq<int>)
    ensures Without(fds, dead) == fds - set s | s in dead
  {
    if dead != [] {
      WithoutMembers(fds - {dead[0]}, dead[1..]);
      assert dead == [dead[0]] + dead[1..];
    }
  }

  /** Whether releasing a list of descriptors one after the other finds each of them in the map. */
  predicate Releasable(live: set<int>, dead: seq<int>) {
    dead == [] || (dead[0] in live && Releasable(live - {dead[0]}, dead[1..]))
  }

  /** The assert on the number of erased entries holds for a dead list exactly when it lists live
      descriptors and none of them twice. */
  lemma {:induction false} ReleasableWhen(live: set<int>, dead: seq<int>)
    ensures Releasable(live, dead) <==>
      (forall s | s in dead :: s in live) && (forall i, j | 0 <= i < j < |dead| :: dead[i] != dead[j])
  {
    if dead != [] {
      ReleasableWhen(live - {dead[0]}, dead[1..]);
      assert dead == [dead[0]] + dead[1..];
    }
  }

  // ----- runs -----

  datatype Op = Create(s: int) | Release(s: int) | Outgoing(s: int) | Select(ready: Ready)

  predicate Enabled(live: set<int>, op: Op) {
    match op
    case Create(s) => 0 <= s < SETSIZE - 1
    case Release(s) => s in live
    case _ => true
  }

  function LiveAfter(live: set<int>, op: Op): set<int> {
    match op
    case Create(s) => live + {s}
    case Release(s) => live - {s}
    case _ => live
  }

  function FlaggedAfter(live: set<int>, flagged: set<int>, op: Op): set<int> {
    match op
    case Create(_) => flagged
    case Release(s) => flagged - {s}
    case Outgoing(s) => if s in live then flagged + {s} else flagged
    case Select(ready) => flagged * ready.write
  }

  /** Descriptor 0 is stranded by the release of the last other one, until another is created or it is
      released itself. */
  predicate StrandedAfter(live: set<int>, stranded: bool, op: Op) {
    match op
    case Create(s) => stranded && s in live
    case Release(s) => live - {s} == {0}
    case _ => stranded
  }

  predicate AllEnabled(live: set<int>, ops: seq<Op>)
    decreases |ops|
  {
    ops == [] || (Enabled(live, ops[0]) && AllEnabled(LiveAfter(live, ops[0]), ops[1..]))
  }

  /** What the router's books amount to. */
  datatype Books = Books(live: set<int>, flagged: set<int>, stranded: bool)

  function Post(b: Books, op: Op): Books {
    Books(LiveAfter(b.live, op), FlaggedAfter(b.live, b.flagged, op), StrandedAfter(b.live, b.stranded, op))
  }

  function PostAll(b: Books, ops: seq<Op>): Books
    decreases |ops|
  {
    if ops == [] then b else PostAll(Post(b, ops[0]), ops[1..])
  }

  const NO_BOOKS: Books := Books({}, {}, false)

  /** As long as descriptor 0 is never used, the bound is one above the highest live descriptor. */
  lemma {:induction false} NeverStranded(b: Books, ops: seq<Op>)
    requires !b.stranded && 0 !in b.live && Create(0) !in ops
    ensures !PostAll(b, ops).stranded
    decreases |ops|
  {
    if ops != [] {
      NeverStranded(Post(b, ops[0]), ops[1..]);
    }
  }

  // ----- what the books say, by the last thing that happened to a descriptor -----

  /** Descriptor s was created, and not released since. */
  predicate CreatedLast(ops: seq<Op>, s: int) {
    exists k :: 0 <= k < |ops| && ops[k] == Create(s) && Release(s) !in ops[k..]
  }

  /** Nothing in a run takes the flag of s away: no release, and pselect finds it writable each time. */
  predicate StaysFlagged(ops: seq<Op>, s: int) {
    Release(s) !in ops && forall op | op in ops && op.Select? :: s in op.ready.write
  }

  /** Descriptor s was flagged while it was live, and its flag stayed. */
  ghost predicate FlaggedLast(b: Books, ops: seq<Op>, s: int) {
    exists k :: FlagStays(b, ops, k, s)
  }

  predicate FlagStays(b: Books, ops: seq<Op>, k: int, s: int) {
    0 <= k < |ops| && ops[k] == Outgoing(s) && s in PostAll(b, ops[..k]).live && StaysFlagged(ops[k..], s)
  }

  lemma {:induction false} PostLonger(b: Books, ops: seq<Op>, op: Op)
    ensures PostAll(b, ops + [op]) == Post(PostAll(b, ops), op)
    decreases |ops|
  {
    hide Post;
    if ops == [] {
      assert [] + [op] == [op];
    } else {
      assert (ops + [op])[1..] == ops[1..] + [op];
      PostLonger(Post(b, ops[0]), ops[1..], op);
    }
  }

  /** A descriptor is live exactly when it was created and not released since, or live from the start and
      never released. */
  lemma {:induction false} LiveWhen(b: Books, ops: seq<Op>, s: int)
    ensures s in PostAll(b, ops).live <==> CreatedLast(ops, s) || (s in b.live && Release(s) !in ops)
    decreases |ops|
  {
    if ops != [] {
      var n := |ops| - 1;
      var front := ops[..n];
      assert ops == front + [ops[n]];
      PostLonger(b, front, ops[n]);
      LiveWhen(b, front, s);
      CreatedLonger(front, ops[n], s);
    }
  }

  lemma CreatedLonger(ops: seq<Op>, op: Op, s: int)
    ensures CreatedLast(ops + [op], s) <==> op == Create(s) || (CreatedLast(ops, s) && op != Release(s))
  {
    var all := ops + [op];
    if CreatedLast(all, s) {
      var k :| 0 <= k < |all| && all[k] == Create(s) && Release(s) !in all[k..];
      if k < |ops| {
        assert all[k..] == ops[k..] + [op];
      }
    }
    if op == Create(s) {
      assert all[|ops|..] == [op] && all[|ops|] == Create(s);
    } else if CreatedLast(ops, s) && op != Release(s) {
      var k :| 0 <= k < |ops| && ops[k] == Create(s) && Release(s) !in ops[k..];
      assert all[k..] == ops[k..] + [op] && all[k] == Create(s);
    }
  }

  /** A descriptor is flagged exactly when it was flagged while live, or from the start, and its flag stayed. */
  lemma {:induction false} FlaggedWhen(b: Books, ops: seq<Op>, s: int)
    ensures s in PostAll(b, ops).flagged <==> FlaggedLast(b, ops, s) || (s in b.flagged && StaysFlagged(ops, s))
    decreases |ops|
  {
    if ops != [] {
      var n := |ops| - 1;
      var front := ops[..n];
      assert ops == front + [ops[n]];
      PostLonger(b, front, ops[n]);
      hide FlaggedLast, PostAll;
      FlaggedWhen(b, front, s);
      FlaggedLonger(b, front, ops[n], s);
      StaysLonger(front, ops[n], s);
    }
  }

  lemma StaysLonger(ops: seq<Op>, op: Op, s: int)
    ensures StaysFlagged(ops + [op], s) <==> StaysFlagged(ops, s) && StaysFlagged([op], s)
  {
    assert forall o | o in ops + [op] :: o in ops || o in [op];
    assert forall o | o in ops :: o in ops + [op];
    assert op in ops + [op];
  }

  lemma FlaggedLonger(b: Books, ops: seq<Op>, op: Op, s: int)
    ensures FlaggedLast(b, ops + [op], s)
      <==> (op == Outgoing(s) && s in PostAll(b, ops).live) || (FlaggedLast(b, ops, s) && StaysFlagged([op], s))
  {
    hide PostAll, StaysFlagged;
    var all := ops + [op];
    if FlaggedLast(b, all, s) {
      var k :| FlagStays(b, all, k, s);
      FlagShorter(b, ops, op, k, s);
    }
    if op == Outgoing(s) && s in PostAll(b, ops).live {
      assert all[|ops|..] == [op] && all[..|ops|] == ops;
      FlagAlone(s);
      assert FlagStays(b, all, |ops|, s);
    } else if FlaggedLast(b, ops, s) && StaysFlagged([op], s) {
      var k :| FlagStays(b, ops, k, s);
      StaysLonger(ops[k..], op, s);
      assert all[k..] == ops[k..] + [op] && all[..k] == ops[..k];
      assert FlagStays(b, all, k, s);
    }
  }

  lemma FlagShorter(b: Books, ops: seq<Op>, op: Op, k: int, s: int)
    requires FlagStays(b, ops + [op], k, s)
    ensures if k == |ops| then op == Outgoing(s) && s in PostAll(b, ops).live
      else FlagStays(b, ops, k, s) && StaysFlagged([op], s)
  {
    hide PostAll, StaysFlagged;
    var all := ops + [op];
    assert all[..k] == ops[..k];
    if k < |ops| {
      assert all[k..] == ops[k..] + [op];
      StaysLonger(ops[k..], op, s);
    } else {
      assert ops[..k] == ops;
    }
  }

  lemma FlagAlone(s: int)
    ensures StaysFlagged([Outgoing(s)], s)
  {
  }

  /** Descriptor 0 breaks the bound: it stays live, and the bound is 0. */
  lemma StrandedByRelease()
    ensures var ops := [Create(0), Create(5), Release(5)];
      AllEnabled({}, ops) && PostAll(NO_BOOKS, ops) == Books({0}, {}, true)
  {
    var ops := [Create(0), Create(5), Release(5)];
    var b1 := Post(NO_BOOKS, ops[0]);
    var b2 := Post(b1, ops[1]);
    assert b2.live == {0, 5} && b2.live - {5} == {0};
    assert PostAll(b2, ops[2..]) == Books({0}, {}, true);
    assert PostAll(b1, ops[1..]) == PostAll(b2, ops[1..][1..]);
    assert AllEnabled(b2.live, ops[2..]);
    assert AllEnabled(b1.live, ops[1..]);
  }

  /** No flag outlives its connection: whatever is flagged without being live was so at the start. */
  lemma {:induction false} FlagsAreLive(b: Books, ops: seq<Op>)
    ensures PostAll(b, ops).flagged - PostAll(b, ops).live <= b.flagged - b.live
    decreases |ops|
  {
    if ops != [] {
      var c := Post(b, ops[0]);
      assert c.flagged - c.live <= b.flagged - b.live;
      FlagsAreLive(c, ops[1..]);
    }
  }

  ghost function BooksOf(r: ServerSocketsRouter): Books
    reads r, r.clientsocksFds, r.selectWritefds
  {
    Books(r.Live(), r.Flagged(), r.Stranded())
  }

  method Perform(r: ServerSocketsRouter, op: Op)
    requires r.Valid() && Enabled(r.Live(), op)
    modifies r, r.clientsocksFds, r.selectReadfds, r.selectWritefds, r.selectErrorfds
    ensures r.Valid() && BooksOf(r) == Post(old(BooksOf(r)), op)
  {
    match op
    case Create(s) => var created := r.CreateClientConnection(s);
    case Release(s) => r.ReleaseClientConnection(s);
    case Outgoing(s) => var flagging := r.OutgoingDataForClient(s);
    case Select(ready) => var e, i, o := r.Poll(ready);
  }

  /** Over every run from a fresh router: map, bitmap and count agree; the bound is one above the highest
      live descriptor unless descriptor 0 is stranded; and only a flag that was there from the start can
      stand without a connection. */
  method Run(r: ServerSocketsRouter, ops: seq<Op>)
    requires r.Valid() && r.Live() == {} && AllEnabled({}, ops)
    modifies r, r.clientsocksFds, r.selectReadfds, r.selectWritefds, r.selectErrorfds
    ensures r.Valid() && r.socketMap.Keys == r.Live() && r.nbClientConnections == |r.Live()|
    ensures forall s | s in r.socketMap :: r.socketMap[s].socketDescr == s && r.socketMap[s].version == r.version
    ensures BooksOf(r) == PostAll(old(BooksOf(r)), ops)
    ensures TopBound(r.Live(), r.clientsocksNfds) <==> !PostAll(old(BooksOf(r)), ops).stranded
    ensures Create(0) !in ops ==> TopBound(r.Live(), r.clientsocksNfds)
    ensures r.Flagged() - r.Live() <= old(r.Flagged())
  {
    hide Bits, Bounded, TopBound, FlaggedAfter, StrandedAfter;
    ghost var start := BooksOf(r);
    for i := 0 to |ops|
      invariant r.Valid() && AllEnabled(r.Live(), ops[i..])
      invariant PostAll(BooksOf(r), ops[i..]) == PostAll(start, ops)
    {
      Perform(r, ops[i]);
      assert ops[i..][1..] == ops[i + 1..];
    }
    assert ops[|ops|..] == [];
    FlagsAreLive(start, ops);
    BoundWhen(r.Live(), r.clientsocksNfds);
    if Create(0) !in ops {
      NeverStranded(start, ops);
    }
  }
}
