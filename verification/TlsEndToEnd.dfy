/** The two ends of a TLS-obfuscated connection as objects: what one end's calls put on the wire, the
    other end's calls take off it. */
module TlsEndToEnd {
  import opened Options
  import opened Bytes
  import opened TlsParser
  import opened TlsRecords
  import opened TlsTunnel

  /** Any writes of a new server connection, whose peer has sent a hello that the decoder accepts: the
      client's automaton reads all that was sent without an error, and its payload is the writes, of
      which only the first non-empty one may be cut, to 16384 bytes. */
  method ServerWrites(c: ServerConn, writes: seq<seq<byte>>, ghost n: nat)
    requires c.State() == ServerState(false, [], [], c.inbound) && c.outbound == [] && |c.serverHello| == 91
    requires |c.inbound| >= 5 && n == c.inbound[3] as int * 256 + c.inbound[4] as int && |c.inbound| >= 5 + n
    requires c.inbound[0] == 0x16 && c.decode(c.inbound[5..5 + n]).Hello?
    modifies c
    ensures Run(INITIAL, c.outbound).status == Running && Run(INITIAL, c.outbound).payload == Accepted(writes)
    ensures (forall w <- writes :: |w| <= 16384) ==> Run(INITIAL, c.outbound).payload == Flatten(writes)
    ensures (exists w <- writes :: w != []) ==> |c.outbound| > 102 && c.outbound[..5] == [0x16, 3, 1, 0, 91]
  {
    ghost var prelude := Prelude(c.serverHello);
    ServerToClient(c.serverHello, writes);
    AcceptedIsEverything(writes);
    SmallWritesFit(writes);
    StreamStarts(prelude, writes);
    PreludeInBytes(c.serverHello);
    hide Run, Stream, Accepted, FirstWriteFits, Flatten, Prelude;
    SendAll(c, writes, n);
  }

  /** The writes of a new server connection put the stream on the wire. */
  method SendAll(c: ServerConn, writes: seq<seq<byte>>, ghost n: nat)
    requires c.State() == ServerState(false, [], [], c.inbound) && c.outbound == [] && |c.serverHello| == 91
    requires |c.inbound| >= 5 && n == c.inbound[3] as int * 256 + c.inbound[4] as int && |c.inbound| >= 5 + n
    requires c.inbound[0] == 0x16 && c.decode(c.inbound[5..5 + n]).Hello?
    modifies c
    ensures c.outbound == Stream(Prelude(c.serverHello), writes)
  {
    ghost var whole := Stream(Prelude(c.serverHello), writes);
    StreamEnds(c.wbuf);
    if |writes| == 0 {
      return;
    }
    FirstWrite(c, writes[0], n);
    StreamNext(Prelude(c.serverHello), writes, []);
    hide Stream, Sent, WbufAfter, Prelude;
    for i := 1 to |writes|
      invariant c.handshaked && c.outbound + Stream(c.wbuf, writes[i..]) == whole
    {
      StreamNext(c.wbuf, writes[i..], c.outbound);
      assert writes[i..][1..] == writes[i + 1..];
      NextWrite(c, writes[i]);
    }
    StreamEnds(c.wbuf);
    assert writes[|writes|..] == [];
  }

  method FirstWrite(c: ServerConn, b: seq<byte>, ghost n: nat)
    requires c.State() == ServerState(false, [], [], c.inbound) && c.outbound == [] && |c.serverHello| == 91
    requires |c.inbound| >= 5 && n == c.inbound[3] as int * 256 + c.inbound[4] as int && |c.inbound| >= 5 + n
    requires c.inbound[0] == 0x16 && c.decode(c.inbound[5..5 + n]).Hello?
    modifies c
    ensures c.handshaked && c.wbuf == WbufAfter(Prelude(c.serverHello), b)
    ensures c.outbound == Sent(Prelude(c.serverHello), b)
  {
    HandshakeInBytes(c.State(), c.decode, c.serverHello, n);
    PreludeInBytes(c.serverHello);
    hide ServerHandshake, Sent, WbufAfter, Prelude;
    var _, _ := c.Write(b);
  }

  method NextWrite(c: ServerConn, b: seq<byte>)
    requires c.handshaked
    modifies c
    ensures c.handshaked && c.wbuf == WbufAfter(old(c.wbuf), b) && c.outbound == old(c.outbound) + Sent(old(c.wbuf), b)
  {
    hide Sent, WbufAfter;
    var _, _ := c.Write(b);
  }

  lemma StreamEnds(wbuf: seq<byte>)
    ensures Stream(wbuf, []) == []
  {
  }

  lemma PreludeInBytes(serverHello: seq<byte>)
    requires |serverHello| == 91
    ensures Prelude(serverHello) == [0x16, 3, 1, 0, 91] + serverHello + [0x14, 3, 3, 0, 1, 1]
  {
    assert [0x14, 3, 3, 0, 1] + [1] == [0x14, 3, 3, 0, 1, 1];
  }

  lemma StreamNext(wbuf: seq<byte>, writes: seq<seq<byte>>, outbound: seq<byte>)
    requires writes != []
    ensures outbound + Stream(wbuf, writes) ==
            (outbound + Sent(wbuf, writes[0])) + Stream(WbufAfter(wbuf, writes[0]), writes[1..])
    ensures outbound == [] ==>
            Stream(wbuf, writes) == Sent(wbuf, writes[0]) + Stream(WbufAfter(wbuf, writes[0]), writes[1..])
  {
    hide Sent, WbufAfter;
    var sent, more := Sent(wbuf, writes[0]), Stream(WbufAfter(wbuf, writes[0]), writes[1..]);
    assert Stream(wbuf, writes) == sent + more;
    hide Stream;
    assert outbound + (sent + more) == (outbound + sent) + more;
  }

  lemma {:induction false} SmallWritesFit(writes: seq<seq<byte>>)
    ensures (forall w <- writes :: |w| <= 16384) ==> FirstWriteFits(writes)
    decreases |writes|
  {
    if writes != [] {
      SmallWritesFit(writes[1..]);
      assert writes[0] in writes && forall w <- writes[1..] :: w in writes;
    }
  }

  lemma {:induction false} StreamStarts(wbuf: seq<byte>, writes: seq<seq<byte>>)
    requires wbuf != []
    ensures (exists w <- writes :: w != []) ==> wbuf <= Stream(wbuf, writes)
    ensures (exists w <- writes :: w != []) ==> |Stream(wbuf, writes)| >= |wbuf| + 6
    decreases |writes|
  {
    if writes != [] && writes[0] == [] {
      StreamStarts(wbuf, writes[1..]);
      assert forall w <- writes :: w == writes[0] || w in writes[1..];
    }
  }

  /** A client connection reads what arrived of a server's stream, chunk by chunk. Its caller is handed
      a prefix of what the server accepted, and all of it when all has arrived, as long as no chunk
      ends inside a header. */
  method ClientReads(c: ClientConn, chunks: seq<seq<byte>>, ghost serverHello: seq<byte>, ghost writes: seq<seq<byte>>)
    returns (got: seq<byte>)
    requires c.handshaked && c.parser.Valid() && c.parser.State() == INITIAL && |serverHello| == 91
    requires Flatten(chunks) <= Stream(Prelude(serverHello), writes)
    requires forall chunk <- chunks :: |chunk| < 0x10000
    modifies c.parser
    ensures NoChunkEndsInHeader(INITIAL, chunks) ==> got <= Accepted(writes)
    ensures NoChunkEndsInHeader(INITIAL, chunks) && Flatten(chunks) == Stream(Prelude(serverHello), writes) ==>
            got == Accepted(writes)
  {
    ServerToClientAnyChunks(serverHello, writes, chunks);
    ClientIsHanded(serverHello, writes, chunks);
    hide Run, RunChunks, DeliveredAll, Accepted, Flatten, Stream, Prelude, NoChunkEndsInHeader;
    got := [];
    assert chunks[0..] == chunks;
    for i := 0 to |chunks|
      invariant c.handshaked && c.parser.Valid() && RunChunks(c.parser.State(), chunks[i..]).status == Running
      invariant got + DeliveredAll(c.parser.State(), chunks[i..]) == DeliveredAll(INITIAL, chunks)
    {
      ChunksNext(c.parser.State(), chunks[i..], got);
      assert chunks[i..][1..] == chunks[i + 1..] && chunks[i] in chunks;
      var more := ReadChunk(c, chunks[i]);
      got := got + more;
    }
    assert chunks[|chunks|..] == [];
    ChunksEnd(c.parser.State(), got);
  }

  method ReadChunk(c: ClientConn, chunk: seq<byte>) returns (got: seq<byte>)
    requires c.handshaked && c.parser.Valid() && |chunk| < 0x10000 && Run(c.parser.State(), chunk).status == Running
    modifies c.parser
    ensures c.parser.Valid() && c.parser.State() == Run(old(c.parser.State()), chunk).state
    ensures got == Delivered(Run(old(c.parser.State()), chunk), chunk)
  {
    var b := new byte[|chunk|];
    SmallBuffersNeverStall(c.parser.State(), chunk);
    StallsExactly(c.parser.State(), chunk);
    hide Run, Delivered, InBody;
    var out := c.Read(b, chunk);
    got := b[..out.n];
  }

  lemma ChunksNext(s: ParserState, chunks: seq<seq<byte>>, got: seq<byte>)
    requires s.Valid() && chunks != [] && RunChunks(s, chunks).status == Running
    ensures var r := Run(s, chunks[0]);
            && r.status == Running && RunChunks(r.state, chunks[1..]).status == Running
            && got + DeliveredAll(s, chunks) == (got + Delivered(r, chunks[0])) + DeliveredAll(r.state, chunks[1..])
  {
    hide Run, Delivered;
    var r := Run(s, chunks[0]);
    var first, more := Delivered(r, chunks[0]), DeliveredAll(r.state, chunks[1..]);
    assert got + (first + more) == (got + first) + more;
  }

  lemma ChunksEnd(s: ParserState, got: seq<byte>)
    requires s.Valid()
    ensures got + DeliveredAll(s, []) == got
  {
  }

  /** Any writes of a new client connection whose encoder makes `hello` of the first. */
  method ClientWrites(c: ClientConn, writes: seq<seq<byte>>, ghost hello: seq<byte>)
    requires !c.handshaked && c.wbuf == [] && c.outbound == [] && writes != []
    requires c.encodeHello(writes[0]) == Some(hello)
    modifies c
    ensures c.outbound == ClientStream(hello, writes)
  {
    hide Stream, Sent, Encode, MakeRecord;
    FirstClientWrite(c, writes[0], hello);
    for i := 1 to |writes|
      invariant c.handshaked && c.wbuf == []
      invariant c.outbound + Stream([], writes[i..]) == ClientStream(hello, writes)
    {
      StreamNext([], writes[i..], c.outbound);
      assert writes[i..][1..] == writes[i + 1..];
      NextClientWrite(c, writes[i]);
    }
    StreamEnds([]);
    assert writes[|writes|..] == [];
  }

  method FirstClientWrite(c: ClientConn, b: seq<byte>, ghost hello: seq<byte>)
    requires !c.handshaked && c.wbuf == [] && c.outbound == [] && c.encodeHello(b) == Some(hello)
    modifies c
    ensures c.handshaked && c.wbuf == [] && c.outbound == Encode(MakeRecord(HANDSHAKE, 0x01, hello))
  {
    hide Encode, MakeRecord;
    var _, _ := c.Write(b);
    assert [] + Encode(MakeRecord(HANDSHAKE, 0x01, hello)) == Encode(MakeRecord(HANDSHAKE, 0x01, hello));
  }

  method NextClientWrite(c: ClientConn, b: seq<byte>)
    requires c.handshaked && c.wbuf == []
    modifies c
    ensures c.handshaked && c.wbuf == [] == WbufAfter([], b) && c.outbound == old(c.outbound) + Sent([], b)
  {
    hide Sent;
    var _, _ := c.Write(b);
  }

  /** No record of the stream is empty. */
  predicate NoEmptyRecord(stream: seq<byte>)
    decreases |stream|
  {
    match ReadRecord(stream)
    case None => true
    case Some((record, rest)) => record.body != [] && NoEmptyRecord(rest)
  }

  /** From the hello on, no record is empty. */
  predicate Steady(s: ServerState, decode: seq<byte> -> ClientHello, serverHello: seq<byte>)
  {
    NoEmptyRecord(ServerHandshake(s, decode, serverHello).0.inbound)
  }

  lemma ReadProgresses(s: ServerState, decode: seq<byte> -> ClientHello, serverHello: seq<byte>, size: nat)
    requires Steady(s, decode, serverHello)
    ensures var (s', got, err) := ServerRead(s, decode, serverHello, size);
            err == NoError ==> Steady(s', decode, serverHello) && (size > 0 ==> got != [])
  {
    var (h, err) := ServerHandshake(s, decode, serverHello);
    assert err == NoError ==> h.handshaked;
    TakeProgresses(h, size);
  }

  lemma {:induction false} SplitIsNotEmpty(b: seq<byte>, rest: seq<byte>)
    requires NoEmptyRecord(rest)
    ensures NoEmptyRecord(EncodeAll(Split(b)) + rest)
    decreases |b|
  {
    hide ReadRecord, Encode, EncodeAll, Split;
    if b == [] {
      SplitEmpty();
      assert [] + rest == rest;
    } else {
      var n := Min(|b|, MAX_TLS_DATA_LEN);
      var d, more := b[..n], EncodeAll(Split(b[n..]));
      SplitFirst(b);
      assert Encode(MakeRecord(APP_DATA, 0x03, d)) + (more + rest) ==
             Encode(MakeRecord(APP_DATA, 0x03, d)) + more + rest;
      ReadMadeRecord(APP_DATA, 0x03, d, more + rest);
      SplitIsNotEmpty(b[n..], rest);
    }
  }

  lemma {:induction false} StreamIsNotEmpty(writes: seq<seq<byte>>)
    ensures NoEmptyRecord(Stream([], writes))
    decreases |writes|
  {
    if writes != [] {
      SplitEmpty();
      assert Sent([], writes[0]) == EncodeAll(Split(writes[0]));
      StreamIsNotEmpty(writes[1..]);
      SplitIsNotEmpty(writes[0], Stream([], writes[1..]));
    }
  }

  lemma SteadyAtStart(hello: seq<byte>, writes: seq<seq<byte>>, decode: seq<byte> -> ClientHello,
                      serverHello: seq<byte>)
    requires writes != [] && |hello| < 0x10000 && decode(hello) == Hello(Some(writes[0]))
    ensures Steady(ServerState(false, [], [], ClientStream(hello, writes)), decode, serverHello)
  {
    hide ReadRecord, Encode, Stream, NoEmptyRecord;
    ReadMadeRecord(HANDSHAKE, 0x01, hello, Stream([], writes[1..]));
    StreamIsNotEmpty(writes[1..]);
  }

  /** A client connection writes, a new server connection reads what it sent into buffers of any
      sizes: the server hands over the writes in order, all of them by the time it reports the end,
      and at least a byte each time there is room. */
  method ClientToServerOnObjects(c: ClientConn, writes: seq<seq<byte>>, ghost hello: seq<byte>,
                                 decode: seq<byte> -> ClientHello, serverHello: seq<byte>, sizes: seq<nat>)
    returns (got: seq<byte>, ended: bool)
    requires !c.handshaked && c.wbuf == [] && c.outbound == [] && writes != []
    requires c.encodeHello(writes[0]) == Some(hello) && |hello| < 0x10000 && decode(hello) == Hello(Some(writes[0]))
    modifies c
    ensures got <= Flatten(writes)
    ensures ended ==> got == Flatten(writes)
    ensures !ended && (forall size <- sizes :: size > 0) ==> |got| >= |sizes|
  {
    ClientWrites(c, writes, hello);
    var s := new ServerConn(decode, serverHello, c.outbound);
    PendingAtStart(hello, writes, decode, serverHello);
    SteadyAtStart(hello, writes, decode, serverHello);
    hide Pending, Steady, ClientStream, Flatten;
    got, ended := ReadAll(s, Flatten(writes), sizes);
  }

  /** Reads until an error or until there are no more buffers. */
  method ReadAll(s: ServerConn, ghost all: seq<byte>, sizes: seq<nat>) returns (got: seq<byte>, ended: bool)
    requires Pending(s.State(), s.decode, s.serverHello) == all && Steady(s.State(), s.decode, s.serverHello)
    modifies s
    ensures got <= all && (ended ==> got == all)
    ensures !ended && (forall size <- sizes :: size > 0) ==> |got| >= |sizes|
  {
    got, ended := [], false;
    hide Pending, ServerRead, Steady;
    for i := 0 to |sizes|
      invariant got + Pending(s.State(), s.decode, s.serverHello) == all && Steady(s.State(), s.decode, s.serverHello)
      invariant (forall size <- sizes :: size > 0) ==> |got| >= i
    {
      var b := new byte[sizes[i]];
      ReadConserves(s.State(), s.decode, s.serverHello, sizes[i]);
      ReadProgresses(s.State(), s.decode, s.serverHello, sizes[i]);
      assert sizes[i] in sizes;
      var n, err := s.Read(b);
      if err != NoError {
        return got, true;
      }
      got := got + b[..n];
    }
  }
}
