/** The two ends of a TLS-obfuscated connection: what each end's `Write` puts on the wire is what
    the other end's `Read` takes off it. */
module TlsTunnel {
  import opened Options
  import opened Bytes
  import opened TlsParser
  import opened TlsRecords

  const HANDSHAKE: byte := 0x16
  const CHANGE_CIPHER_SPEC: byte := 0x14
  const APP_DATA: byte := 0x17

  /** A record as `Record.WriteTo` writes it: the length field holds the low 16 bits of the length. */
  function MakeRecord(kind: byte, minor: byte, body: seq<byte>): Record
  {
    Record(kind, minor, |body| / 256 % 256, |body| % 256, body)
  }

  // ---------------------------------------------------------------------------------------
  // Writing
  // ---------------------------------------------------------------------------------------

  /** The application data records of one write. */
  function Split(b: seq<byte>): seq<Record>
    decreases |b|
  {
    if b == [] then []
    else
      var n := Min(|b|, MAX_TLS_DATA_LEN);
      [MakeRecord(APP_DATA, 0x03, b[..n])] + Split(b[n..])
  }

  /** What one write sends when `wbuf` is waiting to be flushed: with a non-empty `wbuf` only the
      first record's worth of the data goes out, as a handshake record, and the write ends there. */
  function Sent(wbuf: seq<byte>, b: seq<byte>): seq<byte>
  {
    if b == [] then []
    else if wbuf != [] then wbuf + Encode(MakeRecord(HANDSHAKE, 0x03, b[..Min(|b|, MAX_TLS_DATA_LEN)]))
    else EncodeAll(Split(b))
  }

  function WbufAfter(wbuf: seq<byte>, b: seq<byte>): seq<byte>
  {
    if b == [] then wbuf else []
  }

  /** The record loop both ends' `Write` run. */
  method SendRecords(wbuf: seq<byte>, data: seq<byte>) returns (sent: seq<byte>, wbuf': seq<byte>)
    ensures sent == Sent(wbuf, data) && wbuf' == WbufAfter(wbuf, data)
  {
    hide Split, EncodeAll, Encode;
    sent, wbuf' := [], wbuf;
    var b := data;
    while |b| > 0
      invariant wbuf' == wbuf && (b == [] ==> wbuf == [] || data == [])
      invariant wbuf != [] ==> b == data && sent == []
      invariant wbuf == [] ==> sent + EncodeAll(Split(b)) == EncodeAll(Split(data))
      decreases |b|
    {
      SplitFirst(b);
      var d := b;
      if |b| > MAX_TLS_DATA_LEN {
        d := b[..MAX_TLS_DATA_LEN];
        b := b[MAX_TLS_DATA_LEN..];
      } else {
        b := [];
      }
      var record := MakeRecord(APP_DATA, 0x03, d);
      if |wbuf'| > 0 {
        record := record.(kind := HANDSHAKE);
        wbuf' := wbuf' + Encode(record);
        sent := sent + wbuf';
        wbuf' := [];
        return;
      }
      assert sent + (Encode(record) + EncodeAll(Split(b))) == (sent + Encode(record)) + EncodeAll(Split(b));
      sent := sent + Encode(record);
    }
    SplitEmpty();
  }

  lemma SplitEmpty()
    ensures EncodeAll(Split([])) == []
  {
  }

  lemma SplitFirst(b: seq<byte>)
    requires b != []
    ensures var n := Min(|b|, MAX_TLS_DATA_LEN);
            && EncodeAll(Split(b)) == Encode(MakeRecord(APP_DATA, 0x03, b[..n])) + EncodeAll(Split(b[n..]))
            && (n == |b| ==> b[..n] == b && b[n..] == [])
  {
    var n := Min(|b|, MAX_TLS_DATA_LEN);
    assert Split(b)[1..] == Split(b[n..]);
  }

  /** What a sequence of writes sends. */
  function Stream(wbuf: seq<byte>, writes: seq<seq<byte>>): seq<byte>
    decreases |writes|
  {
    if writes == [] then []
    else Sent(wbuf, writes[0]) + Stream(WbufAfter(wbuf, writes[0]), writes[1..])
  }

  /** Every data record holds between 1 and 16384 bytes, its length field is its length, and the
      records hold the data in order. */
  lemma {:induction false} SplitRecords(b: seq<byte>)
    ensures forall r :: r in Split(b) ==>
      && 1 <= |r.body| <= MAX_TLS_DATA_LEN && r.hi * 256 + r.lo == |r.body|
      && r.kind == APP_DATA && r.minor == 0x03
    ensures Payload(3, Split(b)) == b && WellFormed(3, Split(b)) && FinalStep(3, Split(b)) == 3
    decreases |b|
  {
    if b != [] {
      var n := Min(|b|, MAX_TLS_DATA_LEN);
      var r, more := MakeRecord(APP_DATA, 0x03, b[..n]), Split(b[n..]);
      SplitRecords(b[n..]);
      SixteenBits(n);
      assert Split(b) == [r] + more;
      hide Split;
      assert ([r] + more)[1..] == more && StepAfter(3, r) == 3 && BodyLength(3, r.hi, r.lo) == |r.body|;
      assert b[..n] + b[n..] == b;
    } else {
      assert Split(b) == [];
    }
  }

  // ---------------------------------------------------------------------------------------
  // Server to client
  // ---------------------------------------------------------------------------------------

  /** What the server's handshake leaves in `wbuf`: its hello and a change cipher spec. */
  function Prelude(serverHello: seq<byte>): seq<byte>
  {
    Encode(MakeRecord(HANDSHAKE, 0x01, serverHello)) + Encode(MakeRecord(CHANGE_CIPHER_SPEC, 0x03, [0x01]))
  }

  /** What the client is meant to receive of the server's writes: the first non-empty write loses
      everything beyond its first 16384 bytes, although it reports its full length. */
  function Accepted(writes: seq<seq<byte>>): seq<byte>
    decreases |writes|
  {
    if writes == [] then []
    else if writes[0] == [] then Accepted(writes[1..])
    else writes[0][..Min(|writes[0]|, MAX_TLS_DATA_LEN)] + Flatten(writes[1..])
  }

  predicate FirstWriteFits(writes: seq<seq<byte>>)
    decreases |writes|
  {
    writes != [] ==> if writes[0] == [] then FirstWriteFits(writes[1..]) else |writes[0]| <= MAX_TLS_DATA_LEN
  }

  /** No byte is lost exactly when the first non-empty write fits one record. */
  lemma {:induction false} AcceptedIsEverything(writes: seq<seq<byte>>)
    ensures Accepted(writes) == Flatten(writes) <==> FirstWriteFits(writes)
    decreases |writes|
  {
    if writes != [] {
      if writes[0] == [] {
        AcceptedIsEverything(writes[1..]);
      } else if |writes[0]| > MAX_TLS_DATA_LEN {
        assert |Accepted(writes)| < |Flatten(writes)|;
      } else {
        assert writes[0][..|writes[0]|] == writes[0];
      }
    }
  }

  /** Data records after the handshake. */
  lemma {:induction false} RunPlainStream(writes: seq<seq<byte>>)
    ensures Run(Boundary(3), Stream([], writes)).status == Running
    ensures Run(Boundary(3), Stream([], writes)).state == Boundary(3)
    ensures Run(Boundary(3), Stream([], writes)).payload == Flatten(writes)
    decreases |writes|
  {
    if writes == [] {
      assert Run(Boundary(3), []) == Trace(Boundary(3), [], 0, Running);
    } else {
      hide Run;
      RunPlainStream(writes[1..]);
      SplitRecords(writes[0]);
      SplitEmpty();
      assert Sent([], writes[0]) == EncodeAll(Split(writes[0]));
      RunRecords(3, Split(writes[0]), Stream([], writes[1..]));
    }
  }

  /** The flush of the handshake: hello and change cipher spec are skipped, the data is payload. */
  lemma RunFlush(serverHello: seq<byte>, d: seq<byte>, rest: seq<byte>)
    requires |serverHello| == SERVER_HELLO_LEN && 1 <= |d| <= MAX_TLS_DATA_LEN
    ensures Continues(Run(INITIAL, Prelude(serverHello) + Encode(MakeRecord(HANDSHAKE, 0x03, d)) + rest), d,
                      Run(Boundary(3), rest))
  {
    hide Run;
    var hello := MakeRecord(HANDSHAKE, 0x01, serverHello);
    var ccs := MakeRecord(CHANGE_CIPHER_SPEC, 0x03, [0x01]);
    var first := MakeRecord(HANDSHAKE, 0x03, d);
    RunRecord(2, first, rest);
    RunRecord(1, ccs, Encode(first) + rest);
    RunRecord(0, hello, Encode(ccs) + (Encode(first) + rest));
    assert Encode(hello) + (Encode(ccs) + (Encode(first) + rest)) == Prelude(serverHello) + Encode(first) + rest;
  }

  /** For every sequence of server writes the client reads the whole stream without an error, ends
      at a record boundary, and its payload is what the server accepted. */
  lemma {:induction false} ServerToClient(serverHello: seq<byte>, writes: seq<seq<byte>>)
    requires |serverHello| == SERVER_HELLO_LEN
    ensures var r := Run(INITIAL, Stream(Prelude(serverHello), writes));
            && r.status == Running && r.payload == Accepted(writes)
            && (r.state == INITIAL || r.state == Boundary(3))
    decreases |writes|
  {
    var wbuf := Prelude(serverHello);
    if writes == [] {
    } else if writes[0] == [] {
      ServerToClient(serverHello, writes[1..]);
      assert Sent(wbuf, []) + Stream(wbuf, writes[1..]) == Stream(wbuf, writes[1..]);
    } else {
      hide Run;
      var d := writes[0][..Min(|writes[0]|, MAX_TLS_DATA_LEN)];
      RunPlainStream(writes[1..]);
      RunFlush(serverHello, d, Stream([], writes[1..]));
    }
  }

  /** At every moment of every run, whatever part of the server's stream has arrived and however it
      was cut: no error, no empty data record, and a prefix of what the server accepted. */
  lemma ServerToClientAnyChunks(serverHello: seq<byte>, writes: seq<seq<byte>>, chunks: seq<seq<byte>>)
    requires |serverHello| == SERVER_HELLO_LEN
    requires Flatten(chunks) <= Stream(Prelude(serverHello), writes)
    ensures var r := RunChunks(INITIAL, chunks);
            && r.status == Running && r.state.step <= 3 && r.payload <= Accepted(writes)
            && (Flatten(chunks) == Stream(Prelude(serverHello), writes) ==> r.payload == Accepted(writes))
  {
    hide Run, Stream, Flatten, RunChunks, Accepted, Prelude;
    var whole, a := Stream(Prelude(serverHello), writes), Flatten(chunks);
    var b := whole[|a|..];
    assert a + b == whole;
    ServerToClient(serverHello, writes);
    PrefixOfAccepted(INITIAL, a, b);
    ChunksDoNotMatter(INITIAL, chunks);
    RunSplit(INITIAL, a, b);
    StepsGrow(Run(INITIAL, a).state, b);
  }

  lemma {:induction false} StepsGrow(s: ParserState, bs: seq<byte>)
    requires s.Valid()
    ensures s.step <= Run(s, bs).state.step
    decreases |bs|
  {
    if bs != [] {
      if s.state == Data {
        StepsGrow(DataStep(s, 1), bs[1..]);
      } else if HeaderStep(s, bs[0]).1 == Running {
        StepsGrow(HeaderStep(s, bs[0]).0, bs[1..]);
      }
    }
  }

  /** What the client's caller is handed for each chunk its `Read` calls take off the connection. */
  function DeliveredAll(s: ParserState, chunks: seq<seq<byte>>): seq<byte>
    requires s.Valid()
    decreases |chunks|
  {
    if chunks == [] then []
    else var r := Run(s, chunks[0]); Delivered(r, chunks[0]) + DeliveredAll(r.state, chunks[1..])
  }

  /** No chunk ends between a header's first byte and the first byte of the body that follows it
      (unless the chunk has no payload before that header, or just as much as header). */
  predicate NoChunkEndsInHeader(s: ParserState, chunks: seq<seq<byte>>)
    requires s.Valid()
    decreases |chunks|
  {
    chunks != [] ==>
      var r := Run(s, chunks[0]);
      && (r.payload == [] || r.tail == 0 || r.tail == |r.payload|)
      && NoChunkEndsInHeader(r.state, chunks[1..])
  }

  /** Up to chunk `k` the caller has been handed the payload. */
  ghost predicate HandedPayload(s: ParserState, chunks: seq<seq<byte>>, k: nat)
    requires s.Valid() && k <= |chunks|
  {
    DeliveredAll(s, chunks[..k]) == RunChunks(s, chunks[..k]).payload
  }

  /** Of a stream without an error the caller is handed the payload, after every chunk, exactly when
      no chunk is cut there. */
  lemma {:induction false} ReadsDeliverPayload(s: ParserState, chunks: seq<seq<byte>>)
    requires s.Valid() && RunChunks(s, chunks).status == Running
    ensures NoChunkEndsInHeader(s, chunks) <==> forall k: nat | k <= |chunks| :: HandedPayload(s, chunks, k)
    decreases |chunks|
  {
    NothingHanded(s, chunks);
    if chunks != [] {
      var r, rest := Run(s, chunks[0]), chunks[1..];
      DeliveredIsPayload(r, chunks[0]);
      NoneEndsInFirst(s, chunks);
      FirstHanded(s, chunks);
      hide HandedPayload, NoChunkEndsInHeader, Run, Delivered;
      ReadsDeliverPayload(r.state, rest);
      if NoChunkEndsInHeader(s, chunks) {
        forall k: nat | k <= |chunks| ensures HandedPayload(s, chunks, k) {
          if k > 0 {
            HandedLater(s, chunks, k - 1);
          }
        }
      }
      if forall k: nat | k <= |chunks| :: HandedPayload(s, chunks, k) {
        assert HandedPayload(s, chunks, 1);
        forall k: nat | k <= |rest| ensures HandedPayload(r.state, rest, k) {
          HandedLater(s, chunks, k);
          assert HandedPayload(s, chunks, k + 1);
        }
      }
    }
  }

  lemma NothingHanded(s: ParserState, chunks: seq<seq<byte>>)
    requires s.Valid()
    ensures HandedPayload(s, chunks, 0) && (chunks == [] ==> NoChunkEndsInHeader(s, chunks))
  {
  }

  lemma NoneEndsInFirst(s: ParserState, chunks: seq<seq<byte>>)
    requires s.Valid() && chunks != []
    ensures var r := Run(s, chunks[0]);
            NoChunkEndsInHeader(s, chunks) <==>
            (r.payload == [] || r.tail == 0 || r.tail == |r.payload|) && NoChunkEndsInHeader(r.state, chunks[1..])
  {
    hide Run;
  }

  lemma FirstHanded(s: ParserState, chunks: seq<seq<byte>>)
    requires s.Valid() && chunks != [] && Run(s, chunks[0]).status == Running
    ensures HandedPayload(s, chunks, 1) <==> Delivered(Run(s, chunks[0]), chunks[0]) == Run(s, chunks[0]).payload
  {
    hide Run, Delivered, DeliveredAll, RunChunks, HandedPayload;
    NothingLeft(Run(s, chunks[0]).state, chunks[1..][..0]);
    HandedAfter(s, chunks, 0);
  }

  lemma NothingLeft(s: ParserState, none: seq<seq<byte>>)
    requires s.Valid() && none == []
    ensures forall a: seq<byte> :: a + DeliveredAll(s, none) == a && a + RunChunks(s, none).payload == a
  {
  }

  lemma HandedAfter(s: ParserState, chunks: seq<seq<byte>>, k: nat)
    requires s.Valid() && k < |chunks| && Run(s, chunks[0]).status == Running
    ensures HandedPayload(s, chunks, k + 1) <==>
            Delivered(Run(s, chunks[0]), chunks[0]) + DeliveredAll(Run(s, chunks[0]).state, chunks[1..][..k])
            == Run(s, chunks[0]).payload + RunChunks(Run(s, chunks[0]).state, chunks[1..][..k]).payload
  {
    hide Run, Delivered;
    assert chunks[..k + 1][0] == chunks[0] && chunks[..k + 1][1..] == chunks[1..][..k];
  }

  lemma HandedLater(s: ParserState, chunks: seq<seq<byte>>, k: nat)
    requires s.Valid() && k < |chunks| && Run(s, chunks[0]).status == Running
    requires Delivered(Run(s, chunks[0]), chunks[0]) == Run(s, chunks[0]).payload
    ensures HandedPayload(s, chunks, k + 1) <==> HandedPayload(Run(s, chunks[0]).state, chunks[1..], k)
  {
    hide Run, Delivered, DeliveredAll, RunChunks;
    var r, front := Run(s, chunks[0]), chunks[1..][..k];
    HandedAfter(s, chunks, k);
    Cancel(r.payload, DeliveredAll(r.state, front), RunChunks(r.state, front).payload);
  }

  lemma Cancel(a: seq<byte>, b: seq<byte>, c: seq<byte>)
    ensures a + b == a + c <==> b == c
  {
    assert (a + b)[|a|..] == b && (a + c)[|a|..] == c;
  }

  /** The read that takes chunk `k` off the connection never returns. */
  predicate SpinsAt(chunks: seq<seq<byte>>, k: nat)
    requires k < |chunks|
  {
    Stalls(RunChunks(INITIAL, chunks[..k]).state, chunks[k])
  }

  /** From the server's writes to the client's caller, whatever part of the stream has arrived: no
      read of less than 64 KiB spins, and as long as no chunk ends inside a header the caller has a
      prefix of what the server accepted, and all of it, or all of the writes when the first fits one
      record, once everything has arrived. */
  lemma ClientIsHanded(serverHello: seq<byte>, writes: seq<seq<byte>>, chunks: seq<seq<byte>>)
    requires |serverHello| == SERVER_HELLO_LEN
    requires Flatten(chunks) <= Stream(Prelude(serverHello), writes)
    ensures forall k: nat | k < |chunks| && |chunks[k]| < 0x10000 :: !SpinsAt(chunks, k)
    ensures var (got, all) := (DeliveredAll(INITIAL, chunks), Flatten(chunks) == Stream(Prelude(serverHello), writes));
            NoChunkEndsInHeader(INITIAL, chunks) ==>
              && got <= Accepted(writes)
              && (all ==> got == Accepted(writes))
              && (all && FirstWriteFits(writes) ==> got == Flatten(writes))
  {
    ServerToClientAnyChunks(serverHello, writes, chunks);
    ReadsDeliverPayload(INITIAL, chunks);
    AcceptedIsEverything(writes);
    assert chunks[..|chunks|] == chunks;
    assert HandedPayload(INITIAL, chunks, |chunks|) <==>
           DeliveredAll(INITIAL, chunks) == RunChunks(INITIAL, chunks).payload;
    hide Run, RunChunks, DeliveredAll, NoChunkEndsInHeader, HandedPayload;
    hide Accepted, FirstWriteFits, Flatten, Stream, Stalls, Prelude;
    if NoChunkEndsInHeader(INITIAL, chunks) {
      assert HandedPayload(INITIAL, chunks, |chunks|);
    }
    forall k: nat | k < |chunks| && |chunks[k]| < 0x10000
      ensures !SpinsAt(chunks, k)
    {
      SmallBuffersNeverStall(RunChunks(INITIAL, chunks[..k]).state, chunks[k]);
    }
  }

  // ---------------------------------------------------------------------------------------
  // The server's end
  // ---------------------------------------------------------------------------------------

  /** The decoded ClientHello: the data of its session ticket extension, if it has one. */
  datatype ClientHello = BadHello | Hello(ticket: Option<seq<byte>>)

  datatype ConnError = NoError | EOF | BadRecordType | BadClientHello

  /** One record off the stream: what it holds and what is left, or None when the stream ends first. */
  function ReadRecord(stream: seq<byte>): (r: Option<(Record, seq<byte>)>)
    ensures r.Some? ==> |r.value.1| < |stream|
  {
    if |stream| < 5 then None
    else
      var end := 5 + (stream[3] as int) * 256 + stream[4] as int;
      if |stream| < end then None
      else Some((Record(stream[0], stream[2], stream[3], stream[4], stream[5..end]), stream[end..]))
  }

  /** The server connection as a value; `inbound` is what the peer sends, up to its end of stream. */
  datatype ServerState = ServerState(handshaked: bool, rbuf: seq<byte>, wbuf: seq<byte>, inbound: seq<byte>)

  function ServerHandshake(s: ServerState, decode: seq<byte> -> ClientHello, serverHello: seq<byte>)
    : (ServerState, ConnError)
  {
    if s.handshaked then (s, NoError)
    else match ReadRecord(s.inbound)
      case None => (s.(inbound := []), EOF)
      case Some((record, rest)) =>
        var s := s.(inbound := rest);
        if record.kind != HANDSHAKE then (s, BadRecordType)
        else match decode(record.body)
          case BadHello => (s, BadClientHello)
          case Hello(ticket) =>
            var data := match ticket case None => [] case Some(t) => t;
            (ServerState(true, s.rbuf + data, s.wbuf + Prelude(serverHello), rest), NoError)
  }

  /** One `Read` with a buffer of `size` bytes. */
  function ServerRead(s: ServerState, decode: seq<byte> -> ClientHello, serverHello: seq<byte>, size: nat)
    : (ServerState, seq<byte>, ConnError)
  {
    var (s, err) := ServerHandshake(s, decode, serverHello);
    if err != NoError then (s, [], err) else ServerTake(s, size)
  }

  /** The part of it after the handshake: left over bytes first, else one more record. */
  function ServerTake(s: ServerState, size: nat): (ServerState, seq<byte>, ConnError)
  {
    if s.rbuf != [] then
      var n := Min(size, |s.rbuf|);
      (s.(rbuf := s.rbuf[n..]), s.rbuf[..n], NoError)
    else match ReadRecord(s.inbound)
      case None => (s.(inbound := []), [], EOF)
      case Some((record, rest)) =>
        var n := Min(size, |record.body|);
        (s.(rbuf := record.body[n..], inbound := rest), record.body[..n], NoError)
  }

  class ServerConn {
    var handshaked: bool
    var rbuf: seq<byte>
    var wbuf: seq<byte>
    var inbound: seq<byte>
    var outbound: seq<byte>
    const decode: seq<byte> -> ClientHello
    const serverHello: seq<byte>

    ghost function State(): ServerState
      reads this
    {
      ServerState(handshaked, rbuf, wbuf, inbound)
    }

    constructor (decode: seq<byte> -> ClientHello, serverHello: seq<byte>, inbound: seq<byte>)
      ensures State() == ServerState(false, [], [], inbound) && outbound == []
      ensures this.decode == decode && this.serverHello == serverHello
    {
      handshaked, rbuf, wbuf, outbound := false, [], [], [];
      this.inbound := inbound;
      this.decode, this.serverHello := decode, serverHello;
    }

    method Handshake() returns (err: ConnError)
      modifies this
      ensures (State(), err) == ServerHandshake(old(State()), decode, serverHello)
      ensures outbound == old(outbound)
    {
      if handshaked {
        return NoError;
      }
      var r := ReadRecord(inbound);
      if r == None {
        inbound := [];
        return EOF;
      }
      var (record, rest) := r.value;
      inbound := rest;
      if record.kind != HANDSHAKE {
        return BadRecordType;
      }
      var clientMsg := decode(record.body);
      if clientMsg.BadHello? {
        return BadClientHello;
      }
      if clientMsg.ticket.Some? {
        rbuf := rbuf + clientMsg.ticket.value;
      } else {
        assert rbuf + [] == rbuf;
      }
      ghost var before := wbuf;
      wbuf := wbuf + Encode(MakeRecord(HANDSHAKE, 0x01, serverHello));
      wbuf := wbuf + Encode(MakeRecord(CHANGE_CIPHER_SPEC, 0x03, [0x01]));
      assert wbuf == before + Prelude(serverHello);
      handshaked := true;
      return NoError;
    }

    method Read(b: array<byte>) returns (n: nat, err: ConnError)
      modifies this, b
      ensures n <= b.Length && b[n..] == old(b[n..])
      ensures (State(), b[..n], err) == ServerRead(old(State()), decode, serverHello, b.Length)
      ensures outbound == old(outbound)
    {
      n := 0;
      err := Handshake();
      if err != NoError {
        return;
      }
      if |rbuf| > 0 {
        n := CopyOut(b, rbuf);
        rbuf := rbuf[n..];
        return;
      }
      var r := ReadRecord(inbound);
      if r == None {
        inbound := [];
        err := EOF;
        return;
      }
      var (record, rest) := r.value;
      inbound := rest;
      n := CopyOut(b, record.body);
      assert rbuf + record.body[n..] == record.body[n..];
      rbuf := rbuf + record.body[n..];
    }

    /** The first write after the handshake flushes `wbuf`; a write before it handshakes first. */
    method Write(b: seq<byte>) returns (n: nat, err: ConnError)
      modifies this
      ensures var (s, e) := ServerHandshake(old(State()), decode, serverHello);
              && err == e
              && (err != NoError ==> State() == s && outbound == old(outbound) && n == 0)
              && (err == NoError ==>
                   && n == |b|
                   && State() == s.(wbuf := WbufAfter(s.wbuf, b))
                   && outbound == old(outbound) + Sent(s.wbuf, b))
    {
      n := 0;
      err := Handshake();
      if err != NoError {
        return;
      }
      n := |b|;
      var sent, wbuf' := SendRecords(wbuf, b);
      outbound, wbuf := outbound + sent, wbuf';
    }
  }

  /** Go's `copy` into a caller's buffer. */
  method CopyOut(b: array<byte>, data: seq<byte>) returns (n: nat)
    modifies b
    ensures n == Min(b.Length, |data|) && b[..n] == data[..n] && b[n..] == old(b[n..])
  {
    n := Min(b.Length, |data|);
    forall k | 0 <= k < n {
      b[k] := data[k];
    }
  }

  // ---------------------------------------------------------------------------------------
  // Client to server
  // ---------------------------------------------------------------------------------------

  /** The bodies of the complete records of a stream. */
  function Bodies(stream: seq<byte>): seq<byte>
    decreases |stream|
  {
    match ReadRecord(stream)
    case None => []
    case Some((record, rest)) => record.body + Bodies(rest)
  }

  /** Everything the reader will still be given. */
  function Pending(s: ServerState, decode: seq<byte> -> ClientHello, serverHello: seq<byte>): seq<byte>
  {
    var (s', err) := ServerHandshake(s, decode, serverHello);
    if err != NoError then [] else s'.rbuf + Bodies(s'.inbound)
  }

  /** The handshake byte by byte: the error of an incomplete, a wrong or a bad hello, and after a good
      one the ticket before the data and the server's hello and change cipher spec before any reply. */
  lemma HandshakeInBytes(s: ServerState, decode: seq<byte> -> ClientHello, serverHello: seq<byte>, n: nat)
    requires !s.handshaked && (|s.inbound| >= 5 ==> n == s.inbound[3] as int * 256 + s.inbound[4] as int)
    requires |serverHello| == 91
    ensures var (s', err) := ServerHandshake(s, decode, serverHello);
            if |s.inbound| < 5 || |s.inbound| < 5 + n then err == EOF && s' == s.(inbound := [])
            else
              var hello, rest := s.inbound[5..5 + n], s.inbound[5 + n..];
              if s.inbound[0] != 0x16 then err == BadRecordType && s' == s.(inbound := rest)
              else if decode(hello).BadHello? then err == BadClientHello && s' == s.(inbound := rest)
              else
                && err == NoError && s'.handshaked && s'.inbound == rest
                && s'.rbuf == s.rbuf + (if decode(hello).ticket.Some? then decode(hello).ticket.value else [])
                && s'.wbuf == s.wbuf + ([0x16, 3, 1, 0, 91] + serverHello + [0x14, 3, 3, 0, 1, 1])
  {
    assert [0x14, 3, 3, 0, 1] + [1] == [0x14, 3, 3, 0, 1, 1];
  }

  /** A read hands something over whenever something is left over or the next record holds something,
      and there is room for it. */
  lemma TakeProgresses(s: ServerState, size: nat)
    ensures var (s', got, err) := ServerTake(s, size);
            && (s.rbuf != [] ==> err == NoError && |got| == Min(size, |s.rbuf|) && s'.inbound == s.inbound)
            && (s.rbuf == [] && ReadRecord(s.inbound).Some? ==>
                  err == NoError && |got| == Min(size, |ReadRecord(s.inbound).value.0.body|))
            && (s.rbuf == [] && ReadRecord(s.inbound).None? ==> err == EOF)
  {
  }

  lemma TakeConserves(s: ServerState, size: nat)
    ensures var (s', got, err) := ServerTake(s, size);
            && |got| <= size && s'.handshaked == s.handshaked
            && (err == NoError ==> got + (s'.rbuf + Bodies(s'.inbound)) == s.rbuf + Bodies(s.inbound))
            && (err != NoError ==> got == [] && s.rbuf + Bodies(s.inbound) == [])
  {
    if s.rbuf != [] {
      var n := Min(size, |s.rbuf|);
      assert s.rbuf[..n] + (s.rbuf[n..] + Bodies(s.inbound)) == s.rbuf + Bodies(s.inbound);
    } else {
      match ReadRecord(s.inbound)
      case None =>
      case Some((record, rest)) =>
        var n := Min(size, |record.body|);
        assert record.body[..n] + (record.body[n..] + Bodies(rest)) == [] + (record.body + Bodies(rest));
    }
  }

  /** A read neither loses nor repeats nor reorders a byte, and reports the end only when there is
      nothing left. */
  lemma ReadConserves(s: ServerState, decode: seq<byte> -> ClientHello, serverHello: seq<byte>, size: nat)
    ensures var (s', got, err) := ServerRead(s, decode, serverHello, size);
            && |got| <= size
            && (err == NoError ==> got + Pending(s', decode, serverHello) == Pending(s, decode, serverHello))
            && (err != NoError ==> got == [] && Pending(s, decode, serverHello) == [])
  {
    hide Bodies, ServerTake;
    var (h, err) := ServerHandshake(s, decode, serverHello);
    assert err == NoError ==> h.handshaked;
    TakeConserves(h, size);
  }

  /** A sequence of reads with these buffer sizes, until one fails. */
  function ServerReads(s: ServerState, decode: seq<byte> -> ClientHello, serverHello: seq<byte>, sizes: seq<nat>)
    : (seq<byte>, ServerState, ConnError)
    decreases |sizes|
  {
    if sizes == [] then ([], s, NoError)
    else
      var (s', got, err) := ServerRead(s, decode, serverHello, sizes[0]);
      if err != NoError then (got, s', err)
      else
        var (more, s'', err') := ServerReads(s', decode, serverHello, sizes[1..]);
        (got + more, s'', err')
  }

  /** Over any reads: what was delivered and what is pending is what was pending. */
  lemma {:induction false} ReadsConserve(s: ServerState, decode: seq<byte> -> ClientHello, serverHello: seq<byte>,
                                         sizes: seq<nat>)
    ensures var (got, s', err) := ServerReads(s, decode, serverHello, sizes);
            && (err == NoError ==> got + Pending(s', decode, serverHello) == Pending(s, decode, serverHello))
            && (err != NoError ==> got == Pending(s, decode, serverHello))
    decreases |sizes|
  {
    if sizes != [] {
      hide ServerRead, Pending, Bodies, ServerHandshake, ServerTake, ReadRecord;
      ReadConserves(s, decode, serverHello, sizes[0]);
      var (s', got, err) := ServerRead(s, decode, serverHello, sizes[0]);
      if err == NoError {
        ReadsConserve(s', decode, serverHello, sizes[1..]);
        var (more, s'', err') := ServerReads(s', decode, serverHello, sizes[1..]);
        Associative(got, more, Pending(s'', decode, serverHello));
      }
    }
  }

  /** The client's stream: the first write travels inside the hello, the rest as data records. */
  function ClientStream(hello: seq<byte>, writes: seq<seq<byte>>): seq<byte>
    requires writes != []
  {
    Encode(MakeRecord(HANDSHAKE, 0x01, hello)) + Stream([], writes[1..])
  }

  /** A record is read back as far as its length field, which has 16 bits, says. */
  lemma ReadAnyRecord(kind: byte, minor: byte, body: seq<byte>, rest: seq<byte>)
    ensures var (r, n) := (MakeRecord(kind, minor, body), |body| % 0x10000);
            ReadRecord(Encode(r) + rest) == Some((r.(body := body[..n]), body[n..] + rest))
  {
    var r, n := MakeRecord(kind, minor, body), |body| % 0x10000;
    var stream := Encode(r) + rest;
    SixteenBits(|body|);
    assert stream[3] == r.hi && stream[4] == r.lo && stream[5..] == body + rest;
    assert stream[5..5 + n] == stream[5..][..n] == body[..n];
    assert stream[5 + n..] == stream[5..][n..] == body[n..] + rest;
  }

  lemma SixteenBits(n: nat)
    ensures n / 256 % 256 * 256 + n % 256 == n % 0x10000
  {
  }

  lemma ReadMadeRecord(kind: byte, minor: byte, body: seq<byte>, rest: seq<byte>)
    requires |body| < 0x10000
    ensures ReadRecord(Encode(MakeRecord(kind, minor, body)) + rest) == Some((MakeRecord(kind, minor, body), rest))
  {
    var r := MakeRecord(kind, minor, body);
    assert r.body == body && |body| % 0x10000 == |body|;
    ReadAnyRecord(kind, minor, body, rest);
    hide ReadRecord, Encode, MakeRecord;
    assert body[..|body|] == body && body[|body|..] + rest == rest;
    assert r.(body := body[..|body|]) == r;
  }

  lemma BodiesOfRecord(kind: byte, minor: byte, body: seq<byte>, rest: seq<byte>)
    requires |body| < 0x10000
    ensures Bodies(Encode(MakeRecord(kind, minor, body)) + rest) == body + Bodies(rest)
  {
    ReadMadeRecord(kind, minor, body, rest);
  }

  lemma {:induction false} BodiesOfSplit(b: seq<byte>, rest: seq<byte>)
    ensures Bodies(EncodeAll(Split(b)) + rest) == b + Bodies(rest)
    decreases |b|
  {
    hide Bodies, ReadRecord, Encode, EncodeAll, Split;
    if b == [] {
      SplitEmpty();
      assert [] + rest == rest && [] + Bodies(rest) == Bodies(rest);
    } else {
      var n := Min(|b|, MAX_TLS_DATA_LEN);
      var d, more := b[..n], EncodeAll(Split(b[n..]));
      SplitFirst(b);
      assert Encode(MakeRecord(APP_DATA, 0x03, d)) + (more + rest) ==
             Encode(MakeRecord(APP_DATA, 0x03, d)) + more + rest;
      BodiesOfRecord(APP_DATA, 0x03, d, more + rest);
      BodiesOfSplit(b[n..], rest);
      assert d + (b[n..] + Bodies(rest)) == b + Bodies(rest) by {
        assert d + b[n..] == b;
      }
    }
  }

  lemma {:induction false} BodiesOfStream(writes: seq<seq<byte>>)
    ensures Bodies(Stream([], writes)) == Flatten(writes)
    decreases |writes|
  {
    if writes != [] {
      SplitEmpty();
      assert Sent([], writes[0]) == EncodeAll(Split(writes[0]));
      BodiesOfSplit(writes[0], Stream([], writes[1..]));
      BodiesOfStream(writes[1..]);
    }
  }

  lemma PendingAtStart(hello: seq<byte>, writes: seq<seq<byte>>, decode: seq<byte> -> ClientHello,
                       serverHello: seq<byte>)
    requires writes != [] && |hello| < 0x10000 && decode(hello) == Hello(Some(writes[0]))
    ensures Pending(ServerState(false, [], [], ClientStream(hello, writes)), decode, serverHello) == Flatten(writes)
  {
    hide ReadRecord, Encode, Stream, Bodies;
    ReadMadeRecord(HANDSHAKE, 0x01, hello, Stream([], writes[1..]));
    BodiesOfStream(writes[1..]);
    assert [] + writes[0] == writes[0];
  }

  /** For every sequence of client writes of any sizes and every sequence of read buffer sizes, the
      server's reader is handed the writes in order: a prefix of their concatenation while it
      reads on, all of it when it is told that the stream has ended. `decode` is only asked to
      give back the ticket that `hello` was made for. */
  lemma ClientToServer(hello: seq<byte>, writes: seq<seq<byte>>, decode: seq<byte> -> ClientHello,
                       serverHello: seq<byte>, sizes: seq<nat>)
    requires writes != [] && |hello| < 0x10000 && decode(hello) == Hello(Some(writes[0]))
    ensures var s := ServerState(false, [], [], ClientStream(hello, writes));
            var (got, s', err) := ServerReads(s, decode, serverHello, sizes);
            && got <= Flatten(writes)
            && (err != NoError ==> got == Flatten(writes))
            && (err == NoError ==> got + Pending(s', decode, serverHello) == Flatten(writes))
  {
    var s := ServerState(false, [], [], ClientStream(hello, writes));
    PendingAtStart(hello, writes, decode, serverHello);
    hide *;
    ReadsConserve(s, decode, serverHello, sizes);
    var (got, s', err) := ServerReads(s, decode, serverHello, sizes);
    assert err == NoError ==> (got + Pending(s', decode, serverHello))[..|got|] == got;
  }

  /** The hello's record is read whole exactly when its length fits the length field. */
  lemma HelloArrives(hello: seq<byte>, rest: seq<byte>)
    ensures var record := MakeRecord(HANDSHAKE, 0x01, hello);
            ReadRecord(Encode(record) + rest) == Some((record, rest)) <==> |hello| < 0x10000
  {
    var n := |hello| % 0x10000;
    ReadAnyRecord(HANDSHAKE, 0x01, hello, rest);
    if |hello| < 0x10000 {
      ReadMadeRecord(HANDSHAKE, 0x01, hello, rest);
    } else {
      assert |hello[..n]| != |hello|;
    }
  }

  /** Of a first write so long that its hello does not fit, the server delivers nothing: it is told
      that the hello is bad, provided the decoder notices the cut. */
  lemma LongHelloIsRefused(hello: seq<byte>, writes: seq<seq<byte>>, decode: seq<byte> -> ClientHello,
                           serverHello: seq<byte>, sizes: seq<nat>)
    requires writes != [] && |hello| >= 0x10000 && sizes != []
    requires decode(hello[..|hello| % 0x10000]) == BadHello
    ensures var s := ServerState(false, [], [], ClientStream(hello, writes));
            var (got, s', err) := ServerReads(s, decode, serverHello, sizes);
            got == [] && err == BadClientHello && !s'.handshaked
  {
    ReadAnyRecord(HANDSHAKE, 0x01, hello, Stream([], writes[1..]));
    hide ReadRecord, Encode, Stream;
  }

  // ---------------------------------------------------------------------------------------
  // The client's end
  // ---------------------------------------------------------------------------------------

  class ClientConn {
    var handshaked: bool
    var wbuf: seq<byte>
    var outbound: seq<byte>
    const parser: ObfsTLSParser
    const encodeHello: seq<byte> -> Option<seq<byte>>

    constructor (encodeHello: seq<byte> -> Option<seq<byte>>)
      ensures !handshaked && wbuf == [] && outbound == []
      ensures fresh(parser) && parser.Valid() && parser.State() == INITIAL
      ensures this.encodeHello == encodeHello
    {
      handshaked, wbuf, outbound := false, [], [];
      parser := new ObfsTLSParser();
      this.encodeHello := encodeHello;
    }

    /** The hello carries the payload; it is sent once. */
    method Handshake(payload: seq<byte>) returns (ok: bool)
      modifies this
      ensures wbuf == old(wbuf)
      ensures ok <==> old(handshaked) || encodeHello(payload).Some?
      ensures handshaked == ok
      ensures outbound == old(outbound) +
        (if ok && !old(handshaked) then Encode(MakeRecord(HANDSHAKE, 0x01, encodeHello(payload).value)) else [])
    {
      if handshaked {
        assert outbound + [] == outbound;
        return true;
      }
      var b := encodeHello(payload);
      if b == None {
        assert outbound + [] == outbound;
        return false;
      }
      outbound := outbound + Encode(MakeRecord(HANDSHAKE, 0x01, b.value));
      handshaked := true;
      return true;
    }

    method Write(b: seq<byte>) returns (n: nat, ok: bool)
      modifies this
      ensures n == |b|
      ensures handshaked == ok && (ok <==> old(handshaked) || encodeHello(b).Some?)
      ensures wbuf == if old(handshaked) then WbufAfter(old(wbuf), b) else old(wbuf)
      ensures outbound == old(outbound) +
        (if old(handshaked) then Sent(old(wbuf), b)
         else if ok then Encode(MakeRecord(HANDSHAKE, 0x01, encodeHello(b).value)) else [])
    {
      n := |b|;
      if !handshaked {
        ok := Handshake(b);
        return;
      }
      var sent;
      sent, wbuf := SendRecords(wbuf, b);
      outbound := outbound + sent;
      ok := true;
    }

    /** `Read` when the connection under it yields `arrived`: unless the parser spins, the caller is
        handed what `Delivered` says and the parser has moved on by the bytes that arrived. */
    method Read(b: array<byte>, arrived: seq<byte>) returns (out: ParseOutcome)
      requires handshaked && parser.Valid() && |arrived| <= b.Length
      modifies parser, b
      ensures parser.Valid() && b[|arrived|..] == old(b[|arrived|..])
      ensures out.Spins? <==> exists n: nat :: InBody(old(parser.State()), arrived, n)
      ensures var r := Run(old(parser.State()), arrived);
              && (!out.Spins? ==> parser.State() == r.state)
              && (out.IndexPanic? ==> r.status == OutOfRange) && (out.Rejected? ==> r.status == Failed(out.error))
              && (out.Parsed? ==> r.status == Running && out.n <= |arrived| && b[..out.n] == Delivered(r, arrived))
    {
      hide Run, Delivered, InBody;
      out := ReadIn(b, arrived);
      assert out.Parsed? ==> b[..|arrived|][..out.n] == b[..out.n];
    }

    method ReadIn(b: array<byte>, arrived: seq<byte>) returns (out: ParseOutcome)
      requires handshaked && parser.Valid() && |arrived| <= b.Length
      modifies parser, b
      ensures parser.Valid() && b[|arrived|..] == old(b[|arrived|..])
      ensures out.Spins? <==> exists n: nat :: InBody(old(parser.State()), arrived, n)
      ensures !out.Spins? ==> ReadAs(out, Run(old(parser.State()), arrived), parser.State(), arrived, b[..|arrived|])
    {
      forall k | 0 <= k < |arrived| {
        b[k] := arrived[k];
      }
      var n := |arrived|;
      assert b[..n] == arrived;
      if n > 0 {
        hide Run, InBody, Agrees, ReadAs;
        ghost var r := Run(parser.State(), arrived);
        out := parser.Parse(b, n);
        if !out.Spins? {
          AgreesDelivers(out, r, parser.State(), arrived, b[..n]);
        }
      } else {
        out := Parsed(0);
      }
    }
  }

  ghost predicate ReadAs(out: ParseOutcome, r: Trace, state: ParserState, arrived: seq<byte>, now: seq<byte>)
    requires |r.payload| + r.tail <= |arrived|
  {
    && state == r.state
    && (out.Parsed? <==> r.status == Running)
    && (out.Rejected? <==> r.status.Failed?) && (out.Rejected? ==> out.error == r.status.error)
    && (out.IndexPanic? ==> r.status == OutOfRange)
    && (out.Parsed? ==> out.n <= |now| && now[..out.n] == Delivered(r, arrived))
  }

  lemma AgreesDelivers(out: ParseOutcome, r: Trace, s: ParserState, was: seq<byte>, now: seq<byte>)
    requires |now| == |was| && |r.payload| + r.tail <= |was| && Agrees(out, r, s, was, now)
    ensures ReadAs(out, r, s, was, now)
  {
    if out.Parsed? && r.payload != [] {
      var both := r.payload + was[|was| - r.tail..];
      assert now[..|both|] == both by {
        assert now[..|r.payload|] + now[|r.payload|..|both|] == now[..|both|];
      }
      assert now[..out.n] == both[..out.n];
    }
  }
}
