/** The record language the client's automaton accepts, and what the parser's answers are worth. */
module TlsRecords {
  import opened Bytes
  import opened TlsParser

  /** A record on the wire: type, version 3.minor, two length bytes, body. */
  datatype Record = Record(kind: byte, minor: byte, hi: byte, lo: byte, body: seq<byte>)

  function Encode(r: Record): seq<byte>
  {
    [r.kind, 0x03, r.minor, r.hi, r.lo] + r.body
  }

  function EncodeAll(rs: seq<Record>): seq<byte>
  {
    if rs == [] then [] else Encode(rs[0]) + EncodeAll(rs[1..])
  }

  function BodyLength(step: nat, hi: byte, lo: byte): nat
  {
    if step == 0 then SERVER_HELLO_LEN else if step == 1 then 1 else hi * 256 + lo
  }

  function StepAfter(step: nat, r: Record): nat
  {
    if r.body == [] || step < 3 then step + 1 else step
  }

  /** The records a client expects from position `step` of the handshake on. The length bytes of
      the hello and of the change cipher spec are free; an empty record at the data position leaves
      the tables, so nothing may follow it. */
  predicate WellFormed(step: nat, rs: seq<Record>)
    decreases |rs|
  {
    if rs == [] then true
    else
      && step < 4
      && rs[0].kind == RecordTypeAt(step)
      && rs[0].minor == VersionMinorAt(step)
      && |rs[0].body| == BodyLength(step, rs[0].hi, rs[0].lo)
      && (step > 1 ==> |rs[0].body| <= MAX_TLS_DATA_LEN)
      && WellFormed(StepAfter(step, rs[0]), rs[1..])
  }

  /** The bodies from the third record on. */
  function Payload(step: nat, rs: seq<Record>): seq<byte>
    decreases |rs|
  {
    if rs == [] then []
    else (if step >= 2 then rs[0].body else []) + Payload(StepAfter(step, rs[0]), rs[1..])
  }

  function FinalStep(step: nat, rs: seq<Record>): nat
    decreases |rs|
  {
    if rs == [] then step else FinalStep(StepAfter(step, rs[0]), rs[1..])
  }

  function Boundary(step: nat): ParserState
  {
    ParserState(step, RecordType, 0)
  }

  /** The five header bytes of an acceptable record, from a record boundary. */
  lemma RunHeaderBytes(step: nat, r: Record)
    requires step < 4 && r.kind == RecordTypeAt(step) && r.minor == VersionMinorAt(step)
    ensures var len := BodyLength(step, r.hi, r.lo);
            Run(Boundary(step), [r.kind, 0x03, r.minor, r.hi, r.lo]) ==
            if step > 1 && len > MAX_TLS_DATA_LEN then Trace(ParserState(step, Length1, len), [], 4, Failed(MaxDataLen))
            else if len > 0 then Trace(ParserState(step, Data, len), [], 5, Running)
            else Trace(Boundary(step + 1), [], 5, Running)
  {
    var len := BodyLength(step, r.hi, r.lo);
    if step >= 2 {
      LengthField(step, r.hi, r.lo);
    }
    var s1, s2, s3 := ParserState(step, Version0, 0), ParserState(step, Version1, 0), ParserState(step, Length0, 0);
    var s4 := ParserState(step, Length1, r.hi * 256);
    var last := HeaderStep(s4, r.lo);
    RunHeader(s4, [r.lo]);
    assert Run(last.0, []) == Trace(last.0, [], 0, Running);
    RunHeader(s3, [r.hi, r.lo]);
    RunHeader(s2, [r.minor, r.hi, r.lo]);
    RunHeader(s1, [0x03, r.minor, r.hi, r.lo]);
    RunHeader(Boundary(step), [r.kind, 0x03, r.minor, r.hi, r.lo]);
  }

  /** What the automaton checks of each header: the type, the version and, from the third record on,
      the length; the first two records have the lengths of a hello and a change cipher spec
      whatever their length bytes say. */
  lemma HeaderIsChecked(step: nat, x: byte, hi: byte, lo: byte)
    requires step < 4
    ensures var kind: byte, minor: byte := [0x16, 0x14, 0x16, 0x17][step], [1, 3, 3, 3][step];
            && (x != kind ==> Run(Boundary(step), [x]).status == Failed(BadType))
            && (x != 3 ==> Run(Boundary(step), [kind, x]).status == Failed(BadMajorVersion))
            && (x != minor ==> Run(Boundary(step), [kind, 3, x]).status == Failed(BadMinorVersion))
            && var r := Run(Boundary(step), [kind, 3, minor, hi, lo]);
               && (r.status == if step >= 2 && hi * 256 + lo > 16384 then Failed(MaxDataLen) else Running)
               && (step == 0 ==> r.state == ParserState(0, Data, 91))
               && (step == 1 ==> r.state == ParserState(1, Data, 1))
               && (step >= 2 && 0 < hi * 256 + lo <= 16384 ==> r.state == ParserState(step, Data, hi * 256 + lo))
  {
    var kind: byte, minor: byte := [0x16, 0x14, 0x16, 0x17][step], [1, 3, 3, 3][step];
    RunHeaderBytes(step, Record(kind, minor, hi, lo, []));
    hide Run, HeaderStep;
    HeaderIsRefused(step, kind, minor, x);
  }

  lemma HeaderIsRefused(step: nat, kind: byte, minor: byte, x: byte)
    requires step < 4 && kind == RecordTypeAt(step) && minor == VersionMinorAt(step)
    ensures x != kind ==> Run(Boundary(step), [x]).status == Failed(BadType)
    ensures x != 3 ==> Run(Boundary(step), [kind, x]).status == Failed(BadMajorVersion)
    ensures x != minor ==> Run(Boundary(step), [kind, 3, x]).status == Failed(BadMinorVersion)
  {
    hide Run;
    RunHeader(Boundary(step), [x]);
    RunHeader(Boundary(step), [kind, x]);
    RunHeader(ParserState(step, Version0, 0), [x]);
    RunHeader(Boundary(step), [kind, 3, x]);
    RunHeader(ParserState(step, Version0, 0), [3, x]);
    RunHeader(ParserState(step, Version1, 0), [x]);
  }

  /** `whole` passes on `front` and then does what `rest` does. */
  predicate Continues(whole: Trace, front: seq<byte>, rest: Trace)
  {
    whole.state == rest.state && whole.status == rest.status && whole.payload == front + rest.payload
  }

  /** One acceptable record and what follows it. */
  lemma RunRecord(step: nat, r: Record, rest: seq<byte>)
    requires step < 4 && r.kind == RecordTypeAt(step) && r.minor == VersionMinorAt(step)
    requires |r.body| == BodyLength(step, r.hi, r.lo) && (step > 1 ==> |r.body| <= MAX_TLS_DATA_LEN)
    ensures Continues(Run(Boundary(step), Encode(r) + rest), if step >= 2 then r.body else [],
                      Run(Boundary(StepAfter(step, r)), rest))
  {
    hide HeaderStep, Run;
    var head := [r.kind, 0x03, r.minor, r.hi, r.lo];
    RunHeaderBytes(step, r);
    RunSplit(Boundary(step), head, r.body + rest);
    assert head + (r.body + rest) == Encode(r) + rest;
    if r.body != [] {
      var s := ParserState(step, Data, |r.body|);
      RunSplit(s, r.body, rest);
      RunBody(s, r.body, |r.body|);
      assert r.body[..|r.body|] == r.body;
      assert DataStep(s, |r.body|) == Boundary(StepAfter(step, r));
    } else {
      assert r.body + rest == rest;
    }
  }

  /** Soundness of the automaton as an acceptor: every well formed record sequence is read without
      error, up to the record boundary, and the payload is the record bodies in order. */
  lemma {:induction false} RunRecords(step: nat, rs: seq<Record>, rest: seq<byte>)
    requires step <= 4 && WellFormed(step, rs)
    ensures FinalStep(step, rs) <= 4
    ensures Continues(Run(Boundary(step), EncodeAll(rs) + rest), Payload(step, rs),
                      Run(Boundary(FinalStep(step, rs)), rest))
    decreases |rs|
  {
    hide HeaderStep, Run;
    if rs == [] {
      assert EncodeAll(rs) + rest == rest;
    } else {
      var step', tail := StepAfter(step, rs[0]), rs[1..];
      RunRecord(step, rs[0], EncodeAll(tail) + rest);
      assert Encode(rs[0]) + (EncodeAll(tail) + rest) == EncodeAll(rs) + rest;
      RunRecords(step', tail, rest);
      ContinuesTwice(Run(Boundary(step), EncodeAll(rs) + rest), if step >= 2 then rs[0].body else [],
                     Run(Boundary(step'), EncodeAll(tail) + rest), Payload(step', tail),
                     Run(Boundary(FinalStep(step', tail)), rest));
    }
  }

  lemma ContinuesTwice(a: Trace, front: seq<byte>, b: Trace, middle: seq<byte>, c: Trace)
    requires Continues(a, front, b) && Continues(b, middle, c)
    ensures Continues(a, front + middle, c)
  {
    assert front + (middle + c.payload) == (front + middle) + c.payload;
  }

  // ---------------------------------------------------------------------------------------
  // Completeness: nothing else is accepted
  // ---------------------------------------------------------------------------------------

  /** Bytes that end at a record boundary without an error are well formed records. */
  lemma {:induction false} AcceptedAreRecords(step: nat, bs: seq<byte>) returns (rs: seq<Record>)
    requires step <= 4
    requires Run(Boundary(step), bs).status == Running && Run(Boundary(step), bs).state.state == RecordType
    ensures WellFormed(step, rs) && EncodeAll(rs) == bs
    decreases |bs|
  {
    if bs == [] {
      return [];
    }
    var r, rest := FirstRecord(step, bs);
    hide HeaderStep, Run, WellFormed, EncodeAll;
    var tail := AcceptedAreRecords(StepAfter(step, r), rest);
    rs := [r] + tail;
    OneMoreRecord(step, r, tail);
  }

  lemma FirstRecord(step: nat, bs: seq<byte>) returns (r: Record, rest: seq<byte>)
    requires step <= 4 && bs != []
    requires Run(Boundary(step), bs).status == Running && Run(Boundary(step), bs).state.state == RecordType
    ensures step < 4 && r.kind == RecordTypeAt(step) && r.minor == VersionMinorAt(step)
    ensures |r.body| == BodyLength(step, r.hi, r.lo) && (step > 1 ==> |r.body| <= MAX_TLS_DATA_LEN)
    ensures bs == Encode(r) + rest && |rest| < |bs| && StepAfter(step, r) <= 4
    ensures var after := Run(Boundary(StepAfter(step, r)), rest);
            after.status == Running && after.state.state == RecordType
  {
    AcceptedHeader(step, bs);
    hide HeaderStep, Run, BodyLength;
    var head, more := bs[..5], bs[5..];
    var len := BodyLength(step, bs[3], bs[4]);
    assert head + more == bs;
    BodyIsThere(step, Record(bs[0], bs[2], bs[3], bs[4], []), head, more);
    r, rest := RecordAt(bs, len);
    hide Encode;
    RunRecord(step, r, rest);
  }

  lemma RecordAt(bs: seq<byte>, len: nat) returns (r: Record, rest: seq<byte>)
    requires |bs| >= 5 + len && bs[1] == 0x03
    ensures r == Record(bs[0], bs[2], bs[3], bs[4], bs[5..5 + len]) && rest == bs[5 + len..]
    ensures bs == Encode(r) + rest
  {
    r, rest := Record(bs[0], bs[2], bs[3], bs[4], bs[5..5 + len]), bs[5 + len..];
    assert bs[..5] == [r.kind, 0x03, r.minor, r.hi, r.lo];
    assert bs == bs[..5] + (bs[5..5 + len] + bs[5 + len..]);
  }

  lemma BodyIsThere(step: nat, r: Record, head: seq<byte>, more: seq<byte>)
    requires step < 4 && r.kind == RecordTypeAt(step) && r.minor == VersionMinorAt(step)
    requires head == [r.kind, 0x03, r.minor, r.hi, r.lo]
    requires Run(Boundary(step), head + more).status == Running &&
             Run(Boundary(step), head + more).state.state == RecordType
    ensures var len := BodyLength(step, r.hi, r.lo); len <= |more| && (step > 1 ==> len <= MAX_TLS_DATA_LEN)
  {
    hide HeaderStep, Run, BodyLength;
    var len := BodyLength(step, r.hi, r.lo);
    RunHeaderBytes(step, r);
    var read := Run(Boundary(step), head);
    RunSplit(Boundary(step), head, more);
    assert read.status == Running;
    if |more| < len {
      BodyCutShort(read.state, more);
    }
  }

  lemma OneMoreRecord(step: nat, r: Record, tail: seq<Record>)
    requires step < 4 && r.kind == RecordTypeAt(step) && r.minor == VersionMinorAt(step)
    requires |r.body| == BodyLength(step, r.hi, r.lo) && (step > 1 ==> |r.body| <= MAX_TLS_DATA_LEN)
    requires WellFormed(StepAfter(step, r), tail)
    ensures EncodeAll([r] + tail) == Encode(r) + EncodeAll(tail)
    ensures WellFormed(step, [r] + tail)
  {
    assert ([r] + tail)[1..] == tail;
  }

  lemma AcceptedHeader(step: nat, bs: seq<byte>)
    requires step <= 4 && bs != []
    requires Run(Boundary(step), bs).status == Running && Run(Boundary(step), bs).state.state == RecordType
    ensures step < 4 && |bs| >= 5
    ensures bs[0] == RecordTypeAt(step) && bs[1] == 0x03 && bs[2] == VersionMinorAt(step)
  {
    hide Run;
    HeaderForced(Boundary(step), bs);
    if |bs| > 1 {
      HeaderForced(ParserState(step, Version0, 0), bs[1..]);
      if |bs| > 2 {
        HeaderForced(ParserState(step, Version1, 0), bs[2..]);
        assert bs[1..][1..] == bs[2..];
        if |bs| > 3 {
          HeaderForced(ParserState(step, Length0, 0), bs[3..]);
          assert bs[2..][1..] == bs[3..];
        }
      }
    }
  }

  lemma HeaderForced(s: ParserState, bs: seq<byte>)
    requires s.Valid() && s.state != Data && bs != []
    requires Run(s, bs).status == Running && Run(s, bs).state.state == RecordType
    ensures var (s', status) := HeaderStep(s, bs[0]);
            && status == Running
            && Run(s', bs[1..]).status == Running && Run(s', bs[1..]).state.state == RecordType
            && (|bs| == 1 ==> s'.state == RecordType)
  {
    hide HeaderStep;
    RunHeader(s, bs);
  }

  lemma BodyCutShort(s: ParserState, bs: seq<byte>)
    requires s.Valid() && s.state == Data && |bs| < s.length
    ensures Run(s, bs).state.state == Data
  {
    if bs != [] {
      RunBody(s, bs, |bs|);
      assert bs[..|bs|] == bs;
    }
  }

  /** The language of the automaton: from a record boundary, a byte string is read without error
      up to a record boundary exactly when it is the encoding of well formed records. */
  lemma LanguageOfTheParser(step: nat, bs: seq<byte>)
    requires step <= 4
    ensures (Run(Boundary(step), bs).status == Running && Run(Boundary(step), bs).state.state == RecordType)
       <==> exists rs :: WellFormed(step, rs) && EncodeAll(rs) == bs
  {
    if Run(Boundary(step), bs).status == Running && Run(Boundary(step), bs).state.state == RecordType {
      var rs := AcceptedAreRecords(step, bs);
    }
    forall rs | WellFormed(step, rs) && EncodeAll(rs) == bs
      ensures Run(Boundary(step), bs).status == Running && Run(Boundary(step), bs).state.state == RecordType
    {
      RunRecords(step, rs, []);
      assert EncodeAll(rs) + [] == bs;
    }
  }

  // ---------------------------------------------------------------------------------------
  // Chunks
  // ---------------------------------------------------------------------------------------

  /** The parser over a stream that arrives in pieces. */
  function RunChunks(s: ParserState, chunks: seq<seq<byte>>): (r: Trace)
    requires s.Valid()
    ensures r.state.Valid()
    decreases |chunks|
  {
    if chunks == [] then Trace(s, [], 0, Running)
    else
      var r := Run(s, chunks[0]);
      if r.status != Running then r else Then(r, RunChunks(r.state, chunks[1..]))
  }

  /** However a stream is cut, the parser ends in the same state with the same payload and the same
      verdict as on the whole of it. */
  lemma {:induction false} ChunksDoNotMatter(s: ParserState, chunks: seq<seq<byte>>)
    requires s.Valid()
    ensures RunChunks(s, chunks) == Run(s, Flatten(chunks))
    decreases |chunks|
  {
    if chunks != [] {
      RunSplit(s, chunks[0], Flatten(chunks[1..]));
      var r := Run(s, chunks[0]);
      if r.status == Running {
        ChunksDoNotMatter(r.state, chunks[1..]);
      }
    }
  }

  /** What has arrived so far of a stream that is read without error is read without error, and
      its payload is a prefix of the payload. */
  lemma PrefixOfAccepted(s: ParserState, a: seq<byte>, b: seq<byte>)
    requires s.Valid() && Run(s, a + b).status == Running
    ensures Run(s, a).status == Running && Run(s, a).payload <= Run(s, a + b).payload
  {
    hide Run;
    RunSplit(s, a, b);
    ThenExtends(Run(s, a), Run(Run(s, a).state, b));
  }

  lemma ThenExtends(r: Trace, q: Trace)
    requires Then(r, q).status == Running
    ensures r.status == Running && r.payload <= Then(r, q).payload
  {
    assert Then(r, q).payload[..|r.payload|] == r.payload;
  }

  // ---------------------------------------------------------------------------------------
  // The count Parse returns
  // ---------------------------------------------------------------------------------------

  /** What the caller of `Read` is told it received: the first `ReturnedCount` bytes of the buffer,
      which holds the payload followed by the bytes read since. */
  function Delivered(r: Trace, bs: seq<byte>): seq<byte>
    requires |r.payload| + r.tail <= |bs|
  {
    if r.payload == [] then [] else (r.payload + bs[|bs| - r.tail..])[..ReturnedCount(r)]
  }

  /** The count is right exactly when the buffer holds no payload, ends in payload, or happens to
      end in as many header bytes as there is payload. */
  lemma DeliveredIsPayload(r: Trace, bs: seq<byte>)
    requires |r.payload| + r.tail <= |bs|
    ensures Delivered(r, bs) == r.payload <==> r.payload == [] || r.tail == 0 || r.tail == |r.payload|
  {
    if r.payload != [] && (r.tail == 0 || r.tail == |r.payload|) {
      assert Delivered(r, bs) == (r.payload + bs[|bs| - r.tail..])[..|r.payload|] == r.payload;
    }
  }

  /** Three payload bytes and the first byte of the next header: one byte is reported. */
  lemma DeliveredLoses()
    ensures var r := Run(ParserState(3, Data, 3), [7, 8, 9, 0x17]);
            r.status == Running && r.payload == [7, 8, 9] && Delivered(r, [7, 8, 9, 0x17]) == [7]
  {
    var bs: seq<byte> := [7, 8, 9, 0x17];
    RunBody(ParserState(3, Data, 3), bs, 3);
    RunSplit(ParserState(3, Data, 3), bs[..3], bs[3..]);
    RunHeader(Boundary(3), bs[3..]);
    assert bs[..3] + bs[3..] == bs;
    assert Run(ParserState(3, Version0, 0), []) == Trace(ParserState(3, Version0, 0), [], 0, Running);
  }

  /** Where the automaton can be when `tail` bytes have passed since the last payload byte. */
  predicate TailState(s: ParserState, tail: nat)
  {
    match tail
    case 0 => s.step >= 2 && (s.state == Data || (s.state == RecordType && s.step == 3))
    case 1 => s.step == 3 && s.state == Version0
    case 2 => s.step == 3 && s.state == Version1
    case 3 => s.step == 3 && s.state == Length0
    case 4 => s.step == 3 && s.state == Length1
    case 5 => (s.step == 3 && s.state == Data) || s.step == 4
    case _ => false
  }

  /** Once there is payload, the bytes since its end are the beginning of one header: the count is
      wrong only on buffers that end inside a header (or right after one) that follows payload. */
  lemma {:induction false} TailIsOneHeader(s: ParserState, bs: seq<byte>)
    requires s.Valid() && s.step <= 3
    requires Run(s, bs).status == Running && Run(s, bs).payload != []
    ensures TailState(Run(s, bs).state, Run(s, bs).tail)
    decreases |bs|
  {
    var n := |bs| - 1;
    var a, x := bs[..n], bs[n];
    assert a + [x] == bs;
    RunSplit(s, a, [x]);
    hide Run;
    var r := Run(s, a);
    if r.payload != [] {
      TailIsOneHeader(s, a);
    }
    RunByte(r.state, x);
    TailStep(r, x);
  }

  lemma TailStep(r: Trace, x: byte)
    requires r.state.Valid() && r.state.step <= 4 && r.status == Running
    requires r.payload != [] ==> TailState(r.state, r.tail)
    requires Then(r, Run(r.state, [x])).status == Running
    ensures var q := Then(r, Run(r.state, [x])); q.payload != [] ==> TailState(q.state, q.tail)
  {
    RunByte(r.state, x);
  }

  lemma RunByte(s: ParserState, x: byte)
    requires s.Valid()
    ensures Run(s, [x]) ==
      if s.state == Data then
        Trace(DataStep(s, 1), if s.step >= 2 then [x] else [], if s.step >= 2 then 0 else 1, Running)
      else var (s', status) := HeaderStep(s, x); Trace(s', [], if status == Running then 1 else 0, status)
  {
    if s.state == Data {
      RunBody(s, [x], 1);
      assert [x][..1] == [x];
    } else {
      RunHeaderByte(s, x);
    }
  }

  // ---------------------------------------------------------------------------------------
  // Buffers the loop does not survive
  // ---------------------------------------------------------------------------------------

  /** No buffer below 64 KiB stalls the parser. */
  lemma SmallBuffersNeverStall(s: ParserState, bs: seq<byte>)
    requires s.Valid() && |bs| < 0x10000
    ensures !Stalls(s, bs)
  {
    StallsExactly(s, bs);
    hide Run, Stalls;
  }

  /** Five bytes more, and a buffer that starts with the header of the hello does. */
  lemma HelloStalls(hi: byte, lo: byte, bs: seq<byte>)
    requires |bs| == 0x10005 && bs[..5] == [0x16, 0x03, 0x01, hi, lo]
    ensures Stalls(INITIAL, bs)
  {
    RunHeaderBytes(0, Record(0x16, 0x01, hi, lo, []));
    assert InBody(INITIAL, bs, 5);
    StallsExactly(INITIAL, bs);
  }

  // ---------------------------------------------------------------------------------------
  // Streams that leave the record tables
  // ---------------------------------------------------------------------------------------

  /** Right before the tables are left the automaton stands behind the last record they know. */
  lemma {:induction false} StandsAtEnd(s: ParserState, bs: seq<byte>) returns (n: nat)
    requires s.Valid() && Run(s, bs).status == OutOfRange
    ensures n < |bs| && Run(s, bs[..n]).status == Running && Run(s, bs[..n]).state == Boundary(4)
    decreases |bs|
  {
    if s == Boundary(4) {
      n := 0;
      assert Run(s, bs[..0]) == Trace(s, [], 0, Running);
    } else {
      var s' := if s.state == Data then DataStep(s, 1) else HeaderStep(s, bs[0]).0;
      var m := StandsAtEnd(s', bs[1..]);
      n := m + 1;
      assert bs[..n][1..] == bs[1..][..m];
    }
  }

  /** The parser leaves its tables exactly on streams that go on after well formed records the last of
      which is an empty one where data is expected. */
  lemma OutOfRangeExactly(step: nat, bs: seq<byte>)
    requires step <= 4
    ensures Run(Boundary(step), bs).status == OutOfRange <==>
            exists rs, rest ::
              rest != [] && WellFormed(step, rs) && FinalStep(step, rs) == 4 && EncodeAll(rs) + rest == bs
  {
    if Run(Boundary(step), bs).status == OutOfRange {
      var n := StandsAtEnd(Boundary(step), bs);
      hide Run;
      var rs := AcceptedAreRecords(step, bs[..n]);
      RunRecords(step, rs, []);
      assert EncodeAll(rs) + [] == bs[..n] &&
             Run(Boundary(FinalStep(step, rs)), []).state == Boundary(FinalStep(step, rs)) by {
        RunNothing(Boundary(FinalStep(step, rs)));
      }
      assert bs[n..] != [] && EncodeAll(rs) + bs[n..] == bs;
    }
    forall rs, rest | rest != [] && WellFormed(step, rs) && FinalStep(step, rs) == 4 && EncodeAll(rs) + rest == bs
      ensures Run(Boundary(step), bs).status == OutOfRange
    {
      RunRecords(step, rs, rest);
      RunHeader(Boundary(4), rest);
    }
  }

  lemma RunNothing(s: ParserState)
    requires s.Valid()
    ensures Run(s, []) == Trace(s, [], 0, Running)
  {
  }

  /** An empty data record is read without a complaint; the byte behind it is not. */
  lemma EmptyRecordThenByte(x: byte)
    ensures Run(Boundary(3), [0x17, 0x03, 0x03, 0, 0]).status == Running
    ensures Run(Boundary(3), [0x17, 0x03, 0x03, 0, 0, x]).status == OutOfRange
  {
    var r := Record(0x17, 0x03, 0, 0, []);
    RunHeaderBytes(3, r);
    RunRecord(3, r, [x]);
    RunHeader(Boundary(4), [x]);
    assert Encode(r) + [x] == [0x17, 0x03, 0x03, 0, 0, x];
  }
}
