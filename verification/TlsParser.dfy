/** The client side record parser of the TLS-obfuscating transport.

    `Run` is the byte-at-a-time automaton; `ObfsTLSParser.Parse` is the parser the client runs,
    which strips the record headers by shifting the payload down inside the caller's own buffer. */
module TlsParser {
  import opened Bytes

  const MAX_TLS_DATA_LEN: nat := 16384
  const SERVER_HELLO_LEN: nat := 91

  datatype RecordState = RecordType | Version0 | Version1 | Length0 | Length1 | Data

  datatype Error = BadType | BadMajorVersion | BadMinorVersion | MaxDataLen

  /** `step` counts the records of the fixed sequence hello, change cipher spec, handshake, data;
      `length` is what is left of the current record. */
  datatype ParserState = ParserState(step: nat, state: RecordState, length: nat)
  {
    /** Holds of every state the parser reaches from its zero value. */
    predicate Valid()
    {
      && step <= 4
      && (step == 4 ==> state == RecordType)
      && length < 0x10000
      && (state == Data ==> length > 0)
      && (state != Data && state != Length1 ==> length == 0)
    }
  }

  const INITIAL: ParserState := ParserState(0, RecordType, 0)

  /** OutOfRange is the index panic of the record tables: only three records precede the data. */
  datatype Status = Running | Failed(error: Error) | OutOfRange

  function RecordTypeAt(step: nat): byte
    requires step < 4
  {
    [0x16, 0x14, 0x16, 0x17][step]
  }

  function VersionMinorAt(step: nat): byte
    requires step < 4
  {
    [0x01, 0x03, 0x03, 0x03][step]
  }

  /** One byte of a record header. A failing byte leaves the automaton where it is, except that
      a length that is too large has already been stored. */
  function HeaderStep(s: ParserState, ch: byte): (r: (ParserState, Status))
    requires s.Valid() && s.state != Data
    ensures r.0.Valid()
  {
    match s.state
    case RecordType =>
      if s.step == 4 then (s, OutOfRange)
      else if ch != RecordTypeAt(s.step) then (s, Failed(BadType))
      else (s.(state := Version0), Running)
    case Version0 =>
      if ch != 0x03 then (s, Failed(BadMajorVersion)) else (s.(state := Version1), Running)
    case Version1 =>
      if ch != VersionMinorAt(s.step) then (s, Failed(BadMinorVersion)) else (s.(state := Length0), Running)
    case Length0 =>
      (s.(length := ch * 256, state := Length1), Running)
    case Length1 =>
      var len := DeclaredLength(s, ch);
      if s.step > 1 && len > MAX_TLS_DATA_LEN then (s.(length := len), Failed(MaxDataLen))
      else if len > 0 then (s.(length := len, state := Data), Running)
      else (ParserState(s.step + 1, RecordType, 0), Running)
  }

  /** The length the parser believes once it has both length bytes: the first two records have
      the fixed lengths of the server's hello and change cipher spec whatever they declare. */
  function DeclaredLength(s: ParserState, ch: byte): (len: nat)
    requires s.length < 0x10000
    ensures len < 0x10000
  {
    if s.step == 0 then SERVER_HELLO_LEN
    else if s.step == 1 then 1
    else s.length / 256 * 256 + OrByte(s.length % 256, ch)
  }

  /** A length field read byte by byte holds its big endian value. */
  lemma LengthField(step: nat, hi: byte, lo: byte)
    requires 2 <= step
    ensures DeclaredLength(ParserState(step, Length1, hi * 256), lo) == hi * 256 + lo
  {
    assert hi * 256 / 256 == hi && hi * 256 % 256 == 0;
    OrByteZero(lo);
  }

  /** `k` bytes of record body. */
  function DataStep(s: ParserState, k: nat): (r: ParserState)
    requires s.Valid() && s.state == Data && k <= s.length
    ensures r.Valid()
  {
    if k < s.length then s.(length := s.length - k)
    else ParserState(if s.step < 3 then s.step + 1 else s.step, RecordType, 0)
  }

  /** What reading a byte string does: where the automaton stops, the payload it passed on, and
      how many bytes it read since the last payload byte (all of them when there is none). */
  datatype Trace = Trace(state: ParserState, payload: seq<byte>, tail: nat, status: Status)

  /** The automaton, one byte at a time: bodies of the third record on are payload. */
  function Run(s: ParserState, bs: seq<byte>): (r: Trace)
    requires s.Valid()
    ensures r.state.Valid()
    ensures |r.payload| + r.tail <= |bs|
    ensures r.status == Running && r.payload == [] ==> r.tail == |bs|
    decreases |bs|
  {
    if bs == [] then Trace(s, [], 0, Running)
    else if s.state == Data then
      Note(if s.step >= 2 then [bs[0]] else [], Run(DataStep(s, 1), bs[1..]))
    else
      var (s', status) := HeaderStep(s, bs[0]);
      if status != Running then Trace(s', [], 0, status) else Note([], Run(s', bs[1..]))
  }

  /** One byte, passed on or not, before `r`. */
  function Note(emitted: seq<byte>, r: Trace): Trace
  {
    r.(payload := emitted + r.payload, tail := if emitted + r.payload == [] then r.tail + 1 else r.tail)
  }

  // ---------------------------------------------------------------------------------------
  // The automaton does not see where the stream was cut
  // ---------------------------------------------------------------------------------------

  /** Reading on after `r`. */
  function Then(r: Trace, q: Trace): Trace
  {
    if r.status != Running then r
    else Trace(q.state, r.payload + q.payload, if q.payload == [] then r.tail + q.tail else q.tail, q.status)
  }

  lemma NoteThen(emitted: seq<byte>, r: Trace, q: Trace)
    ensures Note(emitted, Then(r, q)) == Then(Note(emitted, r), q)
  {
    assert emitted + (r.payload + q.payload) == (emitted + r.payload) + q.payload;
  }

  /** Reading two pieces one after the other is reading them joined: same state, same payload,
      same verdict. */
  lemma {:induction false} RunSplit(s: ParserState, a: seq<byte>, b: seq<byte>)
    requires s.Valid()
    ensures Run(s, a + b) == Then(Run(s, a), Run(Run(s, a).state, b))
    decreases |a|
  {
    if a == [] {
      assert a + b == b;
      assert Then(Run(s, a), Run(s, b)) == Run(s, b) by {
        assert [] + Run(s, b).payload == Run(s, b).payload;
      }
    } else {
      assert (a + b)[1..] == a[1..] + b;
      if s.state == Data {
        var emitted := if s.step >= 2 then [a[0]] else [];
        RunSplit(DataStep(s, 1), a[1..], b);
        NoteThen(emitted, Run(DataStep(s, 1), a[1..]), Run(Run(s, a).state, b));
      } else {
        var (s', status) := HeaderStep(s, a[0]);
        if status == Running {
          RunSplit(s', a[1..], b);
          NoteThen([], Run(s', a[1..]), Run(Run(s, a).state, b));
        }
      }
    }
  }

  /** Up to the end of the record body the automaton copies. */
  lemma {:induction false} RunBody(s: ParserState, bs: seq<byte>, k: nat)
    requires s.Valid() && s.state == Data
    requires 0 < k <= s.length && k <= |bs|
    ensures Run(s, bs[..k]) ==
            Trace(DataStep(s, k), if s.step >= 2 then bs[..k] else [], if s.step >= 2 then 0 else k, Running)
    decreases k
  {
    hide HeaderStep;
    var c, s1 := bs[..k], DataStep(s, 1);
    assert c[1..] == bs[1..][..k - 1];
    assert Run(s, c) == Note(if s.step >= 2 then [c[0]] else [], Run(s1, c[1..]));
    if k > 1 {
      RunBody(s1, bs[1..], k - 1);
      assert s1.step == s.step && DataStep(s1, k - 1) == DataStep(s, k);
      assert [c[0]] + c[1..] == c;
    } else {
      assert c == [bs[0]] && c[1..] == [];
      assert Run(s1, []) == Trace(s1, [], 0, Running);
    }
  }

  // ---------------------------------------------------------------------------------------
  // The parser
  // ---------------------------------------------------------------------------------------

  datatype ParseOutcome =
    | Parsed(n: nat)           // (n, nil)
    | Rejected(error: Error)   // (0, err)
    | IndexPanic               // the record tables are indexed past their end
    | Spins                    // the loop makes no progress and never ends

  /** Whether the loop comes to a point where the 16 bit truncation of what is left of the buffer
      is zero while the record still wants bytes. `Parse` looks at a record body all at once, so
      the question only arises where it looks. */
  predicate Stalls(s: ParserState, bs: seq<byte>)
    requires s.Valid()
    decreases |bs|
  {
    if bs == [] then false
    else if s.state == Data then
      var left := Min(|bs| % 0x10000, s.length);
      left == 0 || Stalls(DataStep(s, left), bs[left..])
    else
      var (s', status) := HeaderStep(s, bs[0]);
      status == Running && Stalls(s', bs[1..])
  }

  predicate Multiple64K(n: int)
  {
    n % 0x10000 == 0
  }

  /** After `n` bytes of the buffer the automaton is inside a record body, and what is left of the
      buffer is a multiple of 64 KiB. */
  ghost predicate InBody(s: ParserState, bs: seq<byte>, n: nat)
    requires s.Valid()
  {
    && n < |bs| && Multiple64K(|bs| - n)
    && Run(s, bs[..n]).status == Running && Run(s, bs[..n]).state.state == Data
  }

  /** The loop stalls exactly on the buffers that have such a place. */
  lemma {:induction false} StallsExactly(s: ParserState, bs: seq<byte>)
    requires s.Valid()
    ensures Stalls(s, bs) <==> exists n: nat :: InBody(s, bs, n)
    decreases |bs|
  {
    hide Run, Stalls, HeaderStep, InBody;
    if bs == [] {
      StallsNowhere(s, bs);
    } else if s.state == Data {
      StallsBody(s, bs);
      var left := Min(|bs| % 0x10000, s.length);
      if left == 0 {
        StallsHere(s, bs);
      } else {
        StallsExactly(DataStep(s, left), bs[left..]);
        RunBody(s, bs, left);
        forall n: nat ensures InBody(s, bs, n) <==> n >= left && InBody(DataStep(s, left), bs[left..], n - left) {
          if n >= left {
            InBodyLater(s, bs, left, DataStep(s, left), n);
          } else {
            NotBefore(s, bs, n);
          }
        }
        forall m: nat ensures InBody(DataStep(s, left), bs[left..], m) ==> InBody(s, bs, m + left) {
          assert m + left - left == m;
        }
      }
    } else {
      var (s', status) := HeaderStep(s, bs[0]);
      StallsHeader(s, bs);
      StepOne(s, bs);
      forall n: nat ensures InBody(s, bs, n) <==> status == Running && n >= 1 && InBody(s', bs[1..], n - 1) {
        InBodyAfterHeader(s, bs, n);
      }
      if status == Running {
        StallsExactly(s', bs[1..]);
        forall m: nat ensures InBody(s', bs[1..], m) ==> InBody(s, bs, m + 1) {
          assert m + 1 - 1 == m;
        }
      }
    }
  }

  lemma StallsNowhere(s: ParserState, bs: seq<byte>)
    requires s.Valid() && bs == []
    ensures !Stalls(s, bs) && forall n: nat :: !InBody(s, bs, n)
  {
  }

  lemma StallsHere(s: ParserState, bs: seq<byte>)
    requires s.Valid() && s.state == Data && bs != [] && |bs| % 0x10000 == 0
    ensures InBody(s, bs, 0)
  {
    assert Run(s, bs[..0]) == Trace(s, [], 0, Running);
  }

  lemma NotBefore(s: ParserState, bs: seq<byte>, n: nat)
    requires s.Valid() && n < |bs| % 0x10000
    ensures !InBody(s, bs, n)
  {
    hide Run;
  }

  lemma RunLater(s: ParserState, bs: seq<byte>, k: nat, s': ParserState, n: nat)
    requires s.Valid() && s'.Valid() && k <= n <= |bs|
    requires Run(s, bs[..k]).status == Running && Run(s, bs[..k]).state == s'
    ensures Run(s, bs[..n]).status == Run(s', bs[k..][..n - k]).status
    ensures Run(s, bs[..n]).state == Run(s', bs[k..][..n - k]).state
  {
    hide Run;
    assert bs[..n] == bs[..k] + bs[k..][..n - k];
    RunSplit(s, bs[..k], bs[k..][..n - k]);
  }

  lemma InBodyLater(s: ParserState, bs: seq<byte>, k: nat, s': ParserState, n: nat)
    requires s.Valid() && s'.Valid() && k <= n && k <= |bs|
    requires Run(s, bs[..k]).status == Running && Run(s, bs[..k]).state == s'
    ensures InBody(s, bs, n) <==> InBody(s', bs[k..], n - k)
  {
    hide Run, Multiple64K;
    if n < |bs| {
      RunLater(s, bs, k, s', n);
    }
    assert |bs[k..]| - (n - k) == |bs| - n;
  }

  /** The automaton's first byte of a header. */
  lemma StepOne(s: ParserState, bs: seq<byte>)
    requires s.Valid() && s.state != Data && bs != []
    ensures Run(s, bs[..1]).state == HeaderStep(s, bs[0]).0 && Run(s, bs[..1]).status == HeaderStep(s, bs[0]).1
  {
    assert bs[..1] == [bs[0]];
    RunHeaderByte(s, bs[0]);
  }

  lemma InBodyAfterHeader(s: ParserState, bs: seq<byte>, n: nat)
    requires s.Valid() && s.state != Data && bs != []
    ensures var (s', status) := HeaderStep(s, bs[0]);
            InBody(s, bs, n) <==> status == Running && n >= 1 && InBody(s', bs[1..], n - 1)
  {
    hide HeaderStep;
    var (s', status) := HeaderStep(s, bs[0]);
    if n == 0 {
      assert Run(s, bs[..0]) == Trace(s, [], 0, Running);
    } else {
      StepOne(s, bs);
      if status == Running {
        InBodyLater(s, bs, 1, s', n);
      } else if n <= |bs| {
        RunHeader(s, bs[..n]);
      }
    }
  }

  /** The count `Parse` returns for a buffer it accepts. */
  function ReturnedCount(r: Trace): nat
  {
    if r.payload == [] then 0
    else if r.tail > 0 then r.tail
    else |r.payload|
  }

  class ObfsTLSParser {
    var step: nat
    var state: RecordState
    var length: nat

    ghost predicate Valid()
      reads this
    {
      State().Valid()
    }

    ghost function State(): ParserState
      reads this
    {
      ParserState(step, state, length)
    }

    constructor ()
      ensures Valid() && State() == INITIAL
    {
      step, state, length := 0, RecordType, 0;
    }

    /** One header byte. */
    method ParseHeader(ch: byte) returns (status: Status)
      requires Valid() && state != Data
      modifies this
      ensures Valid() && (State(), status) == HeaderStep(old(State()), ch)
    {
      match state {
        case RecordType =>
          if step >= 4 {
            return OutOfRange;
          }
          if RecordTypeAt(step) != ch {
            return Failed(BadType);
          }
          state := Version0;
        case Version0 =>
          if ch != 0x03 {
            return Failed(BadMajorVersion);
          }
          state := Version1;
        case Version1 =>
          if ch != VersionMinorAt(step) {
            return Failed(BadMinorVersion);
          }
          state := Length0;
        case Length0 =>
          length := ch * 256;
          state := Length1;
        case Length1 =>
          length := length / 256 * 256 + OrByte(length % 256, ch);
          if step == 0 {
            length := SERVER_HELLO_LEN;
          } else if step == 1 {
            length := 1;
          } else if length > MAX_TLS_DATA_LEN {
            return Failed(MaxDataLen);
          }
          if length > 0 {
            state := Data;
          } else {
            state := RecordType;
            step := step + 1;
          }
      }
      return Running;
    }

    /** `left` bytes of record body at `i`: payload is moved down to `last`, along with everything
        after it, closing the gap the headers left. */
    method ParseBody(b: array<byte>, size: nat, i: nat, last: nat, end: nat, left: nat)
      returns (i': nat, last': nat, end': nat)
      requires Valid() && state == Data
      requires last <= i && i + left <= end <= size <= b.Length && 0 < left <= length
      modifies this, b
      ensures Valid() && State() == DataStep(old(State()), left)
      ensures Shifted(old(step >= 2), old(b[..size]), i, last, end, left, b[..size], i', last', end')
      ensures b[size..] == old(b[size..])
    {
      i', last', end' := i, last, end;
      if step >= 2 {
        var skip := i - last;
        Copy(b, size, last, i, end);
        CopyShifts(old(b[..size]), b[..size], i, last, end, left);
        end' := end - skip;
        last' := last + left;
        i' := last';
      } else {
        i' := i + left;
      }
      length := length - left;
      if length == 0 {
        if step < 3 {
          step := step + 1;
        }
        state := RecordType;
      }
    }

    /** The parser in place, on the slice `b[:size]` of any length: it spins exactly when some multiple
        of 64 KiB of the slice is left unread inside a record body. Otherwise it ends in the
        automaton's state and verdict with the automaton's payload at the front of the slice,
        followed by the bytes read since. */
    method Parse(b: array<byte>, size: nat) returns (out: ParseOutcome)
      requires Valid() && size <= b.Length
      modifies this, b
      ensures Valid()
      ensures out.Spins? <==> exists n: nat :: InBody(old(State()), old(b[..size]), n)
      ensures !out.Spins? ==> Agrees(out, Run(old(State()), old(b[..size])), State(), old(b[..size]), b[..size])
      ensures var r := Run(old(State()), old(b[..size]));
              && (!out.Spins? ==> State() == r.state)
              && (out.IndexPanic? ==> r.status == OutOfRange) && (out.Rejected? ==> r.status == Failed(out.error))
              && (out.Parsed? ==>
                    && r.status == Running && b[..size][..|r.payload|] == r.payload
                    && out.n == if r.payload == [] then 0 else if r.tail == 0 then |r.payload| else r.tail)
      ensures b[size..] == old(b[size..])
    {
      hide Layout, At, Stalls, Run, InBody;
      StallsExactly(State(), b[..size]);
      ghost var s0, bs := State(), b[..size];
      ghost var p: nat := 0;            // how much of the buffer's first contents has been read
      ghost var s, buf := s0, bs;       // the parser and the buffer now
      var i: nat, last: nat, length': nat := 0, 0, size;
      InvStart(s0, bs);
      while i < length'
        invariant State() == s && b[..size] == buf && s.Valid() && i <= length' <= size
        invariant b[size..] == old(b[size..])
        invariant Inv(s0, bs, p, s, buf, i, last, length')
        decreases length' - i
      {
        var ch := b[i];
        ghost var s1, buf1 := s, buf;
        if state == Data {
          var left := (length' - i) % 0x10000;
          if left > length {
            left := length;
          }
          if left == 0 {
            InvStall(s0, bs, p, s, buf, i, last, length');
            return Spins;
          }
          ghost var i1: nat, last1: nat, end1: nat := i, last, length';
          i, last, length' := ParseBody(b, size, i, last, length', left);
          s, buf := State(), b[..size];
          InvBody(s0, bs, p, s1, buf1, i1, last1, end1, left, buf, i, last, length', s);
          p := p + left;
        } else {
          var status := ParseHeader(ch);
          s := State();
          InvHeader(s0, bs, p, s1, buf, i, last, length', s, status);
          if status != Running {
            return if status.Failed? then Rejected(status.error) else IndexPanic;
          }
          i := i + 1;
          p := p + 1;
        }
      }
      InvEnd(s0, bs, p, s, buf, i, last, length');
      if last == 0 {
        return Parsed(0);
      } else if last < length' {
        length' := length' - last;
      }
      return Parsed(length');
    }
  }

  /** `copy(b[last:], b[i:end])`, whose source and destination may overlap. */
  method Copy(b: array<byte>, size: nat, last: nat, i: nat, end: nat)
    requires last <= i <= end <= size <= b.Length
    modifies b
    ensures b[..size][..last] == old(b[..size])[..last]
    ensures b[..size][last..last + (end - i)] == old(b[..size])[i..end]
    ensures b[size..] == old(b[size..])
  {
    forall k | 0 <= k < end - i {
      b[last + k] := b[i + k];
    }
    ghost var was, now := old(b[..size]), b[..size];
    forall k | 0 <= k < last ensures now[..last][k] == was[..last][k] {
      assert b[k] == old(b[k]);
    }
    assert now[..last] == was[..last];
    forall k | 0 <= k < end - i ensures now[last..last + (end - i)][k] == was[i..end][k] {
      assert b[last + k] == old(b[i + k]);
    }
  }

  // ---------------------------------------------------------------------------------------
  // The parser's loop invariant
  // ---------------------------------------------------------------------------------------

  /** What `Parse` left behind agrees with the automaton. */
  ghost predicate Agrees(out: ParseOutcome, r: Trace, state: ParserState, was: seq<byte>, now: seq<byte>)
    requires |now| == |was| && |r.payload| + r.tail <= |was|
  {
    && state == r.state
    && (match out
        case Parsed(n) => r.status == Running && n == ReturnedCount(r)
        case Rejected(e) => r.status == Failed(e)
        case IndexPanic => r.status == OutOfRange
        case Spins => false)
    && (out.Parsed? ==>
          && now[..|r.payload|] == r.payload
          && (r.payload != [] ==> now[|r.payload|..|r.payload| + r.tail] == was[|was| - r.tail..]))
  }

  /** The first `p` bytes brought the automaton to `s` with this payload and tail. */
  ghost predicate At(s0: ParserState, bs: seq<byte>, p: nat, s: ParserState, payload: seq<byte>, tail: nat)
    requires s0.Valid() && p <= |bs|
  {
    Run(s0, bs[..p]) == Trace(s, payload, tail, Running)
  }

  lemma AtThen(s0: ParserState, bs: seq<byte>, p: nat, q: nat, r: Trace)
    requires s0.Valid() && p <= q <= |bs| && Run(s0, bs[..p]) == r
    ensures r.state.Valid() && Run(s0, bs[..q]) == Then(r, Run(r.state, bs[p..q]))
  {
    hide Run, Then;
    var front, more := bs[..p], bs[p..q];
    assert front + more == bs[..q];
    RunSplit(s0, front, more);
  }

  lemma AtBody(s0: ParserState, bs: seq<byte>, p: nat, s: ParserState, payload: seq<byte>, tail: nat, k: nat)
    requires s0.Valid() && p + k <= |bs| && At(s0, bs, p, s, payload, tail)
    requires s.Valid() && s.state == Data && 0 < k <= s.length
    ensures s.step >= 2 ==> At(s0, bs, p + k, DataStep(s, k), payload + bs[p..p + k], 0)
    ensures s.step < 2 ==> At(s0, bs, p + k, DataStep(s, k), payload, tail + k)
  {
    AtThen(s0, bs, p, p + k, Trace(s, payload, tail, Running));
    RunBody(s, bs[p..p + k], k);
    hide Run;
    assert bs[p..p + k][..k] == bs[p..p + k];
    assert payload + [] == payload;
  }

  lemma AtHeader(s0: ParserState, bs: seq<byte>, p: nat, s: ParserState, payload: seq<byte>, tail: nat)
    requires s0.Valid() && p < |bs| && At(s0, bs, p, s, payload, tail)
    requires s.Valid() && s.state != Data
    ensures var (s', status) := HeaderStep(s, bs[p]);
            if status == Running then At(s0, bs, p + 1, s', payload, tail + 1)
            else Run(s0, bs).state == s' && Run(s0, bs).status == status
  {
    if HeaderStep(s, bs[p]).1 == Running {
      AtThen(s0, bs, p, p + 1, Trace(s, payload, tail, Running));
      RunHeaderByte(s, bs[p]);
      hide Run, HeaderStep;
      assert bs[p..p + 1] == [bs[p]];
    } else {
      AtThen(s0, bs, p, |bs|, Trace(s, payload, tail, Running));
      RunHeader(s, bs[p..|bs|]);
      hide Run, HeaderStep;
      assert bs[..|bs|] == bs;
    }
    assert payload + [] == payload;
  }

  lemma RunHeaderByte(s: ParserState, x: byte)
    requires s.Valid() && s.state != Data
    ensures var (s', status) := HeaderStep(s, x);
            Run(s, [x]) == Trace(s', [], if status == Running then 1 else 0, status)
  {
    RunHeader(s, [x]);
    var s' := HeaderStep(s, x).0;
    assert Run(s', []) == Trace(s', [], 0, Running);
  }

  lemma RunHeader(s: ParserState, bs: seq<byte>)
    requires s.Valid() && s.state != Data && bs != []
    ensures var (s', status) := HeaderStep(s, bs[0]);
            Run(s, bs) == if status != Running then Trace(s', [], 0, status) else Note([], Run(s', bs[1..]))
  {
  }

  /** What moving one piece of record body does to the buffer and the three positions. */
  ghost predicate Shifted(payload: bool, was: seq<byte>, i: nat, last: nat, end: nat, left: nat,
                          now: seq<byte>, i': nat, last': nat, end': nat)
    requires last <= i && i + left <= end <= |was|
  {
    && |now| == |was| && last' <= i' <= end' <= |now| && end' - i' == end - i - left
    && now[i'..end'] == was[i + left..end]
    && if payload then last' == i' == last + left && now[..last'] == was[..last] + was[i..i + left]
       else i' == i + left && last' == last && end' == end && now == was
  }

  lemma CopyShifts(was: seq<byte>, now: seq<byte>, i: nat, last: nat, end: nat, left: nat)
    requires last <= i && i + left <= end <= |was| == |now|
    requires now[..last] == was[..last] && now[last..last + (end - i)] == was[i..end]
    ensures Shifted(true, was, i, last, end, left, now, last + left, last + left, end - (i - last))
  {
    SliceOfSlice(was, i, end, 0, left);
    SliceOfSlice(was, i, end, left, end - i);
    SliceOfSlice(now, last, last + (end - i), 0, left);
    SliceOfSlice(now, last, last + (end - i), left, end - i);
    assert now[..last + left] == now[..last] + now[last..last + left];
  }

  /** After reading the first `p` bytes of `bs`: the payload so far fills the buffer up to `last`,
      the header bytes read since lie between `last` and `i`, and what is left to read lies
      between `i` and `end`. */
  ghost predicate Inv(s0: ParserState, bs: seq<byte>, p: nat, s: ParserState, buf: seq<byte>, i: nat, last: nat,
                      end: nat)
    requires s0.Valid() && s.Valid()
  {
    && Layout(bs, p, s.step >= 2, buf, i, last, end)
    && At(s0, bs, p, s, buf[..last], Since(p, i, last))
    && (Stalls(s0, bs) <==> Stalls(s, bs[p..]))
  }

  ghost predicate Layout(bs: seq<byte>, p: nat, payload: bool, buf: seq<byte>, i: nat, last: nat, end: nat)
  {
    && last <= i <= end <= |buf| == |bs|
    && p <= |bs| && end - i == |bs| - p
    && buf[i..end] == bs[p..]
    && (last > 0 ==> payload && i - last <= p && buf[last..i] == bs[p - (i - last)..p])
    && (last == 0 ==> i == p && end == |buf|)
  }

  /** How many bytes have been read since the last payload byte. */
  function Since(p: nat, i: nat, last: nat): nat
    requires last <= i
  {
    if last > 0 then i - last else p
  }

  lemma InvStart(s0: ParserState, bs: seq<byte>)
    requires s0.Valid()
    ensures Inv(s0, bs, 0, s0, bs, 0, 0, |bs|)
  {
    assert bs[0..] == bs;
  }

  lemma InvStall(s0: ParserState, bs: seq<byte>, p: nat, s: ParserState, buf: seq<byte>, i: nat, last: nat, end: nat)
    requires s0.Valid() && s.Valid() && s.state == Data && i < end
    requires Inv(s0, bs, p, s, buf, i, last, end) && Min((end - i) % 0x10000, s.length) == 0
    ensures Stalls(s0, bs)
  {
  }

  lemma LayoutBody(bs: seq<byte>, p: nat, payload: bool, payload': bool, buf: seq<byte>, i: nat, last: nat, end: nat,
                   left: nat, buf': seq<byte>, i': nat, last': nat, end': nat)
    requires Layout(bs, p, payload, buf, i, last, end)
    requires 0 < left && i + left <= end && Shifted(payload, buf, i, last, end, left, buf', i', last', end')
    requires payload ==> payload'
    ensures Layout(bs, p + left, payload', buf', i', last', end')
    ensures buf[i..i + left] == bs[p..p + left]
    ensures bs[p..][left..] == bs[p + left..]
  {
    SliceOfSlice(buf, i, end, 0, left);
    SliceOfSlice(bs, p, |bs|, 0, left);
    SliceOfSlice(buf, i, end, left, end - i);
    SliceOfSlice(bs, p, |bs|, left, |bs| - p);
    assert bs[p..|bs|] == bs[p..] == buf[i..end];
    assert buf[i..i + left] == buf[i..end][0..left] == bs[p..p + left];
    assert bs[p..][left..] == bs[p..|bs|][left..|bs| - p] == bs[p + left..];
  }

  lemma SliceOfSlice(s: seq<byte>, i: nat, end: nat, a: nat, b: nat)
    requires a <= b && i + b <= end <= |s|
    ensures s[i..end][a..b] == s[i + a..i + b]
  {
    var x, y := s[i..end][a..b], s[i + a..i + b];
    forall k | 0 <= k < b - a ensures x[k] == y[k] {
      assert s[i..end][a + k] == s[i + a + k];
    }
  }

  lemma InvBody(s0: ParserState, bs: seq<byte>, p: nat, s: ParserState, buf: seq<byte>, i: nat, last: nat, end: nat,
                left: nat, buf': seq<byte>, i': nat, last': nat, end': nat, s': ParserState)
    requires s0.Valid() && s.Valid() && s.state == Data && i < end
    requires Inv(s0, bs, p, s, buf, i, last, end)
    requires 0 < left == Min((end - i) % 0x10000, s.length) && s' == DataStep(s, left)
    requires i + left <= end && Shifted(s.step >= 2, buf, i, last, end, left, buf', i', last', end')
    ensures Inv(s0, bs, p + left, s', buf', i', last', end')
  {
    assert last <= i < end <= |buf| == |bs| && p < |bs| && |bs[p..]| == end - i;
    hide Layout, At, Run, Stalls, HeaderStep;
    LayoutBody(bs, p, s.step >= 2, DataStep(s, left).step >= 2, buf, i, last, end, left, buf', i', last', end');
    AtBody(s0, bs, p, s, buf[..last], Since(p, i, last), left);
    StallsBody(s, bs[p..]);
  }

  lemma StallsBody(s: ParserState, bs: seq<byte>)
    requires s.Valid() && s.state == Data && bs != []
    ensures var left := Min(|bs| % 0x10000, s.length);
            Stalls(s, bs) <==> left == 0 || Stalls(DataStep(s, left), bs[left..])
  {
  }

  lemma LayoutHeader(bs: seq<byte>, p: nat, payload: bool, payload': bool, buf: seq<byte>, i: nat, last: nat, end: nat)
    requires Layout(bs, p, payload, buf, i, last, end) && i < end && (payload ==> payload')
    ensures buf[i] == bs[p]
    ensures Layout(bs, p + 1, payload', buf, i + 1, last, end)
    ensures bs[p..][1..] == bs[p + 1..]
  {
    assert buf[i..end][0] == bs[p..][0];
    SliceOfSlice(buf, i, end, 1, end - i);
    SliceOfSlice(bs, p, |bs|, 1, |bs| - p);
    assert bs[p..|bs|] == bs[p..] == buf[i..end];
    assert buf[i + 1..end] == bs[p + 1..];
    if last > 0 {
      var q := p - (i - last);
      assert buf[last..i + 1] == buf[last..i] + [buf[i]] == bs[q..p] + [bs[p]] == bs[q..p + 1];
    }
  }

  lemma InvHeader(s0: ParserState, bs: seq<byte>, p: nat, s: ParserState, buf: seq<byte>, i: nat, last: nat, end: nat,
                  s': ParserState, status: Status)
    requires s0.Valid() && s.Valid() && s.state != Data && i < end
    requires Inv(s0, bs, p, s, buf, i, last, end) && (s', status) == HeaderStep(s, buf[i])
    ensures status == Running ==> Inv(s0, bs, p + 1, s', buf, i + 1, last, end)
    ensures status != Running ==> !Stalls(s0, bs)
    ensures status.Failed? ==> Agrees(Rejected(status.error), Run(s0, bs), s', bs, buf)
    ensures status.OutOfRange? ==> Agrees(IndexPanic, Run(s0, bs), s', bs, buf)
  {
    assert last <= i < end <= |buf| == |bs| && p < |bs|;
    hide Layout, At, Run, Stalls;
    LayoutHeader(bs, p, s.step >= 2, HeaderStep(s, buf[i]).0.step >= 2, buf, i, last, end);
    AtHeader(s0, bs, p, s, buf[..last], Since(p, i, last));
    StallsHeader(s, bs[p..]);
  }

  lemma StallsHeader(s: ParserState, bs: seq<byte>)
    requires s.Valid() && s.state != Data && bs != []
    ensures var (s', status) := HeaderStep(s, bs[0]);
            Stalls(s, bs) <==> status == Running && Stalls(s', bs[1..])
  {
  }

  lemma InvEnd(s0: ParserState, bs: seq<byte>, p: nat, s: ParserState, buf: seq<byte>, i: nat, last: nat, end: nat)
    requires s0.Valid() && s.Valid() && i == end
    requires Inv(s0, bs, p, s, buf, i, last, end)
    ensures !Stalls(s0, bs)
    ensures Agrees(Parsed(if last == 0 then 0 else if last < end then end - last else end), Run(s0, bs), s, bs, buf)
  {
    assert bs[..p] == bs && bs[p..] == [];
    assert !Stalls(s, bs[p..]);
    hide Run, Stalls;
    assert Run(s0, bs) == Trace(s, buf[..last], Since(p, i, last), Running);
  }
}
