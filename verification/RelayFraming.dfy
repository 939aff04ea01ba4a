/** Datagrams over a relay stream: a two-byte length before each, a header kept back until the first
    write, a response to take off before the first read. */
module RelayFraming {
  import opened Bytes

  const MAX := 65535

  function Length(n: nat): (r: seq<byte>)
    requires n <= MAX
    ensures |r| == 2
  {
    [n / 256, n % 256]
  }

  function LengthOf(bb: seq<byte>): nat
    requires |bb| >= 2
  {
    var hi: int := bb[0];
    var lo: int := bb[1];
    hi * 256 + lo
  }

  function Frame(d: seq<byte>): seq<byte>
    requires |d| <= MAX
  {
    Length(|d|) + d
  }

  /** On the wire a datagram has its length before it, the high byte first. */
  lemma FrameOnTheWire(d: seq<byte>)
    requires |d| <= 65535
    ensures |Frame(d)| == 2 + |d| && Frame(d)[0] as int * 256 + Frame(d)[1] as int == |d| && Frame(d)[2..] == d
  {
  }

  predicate Sendable(d: seq<byte>)
  {
    |d| <= MAX
  }

  predicate AllSendable(ds: seq<seq<byte>>)
  {
    forall i :: 0 <= i < |ds| ==> Sendable(ds[i])
  }

  function Frames(ds: seq<seq<byte>>): seq<byte>
    requires AllSendable(ds)
  {
    if ds == [] then [] else Frame(ds[0]) + Frames(ds[1..])
  }

  /** One read into a buffer of `size` bytes: what it yields and what is left of the stream, or, with
      the stream ending inside a datagram, an error. */
  datatype ReadResult = Got(data: seq<byte>, rest: seq<byte>) | Broken

  function ReadOne(stream: seq<byte>, size: nat): ReadResult
  {
    if |stream| < 2 then Broken
    else
      var dlen: nat := LengthOf(stream);
      if |stream| < 2 + dlen then Broken
      else Got(stream[2..2 + Min(size, dlen)], stream[2 + dlen..])
  }

  /** First the length, then the datagram. */
  lemma ReadOneInTwo(stream: seq<byte>, size: nat)
    requires |stream| >= 2
    ensures var (dlen, tail) := (LengthOf(stream[..2]), stream[2..]);
            ReadOne(stream, size) == if |tail| < dlen then Broken
                                     else Got(tail[..dlen][..Min(size, dlen)], tail[dlen..])
  {
    var dlen, tail := LengthOf(stream[..2]), stream[2..];
    if |tail| >= dlen {
      assert stream[2..2 + Min(size, dlen)] == tail[..dlen][..Min(size, dlen)] && stream[2 + dlen..] == tail[dlen..];
    }
  }

  /** A framed datagram is read back, cut to the buffer, and the stream stands at the next one. */
  lemma ReadOneFrame(d: seq<byte>, rest: seq<byte>, size: nat)
    requires Sendable(d)
    ensures ReadOne(Frame(d) + rest, size) == Got(d[..Min(size, |d|)], rest)
  {
    var stream := Frame(d) + rest;
    assert stream[0] == |d| / 256 && stream[1] == |d| % 256;
    assert stream[2..2 + |d|] == d && stream[2 + |d|..] == rest;
    assert stream[2..2 + Min(size, |d|)] == d[..Min(size, |d|)];
  }

  /** What is read starts with a frame. */
  lemma ReadOneIsFrame(stream: seq<byte>, size: nat) returns (d: seq<byte>)
    requires ReadOne(stream, size).Got?
    ensures Sendable(d) && stream == Frame(d) + ReadOne(stream, size).rest
    ensures ReadOne(stream, size).data == d[..Min(size, |d|)]
  {
    var dlen: nat := LengthOf(stream);
    d := stream[2..2 + dlen];
    assert stream == stream[..2] + d + stream[2 + dlen..];
    assert Length(dlen) == stream[..2];
  }

  /** A run of reads: all they yield, or an error somewhere. */
  datatype RunResult = AllGot(data: seq<seq<byte>>, rest: seq<byte>) | Failed

  function ReadAll(stream: seq<byte>, sizes: seq<nat>): RunResult
  {
    if sizes == [] then AllGot([], stream)
    else
      match ReadOne(stream, sizes[0])
      case Broken => Failed
      case Got(data, rest) =>
        match ReadAll(rest, sizes[1..])
        case Failed => Failed
        case AllGot(more, end) => AllGot([data] + more, end)
  }

  /** The datagrams cut to the buffers. */
  function Cut(ds: seq<seq<byte>>, sizes: seq<nat>): (r: seq<seq<byte>>)
    requires |ds| == |sizes|
    ensures |r| == |ds| && forall k :: 0 <= k < |ds| ==> r[k] == ds[k][..Min(sizes[k], |ds[k]|)]
  {
    if ds == [] then [] else [ds[0][..Min(sizes[0], |ds[0]|)]] + Cut(ds[1..], sizes[1..])
  }

  /** Reading stays in step: whatever the buffers are, the reads yield the datagrams of the stream one
      by one. */
  lemma {:induction false} ReadsStayInStep(ds: seq<seq<byte>>, sizes: seq<nat>, rest: seq<byte>)
    requires AllSendable(ds) && |ds| == |sizes|
    ensures ReadAll(Frames(ds) + rest, sizes) == AllGot(Cut(ds, sizes), rest)
  {
    if ds != [] {
      assert Frames(ds) + rest == Frame(ds[0]) + (Frames(ds[1..]) + rest);
      ReadOneFrame(ds[0], Frames(ds[1..]) + rest, sizes[0]);
      ReadsStayInStep(ds[1..], sizes[1..], rest);
    }
  }

  /** A run of reads succeeds exactly on streams that start with as many frames. */
  lemma {:induction false} ReadsSucceedOnFrames(stream: seq<byte>, sizes: seq<nat>) returns (ds: seq<seq<byte>>)
    ensures AllSendable(ds)
    ensures var r := ReadAll(stream, sizes);
            r.AllGot? ==> |ds| == |sizes| && stream == Frames(ds) + r.rest && r.data == Cut(ds, sizes)
  {
    ds := [];
    if sizes != [] && ReadAll(stream, sizes).AllGot? {
      var d := ReadOneIsFrame(stream, sizes[0]);
      var rest := ReadOne(stream, sizes[0]).rest;
      var more := ReadsSucceedOnFrames(rest, sizes[1..]);
      ds := [d] + more;
      FramesOfFirst(d, more, ReadAll(rest, sizes[1..]).rest);
      CutOfFirst(d, more, sizes);
    }
  }

  lemma FramesOfFirst(d: seq<byte>, more: seq<seq<byte>>, rest: seq<byte>)
    requires Sendable(d) && AllSendable(more)
    ensures Frames([d] + more) + rest == Frame(d) + (Frames(more) + rest)
  {
    assert ([d] + more)[1..] == more;
  }

  lemma CutOfFirst(d: seq<byte>, more: seq<seq<byte>>, sizes: seq<nat>)
    requires sizes != [] && |more| == |sizes| - 1
    ensures Cut([d] + more, sizes) == [d[..Min(sizes[0], |d|)]] + Cut(more, sizes[1..])
  {
    assert ([d] + more)[1..] == more;
  }

  /** What a sequence of writes puts on the stream: a header once, then a frame for each datagram that
      fits; one that does not is refused and leaves no trace. */
  function Fitting(ds: seq<seq<byte>>): (r: seq<seq<byte>>)
    ensures AllSendable(r)
  {
    if ds == [] then []
    else if Sendable(ds[0]) then [ds[0]] + Fitting(ds[1..])
    else Fitting(ds[1..])
  }

  /** Those that fit, in order. */
  lemma {:induction false} FittingInOrder(a: seq<seq<byte>>, b: seq<seq<byte>>, d: seq<byte>)
    ensures Fitting(a + b) == Fitting(a) + Fitting(b)
    ensures Fitting([d]) == if |d| <= 65535 then [d] else []
    decreases |a|
  {
    if a == [] {
      assert a + b == b;
    } else {
      FittingInOrder(a[1..], b, d);
      assert (a + b)[1..] == a[1..] + b;
    }
  }

  datatype WriteState = WriteState(wbuf: seq<byte>, sent: seq<byte>)

  function WriteOne(s: WriteState, d: seq<byte>): WriteState
  {
    if Sendable(d) then WriteState([], s.sent + s.wbuf + Frame(d)) else s
  }

  function WriteAll(s: WriteState, ds: seq<seq<byte>>): WriteState
    decreases |ds|
  {
    if ds == [] then s else WriteAll(WriteOne(s, ds[0]), ds[1..])
  }

  lemma {:induction false} WritesAreFrames(s: WriteState, ds: seq<seq<byte>>)
    ensures WriteAll(s, ds).sent == if Fitting(ds) == [] then s.sent else s.sent + s.wbuf + Frames(Fitting(ds))
    ensures WriteAll(s, ds).wbuf == if Fitting(ds) == [] then s.wbuf else []
    decreases |ds|
  {
    if ds != [] {
      var d, more := ds[0], Fitting(ds[1..]);
      WritesAreFrames(WriteOne(s, d), ds[1..]);
      if Sendable(d) {
        FramesOfFirst(d, more, []);
        assert Frames([d] + more) == Frame(d) + Frames(more);
        hide Frame, Frames;
        assert more == [] ==> Frames(more) == [] by { NoFrames(); }
        assert s.sent + s.wbuf + (Frame(d) + Frames(more)) == s.sent + s.wbuf + Frame(d) + [] + Frames(more);
      }
    }
  }

  lemma NoFrames()
    ensures Frames([]) == []
  {
  }

  /** What the front of a stream says as a response: how many bytes it takes and whether it is fine. */
  datatype Response = Response(consumed: nat, fine: bool)

  /** From writer to reader: the header is the response, then datagram by datagram. */
  lemma WriterToReader(header: seq<byte>, ds: seq<seq<byte>>, sizes: seq<nat>)
    requires |sizes| == |Fitting(ds)| && sizes != []
    ensures var stream := WriteAll(WriteState(header, []), ds).sent;
            && |header| <= |stream| && stream[..|header|] == header
            && ReadAll(stream[|header|..], sizes) == AllGot(Cut(Fitting(ds), sizes), [])
  {
    WritesAreFrames(WriteState(header, []), ds);
    var frames := Frames(Fitting(ds));
    assert (header + frames)[|header|..] == frames == frames + [];
    ReadsStayInStep(Fitting(ds), sizes, []);
  }

  /** An end of such a stream. The client end expects a response first. */
  class DatagramConn {
    var wbuf: seq<byte>
    var once: bool
    var incoming: seq<byte>
    var sent: seq<byte>
    const response: seq<byte> -> Response

    constructor (client: bool, header: seq<byte>, incoming: seq<byte>, response: seq<byte> -> Response)
      ensures wbuf == header && once == !client && this.incoming == incoming && sent == [] && this.response == response
    {
      wbuf, once, this.incoming, sent, this.response := header, !client, incoming, [], response;
    }

    /** Fills the buffer's first `n` bytes, or takes what is left and fails. */
    method ReadFull(b: array<byte>, n: nat) returns (ok: bool)
      requires n <= b.Length
      modifies this`incoming, b
      ensures ok == (n <= |old(incoming)|)
      ensures ok ==> b[..n] == old(incoming)[..n] && incoming == old(incoming)[n..]
      ensures !ok ==> incoming == []
      ensures b[n..] == old(b[n..])
    {
      var k := Min(n, |incoming|);
      ok := k == n;
      forall i | 0 <= i < k {
        b[i] := incoming[i];
      }
      incoming := incoming[k..];
    }

    /** The stream behind the response, if that is still to be read and fine. */
    function Datagrams(): seq<byte>
      reads this
    {
      var r := response(incoming);
      if once || !r.fine then incoming else incoming[Min(r.consumed, |incoming|)..]
    }

    method Read(b: array<byte>) returns (n: nat, ok: bool)
      modifies this`incoming, this`once, b
      ensures once && n <= b.Length
      ensures var refused := !old(once) && !response(old(incoming)).fine;
              ok <==> !refused && ReadOne(old(Datagrams()), b.Length).Got?
      ensures ok ==> Got(b[..n], incoming) == ReadOne(old(Datagrams()), b.Length)
      ensures var r := response(old(incoming));
              !old(once) && !r.fine ==> n == 0 && incoming == old(incoming)[Min(r.consumed, |old(incoming)|)..]
    {
      n := 0;
      if !once {
        once := true;
        var r := response(incoming);
        incoming := incoming[Min(r.consumed, |incoming|)..];
        if !r.fine {
          return 0, false;
        }
      }
      n, ok := ReadDatagram(b);
    }

    method ReadDatagram(b: array<byte>) returns (n: nat, ok: bool)
      modifies this`incoming, b
      ensures n <= b.Length
      ensures ok <==> ReadOne(old(incoming), b.Length).Got?
      ensures ok ==> Got(b[..n], incoming) == ReadOne(old(incoming), b.Length)
    {
      ghost var incomingBefore := incoming;
      var bb := new byte[2];
      ok := ReadFull(bb, 2);
      if !ok {
        return 0, false;
      }
      assert bb[..] == bb[..2] == incomingBefore[..2];
      ReadOneInTwo(incomingBefore, b.Length);
      hide ReadOne, LengthOf;
      var dlen: nat := LengthOf(bb[..]);
      ghost var tail := incoming;
      if b.Length >= dlen {
        ok := ReadFull(b, dlen);
        n := dlen;
        assert ok ==> b[..n] == tail[..dlen] == tail[..dlen][..n];
        return;
      }
      var buf := new byte[dlen];
      ok := ReadFull(buf, dlen);
      n := b.Length;
      forall i | 0 <= i < n {
        b[i] := buf[i];
      }
      assert ok ==> b[..n] == buf[..dlen][..n] == tail[..dlen][..n];
    }

    method Write(b: seq<byte>) returns (n: nat, ok: bool)
      modifies this`wbuf, this`sent
      ensures ok == (|b| <= 65535) && n == if ok then |b| else 0
      ensures WriteState(wbuf, sent) == WriteOne(old(WriteState(wbuf, sent)), b)
    {
      if |b| > MAX {
        return 0, false;
      }
      if |wbuf| > 0 {
        wbuf := wbuf + Length(|b|) + b;
        sent := sent + wbuf;
        wbuf := [];
        return |b|, true;
      }
      sent := sent + Length(|b|);
      sent := sent + b;
      return |b|, true;
    }
  }

  /** The client end's first read takes off the response and hands over the datagram after it. */
  method FirstRead(c: DatagramConn, b: array<byte>, response: seq<byte>, d: seq<byte>, rest: seq<byte>)
    returns (n: nat, ok: bool)
    requires !c.once && |d| <= 65535 && c.incoming == response + Frame(d) + rest
    requires c.response(c.incoming) == Response(|response|, true)
    modifies c`incoming, c`once, b
    ensures ok && n == (if b.Length < |d| then b.Length else |d|) && b[..n] == d[..n]
    ensures c.once && c.incoming == rest
  {
    assert c.incoming[|response|..] == Frame(d) + rest == c.Datagrams();
    ReadOneFrame(d, rest, b.Length);
    n, ok := c.Read(b);
    assert |b[..n]| == n;
  }

  /** A response that is not fine is reported once; the next read is of the datagrams after it. */
  method BadResponse(c: DatagramConn, b: array<byte>, response: seq<byte>, d: seq<byte>, rest: seq<byte>)
    returns (first: bool, n: nat, ok: bool)
    requires !c.once && |d| <= 65535 && c.incoming == response + Frame(d) + rest
    requires c.response(c.incoming) == Response(|response|, false)
    modifies c`incoming, c`once, b
    ensures !first && ok && n == (if b.Length < |d| then b.Length else |d|) && b[..n] == d[..n] && c.incoming == rest
  {
    assert c.incoming[|response|..] == Frame(d) + rest;
    ReadOneFrame(d, rest, b.Length);
    var _, f := c.Read(b);
    first := f;
    n, ok := c.Read(b);
    assert |b[..n]| == n;
  }
}
