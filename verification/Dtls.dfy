/** A DTLS connection keeps what did not fit a small buffer, and writes in pieces. */
module Dtls {
  import opened Bytes

  /** What was kept, and the records still to come. */
  datatype State = State(rbuf: seq<byte>, records: seq<seq<byte>>)

  function Rest(s: State): seq<byte>
  {
    s.rbuf + Flatten(s.records)
  }

  /** One read into a buffer of `size` bytes. The connection below yields one record for each read and
      drops what of it is over the buffer it is given. */
  function ReadOnce(s: State, size: nat, bufferSize: nat): (State, seq<byte>)
  {
    if s.rbuf != [] then
      var n := Min(size, |s.rbuf|);
      (s.(rbuf := s.rbuf[n..]), s.rbuf[..n])
    else if s.records == [] then (s, [])
    else
      var record := s.records[0];
      var room := if size >= bufferSize then size else bufferSize;
      var chunk := record[..Min(room, |record|)];
      var n := Min(size, |chunk|);
      (State(chunk[n..], s.records[1..]), chunk[..n])
  }

  /** Exactly the records over the buffer size can lose bytes. */
  lemma ReadConserves(s: State, bufferSize: nat)
    ensures (forall size: nat :: var (s', got) := ReadOnce(s, size, bufferSize); got + Rest(s') == Rest(s))
       <==> s.rbuf != [] || s.records == [] || |s.records[0]| <= bufferSize
  {
    if s.rbuf != [] || s.records == [] || |s.records[0]| <= bufferSize {
      forall size: nat ensures var (s', got) := ReadOnce(s, size, bufferSize); got + Rest(s') == Rest(s) {
        ReadKeeps(s, size, bufferSize);
      }
    } else {
      var (s', got) := ReadOnce(s, 0, bufferSize);
      assert |got + Rest(s')| < |Rest(s)|;
    }
  }

  lemma ReadKeeps(s: State, size: nat, bufferSize: nat)
    requires s.rbuf != [] || s.records == [] || |s.records[0]| <= bufferSize
    ensures var (s', got) := ReadOnce(s, size, bufferSize); got + Rest(s') == Rest(s)
  {
    if s.rbuf != [] {
      var n := Min(size, |s.rbuf|);
      assert s.rbuf[..n] + (s.rbuf[n..] + Flatten(s.records)) == s.rbuf + Flatten(s.records);
    } else if s.records != [] {
      var record := s.records[0];
      var n := Min(size, |record|);
      assert record[..|record|] == record;
      assert record[..n] + (record[n..] + Flatten(s.records[1..])) == [] + (record + Flatten(s.records[1..]));
    }
  }

  /** A read hands something over whenever something was kept or the next record holds something, and
      there is room for it; what was kept comes first. */
  lemma ReadProgresses(s: State, size: nat, bufferSize: nat)
    requires bufferSize > 0
    ensures var (s', got) := ReadOnce(s, size, bufferSize);
            && (s.rbuf != [] ==> |got| == Min(size, |s.rbuf|) && s'.records == s.records)
            && (s.rbuf == [] && s.records != [] && size > 0 && s.records[0] != [] ==> got != [])
            && (s.rbuf == [] && s.records != [] ==> |s'.records| == |s.records| - 1)
  {
  }

  function Reads(s: State, sizes: seq<nat>, bufferSize: nat): (seq<byte>, State)
    decreases |sizes|
  {
    if sizes == [] then ([], s)
    else
      var (s', got) := ReadOnce(s, sizes[0], bufferSize);
      var (more, s'') := Reads(s', sizes[1..], bufferSize);
      (got + more, s'')
  }

  /** Over every run of reads no byte is lost, added or moved. */
  lemma {:induction false} ReadsConserve(s: State, sizes: seq<nat>, bufferSize: nat)
    requires forall r <- s.records :: |r| <= bufferSize
    ensures var (got, s') := Reads(s, sizes, bufferSize); got + Rest(s') == Rest(s)
    decreases |sizes|
  {
    if sizes != [] {
      ReadKeeps(s, sizes[0], bufferSize);
      var (s', got) := ReadOnce(s, sizes[0], bufferSize);
      ReadsConserve(s', sizes[1..], bufferSize);
      var (more, s'') := Reads(s', sizes[1..], bufferSize);
      assert got + (more + Rest(s'')) == (got + more) + Rest(s'');
    }
  }

  function Pieces(p: seq<byte>, bufferSize: nat): seq<seq<byte>>
    requires bufferSize > 0
    decreases |p|
  {
    if p == [] then [] else var n := Min(bufferSize, |p|); [p[..n]] + Pieces(p[n..], bufferSize)
  }

  /** All pieces but the last are full. */
  lemma {:induction false} PiecesMakeTheWrite(p: seq<byte>, bufferSize: nat)
    requires bufferSize > 0
    ensures var ps := Pieces(p, bufferSize);
            && Flatten(ps) == p
            && (forall i :: 0 <= i < |ps| ==> 0 < |ps[i]| <= bufferSize)
            && (forall i :: 0 <= i < |ps| - 1 ==> |ps[i]| == bufferSize)
    decreases |p|
  {
    if p != [] {
      var n := Min(bufferSize, |p|);
      PiecesMakeTheWrite(p[n..], bufferSize);
      assert p[..n] + p[n..] == p;
    }
  }

  class Conn {
    var rbuf: seq<byte>
    var records: seq<seq<byte>>   // what the connection below will yield
    var writes: seq<seq<byte>>    // what was written to it
    const bufferSize: nat

    constructor (records: seq<seq<byte>>, bufferSize: nat)
      ensures rbuf == [] && this.records == records && writes == [] && this.bufferSize == bufferSize
    {
      rbuf, this.records, writes, this.bufferSize := [], records, [], bufferSize;
    }

    method ConnRead(b: array<byte>) returns (n: nat)
      modifies this`records, b
      ensures old(records) == [] ==> n == 0 && records == []
      ensures old(records) != [] ==> n == Min(b.Length, |old(records)[0]|) && records == old(records)[1..]
      ensures old(records) != [] ==> b[..n] == old(records)[0][..n]
    {
      n := 0;
      if records != [] {
        n := Min(b.Length, |records[0]|);
        forall k | 0 <= k < n {
          b[k] := records[0][k];
        }
        records := records[1..];
      }
    }

    method Read(p: array<byte>) returns (n: nat)
      modifies this, p
      ensures n <= p.Length && writes == old(writes)
      ensures (State(rbuf, records), p[..n]) == ReadOnce(old(State(rbuf, records)), p.Length, bufferSize)
    {
      if |rbuf| > 0 {
        n := Min(p.Length, |rbuf|);
        forall k | 0 <= k < n {
          p[k] := rbuf[k];
        }
        assert p[..n] == rbuf[..n];
        rbuf := rbuf[n..];
        return;
      }
      if p.Length >= bufferSize {
        n := ConnRead(p);
        if old(records) != [] {
          ghost var chunk := old(records)[0][..n];
          assert chunk[..n] == chunk && chunk[n..] == [];
        } else {
          assert p[..n] == [];
        }
        return;
      }
      var buf := new byte[bufferSize];
      var nn := ConnRead(buf);
      n := Min(p.Length, nn);
      forall k | 0 <= k < n {
        p[k] := buf[k];
      }
      rbuf := rbuf + buf[n..nn];
      if old(records) != [] {
        ghost var chunk := old(records)[0][..nn];
        assert chunk == buf[..nn] && rbuf == chunk[n..] && p[..n] == chunk[..n];
      } else {
        assert p[..n] == [] && rbuf == [];
      }
    }

    method Write(p: seq<byte>) returns (n: nat)
      requires bufferSize > 0
      modifies this`writes
      ensures n == |p| && writes == old(writes) + Pieces(p, bufferSize)
    {
      n := 0;
      var rest := p;
      while |rest| > 0
        invariant n + |rest| == |p| && writes + Pieces(rest, bufferSize) == old(writes) + Pieces(p, bufferSize)
        decreases |rest|
      {
        var nn := bufferSize;
        if nn > |rest| {
          nn := |rest|;
        }
        assert writes + ([rest[..nn]] + Pieces(rest[nn..], bufferSize)) ==
               (writes + [rest[..nn]]) + Pieces(rest[nn..], bufferSize);
        writes := writes + [rest[..nn]];
        n := n + nn;
        rest := rest[nn..];
      }
    }
  }
}
