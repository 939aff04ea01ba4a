/** A connection under a traffic limiter: reads and writes are cut to what the limiter lets through
    at a time, without losing or reordering a byte. */
module TrafficConn {
  import opened Bytes
  import opened Options
  import opened Ranger
  import opened TrafficLimiter

  /** What limiters with these bursts let through of `n` bytes. */
  function Capped(bursts: seq<int>, n: int): (r: int)
    ensures r <= n && forall b <- bursts :: r <= b
    ensures r == n || exists b <- bursts :: r == b
  {
    if bursts == [] then n
    else
      var rest := Capped(bursts[1..], n);
      assert forall b <- bursts :: b == bursts[0] || b in bursts[1..];
      assert forall b <- bursts[1..] :: b in bursts;
      assert bursts[0] in bursts;
      if bursts[0] < rest then bursts[0] else rest
  }

  ghost function Bursts(lim: LimiterGroup): seq<int>
    reads lim.limiters
  {
    seq(|lim.limiters|, i requires 0 <= i < |lim.limiters| reads lim.limiters => lim.limiters[i].burst)
  }

  predicate Positive(bursts: seq<int>)
  {
    forall b <- bursts :: b > 0
  }

  /** The connection as a value: what was read ahead, and what the peer will send. */
  datatype ReadState = ReadState(rbuf: seq<byte>, incoming: seq<byte>)

  /** One `Read` into a buffer of `size` bytes when the connection under it has `chunk` bytes ready;
      no bursts at all stands for a client without a limiter. */
  function ReadOnce(s: ReadState, size: nat, chunk: nat, bursts: Option<seq<int>>): (r: (ReadState, seq<byte>))
    requires bursts.Some? ==> Positive(bursts.value)
  {
    var nn := Min(Min(size, chunk), |s.incoming|);
    match bursts
    case None => (s.(incoming := s.incoming[nn..]), s.incoming[..nn])
    case Some(bs) =>
      if s.rbuf != [] then
        var n := Capped(bs, Min(size, |s.rbuf|));
        (s.(rbuf := s.rbuf[n..]), s.rbuf[..n])
      else
        var n := Capped(bs, nn);
        (ReadState(s.incoming[n..nn], s.incoming[nn..]), s.incoming[..n])
  }

  function Rest(s: ReadState): seq<byte>
  {
    s.rbuf + s.incoming
  }

  /** A limited read hands over the next bytes and keeps the rest in order, and hands over something
      whenever there is something and room for it. */
  lemma ReadConserves(s: ReadState, size: nat, chunk: nat, bursts: seq<int>)
    requires Positive(bursts)
    ensures var (s', got) := ReadOnce(s, size, chunk, Some(bursts));
            && got + Rest(s') == Rest(s)
            && |got| <= size && (forall b <- bursts :: |got| <= b)
            && (size > 0 && (s.rbuf != [] || (chunk > 0 && s.incoming != [])) ==> got != [])
            && (|got| in bursts || |got| == size || |got| == |s.rbuf| || (s.rbuf == [] && s'.rbuf == []))
  {
    var nn := Min(Min(size, chunk), |s.incoming|);
    if s.rbuf != [] {
      var n := Capped(bursts, Min(size, |s.rbuf|));
      assert s.rbuf[..n] + (s.rbuf[n..] + s.incoming) == s.rbuf + s.incoming;
    } else {
      var n := Capped(bursts, nn);
      assert s.incoming[..n] + (s.incoming[n..nn] + s.incoming[nn..]) == [] + s.incoming;
    }
  }

  datatype ReadCall = ReadCall(size: nat, chunk: nat, bursts: seq<int>)

  /** Any sequence of reads; the limiters may change between them. */
  function Reads(s: ReadState, calls: seq<ReadCall>): (seq<byte>, ReadState)
    requires forall c <- calls :: Positive(c.bursts)
    decreases |calls|
  {
    if calls == [] then ([], s)
    else
      var (s', got) := ReadOnce(s, calls[0].size, calls[0].chunk, Some(calls[0].bursts));
      var (more, s'') := Reads(s', calls[1..]);
      (got + more, s'')
  }

  /** Over every run of limited reads: what was delivered, then what was read ahead, then what is
      still to come is what there was. */
  lemma {:induction false} ReadsConserve(s: ReadState, calls: seq<ReadCall>)
    requires forall c <- calls :: Positive(c.bursts)
    ensures Reads(s, calls).0 + Rest(Reads(s, calls).1) == Rest(s)
    decreases |calls|
  {
    if calls != [] {
      var c := calls[0];
      ReadConserves(s, c.size, c.chunk, c.bursts);
      var (s', got) := ReadOnce(s, c.size, c.chunk, Some(c.bursts));
      ReadsConserve(s', calls[1..]);
      var (more, s'') := Reads(s', calls[1..]);
      assert got + (more + Rest(s'')) == (got + more) + Rest(s'');
    }
  }

  /** A read without a limiter is a read of the connection below, whatever was read ahead. */
  lemma UnlimitedReadPasses(s: ReadState, size: nat, chunk: nat)
    ensures var (s', got) := ReadOnce(s, size, chunk, None);
            && s'.rbuf == s.rbuf && got + s'.incoming == s.incoming
            && (|got| == size || |got| == chunk || s'.incoming == [])
  {
  }

  /** When the client loses its limiter the read goes past what was read ahead. Order is kept for
      every peer and every buffer exactly when nothing was. */
  lemma UnlimitedReadKeepsOrder(rbuf: seq<byte>)
    ensures (forall incoming: seq<byte>, size: nat, chunk: nat ::
               var (s', got) := ReadOnce(ReadState(rbuf, incoming), size, chunk, None);
               got + Rest(s') == rbuf + incoming)
       <==> rbuf == []
  {
    if rbuf == [] {
      forall incoming: seq<byte>, size: nat, chunk: nat
        ensures var (s', got) := ReadOnce(ReadState(rbuf, incoming), size, chunk, None);
                got + Rest(s') == rbuf + incoming
      {
        var nn := Min(Min(size, chunk), |incoming|);
        assert incoming[..nn] + ([] + incoming[nn..]) == [] + incoming;
      }
    } else {
      var other: byte := if rbuf[0] == 0 then 1 else 0;
      var incoming := [other];
      var (s', got) := ReadOnce(ReadState(rbuf, incoming), 1, 1, None);
      assert got == [other] && (got + Rest(s'))[0] == other != (rbuf + incoming)[0];
    }
  }

  /** The pieces one write goes out in. */
  function Pieces(b: seq<byte>, bursts: seq<int>): seq<seq<byte>>
    requires Positive(bursts)
    decreases |b|
  {
    if b == [] then []
    else
      var n := Capped(bursts, |b|);
      [b[..n]] + Pieces(b[n..], bursts)
  }

  /** Together they are the argument, none is empty or over a burst, and all but the last reach one. */
  lemma {:induction false} PiecesMakeTheWrite(b: seq<byte>, bursts: seq<int>)
    requires Positive(bursts)
    ensures Flatten(Pieces(b, bursts)) == b
    ensures forall p <- Pieces(b, bursts) :: p != [] && forall burst <- bursts :: |p| <= burst
    ensures forall i :: 0 <= i < |Pieces(b, bursts)| - 1 ==> |Pieces(b, bursts)[i]| in bursts
    decreases |b|
  {
    if b != [] {
      var n := Capped(bursts, |b|);
      PiecesMakeTheWrite(b[n..], bursts);
      assert b[..n] + b[n..] == b;
    }
  }

  class ServerConn {
    var rbuf: seq<byte>
    var incoming: seq<byte>      // what the connection under it will yield
    var writes: seq<seq<byte>>   // what was written to it, call by call

    ghost function State(): ReadState
      reads this
    {
      ReadState(rbuf, incoming)
    }

    constructor (incoming: seq<byte>)
      ensures rbuf == [] && this.incoming == incoming && writes == []
    {
      rbuf, this.incoming, writes := [], incoming, [];
    }

    /** `Read` of the connection under it. */
    method ConnRead(b: array<byte>, chunk: nat) returns (n: nat)
      modifies this`incoming, b
      ensures n == Min(Min(b.Length, chunk), |old(incoming)|)
      ensures b[..n] == old(incoming)[..n] && b[n..] == old(b[n..]) && incoming == old(incoming)[n..]
    {
      n := Min(Min(b.Length, chunk), |incoming|);
      forall k | 0 <= k < n {
        b[k] := incoming[k];
      }
      incoming := incoming[n..];
    }

    method Read(b: array<byte>, chunk: nat, limiter: Option<LimiterGroup>) returns (n: nat)
      requires limiter.Some? ==> Positive(Bursts(limiter.value))
      modifies this, b
      ensures n <= b.Length && writes == old(writes)
      ensures (State(), b[..n]) ==
              ReadOnce(old(State()), b.Length, chunk, if limiter.None? then None else Some(old(Bursts(limiter.value))))
    {
      if limiter == None {
        n := ConnRead(b, chunk);
        return;
      }
      if |rbuf| > 0 {
        var burst := b.Length;
        if |rbuf| < burst {
          burst := |rbuf|;
        }
        var lim := WaitFor(limiter.value, burst);
        n := lim;
        forall k | 0 <= k < n {
          b[k] := rbuf[k];
        }
        assert b[..n] == rbuf[..n];
        rbuf := rbuf[n..];
        return;
      }
      var nn := ConnRead(b, chunk);
      n := WaitFor(limiter.value, nn);
      if n < nn {
        rbuf := rbuf + b[n..nn];
      }
      assert b[..nn][..n] == b[..n] && b[..nn][n..] == b[n..nn];
      assert old(incoming)[..nn][n..] == old(incoming)[n..nn] && old(incoming)[..nn][..n] == old(incoming)[..n];
      assert rbuf == b[n..nn];
    }

    method Write(b: seq<byte>, limiter: Option<LimiterGroup>) returns (n: nat)
      requires limiter.Some? ==> Positive(Bursts(limiter.value))
      modifies this`writes
      ensures n == |b|
      ensures writes == old(writes) + if limiter.None? then [b] else Pieces(b, Bursts(limiter.value))
    {
      n := 0;
      if limiter == None {
        writes := writes + [b];
        return |b|;
      }
      n := WriteLimited(b, limiter.value);
    }

    method WriteLimited(b: seq<byte>, limiter: LimiterGroup) returns (n: nat)
      requires Positive(Bursts(limiter))
      modifies this`writes
      ensures n == |b| && writes == old(writes) + Pieces(b, Bursts(limiter))
    {
      n := 0;
      var rest := b;
      ghost var bursts, sent := Bursts(limiter), [];
      hide Capped, Positive, Pieces;
      assert Pieces(b, bursts) == sent + Pieces(rest, bursts);
      while |rest| > 0
        invariant n + |rest| == |b| && Bursts(limiter) == bursts
        invariant writes == old(writes) + sent && Pieces(b, bursts) == sent + Pieces(rest, bursts)
        decreases |rest|
      {
        var nn := WaitFor(limiter, |rest|);
        PiecesStep(sent, rest, bursts);
        sent := sent + [rest[..nn]];
        writes := writes + [rest[..nn]];
        n := n + nn;
        rest := rest[nn..];
      }
      PiecesStep(sent, rest, bursts);
    }
  }

  lemma PiecesStep(sent: seq<seq<byte>>, rest: seq<byte>, bursts: seq<int>)
    requires Positive(bursts)
    ensures rest == [] ==> sent + Pieces(rest, bursts) == sent
    ensures var n := Capped(bursts, |rest|);
            rest != [] ==>
              && 0 <= n <= |rest|
              && sent + Pieces(rest, bursts) == (sent + [rest[..n]]) + Pieces(rest[n..], bursts)
  {
  }

  /** Every group the traffic limiter hands out is such that transfers go on. */
  lemma ObtainedGoesOn(t: TrafficLimiter, lim: LimiterGroup, key: string, host: string)
    requires t.Valid() && Answers(Some(lim), t.hosts, t.conns, key, host)
    ensures Positive(Bursts(lim))
  {
    t.NoneStops(lim, key, host);
    BurstsArePositive(lim);
  }

  /** What may happen to the limiter while connections hold their groups. */
  datatype Event = Ask(key: string) | Load(table: map<string, int>) | Expire(keys: set<string>)

  method Happen(t: TrafficLimiter, event: Event)
    requires t.Valid()
    modifies t.hosts, t.conns, t.hosts.limits.Values, t.conns.conns.Values
    ensures t.Valid()
    ensures fresh(t.hosts.limits.Values - old(t.hosts.limits.Values))
    ensures fresh(t.conns.conns.Values - old(t.conns.conns.Values))
    ensures forall l: Limiter | old(allocated(l)) && old(l.burst) > 0 :: l.burst > 0
  {
    hide HostCache.Valid, ConnCache.Valid, HostCache.SameObjects, Answers, Survives, Extends;
    match event
    case Ask(key) => var _ := t.Obtain(key);
    case Load(table) => t.Reload(table);
    case Expire(keys) => t.Expire(keys);
  }

  /** Limiters go on through any such events, whatever tables are loaded: reloads change those that are
      cached, or drop them from the caches, but leave none that stops transfers. */
  method HappenAll(t: TrafficLimiter, events: seq<Event>)
    requires t.Valid()
    modifies t.hosts, t.conns, t.hosts.limits.Values, t.conns.conns.Values
    ensures t.Valid()
    ensures forall l: Limiter | old(allocated(l)) && old(l.burst) > 0 :: l.burst > 0
  {
    hide TrafficLimiter.Valid;
    for i := 0 to |events|
      invariant t.Valid()
      invariant fresh(t.hosts.limits.Values - old(t.hosts.limits.Values))
      invariant fresh(t.conns.conns.Values - old(t.conns.conns.Values))
      invariant forall l: Limiter | old(allocated(l)) && old(l.burst) > 0 :: l.burst > 0
    {
      Happen(t, events[i]);
    }
  }

  /** So a group that is handed out lets transfers go on for as long as it is held. */
  method HeldGoesOn(t: TrafficLimiter, lim: LimiterGroup, events: seq<Event>)
    requires t.Valid() && Positive(Bursts(lim))
    modifies t.hosts, t.conns, t.hosts.limits.Values, t.conns.conns.Values
    ensures t.Valid() && Positive(Bursts(lim))
  {
    hide TrafficLimiter.Valid, Positive, Bursts;
    BurstsArePositive(lim);
    HappenAll(t, events);
    BurstsArePositive(lim);
  }

  method ObtainedIsHeld(t: TrafficLimiter, key: string, events: seq<Event>) returns (lim: Option<LimiterGroup>)
    requires t.Valid()
    modifies t.hosts, t.conns, t.hosts.limits.Values, t.conns.conns.Values
    ensures t.Valid() && (lim.Some? ==> Positive(Bursts(lim.value)))
  {
    hide TrafficLimiter.Valid, Positive, Bursts, Extends, Answers;
    lim := t.Obtain(key);
    if lim.Some? {
      ObtainedGoesOn(t, lim.value, key, t.hosts.parse.host(key));
      HeldGoesOn(t, lim.value, events);
    }
  }

  lemma BurstsArePositive(lim: LimiterGroup)
    ensures Positive(Bursts(lim)) <==> forall l <- lim.limiters :: l.burst > 0
  {
    var bursts := Bursts(lim);
    assert forall i :: 0 <= i < |bursts| ==> bursts[i] == lim.limiters[i].burst && bursts[i] in bursts;
    if forall l <- lim.limiters :: l.burst > 0 {
      forall b <- bursts ensures b > 0 {
        var i :| 0 <= i < |bursts| && bursts[i] == b;
        assert lim.limiters[i] in lim.limiters;
      }
    } else {
      var l :| l in lim.limiters && l.burst <= 0;
      var i :| 0 <= i < |lim.limiters| && lim.limiters[i] == l;
      assert bursts[i] <= 0;
    }
  }

  /** The group's answer, which is never negative and is 0 only for 0. */
  method WaitFor(lim: LimiterGroup, n: nat) returns (r: nat)
    requires Positive(Bursts(lim))
    ensures r == Capped(Bursts(lim), n) && (n > 0 ==> r > 0)
  {
    var v := lim.Wait(n);
    ghost var bursts := Bursts(lim);
    assert forall i :: 0 <= i < |lim.limiters| ==> bursts[i] == lim.limiters[i].burst && bursts[i] in bursts;
    forall b <- bursts ensures v <= b {
      var i :| 0 <= i < |bursts| && bursts[i] == b;
      assert lim.limiters[i] in lim.limiters;
    }
    if v != n {
      var l :| l in lim.limiters && v == l.burst;
      var i :| 0 <= i < |lim.limiters| && lim.limiters[i] == l;
      assert v == bursts[i];
    }
    r := v;
  }
}
