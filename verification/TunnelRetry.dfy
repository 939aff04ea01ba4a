/** Relay tunnels: connectors taken in turn, closed ones cleaned out, and retries that find one that
    still answers. */
module TunnelRetry {
  import opened Options
  import opened Bytes
  import opened Modular

  class Connector {
    const udp: bool
    var closed: bool    // its session was closed
    var answers: bool   // its session, while open, hands out connections

    constructor (udp: bool)
      ensures this.udp == udp && Alive()
    {
      this.udp, closed, answers := udp, false, true;
    }

    predicate Alive()
      reads this
    {
      !closed && answers
    }
  }

  predicate Suits(c: Connector, network: string)
  {
    (network == "udp" && c.udp) || (network != "udp" && !c.udp)
  }

  /** The connectors for a network, in order. */
  function Suiting(connectors: seq<Connector>, network: string): (r: seq<Connector>)
    ensures forall c <- r :: c in connectors && Suits(c, network) && (c.udp <==> network == "udp")
    ensures forall c <- connectors :: (Suits(c, network) || (c.udp <==> network == "udp")) ==> c in r
  {
    if connectors == [] then []
    else
      var front, last := connectors[..|connectors| - 1], connectors[|connectors| - 1];
      assert connectors == front + [last];
      Suiting(front, network) + if Suits(last, network) then [last] else []
  }

  /** In the order they were added, none twice. */
  lemma {:induction false} SuitingInOrder(a: seq<Connector>, b: seq<Connector>, network: string)
    ensures Suiting(a + b, network) == Suiting(a, network) + Suiting(b, network)
    decreases |b|
  {
    if b == [] {
      assert a + b == a;
    } else {
      var front, last := b[..|b| - 1], b[|b| - 1];
      var more := if last.udp <==> network == "udp" then [last] else [];
      hide Suiting;
      SuitingInOrder(a, front, network);
      SuitingOfMore(b, network);
      SuitingOfMore(a + b, network);
      assert (a + b)[..|a + b| - 1] == a + front && (a + b)[|a + b| - 1] == last;
      Associative(Suiting(a, network), Suiting(front, network), more);
    }
  }

  lemma SuitingOfMore(cs: seq<Connector>, network: string)
    requires cs != []
    ensures var last := cs[|cs| - 1];
            var more := if last.udp <==> network == "udp" then [last] else [];
            Suiting(cs, network) == Suiting(cs[..|cs| - 1], network) + more
  {
  }

  function Open(connectors: seq<Connector>): seq<Connector>
    reads connectors
  {
    if connectors == [] then []
    else
      var front, last := connectors[..|connectors| - 1], connectors[|connectors| - 1];
      Open(front) + if last.closed then [] else [last]
  }

  lemma {:induction false} OpenKeeps(connectors: seq<Connector>, c: Connector)
    ensures c in Open(connectors) <==> c in connectors && !c.closed
    ensures |Open(connectors)| <= |connectors| &&
            (|Open(connectors)| == |connectors| ==> Open(connectors) == connectors)
  {
    if connectors != [] {
      var front, last := connectors[..|connectors| - 1], connectors[|connectors| - 1];
      assert connectors == front + [last];
      OpenKeeps(front, c);
    }
  }

  lemma {:induction false} OpenInOrder(a: seq<Connector>, b: seq<Connector>)
    ensures Open(a + b) == Open(a) + Open(b)
    decreases |b|
  {
    if b == [] {
      assert a + b == a && Open(b) == [];
    } else {
      var front, last := b[..|b| - 1], b[|b| - 1];
      hide Open;
      OpenInOrder(a, front);
      OpenOfMore(b);
      OpenOfMore(a + b);
      assert (a + b)[..|a + b| - 1] == a + front && (a + b)[|a + b| - 1] == last;
      Associative(Open(a), Open(front), if last.closed then [] else [last]);
    }
  }

  lemma OpenOfMore(cs: seq<Connector>)
    requires cs != []
    ensures Open(cs) == Open(cs[..|cs| - 1]) + if cs[|cs| - 1].closed then [] else [cs[|cs| - 1]]
  {
  }

  lemma OpenNext(connectors: seq<Connector>, i: nat)
    requires i < |connectors|
    ensures Open(connectors[..i + 1]) == Open(connectors[..i]) + if connectors[i].closed then [] else [connectors[i]]
  {
    assert connectors[..i + 1][..i] == connectors[..i];
  }

  class Tunnel {
    var connectors: seq<Connector>
    var n: nat

    constructor ()
      ensures connectors == [] && n == 0
    {
      connectors, n := [], 0;
    }

    method AddConnector(c: Connector?)
      modifies this`connectors
      ensures connectors == old(connectors) + if c == null then [] else [c]
    {
      if c == null {
        return;
      }
      connectors := connectors + [c];
    }

    method GetConnector(network: string) returns (c: Connector?)
      requires n < COUNTERS
      modifies this`n
      ensures var cs := Suiting(connectors, network);
              if cs == [] then c == null && n == old(n)
              else c == cs[old(n) % |cs|] && n == (old(n) + 1) % COUNTERS
    {
      var cs := [];
      for i := 0 to |connectors|
        invariant cs == Suiting(connectors[..i], network) && n == old(n)
      {
        assert connectors[..i + 1][..i] == connectors[..i];
        if (network == "udp" && connectors[i].udp) || (network != "udp" && !connectors[i].udp) {
          cs := cs + [connectors[i]];
        }
      }
      assert connectors[..|connectors|] == connectors;
      if |cs| == 0 {
        return null;
      }
      c := cs[n % |cs|];
      n := (n + 1) % COUNTERS;
    }

    /** One tick of the cleaner. */
    method Clean()
      modifies this`connectors
      ensures connectors == old(Open(connectors))
    {
      var cs := [];
      assert Open(connectors[..0]) == [];
      hide Open;
      for i := 0 to |connectors|
        invariant cs == Open(connectors[..i])
        modifies {}
      {
        OpenNext(connectors, i);
        if connectors[i].closed {
          continue;
        }
        cs := cs + [connectors[i]];
      }
      assert connectors[..|connectors|] == connectors;
      if |cs| != |connectors| {
        connectors := cs;
      } else if |cs| > 0 {
        OpenKeeps(connectors, connectors[0]);
      }
    }
  }

  ghost predicate Valid(pool: ConnectorPool)
    reads pool, pool.tunnels.Values`n
  {
    && (forall t <- pool.tunnels :: pool.tunnels[t].n < COUNTERS)
    && forall t, u | t in pool.tunnels && u in pool.tunnels && t != u :: pool.tunnels[t] != pool.tunnels[u]
  }

  class ConnectorPool {
    var tunnels: map<string, Tunnel>

    constructor ()
      ensures tunnels == map[] && Valid(this)
    {
      tunnels := map[];
    }

    ghost function Connectors(tid: string): seq<Connector>
      reads this, tunnels.Values`connectors
    {
      if tid in tunnels then tunnels[tid].connectors else []
    }

    method Add(tid: string, c: Connector?)
      requires Valid(this)
      modifies this, tunnels.Values
      ensures Valid(this) && tunnels.Keys == old(tunnels.Keys) + {tid}
      ensures fresh(tunnels.Values - old(tunnels.Values))
      ensures Connectors(tid) == old(Connectors(tid)) + if c == null then [] else [c]
      ensures forall t :: t != tid ==> Connectors(t) == old(Connectors(t))
    {
      if tid !in tunnels {
        var t := new Tunnel();
        tunnels := tunnels[tid := t];
      }
      tunnels[tid].AddConnector(c);
    }

    method Get(network: string, tid: string) returns (c: Connector?)
      requires Valid(this)
      modifies tunnels.Values`n
      ensures Valid(this) && Connectors(tid) == old(Connectors(tid)) && (c != null ==> tid in tunnels)
      ensures var cs := Suiting(Connectors(tid), network);
              if cs == [] then c == null && (tid in tunnels ==> tunnels[tid].n == old(tunnels[tid].n))
              else c == cs[old(tunnels[tid].n) % |cs|] && tunnels[tid].n == (old(tunnels[tid].n) + 1) % COUNTERS
    {
      if tid !in tunnels {
        return null;
      }
      c := tunnels[tid].GetConnector(network);
    }
  }

  /** Which of them would hand out a connection. */
  ghost function Alive(cs: seq<Connector>): (r: seq<bool>)
    reads cs
    ensures |r| == |cs| && forall i :: 0 <= i < |cs| ==> r[i] == cs[i].Alive()
  {
    if cs == [] then [] else [cs[0].Alive()] + Alive(cs[1..])
  }

  /** The connector a connection for the tunnel is opened on, or none. */
  method GetTunnelConn(network: string, pool: ConnectorPool?, tid: string, retry: int) returns (conn: Connector?)
    requires pool != null ==> Valid(pool)
    modifies (if pool == null then {} else pool.tunnels.Values)`n
    ensures pool == null ==> conn == null
    ensures pool != null ==> Valid(pool)
    ensures conn != null ==> conn.Alive() && (conn.udp <==> network == "udp") && conn in pool.Connectors(tid)
    ensures conn != null ==> !conn.closed && conn.answers
    ensures pool != null ==>
              var cs := Suiting(pool.Connectors(tid), network);
              if cs == [] then conn == null
              else conn == At(cs, Found(Alive(cs), old(pool.tunnels[tid].n), if retry <= 0 then 1 else retry))
    ensures pool != null && tid in pool.tunnels ==>
              var (alive, tries) := (Alive(Suiting(pool.Connectors(tid), network)), if retry <= 0 then 1 else retry);
              Enough(alive, old(pool.tunnels[tid].n), tries) ==> conn != null
  {
    conn := null;
    if pool == null {
      return;
    }
    var tries := if retry <= 0 then 1 else retry;
    ghost var cs := Suiting(pool.Connectors(tid), network);
    ghost var n := if tid in pool.tunnels then pool.tunnels[tid].n else 0;
    EnoughTurns(Alive(cs), n, tries);
    hide Found, Suiting, Alive, Enough;
    conn := Retry(network, pool, tid, tries, cs, Alive(cs), n);
  }

  /** Fewer dead ones than turns and than connectors, and the counter does not wrap meanwhile. */
  ghost predicate Enough(alive: seq<bool>, n: nat, tries: nat)
  {
    |Dead(alive)| < tries && |Dead(alive)| < |alive| && n + tries <= COUNTERS
  }

  /** `cs` are the connectors that suit, `alive` which of them would answer, `n` the counter. */
  method Retry(network: string, pool: ConnectorPool, tid: string, tries: nat, ghost cs: seq<Connector>,
               ghost alive: seq<bool>, ghost n: nat)
    returns (conn: Connector?)
    requires Valid(pool) && cs == Suiting(pool.Connectors(tid), network) && alive == Alive(cs)
    requires tid in pool.tunnels ==> pool.tunnels[tid].n == n
    modifies pool.tunnels.Values`n
    ensures conn == At(cs, Found(alive, n, tries))
    ensures conn != null ==> conn.Alive()
    ensures Valid(pool) && pool.Connectors(tid) == old(pool.Connectors(tid))
  {
    conn := null;
    ghost var n': nat := n;
    ghost var found := Found(alive, n, tries);
    hide Found, Suiting, Alive;
    for i := 0 to tries
      invariant Valid(pool) && conn == null && pool.Connectors(tid) == old(pool.Connectors(tid))
      invariant tid in pool.tunnels ==> pool.tunnels[tid].n == n'
      invariant found == Found(alive, n', tries - i)
    {
      FoundNext(alive, n', tries - i);
      var c := pool.Get(network, tid);
      if c == null {
        return;
      }
      assert c == cs[n' % |cs|];
      if c.Alive() {
        return c;
      }
      n' := (n' + 1) % COUNTERS;
    }
    FoundNext(alive, n', 0);
  }

  /** The position that answers within `tries` turns starting at `n`. */
  function Found(alive: seq<bool>, n: nat, tries: nat): (r: Option<nat>)
    ensures r.Some? ==> r.value < |alive| && alive[r.value]
    decreases tries
  {
    if alive == [] || tries == 0 then None
    else if alive[n % |alive|] then Some(n % |alive|)
    else Found(alive, (n + 1) % COUNTERS, tries - 1)
  }

  ghost function At(cs: seq<Connector>, p: Option<nat>): Connector?
    requires p.Some? ==> p.value < |cs|
  {
    if p.None? then null else cs[p.value]
  }

  /** A connector that answers is found through its tunnel as soon as it is added, whatever other
      tunnels there are, if it is the first of its network there. */
  method AddedIsFound(pool: ConnectorPool, tid: string, c: Connector, network: string, retry: int)
    returns (conn: Connector?)
    requires Valid(pool) && c.Alive() && Suits(c, network) && Suiting(pool.Connectors(tid), network) == []
    modifies pool, pool.tunnels.Values
    ensures Valid(pool) && conn == c
  {
    ghost var before := pool.Connectors(tid);
    pool.Add(tid, c);
    assert pool.Connectors(tid) == before + [c];
    AloneOfItsKind(before, c, network);
    hide Suiting, Found, Valid;
    conn := GetTunnelConn(network, pool, tid, retry);
    AloneIsFound(c, if retry <= 0 then 1 else retry);
  }

  lemma AloneOfItsKind(before: seq<Connector>, c: Connector, network: string)
    requires Suiting(before, network) == [] && Suits(c, network)
    ensures Suiting(before + [c], network) == [c]
  {
    assert (before + [c])[..|before|] == before;
  }

  lemma AloneIsFound(c: Connector, tries: nat)
    requires c.Alive() && tries > 0
    ensures forall n: nat :: Found(Alive([c]), n, tries) == Some(0)
  {
    assert Alive([c]) == [true];
  }

  lemma FoundNext(alive: seq<bool>, n: nat, tries: nat)
    ensures Found(alive, n, tries) ==
            if alive == [] || tries == 0 then None
            else if alive[n % |alive|] then Some(n % |alive|)
            else Found(alive, (n + 1) % COUNTERS, tries - 1)
  {
  }

  /** The position `i` turns from `n`. */
  function Turn(n: nat, i: nat, m: nat): (r: nat)
    requires m > 0
    ensures r < m
  {
    (n + i) % m
  }

  lemma {:induction false} NotFound(alive: seq<bool>, n: nat, tries: nat, i: nat)
    requires alive != [] && n + tries <= COUNTERS && Found(alive, n, tries).None? && i < tries
    ensures !alive[Turn(n, i, |alive|)]
    decreases tries
  {
    if i > 0 {
      assert (n + 1) % COUNTERS == n + 1;
      NotFound(alive, n + 1, tries - 1, i - 1);
      assert Turn(n + 1, i - 1, |alive|) == Turn(n, i, |alive|);
    }
  }

  predicate AnswersAt(alive: seq<bool>, n: nat, i: nat)
    requires alive != []
  {
    alive[(n + i) % |alive|]
  }

  /** What is found is the first that answers in turn: the `i`-th turn finds it if it answers there and
      none before did. */
  lemma {:induction false} FoundIsFirst(alive: seq<bool>, n: nat, tries: nat, i: nat)
    requires alive != [] && n + tries <= COUNTERS && i < tries
    requires AnswersAt(alive, n, i) && forall j: nat | j < i :: !AnswersAt(alive, n, j)
    ensures Found(alive, n, tries) == Some((n + i) % |alive|)
    decreases tries
  {
    if i > 0 {
      var next := n + 1;
      assert !AnswersAt(alive, n, 0) && next % COUNTERS == next;
      forall j: nat | j < i - 1 ensures !AnswersAt(alive, next, j) {
        assert !AnswersAt(alive, n, j + 1);
        assert next + j == n + (j + 1);
      }
      assert next + (i - 1) == n + i;
      FoundIsFirst(alive, next, tries - 1, i - 1);
    }
  }

  function Dead(alive: seq<bool>): set<nat>
  {
    set p: nat | p < |alive| && !alive[p]
  }

  /** The positions of `k` turns in a row. */
  function Window(n: nat, k: nat, m: nat): set<nat>
    requires m > 0
  {
    if k == 0 then {} else Window(n, k - 1, m) + {Turn(n, k - 1, m)}
  }

  lemma {:induction false} NextIsNew(n: nat, k: nat, m: nat, i: nat)
    requires k <= i < m
    ensures Turn(n, i, m) !in Window(n, k, m)
  {
    if k > 0 {
      NextIsNew(n, k - 1, m, i);
      StepsOn(n, k - 1, m);
      StepsOn(n, i, m);
    }
  }

  /** Up to the length, they are all different. */
  lemma {:induction false} WindowSize(n: nat, k: nat, m: nat)
    requires k <= m && m > 0
    ensures |Window(n, k, m)| == k
  {
    hide Turn;
    if k > 0 {
      WindowSize(n, k - 1, m);
      NextIsNew(n, k - 1, m, k - 1);
    }
  }

  lemma {:induction false} WindowIsDead(alive: seq<bool>, n: nat, tries: nat, k: nat)
    requires alive != [] && n + tries <= COUNTERS && Found(alive, n, tries).None? && k <= tries
    ensures Window(n, k, |alive|) <= Dead(alive)
  {
    hide Turn, Found;
    if k > 0 {
      WindowIsDead(alive, n, tries, k - 1);
      NotFound(alive, n, tries, k - 1);
    }
  }

  lemma SubsetSize<T>(a: set<T>, b: set<T>)
    requires a <= b
    ensures |a| <= |b|
  {
    assert a + (b - a) == b;
  }

  lemma EnoughTurns(alive: seq<bool>, n: nat, tries: nat)
    ensures Enough(alive, n, tries) ==> Found(alive, n, tries).Some?
  {
    if Enough(alive, n, tries) && Found(alive, n, tries).None? {
      var k := |Dead(alive)| + 1;
      WindowSize(n, k, |alive|);
      WindowIsDead(alive, n, tries, k);
      SubsetSize(Window(n, k, |alive|), Dead(alive));
    }
  }

  /** The first `dead` of `m` do not answer. */
  function FirstDead(m: nat, dead: nat): (r: seq<bool>)
    requires dead <= m
    ensures |r| == m && forall p :: 0 <= p < m ==> (r[p] <==> p >= dead)
  {
    seq(m, i => i >= dead)
  }

  lemma {:induction false} FirstDeadSize(m: nat, dead: nat)
    requires dead <= m
    ensures |Dead(FirstDead(m, dead))| == dead
  {
    if dead == 0 {
      assert Dead(FirstDead(m, dead)) == {};
    } else {
      FirstDeadSize(m, dead - 1);
      assert Dead(FirstDead(m, dead)) == Dead(FirstDead(m, dead - 1)) + {dead - 1};
    }
  }

  lemma {:induction false} OnlyDeadAhead(m: nat, dead: nat, n: nat, tries: nat)
    requires dead <= m && (dead == m || n + tries <= dead)
    ensures Found(FirstDead(m, dead), n, tries).None?
    decreases tries
  {
    if tries > 0 && m > 0 {
      if dead < m {
        DivMod(n, 0, n, m);
      }
      OnlyDeadAhead(m, dead, (n + 1) % COUNTERS, tries - 1);
    }
  }

  /** However the dead ones lie and wherever the counter stands before it wraps, `tries` turns find a
      connector that answers exactly if there are fewer dead ones than turns and than connectors. */
  lemma RetryFindsTheLiving(m: nat, dead: nat, tries: nat)
    requires 0 < m && dead <= m && 0 < tries <= COUNTERS
    ensures (forall alive: seq<bool>, n: nat | |alive| == m && |Dead(alive)| == dead && n + tries <= COUNTERS ::
               Found(alive, n, tries).Some?)
       <==> dead < m && dead < tries
  {
    if dead < m && dead < tries {
      forall alive: seq<bool>, n: nat | |alive| == m && |Dead(alive)| == dead && n + tries <= COUNTERS
        ensures Found(alive, n, tries).Some?
      {
        EnoughTurns(alive, n, tries);
      }
    } else {
      FirstDeadSize(m, dead);
      OnlyDeadAhead(m, dead, 0, tries);
    }
  }
}
