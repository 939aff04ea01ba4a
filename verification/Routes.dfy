/** From the nodes a chain's hops select to a route, and from a route to a connection: nesting at
    multiplexed nodes, hop-by-hop connecting, failure marks. */
module Routes {
  import opened Options

  class Marker {
    var count: nat

    constructor ()
      ensures count == 0
    {
      count := 0;
    }

    method Mark()
      modifies this
      ensures count == old(count) + 1
    {
      count := count + 1;
    }

    method Reset()
      modifies this
      ensures count == 0
    {
      count := 0;
    }
  }

  class Transport {
    const link: nat           // which dialer and connector it uses
    const multiplex: bool
    var route: Route?         // how it reaches its node

    constructor (link: nat, multiplex: bool, route: Route?)
      ensures this.link == link && this.multiplex == multiplex && this.route == route
    {
      this.link, this.multiplex, this.route := link, multiplex, route;
    }

    method Copy() returns (t: Transport)
      ensures fresh(t) && t.link == link && t.multiplex == multiplex && t.route == route
    {
      t := new Transport(link, multiplex, route);
    }
  }

  class Node {
    const addr: string
    const marker: Marker?
    var transport: Transport

    constructor (addr: string, marker: Marker?, transport: Transport)
      ensures this.addr == addr && this.marker == marker && this.transport == transport
    {
      this.addr, this.marker, this.transport := addr, marker, transport;
    }

    method Copy() returns (n: Node)
      ensures fresh(n) && n.addr == addr && n.marker == marker && n.transport == transport
    {
      n := new Node(addr, marker, transport);
    }
  }

  /** What a hop selected, and a route with the route each node is reached through. */
  datatype Pick = Pick(node: Node, link: nat, multiplex: bool)
  datatype Layer = Layer(pick: Pick, via: Option<Nested>)
  datatype Nested = Nested(nodes: seq<Layer>, chain: bool)
  function Extend(rt: Nested, pick: Pick): Nested
  {
    if pick.multiplex then Nested([Layer(pick, Some(rt))], false) else Nested(rt.nodes + [Layer(pick, None)], rt.chain)
  }

  function Nest(picks: seq<Pick>): Nested
  {
    if picks == [] then Nested([], true) else Extend(Nest(picks[..|picks| - 1]), picks[|picks| - 1])
  }

  /** The nodes in the order a connection passes them, for the first `n` nodes of the outer route. */
  function UnfoldTo(rt: Nested, n: nat): seq<Pick>
    requires n <= |rt.nodes|
    decreases rt, n
  {
    if n == 0 then []
    else
      var last := rt.nodes[n - 1];
      var inner := if last.via.Some? then UnfoldTo(last.via.value, |last.via.value.nodes|) else [];
      UnfoldTo(rt, n - 1) + inner + [last.pick]
  }

  function Unfold(rt: Nested): seq<Pick>
  {
    UnfoldTo(rt, |rt.nodes|)
  }

  /** Only the first node of a route may be multiplexed, exactly then does it have an inner route,
      and the chain's own marker belongs to the innermost route. */
  predicate WellNested(rt: Nested)
    decreases rt
  {
    && (forall i :: 0 < i < |rt.nodes| ==> !rt.nodes[i].pick.multiplex && rt.nodes[i].via == None)
    && (rt.nodes != [] ==> (rt.nodes[0].via.Some? <==> rt.nodes[0].pick.multiplex))
    && (rt.chain <==> rt.nodes == [] || !rt.nodes[0].pick.multiplex)
    && (rt.nodes != [] && rt.nodes[0].via.Some? ==> WellNested(rt.nodes[0].via.value))
  }

  lemma UnfoldOfPrefix(rt: Nested, longer: Nested, n: nat)
    requires n <= |rt.nodes| <= |longer.nodes| && rt.nodes == longer.nodes[..|rt.nodes|]
    ensures UnfoldTo(rt, n) == UnfoldTo(longer, n)
    decreases n
  {
    if n > 0 {
      UnfoldOfPrefix(rt, longer, n - 1);
    }
  }

  lemma ExtendUnfolds(rt: Nested, pick: Pick)
    ensures Unfold(Extend(rt, pick)) == Unfold(rt) + [pick]
    ensures WellNested(rt) ==> WellNested(Extend(rt, pick))
  {
    var longer := Extend(rt, pick);
    if pick.multiplex {
      assert UnfoldTo(longer, 0) == [];
    } else {
      UnfoldOfPrefix(rt, longer, |rt.nodes|);
    }
  }

  /** Nesting keeps the path, and keeps it in the one shape allowed. */
  lemma {:induction false} NestKeepsThePath(picks: seq<Pick>)
    ensures Unfold(Nest(picks)) == picks && WellNested(Nest(picks))
  {
    if picks != [] {
      var front, last := picks[..|picks| - 1], picks[|picks| - 1];
      NestKeepsThePath(front);
      ExtendUnfolds(Nest(front), last);
      assert picks == front + [last];
    }
  }

  lemma {:induction false} NestOfUnfold(rt: Nested, n: nat)
    requires WellNested(rt) && n <= |rt.nodes| && (n == 0 ==> rt.chain)
    ensures Nest(UnfoldTo(rt, n)) == Nested(rt.nodes[..n], rt.chain)
    decreases rt, n
  {
    if n > 0 {
      var last := rt.nodes[n - 1];
      var picks := UnfoldTo(rt, n);
      assert picks[|picks| - 1] == last.pick;
      if last.via.Some? {
        assert n == 1 && rt.nodes[..1] == [last] && UnfoldTo(rt, 0) == [];
        assert picks[..|picks| - 1] == Unfold(last.via.value);
        NestOfWellNested(last.via.value);
      } else {
        assert picks[..|picks| - 1] == UnfoldTo(rt, n - 1);
        assert rt.nodes[..n] == rt.nodes[..n - 1] + [last];
        NestOfUnfold(rt, n - 1);
      }
    }
  }

  /** A route of that shape is the nesting of the path it unfolds to. */
  lemma NestOfWellNested(rt: Nested)
    requires WellNested(rt)
    ensures Nest(Unfold(rt)) == rt
    decreases rt, |rt.nodes| + 1
  {
    assert rt.nodes[..|rt.nodes|] == rt.nodes;
    NestOfUnfold(rt, |rt.nodes|);
  }

  /** So the nesting is the only well-shaped route along a path. */
  lemma NestIsTheOnlyRoute(picks: seq<Pick>, rt: Nested)
    ensures (WellNested(rt) && Unfold(rt) == picks) <==> rt == Nest(picks)
  {
    NestKeepsThePath(picks);
    if WellNested(rt) {
      NestOfWellNested(rt);
    }
  }

  /** The route handed out still knows its chain exactly when no selected node is multiplexed:
      otherwise connecting through it leaves the chain's own marker alone. */
  lemma {:induction false} ChainIsKnown(picks: seq<Pick>)
    ensures Nest(picks).chain <==> forall p <- picks :: !p.multiplex
  {
    if picks != [] {
      var front, last := picks[..|picks| - 1], picks[|picks| - 1];
      ChainIsKnown(front);
      assert picks == front + [last];
    }
  }

  /** The nodes selected up to the first hop that has none. */
  function Selected(answers: seq<Node?>): seq<Node>
  {
    if answers == [] || answers[0] == null then [] else [answers[0]] + Selected(answers[1..])
  }

  ghost function PickOf(n: Node): (r: Pick)
    reads n, n.transport
    ensures r.node == n && r.link == n.transport.link && (r.multiplex <==> n.transport.multiplex)
  {
    Pick(n, n.transport.link, n.transport.multiplex)
  }

  ghost function Picks(nodes: seq<Node>): (r: seq<Pick>)
    reads nodes, set n <- nodes :: n.transport
    ensures |r| == |nodes| && forall i :: 0 <= i < |nodes| ==> r[i] == PickOf(nodes[i])
  {
    if nodes == [] then [] else [PickOf(nodes[0])] + Picks(nodes[1..])
  }

  /** The objects of `repr` form the route `rt`; nodes that are not multiplexed are the hops' own,
      multiplexed ones are copies with the route to them. */
  ghost predicate Shows(nodes: seq<Node>, rt: Nested, chain: Chain, repr: set<object>)
    reads repr
    decreases rt
  {
    |nodes| == |rt.nodes| && forall i :: 0 <= i < |nodes| ==> ShowsLayer(nodes[i], rt.nodes[i], chain, repr)
  }

  ghost predicate ShowsLayer(n: Node, layer: Layer, chain: Chain, repr: set<object>)
    reads repr
    decreases layer
  {
    var own := layer.pick.node;
    match layer.via
    case None => n == own
    case Some(inner) =>
      && n in repr && n != own && n.addr == own.addr && n.marker == own.marker
      && n.transport in repr && n.transport.link == layer.pick.link && n.transport.multiplex == layer.pick.multiplex
      && n.transport.route != null && n.transport.route in repr
      && n.transport.route.chain == (if inner.chain then chain else null)
      && Shows(n.transport.route.nodes, inner, chain, repr)
  }

  /** Without a multiplexed node a route is the hops' own nodes. */
  lemma {:induction false} NestWithoutMultiplex(picks: seq<Pick>)
    requires forall p <- picks :: !p.multiplex
    ensures Nest(picks).chain && |Nest(picks).nodes| == |picks|
    ensures forall i :: 0 <= i < |picks| ==> Nest(picks).nodes[i] == Layer(picks[i], None)
  {
    if picks != [] {
      NestWithoutMultiplex(picks[..|picks| - 1]);
    }
  }

  /** With one it begins at the last of them, which is reached through the route of the nodes before. */
  lemma {:induction false} NestFromLastMultiplex(picks: seq<Pick>, j: nat)
    requires j < |picks| && picks[j].multiplex && forall i :: j < i < |picks| ==> !picks[i].multiplex
    ensures !Nest(picks).chain && |Nest(picks).nodes| == |picks| - j
    ensures Nest(picks).nodes[0] == Layer(picks[j], Some(Nest(picks[..j])))
    ensures forall i :: j < i < |picks| ==> Nest(picks).nodes[i - j] == Layer(picks[i], None)
  {
    var front := picks[..|picks| - 1];
    if j < |front| {
      NestFromLastMultiplex(front, j);
      assert front[..j] == picks[..j];
    }
  }

  /** The objects of a route without a multiplexed node. */
  lemma ShowsPlain(nodes: seq<Node>, picks: seq<Pick>, chain: Chain, repr: set<object>)
    requires Shows(nodes, Nest(picks), chain, repr) && forall p <- picks :: !p.multiplex
    ensures |nodes| == |picks| && forall i :: 0 <= i < |nodes| ==> nodes[i] == picks[i].node
  {
    NestWithoutMultiplex(picks);
  }

  /** And of one whose last multiplexed node is the `j`-th: its first node is a copy of that node, with
      the same address, marker and connector, reached through a route that shows the nodes before; the
      others are the hops' own. */
  lemma ShowsNested(nodes: seq<Node>, picks: seq<Pick>, chain: Chain, repr: set<object>, j: nat)
    requires Shows(nodes, Nest(picks), chain, repr)
    requires j < |picks| && picks[j].multiplex && forall i :: j < i < |picks| ==> !picks[i].multiplex
    ensures |nodes| == |picks| - j && forall i :: j < i < |picks| ==> nodes[i - j] == picks[i].node
    ensures var n, own := nodes[0], picks[j].node;
            && n != own && n.addr == own.addr && n.marker == own.marker
            && n.transport.link == picks[j].link && n.transport.multiplex && n.transport.route != null
            && Shows(n.transport.route.nodes, Nest(picks[..j]), chain, repr)
            && n.transport.route.chain == if forall p <- picks[..j] :: !p.multiplex then chain else null
  {
    NestFromLastMultiplex(picks, j);
    ChainIsKnown(picks[..j]);
    assert ShowsLayer(nodes[0], Nest(picks).nodes[0], chain, repr);
    forall i | j < i < |picks| ensures nodes[i - j] == picks[i].node {
      assert ShowsLayer(nodes[i - j], Nest(picks).nodes[i - j], chain, repr);
    }
  }

  lemma ShowsStays(nodes: seq<Node>, rt: Nested, chain: Chain, repr: set<object>, more: set<object>)
    requires Shows(nodes, rt, chain, repr) && repr <= more
    ensures Shows(nodes, rt, chain, more)
    decreases rt
  {
    forall i | 0 <= i < |nodes| ensures ShowsLayer(nodes[i], rt.nodes[i], chain, more) {
      if rt.nodes[i].via.Some? {
        ShowsStays(nodes[i].transport.route.nodes, rt.nodes[i].via.value, chain, repr, more);
      }
    }
  }

  lemma NestStep(picks: seq<Pick>, i: nat)
    requires i < |picks|
    ensures Nest(picks[..i + 1]) == Extend(Nest(picks[..i]), picks[i])
  {
    assert picks[..i + 1][..i] == picks[..i];
  }

  lemma SelectedAt(answers: seq<Node?>, i: nat)
    ensures |Selected(answers)| <= |answers|
    ensures i < |Selected(answers)| ==> answers[i] == Selected(answers)[i]
    ensures i == |Selected(answers)| < |answers| ==> answers[i] == null
  {
    if answers != [] && answers[0] != null && i > 0 {
      SelectedAt(answers[1..], i - 1);
    }
  }

  class Chain {
    var hops: seq<Hop>
    const marker: Marker

    constructor ()
      ensures hops == [] && fresh(marker)
    {
      hops := [];
      marker := new Marker();
    }

    method AddHop(hop: Hop)
      modifies this
      ensures hops == old(hops) + [hop]
    {
      hops := hops + [hop];
    }

    /** `answers` are the nodes the hops would select. Nothing that existed before is changed. */
    method FindRoute(answers: seq<Node?>) returns (rt: Route?, ghost repr: set<object>)
      requires |answers| == |hops|
      ensures hops == [] <==> rt == null
      ensures rt != null ==> fresh(rt) && fresh(repr)
      ensures var nested := Nest(old(Picks(Selected(answers))));
              rt != null ==> Shows(rt.nodes, nested, this, repr) && rt.chain == (if nested.chain then this else null)
    {
      repr := {};
      if |hops| == 0 {
        return null, repr;
      }
      rt := new Route(this);
      ghost var nodes := Selected(answers);
      ghost var picks, nested := old(Picks(nodes)), Nested([], true);
      SelectedAt(answers, 0);
      assert nested == Nest(picks[..0]) && Shows(rt.nodes, nested, this, repr);
      hide Nest, Extend, Picks, Shows, Selected;
      for i := 0 to |hops|
        invariant i <= |nodes| <= |answers| && rt != null && fresh(rt) && fresh(repr) && rt !in repr
        invariant nested == Nest(picks[..i]) && Shows(rt.nodes, nested, this, repr)
        invariant rt.chain == if nested.chain then this else null
      {
        var node := answers[i];
        SelectedAt(answers, i);
        if node == null {
          assert picks[..i] == picks;
          return;
        }
        NestStep(picks, i);
        assert picks[i] == old(PickOf(node)) == PickOf(node);
        rt, repr := Passed(rt, node, nested, repr);
        nested := Extend(nested, picks[i]);
      }
      assert picks[..|hops|] == picks;
    }

    method Passed(rt: Route, node: Node, ghost nested: Nested, ghost repr: set<object>)
      returns (next: Route, ghost repr': set<object>)
      requires rt !in repr && rt.chain == if nested.chain then this else null
      requires Shows(rt.nodes, nested, this, repr)
      modifies rt
      ensures next == rt || fresh(next)
      ensures next !in repr' && fresh(repr' - repr - {rt})
      ensures var longer := Extend(nested, PickOf(node));
              Shows(next.nodes, longer, this, repr') && next.chain == if longer.chain then this else null
    {
      if node.transport.multiplex {
        var t := node.transport.Copy();
        t.route := rt;
        var copy := node.Copy();
        copy.transport := t;
        next := new Route(null);
        next.AddNode(copy);
        repr' := repr + {rt, t, copy};
        ShowsStays(rt.nodes, nested, this, repr, repr');
      } else {
        next, repr' := rt, repr;
        next.AddNode(node);
      }
    }
  }

  /** What selects nodes is not looked into. */
  class Hop {
  }

  class Socket {
    var closed: bool

    constructor ()
      ensures !closed
    {
      closed := false;
    }

    method Close()
      modifies this
      ensures closed
    {
      closed := true;
    }
  }

  /** How one hop of a connection attempt turns out. */
  datatype Outcome = ResolveFails | ReachFails | HandshakeFails | Works

  /** A connection is its socket and what was done over it, in order; closing it closes the socket. */
  datatype Step = Dialed(addr: string) | Joined(from: Node, addr: string) | Handshaken(peer: Node)
  datatype Conn = Conn(socket: Socket, steps: seq<Step>)

  function Steps(nodes: seq<Node>): seq<Step>
    requires nodes != []
  {
    var last := nodes[|nodes| - 1];
    var reached := if |nodes| == 1 then [Dialed(last.addr)]
                   else Steps(nodes[..|nodes| - 1]) + [Joined(nodes[|nodes| - 2], last.addr)];
    reached + [Handshaken(last)]
  }

  /** Step by step: the first node is dialed, each later one joined through the node before it over
      the connection so far, and each is shaken hands with before the next. */
  lemma {:induction false} StepsInOrder(nodes: seq<Node>, i: nat)
    requires i < |nodes|
    ensures |Steps(nodes)| == 2 * |nodes| && Steps(nodes)[0] == Dialed(nodes[0].addr)
    ensures i > 0 ==> Steps(nodes)[2 * i] == Joined(nodes[i - 1], nodes[i].addr)
    ensures Steps(nodes)[2 * i + 1] == Handshaken(nodes[i])
  {
    if |nodes| > 1 {
      var front := nodes[..|nodes| - 1];
      StepsInOrder(front, if i < |front| then i else 0);
    }
  }

  function FirstFailure(outcomes: seq<Outcome>): (k: nat)
    ensures k <= |outcomes| && (forall j :: 0 <= j < k ==> outcomes[j].Works?)
    ensures k < |outcomes| ==> !outcomes[k].Works?
  {
    if outcomes == [] || !outcomes[0].Works? then 0 else 1 + FirstFailure(outcomes[1..])
  }

  function Markers(nodes: seq<Node>): (r: set<Marker>)
    ensures forall n <- nodes :: n.marker != null ==> n.marker in r
  {
    set n <- nodes | n.marker != null :: n.marker
  }

  /** What a marker that read `c` reads once the nodes before `k` were passed. */
  function CountPassed(nodes: seq<Node>, k: nat, m: Marker, c: nat): nat
    requires k <= |nodes|
  {
    if exists j :: 0 <= j < k && nodes[j].marker == m then 0 else c
  }

  /** ... and then node `k`, if there is one, failed. Nodes may share markers. */
  function CountAfter(nodes: seq<Node>, k: nat, m: Marker, c: nat): nat
    requires k <= |nodes|
  {
    var passed := CountPassed(nodes, k, m, c);
    if k < |nodes| && nodes[k].marker == m then passed + 1 else passed
  }

  lemma PassNode(nodes: seq<Node>, k: nat)
    requires k < |nodes|
    ensures forall m: Marker, c: nat :: CountPassed(nodes, 0, m, c) == c
    ensures forall m: Marker, c: nat ::
              CountPassed(nodes, k + 1, m, c) == if nodes[k].marker == m then 0 else CountPassed(nodes, k, m, c)
    ensures forall m: Marker, c: nat ::
              CountAfter(nodes, k, m, c) == CountPassed(nodes, k, m, c) + if nodes[k].marker == m then 1 else 0
    ensures forall m: Marker, c: nat :: CountAfter(nodes, |nodes|, m, c) == CountPassed(nodes, |nodes|, m, c)
  {
  }

  lemma StepsOfNext(nodes: seq<Node>, k: nat)
    requires 0 < k < |nodes|
    ensures Steps(nodes[..k + 1]) == Steps(nodes[..k]) + [Joined(nodes[k - 1], nodes[k].addr), Handshaken(nodes[k])]
  {
    assert nodes[..k + 1][..k] == nodes[..k];
  }

  predicate OwnMarkers(nodes: seq<Node>)
  {
    forall a, b :: 0 <= a < b < |nodes| && nodes[a].marker != null ==> nodes[a].marker != nodes[b].marker
  }

  /** When no two nodes share a marker, exactly the failing node gets a mark, those before it are cleared
      and those after it are as they were. */
  lemma BlameIsExact(nodes: seq<Node>, k: nat, j: nat, c: nat)
    requires OwnMarkers(nodes)
    requires k <= |nodes| && j < |nodes| && nodes[j].marker != null
    ensures CountAfter(nodes, k, nodes[j].marker, c) == if j < k then 0 else if j == k then c + 1 else c
  {
  }

  /** Attempts that all fail at node `k`. */
  function CountAfterRuns(nodes: seq<Node>, k: nat, m: Marker, runs: nat): nat
    requires k <= |nodes|
  {
    if runs == 0 then 0 else CountAfter(nodes, k, m, CountAfterRuns(nodes, k, m, runs - 1))
  }

  lemma {:induction false} RunsCount(nodes: seq<Node>, k: nat, m: Marker, runs: nat)
    requires k < |nodes| && nodes[k].marker == m
    ensures CountAfterRuns(nodes, k, m, runs) ==
            if exists j :: 0 <= j < k && nodes[j].marker == m then Bounded(runs) else runs
  {
    if runs > 0 {
      RunsCount(nodes, k, m, runs - 1);
    }
  }

  function Bounded(runs: nat): nat
  {
    if runs == 0 then 0 else 1
  }

  /** Failures of a node add up over every run of attempts exactly when no node before it in the
      route shares its marker: passing that one clears what the failing one collected. */
  lemma FailuresAddUp(nodes: seq<Node>, k: nat, m: Marker)
    requires k < |nodes| && nodes[k].marker == m
    ensures (forall runs: nat :: CountAfterRuns(nodes, k, m, runs) == runs) <==>
            (forall j :: 0 <= j < k ==> nodes[j].marker != m)
  {
    forall runs: nat
      ensures (forall j :: 0 <= j < k ==> nodes[j].marker != m) ==> CountAfterRuns(nodes, k, m, runs) == runs
    {
      RunsCount(nodes, k, m, runs);
    }
    RunsCount(nodes, k, m, 2);
  }

  class Route {
    var nodes: seq<Node>
    const chain: Chain?

    constructor (chain: Chain?)
      ensures nodes == [] && this.chain == chain
    {
      nodes, this.chain := [], chain;
    }

    method AddNode(n: Node)
      modifies this
      ensures nodes == old(nodes) + [n]
    {
      nodes := nodes + [n];
    }

    ghost function AllMarkers(): set<Marker>
      reads this
    {
      Markers(nodes) + if chain == null then {} else {chain.marker}
    }

    /** Connects to `address` through the route; `answers` says whether the last step succeeds. That
        step marks no one. */
    method Dial(address: string, outcomes: seq<Outcome>, answers: bool)
      returns (conn: Option<Conn>, ghost dialed: set<Socket>)
      requires |outcomes| == |nodes|
      modifies AllMarkers()
      ensures conn.Some? <==> answers && FirstFailure(outcomes) == |nodes|
      ensures conn.Some? && nodes == [] ==> conn.value.steps == [Dialed(address)]
      ensures conn.Some? && nodes != [] ==> conn.value.steps == Steps(nodes) + [Joined(nodes[|nodes| - 1], address)]
      ensures conn.Some? ==> dialed == {conn.value.socket} && !conn.value.socket.closed
      ensures fresh(dialed) && (conn.None? ==> forall s <- dialed :: s.closed)
      ensures nodes == [] ==> forall m <- AllMarkers() :: m.count == old(m.count)
      ensures nodes != [] ==>
              forall m <- AllMarkers() :: m.count == CountAfterConnect(FirstFailure(outcomes), m, old(m.count))
    {
      conn, dialed := None, {};
      if |nodes| == 0 {
        if answers {
          var socket := new Socket();
          conn, dialed := Some(Conn(socket, [Dialed(address)])), {socket};
        }
        return;
      }
      conn, dialed := Connect(outcomes);
      if conn == None {
        return;
      }
      if !answers {
        conn.value.socket.Close();
        return None, dialed;
      }
      conn := Some(conn.value.(steps := conn.value.steps + [Joined(nodes[|nodes| - 1], address)]));
    }

    /** The chain is blamed last, whatever failed, and cleared when nothing did. */
    ghost function CountAfterConnect(k: nat, m: Marker, c: nat): nat
      requires k <= |nodes|
      reads this
    {
      if chain == null || m != chain.marker then CountAfter(nodes, k, m, c)
      else if k == |nodes| then 0
      else CountAfter(nodes, k, m, c) + 1
    }

    /** Opens a connection through all nodes; `dialed` are the sockets it dialed. */
    method Connect(outcomes: seq<Outcome>) returns (conn: Option<Conn>, ghost dialed: set<Socket>)
      requires nodes != [] && |outcomes| == |nodes|
      modifies AllMarkers()
      ensures conn.Some? <==> FirstFailure(outcomes) == |nodes|
      ensures conn.Some? ==>
              conn.value.steps == Steps(nodes) && dialed == {conn.value.socket} && !conn.value.socket.closed
      ensures conn.None? ==> forall s <- dialed :: s.closed
      ensures fresh(dialed) && (dialed == {} <==> outcomes[0] in {ResolveFails, ReachFails})
      ensures forall m <- AllMarkers() :: m.count == CountAfterConnect(FirstFailure(outcomes), m, old(m.count))
      ensures chain != null && (forall n <- nodes :: n.marker != chain.marker) ==>
              chain.marker.count == if conn.Some? then 0 else old(chain.marker.count) + 1
      ensures chain != null && conn.Some? ==> chain.marker.count == 0
    {
      conn, dialed := ConnectNodes(outcomes);
      if chain != null {
        if conn == None {
          chain.marker.Mark();
        } else {
          chain.marker.Reset();
        }
      }
    }

    method ConnectNodes(outcomes: seq<Outcome>) returns (conn: Option<Conn>, ghost dialed: set<Socket>)
      requires nodes != [] && |outcomes| == |nodes|
      modifies Markers(nodes)
      ensures conn.Some? <==> FirstFailure(outcomes) == |nodes|
      ensures conn.Some? ==>
              conn.value.steps == Steps(nodes) && dialed == {conn.value.socket} && !conn.value.socket.closed
      ensures conn.None? ==> forall s <- dialed :: s.closed
      ensures fresh(dialed) && (dialed == {} <==> outcomes[0] in {ResolveFails, ReachFails})
      ensures forall m: Marker | old(allocated(m)) ::
                m.count == CountAfter(nodes, FirstFailure(outcomes), m, old(m.count))
    {
      conn, dialed := None, {};
      var node := nodes[0];
      PassNode(nodes, 0);
      assert Steps(nodes[..1]) == [Dialed(node.addr), Handshaken(node)];
      hide Steps, CountAfter, CountPassed, FirstFailure;
      if outcomes[0] == ResolveFails || outcomes[0] == ReachFails {
        MarkNode(node);
        return;
      }
      var socket := new Socket();
      dialed := {socket};
      if outcomes[0] == HandshakeFails {
        GiveUp(socket, node);
        return;
      }
      ResetNode(node);
      conn := ConnectRest(outcomes, Conn(socket, [Dialed(node.addr), Handshaken(node)]));
    }

    /** From a connection to the first node through the others. */
    method ConnectRest(outcomes: seq<Outcome>, first: Conn) returns (conn: Option<Conn>)
      requires nodes != [] && |outcomes| == |nodes| && outcomes[0].Works?
      requires first.steps == Steps(nodes[..1]) && !first.socket.closed
      modifies Markers(nodes), first.socket
      ensures conn.Some? <==> FirstFailure(outcomes) == |nodes|
      ensures conn.Some? ==> conn.value == Conn(first.socket, Steps(nodes))
      ensures first.socket.closed == conn.None?
      ensures forall m: Marker, c: nat | old(allocated(m)) && old(m.count) == CountPassed(nodes, 1, m, c) ::
                m.count == CountAfter(nodes, FirstFailure(outcomes), m, c)
    {
      var cn, last := first, nodes[0];
      hide Steps, CountAfter, CountPassed, FirstFailure, Markers;
      for i := 1 to |nodes|
        invariant cn == Conn(first.socket, Steps(nodes[..i])) && !cn.socket.closed && last == nodes[i - 1]
        invariant forall j :: 0 <= j < i ==> outcomes[j].Works?
        invariant forall m: Marker, c: nat | old(allocated(m)) && old(m.count) == CountPassed(nodes, 1, m, c) ::
                    m.count == CountPassed(nodes, i, m, c)
      {
        var node := nodes[i];
        PassNode(nodes, i);
        StepsOfNext(nodes, i);
        if outcomes[i] == ResolveFails || outcomes[i] == ReachFails {
          GiveUp(cn.socket, node);
          return None;
        }
        var cc := Conn(cn.socket, cn.steps + [Joined(last, node.addr)]);
        if outcomes[i] == HandshakeFails {
          GiveUp(cn.socket, node);
          return None;
        }
        ResetNode(node);
        cn := cc.(steps := cc.steps + [Handshaken(node)]);
        last := node;
      }
      PassNode(nodes, 0);
      assert nodes[..|nodes|] == nodes;
      return Some(cn);
    }
  }

  method GiveUp(socket: Socket, n: Node)
    modifies socket, if n.marker == null then {} else {n.marker}
    ensures socket.closed
    ensures forall m: Marker | old(allocated(m)) :: m.count == if m == n.marker then old(m.count) + 1 else old(m.count)
  {
    socket.Close();
    MarkNode(n);
  }

  method MarkNode(n: Node)
    modifies if n.marker == null then {} else {n.marker}
    ensures forall m: Marker | old(allocated(m)) :: m.count == if m == n.marker then old(m.count) + 1 else old(m.count)
  {
    if n.marker != null {
      n.marker.Mark();
    }
  }

  method ResetNode(n: Node)
    modifies if n.marker == null then {} else {n.marker}
    ensures forall m: Marker | old(allocated(m)) :: m.count == if m == n.marker then 0 else old(m.count)
  {
    if n.marker != null {
      n.marker.Reset();
    }
  }
}
