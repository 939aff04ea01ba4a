/** Choosing among candidates: filters by failures and backup flag, then a strategy. */
module Selection {
  import opened Options
  import opened Modular
  import Routes

  datatype Mark = Mark(count: int, time: int)

  /** `weight` 0 and the absent options stand for labels that are not set. */
  datatype Candidate = Candidate(id: nat, weight: int, backup: bool, maxFails: Option<int>, failTimeout: Option<int>,
                                 marker: Option<Mark>)

  const DEFAULT_FAIL_TIMEOUT := 10_000_000_000

  datatype Filter = FailFilter(maxFails: int, failTimeout: int) | BackupFilter

  /** The labels of the candidate override the filter's settings; what is not positive is a default. */
  function MaxFails(f: Filter, v: Candidate): (r: int)
    requires f.FailFilter?
    ensures r > 0
  {
    var n := if v.maxFails.Some? then v.maxFails.value else f.maxFails;
    if n <= 0 then 1 else n
  }

  function FailTimeout(f: Filter, v: Candidate): (r: int)
    requires f.FailFilter?
    ensures r > 0
  {
    var t := if v.failTimeout.Some? then v.failTimeout.value else f.failTimeout;
    if t <= 0 then DEFAULT_FAIL_TIMEOUT else t
  }

  predicate Live(f: Filter, now: int, v: Candidate)
    requires f.FailFilter?
  {
    v.marker.Some? ==> v.marker.value.count < MaxFails(f, v) || now - v.marker.value.time >= FailTimeout(f, v)
  }

  /** The candidates that have a property, in order. */
  function Keep(vs: seq<Candidate>, p: Candidate -> bool): seq<Candidate>
  {
    if vs == [] then []
    else
      var last := vs[|vs| - 1];
      Keep(vs[..|vs| - 1], p) + if p(last) then [last] else []
  }

  lemma {:induction false} KeepHas(vs: seq<Candidate>, p: Candidate -> bool)
    ensures forall v :: v in Keep(vs, p) <==> v in vs && p(v)
  {
    if vs != [] {
      var front, last := vs[..|vs| - 1], vs[|vs| - 1];
      KeepHas(front, p);
      assert forall v :: v in vs <==> v in front || v == last;
    }
  }

  /** The positions below `n` kept. */
  function Positions(vs: seq<Candidate>, n: nat, p: Candidate -> bool): seq<nat>
    requires n <= |vs|
  {
    if n == 0 then []
    else Positions(vs, n - 1, p) + if p(vs[n - 1]) then [n - 1] else []
  }

  predicate Increasing(at: seq<nat>)
  {
    forall j, k :: 0 <= j < k < |at| ==> at[j] < at[k]
  }

  /** They are exactly those with the property, in increasing order. */
  lemma {:induction false} PositionsIncrease(vs: seq<Candidate>, n: nat, p: Candidate -> bool)
    requires n <= |vs|
    ensures forall i: nat :: i in Positions(vs, n, p) <==> i < n && p(vs[i])
    ensures Increasing(Positions(vs, n, p))
  {
    if n > 0 {
      PositionsIncrease(vs, n - 1, p);
      var front := Positions(vs, n - 1, p);
      forall k | 0 <= k < |front| ensures front[k] < n - 1 {
        assert front[k] in front;
      }
      assert Positions(vs, n, p) == front + if p(vs[n - 1]) then [n - 1] else [];
    }
  }

  lemma {:induction false} KeptCount(vs: seq<Candidate>, n: nat, p: Candidate -> bool)
    requires n <= |vs|
    ensures |Keep(vs[..n], p)| == |Positions(vs, n, p)|
  {
    if n > 0 {
      assert vs[..n][..n - 1] == vs[..n - 1];
      KeptCount(vs, n - 1, p);
    }
  }

  /** What is kept are the candidates at these positions. */
  lemma {:induction false} KeepIsInOrder(vs: seq<Candidate>, n: nat, p: Candidate -> bool, k: nat)
    requires n <= |vs| && k < |Positions(vs, n, p)|
    ensures k < |Keep(vs[..n], p)| && Positions(vs, n, p)[k] < n && Keep(vs[..n], p)[k] == vs[Positions(vs, n, p)[k]]
  {
    KeptCount(vs, n, p);
    KeptCount(vs, n - 1, p);
    assert vs[..n][..n - 1] == vs[..n - 1];
    if k < |Positions(vs, n - 1, p)| {
      KeepIsInOrder(vs, n - 1, p, k);
    }
  }

  function Kept(f: Filter, now: int, vs: seq<Candidate>): seq<Candidate>
  {
    if |vs| <= 1 then vs
    else
      match f
      case FailFilter(_, _) => Keep(vs, v => Live(f, now, v))
      case BackupFilter =>
        var main := Keep(vs, (v: Candidate) => !v.backup);
        if main == [] then Keep(vs, (v: Candidate) => v.backup) else main
  }

  /** What a filter leaves of two candidates or more, position by position. */
  lemma KeptInOrder(f: Filter, now: int, vs: seq<Candidate>, k: nat)
    requires |vs| >= 2
    ensures f.FailFilter? ==>
              var at := Positions(vs, |vs|, v => Live(f, now, v));
              |Kept(f, now, vs)| == |at| && (k < |at| ==> at[k] < |vs| && Kept(f, now, vs)[k] == vs[at[k]])
    ensures f.BackupFilter? ==>
              var at := Positions(vs, |vs|, (v: Candidate) => !v.backup);
              at != [] ==> |Kept(f, now, vs)| == |at| && (k < |at| ==> at[k] < |vs| && Kept(f, now, vs)[k] == vs[at[k]])
    ensures f.BackupFilter? && (forall v <- vs :: v.backup) ==> Kept(f, now, vs) == vs
  {
    assert vs[..|vs|] == vs;
    if f.FailFilter? {
      KeepAtPositions(vs, v => Live(f, now, v), k);
    } else {
      KeepAtPositions(vs, (v: Candidate) => !v.backup, k);
      if forall v <- vs :: v.backup {
        KeepNone(vs, (v: Candidate) => !v.backup);
        KeepAll(vs, (v: Candidate) => v.backup);
      }
    }
  }

  lemma KeepAtPositions(vs: seq<Candidate>, p: Candidate -> bool, k: nat)
    ensures var at := Positions(vs, |vs|, p);
            |Keep(vs, p)| == |at| && (k < |at| ==> at[k] < |vs| && Keep(vs, p)[k] == vs[at[k]])
  {
    assert vs[..|vs|] == vs;
    KeptCount(vs, |vs|, p);
    if k < |Positions(vs, |vs|, p)| {
      KeepIsInOrder(vs, |vs|, p, k);
    }
  }

  lemma {:induction false} KeepNone(vs: seq<Candidate>, p: Candidate -> bool)
    requires forall v <- vs :: !p(v)
    ensures Keep(vs, p) == []
  {
    if vs != [] {
      KeepNone(vs[..|vs| - 1], p);
    }
  }

  lemma {:induction false} KeepAll(vs: seq<Candidate>, p: Candidate -> bool)
    requires forall v <- vs :: p(v)
    ensures Keep(vs, p) == vs
  {
    if vs != [] {
      KeepAll(vs[..|vs| - 1], p);
      assert vs == vs[..|vs| - 1] + [vs[|vs| - 1]];
    }
  }

  function KeptByAll(filters: seq<Filter>, now: int, vs: seq<Candidate>): seq<Candidate>
  {
    if filters == [] then vs else KeptByAll(filters[1..], now, Kept(filters[0], now, vs))
  }

  predicate OnlyBackupsLive(f: Filter, now: int, vs: seq<Candidate>)
    requires f.FailFilter?
  {
    forall v <- vs :: Live(f, now, v) ==> v.backup
  }

  /** The two filters every configured selector has, on two candidates or more: what is left are the
      live ones without the backups, or the live backups when there is nothing else; nothing is left
      exactly when no candidate is live. */
  lemma FailThenBackup(f: Filter, now: int, vs: seq<Candidate>)
    requires f.FailFilter? && |vs| >= 2
    ensures var left := KeptByAll([f, BackupFilter], now, vs);
            && (forall v :: v in left <==> v in vs && Live(f, now, v) && (v.backup ==> OnlyBackupsLive(f, now, vs)))
            && (left == [] <==> forall v <- vs :: !Live(f, now, v))
  {
    var live := Kept(f, now, vs);
    assert [f, BackupFilter][1..] == [BackupFilter];
    assert KeptByAll([BackupFilter], now, live) == KeptByAll([], now, Kept(BackupFilter, now, live));
    if |live| == 1 {
      assert forall v :: v in live <==> v == live[0];
    }
    var main := Keep(live, (v: Candidate) => !v.backup);
    KeepHas(vs, v => Live(f, now, v));
    KeepHas(live, (v: Candidate) => !v.backup);
    KeepHas(live, (v: Candidate) => v.backup);
    if main == [] {
      assert forall v <- live :: v.backup;
    } else {
      assert main[0] in live;
    }
    if live != [] {
      assert live[0] in vs && Live(f, now, live[0]);
    }
  }

  /** A lone candidate is never filtered, dead or not. */
  lemma {:induction false} LoneCandidateStays(filters: seq<Filter>, now: int, vs: seq<Candidate>)
    requires |vs| <= 1
    ensures KeptByAll(filters, now, vs) == vs
  {
    if filters != [] {
      LoneCandidateStays(filters[1..], now, vs);
    }
  }

  /** "Dead if it failed more often than MaxFails" describes the filter exactly for candidates whose
      failures differ from MaxFails or have timed out: one that failed just as often is dropped. */
  lemma MoreThanMaxFails(f: Filter, now: int, v: Candidate)
    requires f.FailFilter? && v.marker.Some?
    ensures var m := v.marker.value;
            var expired := now - m.time >= FailTimeout(f, v);
            (Live(f, now, v) <==> m.count <= MaxFails(f, v) || expired) <==> (m.count != MaxFails(f, v) || expired)
  {
  }

  /** After a route fails at node `k`, and until the timeout is over, the nodes before it are live, and
      node `k` is exactly if it may fail more often than it now has. */
  lemma FailedNodeIsSkipped(nodes: seq<Routes.Node>, k: nat, j: nat, c: nat, f: Filter, now: int, v: Candidate)
    requires j <= k < |nodes| && nodes[j].marker != null && Routes.OwnMarkers(nodes)
    requires f.FailFilter?
    requires v.marker.Some? && v.marker.value.count == Routes.CountAfter(nodes, k, nodes[j].marker, c)
    requires now - v.marker.value.time < FailTimeout(f, v)
    ensures Live(f, now, v) <==> j < k || c + 1 < MaxFails(f, v)
  {
    Routes.BlameIsExact(nodes, k, j, c);
  }

  /** A candidate without a marker is always live. Another is until it has failed as often as its own
      label, or without one the filter, allows (1 if that is not positive), and again once its own
      label's or the filter's timeout (10 s if that is not positive) is over. */
  lemma LiveMeans(maxFails: int, failTimeout: int, now: int, v: Candidate)
    ensures var allowed := if v.maxFails.Some? then v.maxFails.value else maxFails;
            var timeout := if v.failTimeout.Some? then v.failTimeout.value else failTimeout;
            Live(FailFilter(maxFails, failTimeout), now, v) <==>
            || v.marker.None?
            || v.marker.value.count < (if allowed > 0 then allowed else 1)
            || now - v.marker.value.time >= (if timeout > 0 then timeout else 10_000_000_000)
  {
  }

  method ApplyFailFilter(f: Filter, now: int, vs: seq<Candidate>) returns (l: seq<Candidate>)
    requires f.FailFilter?
    ensures l == Kept(f, now, vs)
  {
    if |vs| <= 1 {
      return vs;
    }
    l := [];
    for i := 0 to |vs|
      invariant l == Keep(vs[..i], v => Live(f, now, v))
    {
      assert vs[..i + 1][..i] == vs[..i];
      var v := vs[i];
      var maxFails, failTimeout := f.maxFails, f.failTimeout;
      if v.maxFails.Some? {
        maxFails := v.maxFails.value;
      }
      if v.failTimeout.Some? {
        failTimeout := v.failTimeout.value;
      }
      if maxFails <= 0 {
        maxFails := 1;
      }
      if failTimeout <= 0 {
        failTimeout := DEFAULT_FAIL_TIMEOUT;
      }
      if v.marker.Some? {
        if v.marker.value.count < maxFails || now - v.marker.value.time >= failTimeout {
          l := l + [v];
        }
        continue;
      }
      l := l + [v];
    }
    assert vs[..|vs|] == vs;
  }

  method ApplyBackupFilter(now: int, vs: seq<Candidate>) returns (l: seq<Candidate>)
    ensures l == Kept(BackupFilter, now, vs)
  {
    if |vs| <= 1 {
      return vs;
    }
    l := [];
    var backups := [];
    for i := 0 to |vs|
      invariant l == Keep(vs[..i], (v: Candidate) => !v.backup)
      invariant backups == Keep(vs[..i], (v: Candidate) => v.backup)
    {
      assert vs[..i + 1][..i] == vs[..i];
      if vs[i].backup {
        backups := backups + [vs[i]];
        continue;
      }
      l := l + [vs[i]];
    }
    assert vs[..|vs|] == vs;
    if |l| == 0 {
      return backups;
    }
  }

  /** Of the first `k` weights. */
  function Sum(weights: seq<int>, k: nat): int
    requires k <= |weights|
  {
    if k == 0 then 0 else Sum(weights, k - 1) + weights[k - 1]
  }

  lemma {:induction false} SumOfLonger(weights: seq<int>, w: int, k: nat)
    requires k <= |weights|
    ensures Sum(weights + [w], k) == Sum(weights, k)
  {
    if k > 0 {
      SumOfLonger(weights, w, k - 1);
    }
  }

  /** The position a draw selects: the first whose weights so far reach it. */
  predicate Selects(weights: seq<int>, draw: int, i: nat)
  {
    && i < |weights| && draw <= Sum(weights, i + 1)
    && forall j :: 0 < j <= i ==> Sum(weights, j) < draw
  }

  /** A random draw and a weighted choice. */
  class RandomWeighted {
    var items: seq<Candidate>
    var weights: seq<int>
    var sum: int

    ghost predicate Valid()
      reads this
    {
      |weights| == |items| && sum == Sum(weights, |weights|)
    }

    constructor ()
      ensures Valid() && items == []
    {
      items, weights, sum := [], [], 0;
    }

    method Add(item: Candidate, weight: int)
      requires Valid()
      modifies this
      ensures Valid() && items == old(items) + [item] && weights == old(weights) + [weight]
    {
      items, weights, sum := items + [item], weights + [weight], sum + weight;
      SumOfLonger(old(weights), weight, |old(weights)|);
    }

    method Reset()
      modifies this
      ensures Valid() && items == []
    {
      items, weights, sum := [], [], 0;
    }

    /** Whatever the weights are, a draw within the sum selects an item before the loop ends. */
    method Next(draw: int) returns (v: Option<Candidate>)
      requires Valid() && (sum > 0 ==> 1 <= draw <= sum)
      ensures v.Some? <==> items != [] && sum > 0
      ensures v.Some? ==> exists i: nat :: Selects(weights, draw, i) && v.value == items[i]
    {
      v := None;
      if |items| == 0 || sum <= 0 {
        return;
      }
      var weight := draw;
      for i := 0 to |items|
        invariant weight == draw - Sum(weights, i) && weight > 0
        invariant forall j :: 0 < j <= i ==> Sum(weights, j) < draw
      {
        weight := weight - weights[i];
        if weight <= 0 {
          assert Selects(weights, draw, i);
          return Some(items[i]);
        }
      }
    }
  }

  /** `lo`, exclusive, to `hi`, inclusive. */
  function Interval(lo: int, hi: int): (r: set<int>)
    ensures forall d :: d in r <==> lo < d <= hi
    ensures |r| == if lo <= hi then hi - lo else 0
    decreases hi - lo
  {
    if hi <= lo then {} else Interval(lo, hi - 1) + {hi}
  }

  lemma {:induction false} SumGrows(weights: seq<int>, i: nat, j: nat)
    requires (forall w <- weights :: w > 0) && i <= j <= |weights|
    ensures Sum(weights, i) <= Sum(weights, j)
    decreases j
  {
    if i < j {
      assert weights[j - 1] in weights;
      SumGrows(weights, i, j - 1);
    }
  }

  lemma SelectsItsInterval(weights: seq<int>, draw: int, i: nat)
    requires (forall w <- weights :: w > 0) && i < |weights| && draw >= 1
    ensures Selects(weights, draw, i) <==> draw in Interval(Sum(weights, i), Sum(weights, i + 1))
  {
    forall j | 0 < j <= i ensures Sum(weights, j) <= Sum(weights, i) {
      SumGrows(weights, j, i);
    }
  }

  /** With positive weights no draw selects two positions, and position `i` is selected by exactly as
      many draws from 1 to the sum as its weight. */
  lemma WeightedIsExact(weights: seq<int>, i: nat)
    requires (forall w <- weights :: w > 0) && i < |weights|
    ensures |set d | d in Interval(0, Sum(weights, |weights|)) && Selects(weights, d, i)| == weights[i]
    ensures forall d, j: nat :: Selects(weights, d, i) && Selects(weights, d, j) ==> i == j
  {
    var lo, hi, all := Sum(weights, i), Sum(weights, i + 1), Sum(weights, |weights|);
    assert weights[i] in weights;
    SumGrows(weights, 0, i);
    SumGrows(weights, i + 1, |weights|);
    forall d ensures (d in Interval(0, all) && Selects(weights, d, i)) <==> d in Interval(lo, hi) {
      if d >= 1 {
        SelectsItsInterval(weights, d, i);
      }
    }
    assert (set d | d in Interval(0, all) && Selects(weights, d, i)) == Interval(lo, hi);
  }

  /** `RandomStrategy`: a weight that is not set counts 1. */
  function Weight(v: Candidate): (r: int)
    ensures r > 0
  {
    if v.weight <= 0 then 1 else v.weight
  }

  function Weights(vs: seq<Candidate>): (r: seq<int>)
    ensures |r| == |vs| && forall i :: 0 <= i < |vs| ==> r[i] == Weight(vs[i])
  {
    if vs == [] then [] else Weights(vs[..|vs| - 1]) + [Weight(vs[|vs| - 1])]
  }

  /** The random strategy on candidates with labels `ws`, of which those that are not positive count 1:
      the draws run from 1 to their sum, each selects a position, and exactly as many select position
      `i` as its label says. */
  lemma RandomIsWeighted(vs: seq<Candidate>, ws: seq<int>, i: nat)
    requires |ws| == |vs| && i < |vs|
    requires forall k :: 0 <= k < |vs| ==> ws[k] == if vs[k].weight > 0 then vs[k].weight else 1
    ensures Sum(Weights(vs), |vs|) == Sum(ws, |ws|)
    ensures |set d | d in Interval(0, Sum(ws, |ws|)) && Selects(Weights(vs), d, i)| == ws[i]
    ensures forall d <- Interval(0, Sum(ws, |ws|)) :: exists k: nat :: Selects(Weights(vs), d, k)
    ensures forall d :: d in Interval(0, Sum(ws, |ws|)) <==> 1 <= d <= Sum(ws, |ws|)
  {
    assert Weights(vs) == ws;
    WeightedIsExact(ws, i);
    hide Weights, Sum, Selects, Interval;
    forall d <- Interval(0, Sum(ws, |ws|)) ensures exists k: nat :: Selects(Weights(vs), d, k) {
      var k := Selected(ws, d, |ws|);
    }
  }

  lemma {:induction false} Selected(ws: seq<int>, d: int, n: nat) returns (k: nat)
    requires (forall w <- ws :: w > 0) && n <= |ws| && 1 <= d <= Sum(ws, n)
    ensures k < n && Selects(ws, d, k)
  {
    if d <= Sum(ws, n - 1) {
      k := Selected(ws, d, n - 1);
    } else {
      k := n - 1;
      forall j | 0 < j <= k ensures Sum(ws, j) < d {
        SumGrows(ws, j, k);
      }
    }
  }

  /** What happens outside of the strategies: the random draws and the checksum of the hash source. */
  datatype Chance = Chance(draw: nat, pick: nat, checksum: Option<nat>)

  datatype Kind = RoundRobin | Random | Fifo | Hash

  class Strategy {
    const kind: Kind
    var counter: nat
    const rw: RandomWeighted

    ghost predicate Valid()
      reads this, rw
    {
      counter < COUNTERS && rw.Valid()
    }

    constructor (kind: Kind)
      ensures Valid() && this.kind == kind && counter == 0 && fresh(rw)
    {
      this.kind, counter := kind, 0;
      rw := new RandomWeighted();
    }

    /** One position, by the rule of the strategy. */
    ghost predicate Chosen(counter: nat, vs: seq<Candidate>, chance: Chance, i: nat)
      requires vs != []
    {
      match kind
      case RoundRobin => i == counter % |vs|
      case Random => Selects(Weights(vs), chance.draw, i)
      case Fifo => i == 0
      case Hash => i == (if chance.checksum.Some? then chance.checksum.value else chance.pick) % |vs|
    }

    /** The rule of each strategy; `ws` are the labels, of which those that are not positive count 1. */
    lemma ChosenMeans(counter: nat, vs: seq<Candidate>, chance: Chance, i: nat, ws: seq<int>)
      requires vs != [] && |ws| == |vs|
      requires forall k :: 0 <= k < |vs| ==> ws[k] == if vs[k].weight > 0 then vs[k].weight else 1
      ensures kind == RoundRobin ==> (Chosen(counter, vs, chance, i) <==> i == counter % |vs|)
      ensures kind == Fifo ==> (Chosen(counter, vs, chance, i) <==> i == 0)
      ensures kind == Hash ==> (Chosen(counter, vs, chance, i) <==>
                i == (if chance.checksum.Some? then chance.checksum.value else chance.pick) % |vs|)
      ensures kind == Random ==> (Chosen(counter, vs, chance, i) <==> Selects(ws, chance.draw, i))
    {
      assert Weights(vs) == ws;
    }

    method Apply(vs: seq<Candidate>, chance: Chance) returns (v: Option<Candidate>)
      requires Valid() && (kind == Random && vs != [] ==> 1 <= chance.draw <= Sum(Weights(vs), |vs|))
      modifies this, rw
      ensures Valid() && (v.Some? <==> vs != [])
      ensures v.Some? ==> exists i: nat :: i < |vs| && Chosen(old(counter), vs, chance, i) && v.value == vs[i]
      ensures counter == if kind == RoundRobin && vs != [] then (old(counter) + 1) % COUNTERS else old(counter)
      ensures kind == RoundRobin && vs != [] ==> v == Some(vs[old(counter) % |vs|])
      ensures kind == Fifo && vs != [] ==> v == Some(vs[0])
      ensures kind == Hash && chance.checksum.Some? && vs != [] ==> v == Some(vs[chance.checksum.value % |vs|])
      ensures kind == Hash && chance.checksum.None? && vs != [] ==> v == Some(vs[chance.pick % |vs|])
    {
      if |vs| == 0 {
        return None;
      }
      match kind
      case RoundRobin =>
        var n := counter;
        counter := (counter + 1) % COUNTERS;
        v := Some(vs[n % |vs|]);
      case Random =>
        rw.Reset();
        for i := 0 to |vs|
          invariant rw.Valid() && counter == old(counter)
          invariant rw.items == vs[..i] && rw.weights == Weights(vs[..i])
        {
          var weight := vs[i].weight;
          if weight <= 0 {
            weight := 1;
          }
          assert vs[..i + 1][..i] == vs[..i];
          rw.Add(vs[i], weight);
        }
        assert vs[..|vs|] == vs;
        v := rw.Next(chance.draw);
      case Fifo =>
        v := Some(vs[0]);
      case Hash =>
        v := Some(vs[(if chance.checksum.Some? then chance.checksum.value else chance.pick) % |vs|]);
    }
  }

  lemma AllKept(filters: seq<Filter>, now: int, vs: seq<Candidate>, i: nat)
    requires i <= |filters|
    ensures KeptByAll(filters[0..], now, vs) == KeptByAll(filters, now, vs)
    ensures KeptByAll(filters[i..], now, vs) == if i == |filters| then vs
                                                else KeptByAll(filters[i + 1..], now, Kept(filters[i], now, vs))
  {
    assert filters[0..] == filters;
    if i < |filters| {
      assert filters[i..][1..] == filters[i + 1..];
    }
  }

  class Selector {
    const strategy: Strategy
    const filters: seq<Filter>

    constructor (strategy: Strategy, filters: seq<Filter>)
      ensures this.strategy == strategy && this.filters == filters
    {
      this.strategy, this.filters := strategy, filters;
    }

    method Select(candidates: seq<Candidate>, now: int, chance: Chance) returns (v: Option<Candidate>)
      requires strategy.Valid()
      requires var vs := KeptByAll(filters, now, candidates);
               strategy.kind == Random && vs != [] ==> 1 <= chance.draw <= Sum(Weights(vs), |vs|)
      modifies strategy, strategy.rw
      ensures strategy.Valid()
      ensures v.Some? <==> KeptByAll(filters, now, candidates) != []
      ensures v.Some? ==>
                var vs := KeptByAll(filters, now, candidates);
                exists i: nat :: i < |vs| && strategy.Chosen(old(strategy.counter), vs, chance, i) && v.value == vs[i]
      ensures var used := strategy.kind == RoundRobin && KeptByAll(filters, now, candidates) != [];
              strategy.counter == if used then (old(strategy.counter) + 1) % COUNTERS else old(strategy.counter)
    {
      var vs := candidates;
      AllKept(filters, now, vs, 0);
      hide KeptByAll, Kept, Weights, Sum;
      for i := 0 to |filters|
        invariant KeptByAll(filters[i..], now, vs) == KeptByAll(filters, now, candidates)
        modifies {}
      {
        AllKept(filters, now, vs, i);
        match filters[i]
        case FailFilter(_, _) => vs := ApplyFailFilter(filters[i], now, vs);
        case BackupFilter => vs := ApplyBackupFilter(now, vs);
      }
      AllKept(filters, now, vs, |filters|);
      if |vs| == 0 {
        return None;
      }
      v := strategy.Apply(vs, chance);
    }
  }

  function Hit(counter: nat, n: nat, p: nat): nat
    requires n > 0
  {
    if counter % n == p then 1 else 0
  }

  /** How often `calls` round-robin choices among `n` starting at `counter` take position `p`. */
  function Turns(counter: nat, calls: nat, n: nat, p: nat): nat
    requires p < n
    decreases calls
  {
    if calls == 0 then 0 else Hit(counter, n, p) + Turns((counter + 1) % COUNTERS, calls - 1, n, p)
  }

  /** Numbers below `x` that leave `p`. */
  function Below(x: nat, n: nat, p: nat): int
    requires p < n
  {
    (x + n - 1 - p) / n
  }

  lemma BelowNext(x: nat, n: nat, p: nat)
    requires p < n
    ensures Below(x + 1, n, p) == Below(x, n, p) + Hit(x, n, p)
  {
    SumOf(x, n - 1 - p, n);
    DivMod(n - 1 - p, 0, n - 1 - p, n);
    SumOf(x, n - p, n);
    if p > 0 {
      DivMod(n - p, 0, n - p, n);
    } else {
      DivMod(n, 1, 0, n);
    }
  }

  lemma {:induction false} TurnsCount(counter: nat, calls: nat, n: nat, p: nat)
    requires p < n && counter + calls < COUNTERS
    ensures Turns(counter, calls, n, p) == Below(counter + calls, n, p) - Below(counter, n, p)
    decreases calls
  {
    hide Below, Hit;
    if calls > 0 {
      assert (counter + 1) % COUNTERS == counter + 1;
      BelowNext(counter, n, p);
      TurnsCount(counter + 1, calls - 1, n, p);
    }
  }

  /** Before the counter wraps, all positions of an unchanged list are taken equally often, up to one. */
  lemma RoundRobinIsFair(counter: nat, calls: nat, n: nat, p: nat)
    requires p < n && counter + calls < COUNTERS
    ensures calls / n <= Turns(counter, calls, n, p) <= calls / n + if calls % n == 0 then 0 else 1
  {
    TurnsCount(counter, calls, n, p);
    SumOf(counter + n - 1 - p, calls, n);
  }

  /** The turns add up choice by choice: one choice is a turn of the position it takes. */
  lemma {:induction false} TurnsAddUp(counter: nat, calls: nat, more: nat, n: nat, p: nat)
    requires p < n && counter + calls + more < COUNTERS
    ensures Turns(counter, calls + more, n, p) == Turns(counter, calls, n, p) + Turns(counter + calls, more, n, p)
    ensures Turns(counter, 0, n, p) == 0 && Turns(counter, 1, n, p) == if counter % n == p then 1 else 0
    decreases calls
  {
    assert Turns(counter, 1, n, p) == Hit(counter, n, p) + Turns((counter + 1) % COUNTERS, 0, n, p);
    if calls > 0 {
      assert (counter + 1) % COUNTERS == counter + 1;
      TurnsAddUp(counter + 1, calls - 1, more, n, p);
    }
  }

  /** A run of round-robin choices on the object takes the positions in turn. */
  method RoundRobinRun(s: Strategy, vs: seq<Candidate>, chance: Chance, calls: nat) returns (picks: seq<Candidate>)
    requires s.Valid() && s.kind == RoundRobin && vs != [] && s.counter + calls < COUNTERS
    modifies s, s.rw
    ensures |picks| == calls && forall k :: 0 <= k < calls ==> picks[k] == vs[(old(s.counter) + k) % |vs|]
  {
    picks := [];
    for i := 0 to calls
      invariant s.Valid() && s.counter == old(s.counter) + i && |picks| == i
      invariant forall k :: 0 <= k < i ==> picks[k] == vs[(old(s.counter) + k) % |vs|]
    {
      var v := NextInTurn(s, vs, chance);
      picks := picks + [v];
    }
  }

  method NextInTurn(s: Strategy, vs: seq<Candidate>, chance: Chance) returns (v: Candidate)
    requires s.Valid() && s.kind == RoundRobin && vs != [] && s.counter + 1 < COUNTERS
    modifies s, s.rw
    ensures s.Valid() && s.counter == old(s.counter) + 1 && v == vs[old(s.counter) % |vs|]
  {
    var r := s.Apply(vs, chance);
    v := r.value;
  }

  /** The rotation goes on over the wrap of the counter exactly when the length divides 2^64. */
  lemma RotationSurvivesWrap(n: nat)
    requires n > 0
    ensures (forall c: nat | c < COUNTERS :: InRotation(c, n)) <==> COUNTERS % n == 0
  {
    DivMod(0, 0, 0, n);
    forall c: nat | c < COUNTERS - 1 ensures InRotation(c, n) {
      NextPosition(c, n);
    }
    NextPosition(COUNTERS - 1, n);
    assert InRotation(COUNTERS - 1, n) <==> COUNTERS % n == 0;
  }

  predicate InRotation(c: nat, n: nat)
    requires n > 0
  {
    (c + 1) % COUNTERS % n == (c % n + 1) % n
  }
}
