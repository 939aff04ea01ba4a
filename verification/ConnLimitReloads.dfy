/** Accepting and closing while the configuration is reloaded: every reload starts with new counters,
    and connections accepted before go on with the ones they hold. */
module ConnLimitReloads {
  import opened Options
  import opened Ranger
  import opened ConnLimits
  import Runs = ConnLimitRuns

  /** A configuration and the counters and connections that belong to it. */
  datatype Epoch = Epoch(cfg: Config, state: Runs.State)

  /** A connection is named by the configuration it came in under and its number there. */
  datatype Action = Reload(cfg: Config) | Arrive(key: string) | Close(epoch: nat, c: nat) | Step(epoch: nat, c: nat)

  predicate ValidEpochs(parse: Parsers, es: seq<Epoch>)
  {
    forall e <- es :: Runs.ValidState(Runs.World(e.cfg, parse), e.state)
  }

  function ActIn(parse: Parsers, es: seq<Epoch>, i: int, a: Runs.Action): (r: seq<Epoch>)
    requires ValidEpochs(parse, es)
    ensures ValidEpochs(parse, r)
  {
    if 0 <= i < |es| then es[i := es[i].(state := Runs.Act(Runs.World(es[i].cfg, parse), es[i].state, a))] else es
  }

  function Act(parse: Parsers, es: seq<Epoch>, a: Action): (r: seq<Epoch>)
    requires ValidEpochs(parse, es)
    ensures ValidEpochs(parse, r)
  {
    match a
    case Reload(cfg) => es + [Epoch(cfg, Runs.INITIAL)]
    case Arrive(key) => ActIn(parse, es, |es| - 1, Runs.Arrive(key))
    case Close(i, c) => ActIn(parse, es, i, Runs.Close(c))
    case Step(i, c) => ActIn(parse, es, i, Runs.Step(c))
  }

  function Run(parse: Parsers, es: seq<Epoch>, actions: seq<Action>): (r: seq<Epoch>)
    requires ValidEpochs(parse, es)
    ensures ValidEpochs(parse, r)
    decreases |actions|
  {
    if actions == [] then es else Run(parse, Act(parse, es, actions[0]), actions[1..])
  }

  function Start(cfg: Config): seq<Epoch>
  {
    [Epoch(cfg, Runs.INITIAL)]
  }

  /** Some run without reloads leads there. */
  ghost predicate Reachable(parse: Parsers, e: Epoch)
  {
    exists actions :: e.state == Runs.Run(Runs.World(e.cfg, parse), Runs.INITIAL, actions)
  }

  lemma ReachableStep(parse: Parsers, e: Epoch, a: Runs.Action)
    requires Reachable(parse, e) && Runs.ValidState(Runs.World(e.cfg, parse), e.state)
    ensures Reachable(parse, e.(state := Runs.Act(Runs.World(e.cfg, parse), e.state, a)))
  {
    var w := Runs.World(e.cfg, parse);
    var actions :| e.state == Runs.Run(w, Runs.INITIAL, actions);
    Runs.RunAppend(w, Runs.INITIAL, actions, [a]);
    hide Runs.Act;
    assert [a][1..] == [];
    assert Runs.Run(w, e.state, [a]) == Runs.Run(w, Runs.Act(w, e.state, a), []) == Runs.Act(w, e.state, a);
  }

  lemma ActInReachable(parse: Parsers, es: seq<Epoch>, i: int, a: Runs.Action)
    requires ValidEpochs(parse, es) && forall e <- es :: Reachable(parse, e)
    ensures forall e <- ActIn(parse, es, i, a) :: Reachable(parse, e)
  {
    hide Reachable;
    if 0 <= i < |es| {
      ReachableStep(parse, es[i], a);
    }
  }

  lemma {:induction false} RunReachable(parse: Parsers, es: seq<Epoch>, actions: seq<Action>)
    requires ValidEpochs(parse, es) && forall e <- es :: Reachable(parse, e)
    ensures forall e <- Run(parse, es, actions) :: Reachable(parse, e)
    decreases |actions|
  {
    if actions != [] {
      match actions[0] {
        case Reload(cfg) => StartIsReachable(parse, cfg);
        case Arrive(key) => ActInReachable(parse, es, |es| - 1, Runs.Arrive(key));
        case Close(i, c) => ActInReachable(parse, es, i, Runs.Close(c));
        case Step(i, c) => ActInReachable(parse, es, i, Runs.Step(c));
      }
      hide Reachable, ActIn;
      RunReachable(parse, Act(parse, es, actions[0]), actions[1..]);
    }
  }

  lemma StartIsReachable(parse: Parsers, cfg: Config)
    ensures Reachable(parse, Epoch(cfg, Runs.INITIAL))
  {
    assert Runs.Run(Runs.World(cfg, parse), Runs.INITIAL, []) == Runs.INITIAL;
  }

  /** Under every interleaving of accepts, closes and reloads: of the connections that came in under
      one configuration, the last one included, no more are open than it allows. */
  lemma LimitsHoldPerReload(parse: Parsers, cfg: Config, actions: seq<Action>, e: Epoch, key: string)
    requires e in Run(parse, Start(cfg), actions)
    ensures var xs := e.state.sessions;
            && (HostLimit(e.cfg, parse, key).Some? ==> Runs.OpenFrom(xs, key) <= HostLimit(e.cfg, parse, key).value)
            && (e.cfg.service.Some? ==> Runs.OpenTotal(xs) <= e.cfg.service.value)
  {
    StartIsReachable(parse, cfg);
    RunReachable(parse, Start(cfg), actions);
    var w := Runs.World(e.cfg, parse);
    var acts :| e.state == Runs.Run(w, Runs.INITIAL, acts);
    Runs.LimitsHold(w, acts, key);
  }

  /** All open connections from a host, under whichever configuration they came in. */
  function OpenFrom(es: seq<Epoch>, key: string): nat
  {
    if es == [] then 0 else OpenFrom(es[..|es| - 1], key) + Runs.OpenFrom(es[|es| - 1].state.sessions, key)
  }

  function SumOfLimits(parse: Parsers, es: seq<Epoch>, key: string): nat
  {
    if es == [] then 0
    else
      SumOfLimits(parse, es[..|es| - 1], key) + Bound(es[|es| - 1].cfg, parse, Host(key))
  }

  lemma {:induction false} SumsCompare(parse: Parsers, es: seq<Epoch>, key: string)
    requires forall e <- es :: Runs.OpenFrom(e.state.sessions, key) <= Bound(e.cfg, parse, Host(key))
    ensures OpenFrom(es, key) <= SumOfLimits(parse, es, key)
  {
    if es != [] {
      SumsCompare(parse, es[..|es| - 1], key);
    }
  }

  /** In all they are no more than the limits of all configurations so far together. */
  lemma OpenWithinSum(parse: Parsers, cfg: Config, actions: seq<Action>, key: string)
    requires forall e <- Run(parse, Start(cfg), actions) :: HostLimit(e.cfg, parse, key).Some?
    ensures var es := Run(parse, Start(cfg), actions); OpenFrom(es, key) <= SumOfLimits(parse, es, key)
  {
    var es := Run(parse, Start(cfg), actions);
    forall e <- es ensures Runs.OpenFrom(e.state.sessions, key) <= Bound(e.cfg, parse, Host(key)) {
      LimitsHoldPerReload(parse, cfg, actions, e, key);
    }
    SumsCompare(parse, es, key);
  }

  // ---------------------------------------------------------------------------------------
  // That many there can be
  // ---------------------------------------------------------------------------------------

  /** One connection from each host. */
  const ONE_EACH: Config := Config(map[], map[], Some(1), None)

  /** `n` times: a connection from the host comes in, and the same configuration is loaded again. */
  function Again(key: string, n: nat): seq<Action>
  {
    if n == 0 then [] else Again(key, n - 1) + [Arrive(key), Step(n - 1, 0), Reload(ONE_EACH)]
  }

  function Taken(key: string): Epoch
  {
    Epoch(ONE_EACH, Runs.State(map[Host(key) := 1], [Runs.Session(key, Runs.Live)]))
  }

  lemma {:induction false} RunAppend(parse: Parsers, es: seq<Epoch>, a: seq<Action>, b: seq<Action>)
    requires ValidEpochs(parse, es)
    ensures Run(parse, es, a + b) == Run(parse, Run(parse, es, a), b)
    decreases |a|
  {
    hide Act;
    if a == [] {
      assert a + b == b;
    } else {
      assert (a + b)[1..] == a[1..] + b;
      RunAppend(parse, Act(parse, es, a[0]), a[1..], b);
    }
  }

  /** One connection comes in under a configuration just loaded. */
  lemma ComeIn(parse: Parsers, es: seq<Epoch>, key: string)
    requires ValidEpochs(parse, es)
    ensures var now := es + [Epoch(ONE_EACH, Runs.INITIAL)];
            ValidEpochs(parse, now) && Act(parse, Act(parse, now, Arrive(key)), Step(|es|, 0)) == es + [Taken(key)]
  {
    var w, blank := Runs.World(ONE_EACH, parse), Epoch(ONE_EACH, Runs.INITIAL);
    assert Members(ONE_EACH, parse, key) == [Host(key)] && w.Limit(Host(key)) == 1;
    hide Members, HostLimit, Bound;
    var now := es + [blank];
    var came := Runs.State(map[], [Runs.Session(key, Runs.Adding(0))]);
    assert Runs.Act(w, Runs.INITIAL, Runs.Arrive(key)) == came;
    assert Runs.Act(w, came, Runs.Step(0)) == Taken(key).state;
    hide Runs.Act;
    assert Act(parse, now, Arrive(key)) == es + [blank.(state := came)];
  }

  function AllTaken(key: string, n: nat): (r: seq<Epoch>)
    ensures |r| == n && forall e <- r :: e == Taken(key)
  {
    if n == 0 then [] else AllTaken(key, n - 1) + [Taken(key)]
  }

  lemma AllTakenIsValid(parse: Parsers, key: string, n: nat)
    ensures ValidEpochs(parse, AllTaken(key, n))
  {
    assert Runs.ValidState(Runs.World(ONE_EACH, parse), Taken(key).state);
  }

  lemma RunTwo(parse: Parsers, es: seq<Epoch>, a: Action, b: Action)
    requires ValidEpochs(parse, es)
    ensures Run(parse, es, [a, b]) == Act(parse, Act(parse, es, a), b)
  {
    hide Act;
    var s := Act(parse, es, a);
    assert [a, b][1..] == [b] && [b][1..] == [];
    assert Run(parse, es, [a, b]) == Run(parse, s, [b]) == Run(parse, Act(parse, s, b), []);
  }

  lemma {:induction false} AgainLeaves(parse: Parsers, key: string, n: nat)
    ensures Run(parse, Start(ONE_EACH), Again(key, n)) == AllTaken(key, n) + [Epoch(ONE_EACH, Runs.INITIAL)]
  {
    var blank := Epoch(ONE_EACH, Runs.INITIAL);
    if n == 0 {
      assert Start(ONE_EACH) == AllTaken(key, 0) + [blank];
    } else {
      var es, come, again := AllTaken(key, n - 1), [Arrive(key), Step(n - 1, 0)], [Reload(ONE_EACH)];
      AgainLeaves(parse, key, n - 1);
      AllTakenIsValid(parse, key, n - 1);
      ComeIn(parse, es, key);
      RunTwo(parse, es + [blank], Arrive(key), Step(n - 1, 0));
      assert Run(parse, AllTaken(key, n), again) == AllTaken(key, n) + [blank] by {
        AllTakenIsValid(parse, key, n);
        assert again[1..] == [];
      }
      hide Run, Act;
      assert Again(key, n) == Again(key, n - 1) + come + again;
      RunAppend(parse, Start(ONE_EACH), Again(key, n - 1) + come, again);
      RunAppend(parse, Start(ONE_EACH), Again(key, n - 1), come);
    }
  }

  lemma {:induction false} AllTakenAreOpen(parse: Parsers, key: string, n: nat)
    ensures OpenFrom(AllTaken(key, n), key) == n && SumOfLimits(parse, AllTaken(key, n), key) == n
  {
    if n > 0 {
      AllTakenAreOpen(parse, key, n - 1);
      assert Runs.OpenFrom(Taken(key).state.sessions, key) == 1;
      assert Bound(ONE_EACH, parse, Host(key)) == 1;
    }
  }

  /** Whatever the host: `n` reloads of a configuration that allows one connection from it let `n + 1`
      be open at once. The sum of the limits is reached. */
  lemma ReloadsAddUp(parse: Parsers, key: string, n: nat)
    ensures HostLimit(ONE_EACH, parse, key) == Some(1)
    ensures var es := Run(parse, Start(ONE_EACH), Again(key, n) + [Arrive(key), Step(n, 0)]);
            |es| == n + 1 && OpenFrom(es, key) == n + 1 == SumOfLimits(parse, es, key)
  {
    AgainLeaves(parse, key, n);
    AllTakenIsValid(parse, key, n);
    ComeIn(parse, AllTaken(key, n), key);
    RunTwo(parse, AllTaken(key, n) + [Epoch(ONE_EACH, Runs.INITIAL)], Arrive(key), Step(n, 0));
    RunAppend(parse, Start(ONE_EACH), Again(key, n), [Arrive(key), Step(n, 0)]);
    AllTakenAreOpen(parse, key, n + 1);
  }
}
