/** Accepting and closing connections concurrently, one atomic add at a time. */
module ConnLimitRuns {
  import opened Options
  import opened Ranger
  import opened ConnLimits

  /** Where a connection is in the code: adding itself to its counters, taking back what it added
      after one refused, open, or giving its places back. */
  datatype Phase =
    | Adding(i: nat)           // about to add to member i
    | OverAdded(i: nat)        // member i refused; its own add is still in
    | Undoing(i: nat, j: nat)  // about to take back the add to member j < i
    | Refused
    | Live
    | Releasing(i: nat)        // about to give back its place in member i
    | Closed

  datatype Session = Session(key: string, phase: Phase)

  datatype World = World(cfg: Config, parse: Parsers)
  {
    function Group(x: Session): seq<LimitId> { Members(cfg, parse, x.key) }
    function Limit(m: LimitId): nat { Bound(cfg, parse, m) }
  }

  datatype State = State(counters: map<LimitId, int>, sessions: seq<Session>)
  {
    function Counter(m: LimitId): int { if m in counters then counters[m] else 0 }
  }

  predicate ValidSession(w: World, x: Session)
  {
    match x.phase
    case Adding(i) => i < |w.Group(x)|
    case OverAdded(i) => i < |w.Group(x)|
    case Undoing(i, j) => j < i < |w.Group(x)|
    case Releasing(i) => i < |w.Group(x)|
    case _ => true
  }

  /** What can happen next: a connection comes in, an open one is closed, or some connection makes
      its next atomic step. */
  datatype Action = Arrive(key: string) | Close(c: nat) | Step(c: nat)

  /** The member a session's next atomic add goes to, and by how much. */
  function Target(w: World, x: Session): Option<(LimitId, int)>
    requires ValidSession(w, x)
  {
    match x.phase
    case Adding(i) => Some((w.Group(x)[i], 1))
    case OverAdded(i) => Some((w.Group(x)[i], -1))
    case Undoing(_, j) => Some((w.Group(x)[j], -1))
    case Releasing(i) => Some((w.Group(x)[i], -1))
    case _ => None
  }

  /** Where the session goes when that add returned `sum`. */
  function NextPhase(w: World, x: Session, sum: int): (p: Phase)
    requires ValidSession(w, x)
    ensures ValidSession(w, x.(phase := p))
  {
    var g := w.Group(x);
    match x.phase
    case Adding(i) =>
      if sum > w.Limit(g[i]) then OverAdded(i)
      else if i + 1 == |g| then Live else Adding(i + 1)
    case OverAdded(i) => if i > 0 then Undoing(i, 0) else Refused
    case Undoing(i, j) => if j + 1 == i then Refused else Undoing(i, j + 1)
    case Releasing(i) => if sum > w.Limit(g[i]) || i + 1 == |g| then Closed else Releasing(i + 1)
    case p => p
  }

  predicate ValidState(w: World, s: State)
  {
    forall x :: x in s.sessions ==> ValidSession(w, x)
  }

  function Act(w: World, s: State, a: Action): (s': State)
    requires ValidState(w, s)
    ensures ValidState(w, s')
  {
    match a
    case Arrive(key) =>
      var phase := if Members(w.cfg, w.parse, key) == [] then Live else Adding(0);
      s.(sessions := s.sessions + [Session(key, phase)])
    case Close(c) =>
      if c >= |s.sessions| || s.sessions[c].phase != Live then s
      else
        var x := s.sessions[c];
        s.(sessions := s.sessions[c := x.(phase := if w.Group(x) == [] then Closed else Releasing(0))])
    case Step(c) =>
      if c >= |s.sessions| then s
      else
        var x := s.sessions[c];
        match Target(w, x)
        case None => s
        case Some((m, delta)) =>
          var sum := s.Counter(m) + delta;
          State(s.counters[m := sum], s.sessions[c := x.(phase := NextPhase(w, x, sum))])
  }

  /** Any interleaving is some sequence of actions. */
  function Run(w: World, s: State, actions: seq<Action>): (s': State)
    requires ValidState(w, s)
    ensures ValidState(w, s')
    decreases |actions|
  {
    if actions == [] then s else Run(w, Act(w, s, actions[0]), actions[1..])
  }

  const INITIAL: State := State(map[], [])

  // ---------------------------------------------------------------------------------------
  // Counting connections
  // ---------------------------------------------------------------------------------------

  datatype Kind = Holding | Passed | Open

  /** Whether a session holds an add to `m` that it has not taken back, whether that add was within
      the limit, and whether the session is open and counted in `m`. */
  predicate Has(kind: Kind, w: World, x: Session, m: LimitId)
  {
    var g := w.Group(x);
    ValidSession(w, x) &&
    match kind
    case Open => x.phase == Live && m in g
    case _ =>
      match x.phase
      case Adding(i) => m in g[..i]
      case OverAdded(i) => m in g[..i] || (kind == Holding && m == g[i])
      case Undoing(i, j) => m in g[j..i]
      case Live => m in g
      case Releasing(i) => m in g[i..]
      case _ => false
  }

  function Count(kind: Kind, w: World, xs: seq<Session>, m: LimitId): nat
  {
    if xs == [] then 0 else (if Has(kind, w, xs[0], m) then 1 else 0) + Count(kind, w, xs[1..], m)
  }

  lemma {:induction false} CountUpdate(kind: Kind, w: World, xs: seq<Session>, c: nat, x: Session, m: LimitId)
    requires c < |xs|
    ensures Count(kind, w, xs[c := x], m) ==
            Count(kind, w, xs, m) - (if Has(kind, w, xs[c], m) then 1 else 0) + (if Has(kind, w, x, m) then 1 else 0)
    decreases |xs|
  {
    if c == 0 {
      assert xs[c := x][1..] == xs[1..];
    } else {
      assert xs[c := x][1..] == xs[1..][c - 1 := x];
      CountUpdate(kind, w, xs[1..], c - 1, x, m);
    }
  }

  lemma {:induction false} CountAppend(kind: Kind, w: World, xs: seq<Session>, x: Session, m: LimitId)
    ensures Count(kind, w, xs + [x], m) == Count(kind, w, xs, m) + (if Has(kind, w, x, m) then 1 else 0)
    decreases |xs|
  {
    if xs != [] {
      assert (xs + [x])[1..] == xs[1..] + [x];
      CountAppend(kind, w, xs[1..], x, m);
    } else {
      assert xs + [x] == [x];
    }
  }

  lemma {:induction false} CountMonotone(w: World, xs: seq<Session>, m: LimitId)
    ensures Count(Open, w, xs, m) <= Count(Passed, w, xs, m) <= Count(Holding, w, xs, m)
    decreases |xs|
  {
    if xs != [] {
      CountMonotone(w, xs[1..], m);
    }
  }

  // ---------------------------------------------------------------------------------------
  // Safety
  // ---------------------------------------------------------------------------------------

  /** No counter is below the adds that are still in it, and no more adds than the limit allows were
      ever let through at once. */
  ghost predicate Safe(w: World, s: State, m: LimitId)
  {
    && s.Counter(m) >= Count(Holding, w, s.sessions, m)
    && Count(Passed, w, s.sessions, m) <= w.Limit(m)
  }

  lemma SliceEnds(g: seq<LimitId>, j: nat, i: nat, m: LimitId)
    requires j < i <= |g| && forall a, b :: 0 <= a < b < |g| ==> g[a] != g[b]
    ensures m in g[j..i] <==> m == g[j] || m in g[j + 1..i]
    ensures m in g[j..i] <==> m == g[i - 1] || m in g[j..i - 1]
    ensures g[j] !in g[j + 1..i] && g[i - 1] !in g[j..i - 1]
  {
    assert g[j..i] == [g[j]] + g[j + 1..i] == g[j..i - 1] + [g[i - 1]];
  }

  /** What of its group a session holds or has passed, as a stretch of it. */
  lemma StretchOf(w: World, x: Session, m: LimitId)
    requires ValidSession(w, x)
    ensures var g := w.Group(x);
            match x.phase
            case Adding(i) => (Has(Holding, w, x, m) <==> m in g[0..i]) && (Has(Passed, w, x, m) <==> m in g[0..i])
            case OverAdded(i) =>
              (Has(Holding, w, x, m) <==> m in g[0..i] || m == g[i]) && (Has(Passed, w, x, m) <==> m in g[0..i])
            case Undoing(i, j) => (Has(Holding, w, x, m) <==> m in g[j..i]) && (Has(Passed, w, x, m) <==> m in g[j..i])
            case Live => (Has(Holding, w, x, m) <==> m in g[0..|g|]) && (Has(Passed, w, x, m) <==> m in g[0..|g|])
            case Releasing(i) =>
              (Has(Holding, w, x, m) <==> m in g[i..|g|]) && (Has(Passed, w, x, m) <==> m in g[i..|g|])
            case _ => !Has(Holding, w, x, m) && !Has(Passed, w, x, m)
  {
    hide Members, HostLimit, Bound;
    var g := w.Group(x);
    assert g[0..|g|] == g;
  }

  /** One atomic step of a session moves its own holding of `m` by at most the amount it moves the
      counter of `m`; letting an add through is the only way to pass. */
  lemma StepEffect(w: World, x: Session, m: LimitId, sum: int)
    requires ValidSession(w, x) && Target(w, x).Some?
    ensures var (t, delta) := Target(w, x).value;
            var x' := x.(phase := NextPhase(w, x, sum));
            var was, now := Has(Holding, w, x, m), Has(Holding, w, x', m);
            && (m != t ==> (now ==> was) && (Has(Passed, w, x', m) ==> Has(Passed, w, x, m)))
            && (m == t && delta == 1 ==> !was && now)
            && (m == t && delta == -1 ==> was && !now)
            && (Has(Passed, w, x', m) && !Has(Passed, w, x, m) ==> m == t && delta == 1 && sum <= w.Limit(m))
  {
    var g := w.Group(x);
    StretchOf(w, x, m);
    StretchOf(w, x.(phase := NextPhase(w, x, sum)), m);
    hide Members, HostLimit, Bound, Has;
    match x.phase
    case Adding(i) => SliceEnds(g, 0, i + 1, m);
    case OverAdded(i) => SliceEnds(g, 0, i + 1, m);
    case Undoing(i, j) => SliceEnds(g, j, i, m);
    case Releasing(i) => SliceEnds(g, i, |g|, m);
  }

  /** Replacing session `c` moves the counts by what that session does. */
  lemma ReplaceCounts(w: World, s: State, c: nat, x': Session, m: LimitId)
    requires c < |s.sessions|
    ensures var now := s.sessions[c := x'];
            && Count(Holding, w, now, m) == Count(Holding, w, s.sessions, m)
                 - (if Has(Holding, w, s.sessions[c], m) then 1 else 0) + (if Has(Holding, w, x', m) then 1 else 0)
            && Count(Passed, w, now, m) == Count(Passed, w, s.sessions, m)
                 - (if Has(Passed, w, s.sessions[c], m) then 1 else 0) + (if Has(Passed, w, x', m) then 1 else 0)
            && Count(Passed, w, now, m) <= Count(Holding, w, now, m)
  {
    CountUpdate(Holding, w, s.sessions, c, x', m);
    CountUpdate(Passed, w, s.sessions, c, x', m);
    CountMonotone(w, s.sessions[c := x'], m);
  }

  /** A connection that comes in, or begins to close, changes no count of adds. */
  lemma ComingAndGoing(w: World, s: State, a: Action, m: LimitId)
    requires ValidState(w, s) && !a.Step?
    ensures var s' := Act(w, s, a);
            && s'.counters == s.counters
            && Count(Holding, w, s'.sessions, m) == Count(Holding, w, s.sessions, m)
            && Count(Passed, w, s'.sessions, m) == Count(Passed, w, s.sessions, m)
  {
    hide Members, HostLimit, Bound;
    var s' := Act(w, s, a);
    match a
    case Arrive(key) =>
      CountAppend(Holding, w, s.sessions, s'.sessions[|s.sessions|], m);
      CountAppend(Passed, w, s.sessions, s'.sessions[|s.sessions|], m);
    case Close(c) =>
      if c < |s.sessions| && s.sessions[c].phase == Live {
        ReplaceCounts(w, s, c, s'.sessions[c], m);
      }
  }

  lemma SafeStep(w: World, s: State, a: Action, m: LimitId)
    requires ValidState(w, s) && Safe(w, s, m)
    ensures Safe(w, Act(w, s, a), m)
  {
    hide Members, HostLimit, Bound, Has, Count, NextPhase;
    if !a.Step? {
      ComingAndGoing(w, s, a, m);
    } else if a.c < |s.sessions| && Target(w, s.sessions[a.c]).Some? {
      var x := s.sessions[a.c];
      var (t, delta) := Target(w, x).value;
      var sum := s.Counter(t) + delta;
      StepEffect(w, x, m, sum);
      ReplaceCounts(w, s, a.c, x.(phase := NextPhase(w, x, sum)), m);
    }
  }

  lemma {:induction false} SafeRun(w: World, s: State, actions: seq<Action>, m: LimitId)
    requires ValidState(w, s) && Safe(w, s, m)
    ensures Safe(w, Run(w, s, actions), m)
    decreases |actions|
  {
    if actions != [] {
      SafeStep(w, s, actions[0], m);
      SafeRun(w, Act(w, s, actions[0]), actions[1..], m);
    }
  }

  /** Under every interleaving of any number of accepts and closes, no more connections are open on
      a counter than its limit. */
  lemma OpenWithinLimit(w: World, actions: seq<Action>, m: LimitId)
    ensures Count(Open, w, Run(w, INITIAL, actions).sessions, m) <= w.Limit(m)
  {
    SafeRun(w, INITIAL, actions, m);
    CountMonotone(w, Run(w, INITIAL, actions).sessions, m);
  }

  function OpenFrom(xs: seq<Session>, key: string): nat
  {
    if xs == [] then 0
    else (if xs[0].phase == Live && xs[0].key == key then 1 else 0) + OpenFrom(xs[1..], key)
  }

  function OpenTotal(xs: seq<Session>): nat
  {
    if xs == [] then 0 else (if xs[0].phase == Live then 1 else 0) + OpenTotal(xs[1..])
  }

  /** They count the sessions that are open. */
  lemma {:induction false} OpenAddsUp(xs: seq<Session>, x: Session, key: string)
    ensures OpenFrom([], key) == 0 == OpenTotal([])
    ensures OpenFrom(xs + [x], key) == OpenFrom(xs, key) + if x.phase == Live && x.key == key then 1 else 0
    ensures OpenTotal(xs + [x]) == OpenTotal(xs) + if x.phase == Live then 1 else 0
    decreases |xs|
  {
    if xs != [] {
      OpenAddsUp(xs[1..], x, key);
      assert (xs + [x])[1..] == xs[1..] + [x];
    } else {
      assert xs + [x] == [x];
    }
  }

  lemma {:induction false} OpenCounts(w: World, xs: seq<Session>, key: string)
    requires forall x :: x in xs ==> ValidSession(w, x)
    ensures HostLimit(w.cfg, w.parse, key).Some? ==> Count(Open, w, xs, Host(key)) == OpenFrom(xs, key)
    ensures w.cfg.service.Some? ==> Count(Open, w, xs, Service) == OpenTotal(xs)
    decreases |xs|
  {
    if xs != [] {
      OpenCounts(w, xs[1..], key);
    }
  }

  /** The promise of the limiter: at most the host's limit of connections from each limited host,
      and at most the service's limit of connections in all, at every moment. */
  lemma LimitsHold(w: World, actions: seq<Action>, key: string)
    ensures var xs := Run(w, INITIAL, actions).sessions;
            && (HostLimit(w.cfg, w.parse, key).Some? ==> OpenFrom(xs, key) <= HostLimit(w.cfg, w.parse, key).value)
            && (w.cfg.service.Some? ==> OpenTotal(xs) <= w.cfg.service.value)
  {
    OpenWithinLimit(w, actions, Host(key));
    OpenWithinLimit(w, actions, Service);
    OpenCounts(w, Run(w, INITIAL, actions).sessions, key);
  }

  // ---------------------------------------------------------------------------------------
  // Conservation
  // ---------------------------------------------------------------------------------------

  /** The counter is exactly the adds that are still in it. */
  predicate Exact(w: World, s: State, m: LimitId)
  {
    s.Counter(m) == Count(Holding, w, s.sessions, m)
  }

  /** The one way a place is lost for good: a release that reads a counter above its limit stops
      before it reaches the members after it. */
  predicate Leaks(w: World, s: State, a: Action, m: LimitId)
    requires ValidState(w, s)
  {
    && a.Step? && a.c < |s.sessions|
    && var x := s.sessions[a.c];
    && x in s.sessions && x.phase.Releasing?
    && s.Counter(w.Group(x)[x.phase.i]) - 1 > w.Limit(w.Group(x)[x.phase.i])
    && m in w.Group(x)[x.phase.i + 1..]
  }

  lemma StepKeepsHolding(w: World, x: Session, m: LimitId, sum: int)
    requires ValidSession(w, x) && Target(w, x).Some? && m != Target(w, x).value.0
    ensures var x' := x.(phase := NextPhase(w, x, sum));
            var leak := x.phase.Releasing? && sum > w.Limit(w.Group(x)[x.phase.i]) && m in w.Group(x)[x.phase.i + 1..];
            && (Has(Holding, w, x', m) <==> Has(Holding, w, x, m) && !leak)
            && (leak ==> Has(Holding, w, x, m))
  {
  }

  /** How far the counter is above the adds that are still in it. */
  function Excess(w: World, s: State, m: LimitId): int
  {
    s.Counter(m) - Count(Holding, w, s.sessions, m)
  }

  /** A step that leaks puts the counter one further above, and no other step moves it. */
  lemma ExcessOfStep(w: World, s: State, a: Action, m: LimitId)
    requires ValidState(w, s)
    ensures Excess(w, Act(w, s, a), m) == Excess(w, s, m) + if Leaks(w, s, a, m) then 1 else 0
  {
    hide Members, HostLimit, Bound, Has, Count, NextPhase;
    if !a.Step? {
      ComingAndGoing(w, s, a, m);
    } else if a.c < |s.sessions| && Target(w, s.sessions[a.c]).Some? {
      var x := s.sessions[a.c];
      var (t, delta) := Target(w, x).value;
      var sum := s.Counter(t) + delta;
      StepEffect(w, x, m, sum);
      if m != t {
        StepKeepsHolding(w, x, m, sum);
      } else {
        TargetIsBeforeTheRest(w, x);
      }
      ReplaceCounts(w, s, a.c, x.(phase := NextPhase(w, x, sum)), m);
    }
  }

  /** A step keeps an exact counter exact precisely when it does not leak. */
  lemma ExactStep(w: World, s: State, a: Action, m: LimitId)
    requires ValidState(w, s) && Exact(w, s, m)
    ensures Exact(w, Act(w, s, a), m) <==> !Leaks(w, s, a, m)
  {
    ExcessOfStep(w, s, a, m);
  }

  /** The places a run loses for good. */
  function Lost(w: World, s: State, actions: seq<Action>, m: LimitId): nat
    requires ValidState(w, s)
    decreases |actions|
  {
    if actions == [] then 0
    else (if Leaks(w, s, actions[0], m) then 1 else 0) + Lost(w, Act(w, s, actions[0]), actions[1..], m)
  }

  /** Over every interleaving: what a counter is above the places taken grows by just the places lost. */
  lemma {:induction false} ExcessIsLost(w: World, s: State, actions: seq<Action>, m: LimitId)
    requires ValidState(w, s)
    ensures Excess(w, Run(w, s, actions), m) == Excess(w, s, m) + Lost(w, s, actions, m)
    decreases |actions|
  {
    hide Excess, Leaks, Act;
    if actions != [] {
      ExcessOfStep(w, s, actions[0], m);
      ExcessIsLost(w, Act(w, s, actions[0]), actions[1..], m);
    }
  }

  /** So from the start a counter ends exact exactly when nothing leaked on the way. */
  lemma ExactUnlessLost(w: World, actions: seq<Action>, m: LimitId)
    ensures Exact(w, Run(w, INITIAL, actions), m) <==> Lost(w, INITIAL, actions, m) == 0
  {
    ExcessIsLost(w, INITIAL, actions, m);
  }

  lemma TargetIsBeforeTheRest(w: World, x: Session)
    requires ValidSession(w, x) && Target(w, x).Some?
    ensures x.phase.Releasing? ==> Target(w, x).value.0 !in w.Group(x)[x.phase.i + 1..]
  {
    hide Members, HostLimit, Bound;
  }

  predicate NoneOver(s: State)
  {
    forall x :: x in s.sessions ==> !x.phase.OverAdded?
  }

  lemma {:induction false} HoldingIsPassed(w: World, xs: seq<Session>, m: LimitId)
    requires forall x :: x in xs ==> !x.phase.OverAdded?
    ensures Count(Holding, w, xs, m) == Count(Passed, w, xs, m)
    decreases |xs|
  {
    if xs != [] {
      HoldingIsPassed(w, xs[1..], m);
    }
  }

  lemma NoLeakUncontended(w: World, s: State, a: Action, m: LimitId)
    requires ValidState(w, s) && forall t :: Safe(w, s, t) && Exact(w, s, t)
    requires a.Step? && a.c < |s.sessions| && s.sessions[a.c].phase.Releasing? ==> NoneOver(s)
    ensures !Leaks(w, s, a, m)
  {
    if a.Step? && a.c < |s.sessions| && s.sessions[a.c].phase.Releasing? {
      assert s.sessions[a.c] in s.sessions;
      var t := w.Group(s.sessions[a.c])[s.sessions[a.c].phase.i];
      HoldingIsPassed(w, s.sessions, t);
      assert Safe(w, s, t) && Exact(w, s, t);
    }
  }

  /** No release happens while some connection is being refused. */
  predicate Uncontended(w: World, s: State, actions: seq<Action>)
    requires ValidState(w, s)
    decreases |actions|
  {
    actions != [] ==>
      var a := actions[0];
      && (a.Step? && a.c < |s.sessions| && s.sessions[a.c].phase.Releasing? ==> NoneOver(s))
      && Uncontended(w, Act(w, s, a), actions[1..])
  }

  /** Then every counter stays exactly the number of places taken: grants minus releases. */
  lemma {:induction false} Conservation(w: World, s: State, actions: seq<Action>)
    requires ValidState(w, s) && Uncontended(w, s, actions)
    requires forall m :: Safe(w, s, m) && Exact(w, s, m)
    ensures forall m :: Exact(w, Run(w, s, actions), m)
    decreases |actions|
  {
    if actions != [] {
      var a := actions[0];
      forall m ensures Safe(w, Act(w, s, a), m) && Exact(w, Act(w, s, a), m) {
        SafeStep(w, s, a, m);
        NoLeakUncontended(w, s, a, m);
        ExcessOfStep(w, s, a, m);
      }
      Conservation(w, Act(w, s, a), actions[1..]);
    }
  }

  predicate Quiet(x: Session)
  {
    x.phase == Refused || x.phase == Live || x.phase == Closed
  }

  /** One operation at a time: nobody arrives or closes while another connection is still adding or
      giving back. */
  predicate Sequential(w: World, s: State, actions: seq<Action>)
    requires ValidState(w, s)
    decreases |actions|
  {
    actions != [] ==>
      && (!actions[0].Step? ==> forall x :: x in s.sessions ==> Quiet(x))
      && Sequential(w, Act(w, s, actions[0]), actions[1..])
  }

  predicate OneBusy(s: State)
  {
    forall i, j :: 0 <= i < j < |s.sessions| ==> Quiet(s.sessions[i]) || Quiet(s.sessions[j])
  }

  lemma {:induction false} SequentialIsUncontended(w: World, s: State, actions: seq<Action>)
    requires ValidState(w, s) && OneBusy(s) && Sequential(w, s, actions)
    ensures Uncontended(w, s, actions)
    decreases |actions|
  {
    if actions != [] {
      SequentialIsUncontended(w, Act(w, s, actions[0]), actions[1..]);
    }
  }

  lemma {:induction false} QuietCounts(w: World, xs: seq<Session>, m: LimitId)
    requires forall x :: x in xs ==> ValidSession(w, x) && Quiet(x)
    ensures Count(Holding, w, xs, m) == Count(Open, w, xs, m)
    decreases |xs|
  {
    if xs != [] {
      QuietCounts(w, xs[1..], m);
    }
  }

  /** In a sequential run, whenever nothing is under way, every counter is the number of open
      connections: refused attempts left no trace and closed connections gave everything back. */
  lemma SequentialRunsAreExact(w: World, actions: seq<Action>, m: LimitId)
    requires Sequential(w, INITIAL, actions)
    requires forall x :: x in Run(w, INITIAL, actions).sessions ==> Quiet(x)
    ensures Run(w, INITIAL, actions).Counter(m) == Count(Open, w, Run(w, INITIAL, actions).sessions, m)
  {
    SequentialIsUncontended(w, INITIAL, actions);
    Conservation(w, INITIAL, actions);
    var s := Run(w, INITIAL, actions);
    assert ValidState(w, s) && Exact(w, s, m);
    QuietCounts(w, s.sessions, m);
  }

  // ---------------------------------------------------------------------------------------
  // One operation by itself
  // ---------------------------------------------------------------------------------------

  /** As many steps as any operation takes. */
  function Steps(c: nat): seq<Action>
  {
    [Step(c), Step(c), Step(c), Step(c)]
  }

  predicate HasRoom(w: World, s: State, key: string)
  {
    forall m <- Members(w.cfg, w.parse, key) :: s.Counter(m) < w.Limit(m)
  }

  /** An accept that nobody interrupts is all or nothing: it lets the connection in exactly if every
      counter has room, and then adds one to each; otherwise it changes none. */
  lemma AcceptAlone(w: World, s: State, key: string)
    requires ValidState(w, s)
    ensures Accepted(w, s, Run(w, Act(w, s, Arrive(key)), Steps(|s.sessions|)), key)
    ensures var s' := Run(w, Act(w, s, Arrive(key)), Steps(|s.sessions|));
            var ids := Members(w.cfg, w.parse, key);
            if forall m <- ids :: s.Counter(m) < Bound(w.cfg, w.parse, m)
            then s'.sessions == s.sessions + [Session(key, Live)] &&
                 forall m :: s'.Counter(m) == s.Counter(m) + if m in ids then 1 else 0
            else s'.sessions == s.sessions + [Session(key, Refused)] && forall m :: s'.Counter(m) == s.Counter(m)
  {
    assert HasRoom(w, s, key) <==> forall m <- Members(w.cfg, w.parse, key) :: s.Counter(m) < Bound(w.cfg, w.parse, m);
    MembersAreFew(w, key);
    var s0 := Act(w, s, Arrive(key));
    hide Members, HostLimit, Bound, Run, Act;
    RunSteps(w, s0, |s.sessions|);
    if |Members(w.cfg, w.parse, key)| == 2 {
      var first := Members(w.cfg, w.parse, key)[0];
      if s.Counter(first) < w.Limit(first) {
        FirstAgrees(w, s, s0, key);
      } else {
        FirstRefuses(w, s, s0, key);
      }
    } else {
      AcceptIntoOne(w, s, s0, key);
    }
  }

  function Act4(w: World, s: State, a: Action): State
    requires ValidState(w, s)
  {
    Act(w, Act(w, Act(w, Act(w, s, a), a), a), a)
  }

  lemma AcceptIntoOne(w: World, s: State, s0: State, key: string)
    requires ValidState(w, s0) && |Members(w.cfg, w.parse, key)| <= 1 && s0.counters == s.counters
    requires s0.sessions == s.sessions + [Session(key, if Members(w.cfg, w.parse, key) == [] then Live else Adding(0))]
    ensures Accepted(w, s, Act4(w, s0, Step(|s.sessions|)), key)
  {
    hide Members, HostLimit, Bound, Act;
    var xs := s.sessions;
    var a := Step(|xs|);
    var s1 := Act(w, s0, a);
    var s2 := Act(w, s1, a);
    var s3 := Act(w, s2, a);
    StepOfLast(w, s0, xs, s0.sessions[|xs|]);
    StepOfLast(w, s1, xs, s1.sessions[|xs|]);
    StepOfLast(w, s2, xs, s2.sessions[|xs|]);
    StepOfLast(w, s3, xs, s3.sessions[|xs|]);
  }

  lemma FirstRefuses(w: World, s: State, s0: State, key: string)
    requires ValidState(w, s0) && |Members(w.cfg, w.parse, key)| == 2 && s0.counters == s.counters
    requires s0.sessions == s.sessions + [Session(key, Adding(0))]
    requires s.Counter(Members(w.cfg, w.parse, key)[0]) >= w.Limit(Members(w.cfg, w.parse, key)[0])
    ensures Accepted(w, s, Act4(w, s0, Step(|s.sessions|)), key)
  {
    hide Members, HostLimit, Bound, Act;
    var xs := s.sessions;
    var a := Step(|xs|);
    var s1 := Act(w, s0, a);
    var s2 := Act(w, s1, a);
    StepOfLast(w, s0, xs, Session(key, Adding(0)));
    StepOfLast(w, s1, xs, Session(key, OverAdded(0)));
    StepOfLast(w, s2, xs, Session(key, Refused));
  }

  lemma FirstAgrees(w: World, s: State, s0: State, key: string)
    requires ValidState(w, s0) && |Members(w.cfg, w.parse, key)| == 2 && s0.counters == s.counters
    requires s0.sessions == s.sessions + [Session(key, Adding(0))]
    requires s.Counter(Members(w.cfg, w.parse, key)[0]) < w.Limit(Members(w.cfg, w.parse, key)[0])
    ensures Accepted(w, s, Act4(w, s0, Step(|s.sessions|)), key)
  {
    var ids := Members(w.cfg, w.parse, key);
    assert ids[0] != ids[1] && forall m :: m in ids <==> m == ids[0] || m == ids[1];
    assert HasRoom(w, s, key) <==> s.Counter(ids[1]) < w.Limit(ids[1]);
    hide Members, HostLimit, Bound, Act, HasRoom;
    var xs := s.sessions;
    var a := Step(|xs|);
    var s1 := Act(w, s0, a);
    var s2 := Act(w, s1, a);
    var s3 := Act(w, s2, a);
    StepOfLast(w, s0, xs, Session(key, Adding(0)));
    StepOfLast(w, s1, xs, Session(key, Adding(1)));
    if s.Counter(ids[1]) >= w.Limit(ids[1]) {
      StepOfLast(w, s2, xs, Session(key, OverAdded(1)));
      StepOfLast(w, s3, xs, Session(key, Undoing(1, 0)));
    } else {
      StepOfLast(w, s2, xs, Session(key, Live));
    }
  }

  ghost predicate Accepted(w: World, s: State, s': State, key: string)
  {
    && s'.sessions == s.sessions + [Session(key, if HasRoom(w, s, key) then Live else Refused)]
    && forall m ::
         s'.Counter(m) == s.Counter(m) + if HasRoom(w, s, key) && m in Members(w.cfg, w.parse, key) then 1 else 0
  }

  /** What a step does to a state whose last session makes it. */
  lemma StepOfLast(w: World, t: State, xs: seq<Session>, x: Session)
    requires ValidState(w, t) && t.sessions == xs + [x]
    ensures ValidSession(w, x)
    ensures var (t', target) := (Act(w, t, Step(|xs|)), Target(w, x));
            && (target.None? ==> t' == t)
            && (target.Some? ==>
                 && t'.sessions == xs + [x.(phase := NextPhase(w, x, t.Counter(target.value.0) + target.value.1))]
                 && forall m :: t'.Counter(m) == t.Counter(m) + if m == target.value.0 then target.value.1 else 0)
  {
    hide Members, HostLimit, Bound, Act;
    StepOf(w, t, t.sessions, |xs|, x);
    forall y: Session ensures (xs + [x])[|xs| := y] == xs + [y] {
    }
  }

  /** How many counters a close gets to before it reads one above its limit and stops. */
  function Reached(w: World, s: State, ids: seq<LimitId>): (n: nat)
    ensures n <= |ids|
  {
    if ids == [] then 0
    else if s.Counter(ids[0]) - 1 > w.Limit(ids[0]) then 1
    else 1 + Reached(w, s, ids[1..])
  }

  ghost predicate ClosedFrom(w: World, s: State, s': State, c: nat)
    requires c < |s.sessions|
  {
    var x := s.sessions[c];
    && s'.sessions == s.sessions[c := x.(phase := Closed)]
    && forall m :: s'.Counter(m) == s.Counter(m) - if m in w.Group(x)[..Reached(w, s, w.Group(x))] then 1 else 0
  }

  /** A close that nobody interrupts gives one place back in every counter up to the first that it
      reads above its limit, which is every counter of the group when none is above. */
  lemma CloseAlone(w: World, s: State, c: nat)
    requires ValidState(w, s) && c < |s.sessions| && s.sessions[c].phase == Live
    ensures ClosedFrom(w, s, Run(w, Act(w, s, Close(c)), Steps(c)), c)
    ensures var ids := w.Group(s.sessions[c]);
            (forall m <- ids :: s.Counter(m) <= w.Limit(m)) ==> ids[..Reached(w, s, ids)] == ids
    ensures var s' := Run(w, Act(w, s, Close(c)), Steps(c));
            var x := s.sessions[c];
            var ids := Members(w.cfg, w.parse, x.key);
            && s'.sessions == s.sessions[c := Session(x.key, Closed)]
            && ((forall m <- ids :: s.Counter(m) <= Bound(w.cfg, w.parse, m)) ==>
                  forall m :: s'.Counter(m) == s.Counter(m) - if m in ids then 1 else 0)
            && (ids != [] && s.Counter(ids[0]) > Bound(w.cfg, w.parse, ids[0]) + 1 ==>
                  forall m :: s'.Counter(m) == s.Counter(m) - if m == ids[0] then 1 else 0)
  {
    var x := s.sessions[c];
    MembersAreFew(w, x.key);
    ReachedAll(w, s, w.Group(x));
    var s0 := Act(w, s, Close(c));
    var ids := w.Group(x);
    ReachedOf(w, s, ids);
    hide Members, HostLimit, Bound, Run, Act, Reached;
    RunSteps(w, s0, c);
    if ids == [] {
      StepOf(w, s0, s.sessions, c, x.(phase := Closed));
    } else if |ids| == 2 && s.Counter(ids[0]) - 1 <= w.Limit(ids[0]) {
      CloseInTwo(w, s, s0, c, x);
    } else {
      CloseInOne(w, s, s0, c, x);
    }
  }

  lemma {:induction false} ReachedAll(w: World, s: State, ids: seq<LimitId>)
    ensures (forall m <- ids :: s.Counter(m) <= w.Limit(m)) ==> ids[..Reached(w, s, ids)] == ids
  {
    hide Bound;
    if ids != [] {
      ReachedAll(w, s, ids[1..]);
      assert (forall m <- ids :: s.Counter(m) <= w.Limit(m)) ==> s.Counter(ids[0]) <= w.Limit(ids[0]);
    }
  }

  lemma CloseInOne(w: World, s: State, s0: State, c: nat, x: Session)
    requires ValidState(w, s0) && c < |s.sessions| && s0.counters == s.counters && x == s.sessions[c]
    requires var ids := w.Group(x); |ids| == 1 || (|ids| == 2 && s.Counter(ids[0]) - 1 > w.Limit(ids[0]))
    requires s0.sessions == s.sessions[c := x.(phase := Releasing(0))]
    ensures ClosedFrom(w, s, Act4(w, s0, Step(c)), c)
  {
    ReachedOf(w, s, w.Group(x));
    hide Members, HostLimit, Bound, Act, Reached;
    var a := Step(c);
    var s1 := Act(w, s0, a);
    StepOf(w, s0, s.sessions, c, x.(phase := Releasing(0)));
    StepOf(w, s1, s.sessions, c, x.(phase := Closed));
  }

  lemma CloseInTwo(w: World, s: State, s0: State, c: nat, x: Session)
    requires ValidState(w, s0) && c < |s.sessions| && s0.counters == s.counters && x == s.sessions[c]
    requires var ids := w.Group(x); |ids| == 2 && s.Counter(ids[0]) - 1 <= w.Limit(ids[0])
    requires s0.sessions == s.sessions[c := x.(phase := Releasing(0))]
    ensures ClosedFrom(w, s, Act4(w, s0, Step(c)), c)
  {
    ReachedOf(w, s, w.Group(x));
    hide Members, HostLimit, Bound, Act, Reached;
    var a := Step(c);
    var s1 := Act(w, s0, a);
    var s2 := Act(w, s1, a);
    StepOf(w, s0, s.sessions, c, x.(phase := Releasing(0)));
    StepOf(w, s1, s.sessions, c, x.(phase := Releasing(1)));
    StepOf(w, s2, s.sessions, c, x.(phase := Closed));
  }

  lemma ReachedOf(w: World, s: State, ids: seq<LimitId>)
    requires |ids| <= 2
    ensures var n := if |ids| == 2 && s.Counter(ids[0]) - 1 > w.Limit(ids[0]) then 1 else |ids|;
            Reached(w, s, ids) == n && forall m :: m in ids[..n] <==> (n > 0 && m == ids[0]) || (n > 1 && m == ids[1])
  {
  }

  /** What a step of session `c` does to the others and the counters. */
  lemma StepOf(w: World, t: State, xs: seq<Session>, c: nat, x: Session)
    requires ValidState(w, t) && c < |xs| && t.sessions == xs[c := x]
    ensures ValidSession(w, x)
    ensures var (t', target) := (Act(w, t, Step(c)), Target(w, x));
            && (target.None? ==> t' == t)
            && (target.Some? ==>
                 && t'.sessions == xs[c := x.(phase := NextPhase(w, x, t.Counter(target.value.0) + target.value.1))]
                 && forall m :: t'.Counter(m) == t.Counter(m) + if m == target.value.0 then target.value.1 else 0)
  {
    hide Members, HostLimit, Bound;
    assert t.sessions[c] == x && x in t.sessions;
    if Target(w, x).Some? {
      var (m, delta) := Target(w, x).value;
      var y := x.(phase := NextPhase(w, x, t.Counter(m) + delta));
      assert xs[c := x][c := y] == xs[c := y];
    }
  }

  lemma MembersAreFew(w: World, key: string)
    ensures |Members(w.cfg, w.parse, key)| <= 2
  {
  }

  lemma RunSteps(w: World, s: State, c: nat)
    requires ValidState(w, s)
    ensures Run(w, s, Steps(c)) == Act4(w, s, Step(c))
  {
    hide Act;
    var a := Step(c);
    var s1 := Act(w, s, a);
    var s2 := Act(w, s1, a);
    var s3 := Act(w, s2, a);
    assert Steps(c)[1..] == [a, a, a] && [a, a, a][1..] == [a, a] && [a, a][1..] == [a] && [a][1..] == [];
    assert Run(w, s, Steps(c)) == Run(w, s1, [a, a, a]) == Run(w, s2, [a, a]) == Run(w, s3, [a]);
    assert Run(w, s3, [a]) == Run(w, Act(w, s3, a), []);
  }

  /** Under contention a place can be lost for good: one connection closes while two others of the
      same host are being turned away, and the service counter never hears of it. */
  lemma ContentionLeaks(parse: Parsers)
    ensures var w := World(Config(map[], map[], Some(1), Some(5)), parse);
            var s := Run(w, INITIAL, ThreeAtOnce() + CloseAndGiveUp());
            && s.Counter(Host("a")) == 0 && s.Counter(Service) == 1
            && forall x :: x in s.sessions ==> x.phase == Closed || x.phase == Refused
  {
    var w := World(Config(map[], map[], Some(1), Some(5)), parse);
    assert Members(w.cfg, w.parse, "a") == [Host("a"), Service];
    hide Members, HostLimit, Bound;
    var s := State(map[Host("a") := 3, Service := 1],
                   [Session("a", Live), Session("a", OverAdded(0)), Session("a", OverAdded(0))]);
    assert Run(w, INITIAL, ThreeAtOnce()) == s;
    hide Run;
    RunAppend(w, INITIAL, ThreeAtOnce(), CloseAndGiveUp());
    ThreeThenClose(w, s);
  }

  lemma ThreeThenClose(w: World, s: State)
    requires Members(w.cfg, w.parse, "a") == [Host("a"), Service] && w.Limit(Host("a")) == 1
    requires s == State(map[Host("a") := 3, Service := 1],
                        [Session("a", Live), Session("a", OverAdded(0)), Session("a", OverAdded(0))])
    ensures var s' := Run(w, s, CloseAndGiveUp());
            && s'.Counter(Host("a")) == 0 && s'.Counter(Service) == 1
            && forall x :: x in s'.sessions ==> x.phase == Closed || x.phase == Refused
  {
    hide Members, HostLimit, Bound;
  }

  /** One connection gets in, two more of its host add themselves and are told no. */
  function ThreeAtOnce(): seq<Action>
  {
    [Arrive("a"), Step(0), Step(0), Arrive("a"), Step(1), Arrive("a"), Step(2)]
  }

  /** The first closes before the other two have taken their adds back. */
  function CloseAndGiveUp(): seq<Action>
  {
    [Close(0), Step(0), Step(1), Step(2)]
  }

  lemma {:induction false} RunAppend(w: World, s: State, a: seq<Action>, b: seq<Action>)
    requires ValidState(w, s)
    ensures Run(w, s, a + b) == Run(w, Run(w, s, a), b)
    decreases |a|
  {
    if a == [] {
      assert a + b == b;
    } else {
      assert (a + b)[1..] == a[1..] + b;
      RunAppend(w, Act(w, s, a[0]), a[1..], b);
    }
  }
}
