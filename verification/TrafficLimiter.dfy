/** The traffic limiter: a cache of rate limiters that a reload brings in line with the new
    configuration while connections keep using them. */
module TrafficLimiter {
  import opened Options
  import opened Ranger

  const GLOBAL_LIMIT_KEY: string := "$"
  const CONN_LIMIT_KEY: string := "$$"

  /** A token bucket; its rate and its burst are always set together. */
  class Limiter {
    var limit: int
    var burst: int

    constructor (r: int)
      ensures limit == r && burst == r
    {
      limit, burst := r, r;
    }

    /** What may be transferred now of `n` bytes. */
    method Wait(n: int) returns (r: int)
      ensures r == if burst < n then burst else n
    {
      r := n;
      if burst < r {
        r := burst;
      }
    }

    method Set(n: int)
      modifies this
      ensures limit == n && burst == n
    {
      limit := n;
      burst := n;
    }
  }

  class LimiterGroup {
    const limiters: seq<Limiter>

    constructor (limiters: seq<Limiter>)
      ensures this.limiters == limiters
    {
      this.limiters := limiters;
    }

    /** The least of `n` and the members' bursts. */
    method Wait(n: int) returns (r: int)
      ensures r <= n && forall l <- limiters :: r <= l.burst
      ensures r == n || exists l <- limiters :: r == l.burst
    {
      r := n;
      for i := 0 to |limiters|
        invariant r <= n && forall j :: 0 <= j < i ==> r <= limiters[j].burst
        invariant r == n || exists j :: 0 <= j < i && r == limiters[j].burst
      {
        var v := limiters[i].Wait(r);
        if v < r {
          r := v;
        }
      }
    }
  }

  /** How a client's address, a network and the host of an address read. */
  datatype Parsers = Parsers(ip: string -> Option<Bits>, cidr: string -> Option<Bits>, host: string -> string)
  {
    predicate Valid()
    {
      ip(GLOBAL_LIMIT_KEY).None? && cidr(GLOBAL_LIMIT_KEY).None? && cidr(CONN_LIMIT_KEY).None?
    }
  }

  /** The rate a loaded table gives a key, 0 when it has none. */
  function Value(values: map<string, int>, key: string): int
  {
    if key in values then values[key] else 0
  }

  /** Keys of the table that name a single host. */
  predicate IsHostKey(values: map<string, int>, parse: Parsers, key: string)
  {
    key in values && key != GLOBAL_LIMIT_KEY && key != CONN_LIMIT_KEY && parse.cidr(key).None?
  }

  /** The rate of the first network that contains a host, when that network has one. */
  function NetRate(nets: map<Bits, int>, parse: Parsers, host: string): Option<int>
  {
    match parse.ip(host)
    case None => None
    case Some(ip) =>
      match FirstContaining(nets, ip)
      case Some(net) => if nets[net] > 0 then Some(nets[net]) else None
      case None => None
  }

  lemma NetRateIsPositive(nets: map<Bits, int>, parse: Parsers, host: string)
    ensures NetRate(nets, parse, host).Some? ==> NetRate(nets, parse, host).value > 0
  {
  }

  /** No network of the table that contains the address is less specific than `net`, and every key that
      spells `net` has the rate `key` has. */
  ghost predicate LeastSpecific(values: map<string, int>, parse: Parsers, ip: Bits, key: string, net: Bits)
    requires key in values
  {
    forall k, n :: k in values && parse.cidr(k) == Some(n) && n <= ip ==>
      |net| <= |n| && (n == net ==> values[k] == values[key])
  }

  lemma NetRateOfKey(nets: map<Bits, int>, values: map<string, int>, parse: Parsers, host: string, ip: Bits,
                     key: string, net: Bits)
    requires NetsOf(nets, values, parse) && parse.ip(host) == Some(ip)
    requires key in values && parse.cidr(key) == Some(net) && net <= ip && LeastSpecific(values, parse, ip, key, net)
    ensures NetRate(nets, parse, host) == if values[key] > 0 then Some(values[key]) else None
  {
    var first := FirstContaining(nets, ip).value;
    var k :| k in values && parse.cidr(k) == Some(first) && nets[first] == values[k];
    assert first == ip[..|first|] && net == ip[..|net|];
  }

  lemma NoNetRate(nets: map<Bits, int>, values: map<string, int>, parse: Parsers, host: string, ip: Bits)
    requires NetsOf(nets, values, parse) && parse.ip(host) == Some(ip)
    requires forall k, n :: k in values && parse.cidr(k) == Some(n) ==> !(n <= ip)
    ensures NetRate(nets, parse, host) == None
  {
    forall n | n in nets ensures !(n <= ip) {
      var k :| k in values && parse.cidr(k) == Some(n) && nets[n] == values[k];
    }
  }

  /** The limit of a host, from the configuration alone: its own positive limit, else the positive
      limit of the first network that contains it. `$` stands for the service. */
  function Resolve(values: map<string, int>, nets: map<Bits, int>, parse: Parsers, host: string): Option<int>
  {
    if host == GLOBAL_LIMIT_KEY then
      if Value(values, GLOBAL_LIMIT_KEY) > 0 then Some(Value(values, GLOBAL_LIMIT_KEY)) else None
    else if IsHostKey(values, parse, host) && values[host] > 0 then Some(values[host])
    else NetRate(nets, parse, host)
  }

  /** The network table holds the table's networks, each with the rate of a key that spells it. */
  ghost predicate NetsOf(nets: map<Bits, int>, values: map<string, int>, parse: Parsers)
  {
    && (forall net :: net in nets ==>
        exists key :: key in values && parse.cidr(key) == Some(net) && nets[net] == values[key])
    && (forall key :: key in values && parse.cidr(key).Some? ==> parse.cidr(key).value in nets)
  }

  /** What a reload leaves a cached connection limiter with: the rate it had, unless the configured
      rate changed, and then the configured rate from before the change. */
  function ConnRateAfter(was: int, now: int, rate: int): int
  {
    if was != now then was else rate
  }

  /** What a sequence of reloads leaves it with, when connections stay limited throughout. */
  function ConnRateAfterAll(configured: int, rate: int, reloads: seq<int>): int
    decreases |reloads|
  {
    if reloads == [] then rate
    else ConnRateAfterAll(reloads[0], ConnRateAfter(configured, reloads[0], rate), reloads[1..])
  }

  function LastOf(configured: int, reloads: seq<int>): int
  {
    if reloads == [] then configured else reloads[|reloads| - 1]
  }

  /** Over every sequence of reloads: it ends with the configured rate exactly when it had it before
      and no reload changed it. Once it is stale it stays stale. */
  lemma {:induction false} ConnRateIsStale(configured: int, rate: int, reloads: seq<int>)
    ensures ConnRateAfterAll(configured, rate, reloads) == LastOf(configured, reloads) <==>
            rate == configured && forall r <- reloads :: r == configured
    decreases |reloads|
  {
    if reloads != [] {
      ConnRateIsStale(reloads[0], ConnRateAfter(configured, reloads[0], rate), reloads[1..]);
      assert LastOf(configured, reloads) == LastOf(reloads[0], reloads[1..]);
      assert reloads == [reloads[0]] + reloads[1..];
      assert forall r <- reloads :: r == reloads[0] || r in reloads[1..];
      assert reloads[0] in reloads && forall r <- reloads[1..] :: r in reloads;
    }
  }

  /** The cached limiters of the service (under `$`) and of the hosts, in one direction. `values` is
      the loaded table. */
  class HostCache {
    var limits: map<string, Limiter>
    var nets: map<Bits, int>
    const parse: Parsers
    ghost var values: map<string, int>

    ghost predicate Valid()
      reads this, limits.Values
    {
      parse.Valid() && Uniform() && Coherent(Rates(), values, nets, parse)
    }

    /** No two cache entries share a limiter, and every limiter's burst is its rate. */
    ghost predicate Uniform()
      reads this`limits, limits.Values
    {
      && (forall a, b :: a in limits && b in limits && a != b ==> limits[a] != limits[b])
      && (forall h :: h in limits ==> limits[h].burst == limits[h].limit)
    }

    /** The cached rates. */
    ghost function Rates(): map<string, int>
      reads this`limits, limits.Values
    {
      map h | h in limits :: limits[h].limit
    }

    constructor (parse: Parsers)
      requires parse.Valid()
      ensures Valid() && this.parse == parse && limits == map[] && values == map[] && nets == map[]
    {
      this.parse := parse;
      limits, nets, values := map[], map[], map[];
    }

    /** The service's limiter, if it has one. */
    method Service() returns (lims: seq<Limiter>)
      requires Valid()
      ensures GLOBAL_LIMIT_KEY in limits <==> Resolve(values, nets, parse, GLOBAL_LIMIT_KEY).Some?
      ensures lims == if GLOBAL_LIMIT_KEY in limits then [limits[GLOBAL_LIMIT_KEY]] else []
    {
      CachedIsPositive();
      lims := [];
      if GLOBAL_LIMIT_KEY in limits {
        lims := [limits[GLOBAL_LIMIT_KEY]];
      }
    }

    /** The host's limiter: the cached one, or a new one from the first network that contains it. */
    method HostLimiter(host: string) returns (lims: seq<Limiter>)
      requires Valid()
      modifies this`limits
      ensures Valid()
      ensures host in limits <==> Resolve(values, nets, parse, host).Some?
      ensures lims == if host in limits then [limits[host]] else []
      ensures limits == if host in limits && host !in old(limits) then old(limits)[host := limits[host]]
                        else old(limits)
      ensures host in limits && host !in old(limits) ==> fresh(limits[host])
      ensures GLOBAL_LIMIT_KEY in limits <==> GLOBAL_LIMIT_KEY in old(limits)
      ensures Extends(old(limits), limits) && fresh(limits.Values - old(limits.Values))
    {
      hide Resolve, IsHostKey, NetsOf, NetRate;
      lims := [];
      if host in limits {
        lims := [limits[host]];
      } else {
        NotCached(values, nets, parse, host, limits.Keys);
        var rate := NetRate(nets, parse, host);
        if rate.Some? {
          Remember(host, rate.value);
          lims := [limits[host]];
        }
      }
    }

    method Remember(host: string, rate: int)
      requires Valid() && host !in limits && host != GLOBAL_LIMIT_KEY
      requires Resolve(values, nets, parse, host) == Some(rate)
      modifies this`limits
      ensures Valid() && host in limits && limits == old(limits)[host := limits[host]] && fresh(limits[host])
    {
      hide Resolve, IsHostKey, NetsOf, Coherent;
      var lim := new Limiter(rate);
      LateStore(Rates(), values, nets, parse, host, rate);
      limits := limits[host := lim];
      assert Rates() == old(Rates())[host := rate];
    }

    // -------------------------------------------------------------------------------------
    // Reload
    // -------------------------------------------------------------------------------------

    /** Cached limiters that stay are the same objects; new ones are new. */
    twostate predicate SameObjects()
      reads this
    {
      forall h :: h in limits ==> if h in old(limits) then limits[h] == old(limits)[h] else fresh(limits[h])
    }

    /** One configured rate: a cached limiter is changed in place or dropped, a missing one made. */
    method SetRate(key: string, rate: int) returns (ghost made: set<Limiter>)
      requires Uniform()
      modifies this`limits, limits.Values
      ensures Uniform() && Rates() == WithRate(old(Rates()), key, rate)
      ensures fresh(made) && KeptOrMade(old(limits), limits, made) && limits.Keys + {key} == old(limits.Keys) + {key}
      ensures forall l: Limiter | old(allocated(l)) && old(l.burst) > 0 :: l.burst > 0
    {
      made := {};
      if key in limits {
        var lim := limits[key];
        if rate <= 0 {
          limits := limits - {key};
          assert Rates() == old(Rates()) - {key};
        } else {
          lim.Set(rate);
          assert Rates() == old(Rates())[key := rate];
        }
      } else {
        if rate > 0 {
          var lim := new Limiter(rate);
          made := {lim};
          limits := limits[key := lim];
          assert Rates() == old(Rates())[key := rate];
        }
      }
    }

    /** The hosts and networks of a table, in any order. `rest` are the cached hosts it does not name. */
    method ReloadHosts(table: map<string, int>)
      returns (rest: set<string>, nets': map<Bits, int>, ghost named: set<string>)
      requires parse.Valid() && Uniform()
      modifies this`limits, limits.Values
      ensures named <= table.Keys && forall h :: h in named <==> IsHostKey(table, parse, h)
      ensures rest == old(limits).Keys - {GLOBAL_LIMIT_KEY} - named
      ensures Uniform() && SameObjects() && Rates() == WithHosts(old(Rates()), table, named)
      ensures forall h :: h !in named ==> (h in limits <==> h in old(limits))
      ensures NetsOf(nets', table, parse)
      ensures forall l: Limiter | old(allocated(l)) && old(l.burst) > 0 :: l.burst > 0
    {
      hide NetsOf, IsHostKey, WithHosts, WithRate, Without, Rates, Uniform;
      HostKeys(table, parse);
      var todo := table.Keys - {GLOBAL_LIMIT_KEY, CONN_LIMIT_KEY};
      NoNets(table, parse);
      CachedKeys();
      ghost var was, start, made: set<Limiter> := Rates(), limits, {};
      rest := limits.Keys - {GLOBAL_LIMIT_KEY};
      nets' := map[];
      named := {};
      WithNoHosts(Rates(), table);
      assert KeptOrMade(start, limits, made);
      hide KeptOrMade;
      while todo != {}
        invariant todo <= table.Keys - {GLOBAL_LIMIT_KEY, CONN_LIMIT_KEY} && named <= table.Keys
        invariant forall h :: h in named <==> h !in todo && IsHostKey(table, parse, h)
        invariant rest == start.Keys - {GLOBAL_LIMIT_KEY} - named
        invariant Uniform() && Rates() == WithHosts(was, table, named)
        invariant fresh(made) && KeptOrMade(start, limits, made)
        invariant limits.Keys - named == start.Keys - named
        invariant NetsOf(nets', Without(table, todo), parse)
        invariant forall l: Limiter | old(allocated(l)) && old(l.burst) > 0 :: l.burst > 0
        decreases todo
      {
        var key :| key in todo;
        NetsStep(nets', table, todo, key, parse);
        todo := todo - {key};
        var net := parse.cidr(key);
        if net.Some? {
          nets' := nets'[net.value := table[key]];
          continue;
        }
        ghost var before := limits;
        LessOne(start.Keys, limits.Keys, rest, named, key);
        if key in limits {
          rest := rest - {key};
        }
        CachedKeys();
        WithOneMore(was, table, named, key);
        MadeValues(start, limits, made);
        ghost var more := SetRate(key, table[key]);
        KeptOrMadeThen(start, before, limits, made, more, key);
        SameButOne(start.Keys, before.Keys, limits.Keys, named, key);
        made, named := made + more, named + {key};
      }
      WithAll(table);
      forall h | h !in named ensures h in limits <==> h in start {
        assert h in limits.Keys - named <==> h in start.Keys - named;
      }
      assert SameObjects() by {
        MadeOrKept(start, limits, made);
      }
    }

    /** What is cached is in force: the service's entry exactly when it has a limit, and no entry is
        without one. */
    lemma CachedIsPositive()
      requires Valid()
      ensures GLOBAL_LIMIT_KEY in limits <==> Resolve(values, nets, parse, GLOBAL_LIMIT_KEY).Some?
      ensures forall h :: h in limits ==> limits[h].limit == limits[h].burst > 0
    {
      assert forall h :: h in limits ==> h in Rates();
    }

    lemma CachedKeys()
      ensures Rates().Keys == limits.Keys
    {
    }

    /** What the cache holds for a host, from the loaded table alone: its own positive rate always; else
        the rate of the least specific network it is in, which `key` spells and no other key with
        another rate, and nothing if that is not positive; nothing for a host in no network. */
    lemma CachedRate(host: string, key: string, net: Bits, ip: Bits)
      requires Valid() && host != "$"
      ensures host in values && host != "$$" && parse.cidr(host).None? && values[host] > 0 ==>
              host in limits && limits[host].limit == limits[host].burst == values[host]
      ensures !(host in values && host != "$$" && parse.cidr(host).None? && values[host] > 0) &&
              parse.ip(host) == Some(ip) && key in values && parse.cidr(key) == Some(net) && net <= ip &&
              LeastSpecific(values, parse, ip, key, net) ==>
              && (host in limits ==> values[key] > 0 && limits[host].limit == limits[host].burst == values[key])
              && Resolve(values, nets, parse, host) == (if values[key] > 0 then Some(values[key]) else None)
      ensures !(host in values && host != "$$" && parse.cidr(host).None? && values[host] > 0) &&
              (parse.ip(host) == Some(ip) ==> forall k, n :: k in values && parse.cidr(k) == Some(n) ==> !(n <= ip)) &&
              (parse.ip(host).None? || parse.ip(host) == Some(ip)) ==>
              host !in limits && Resolve(values, nets, parse, host) == None
    {
      CachedIsPositive();
      assert host in limits ==> host in Rates();
      if parse.ip(host) == Some(ip) && key in values && parse.cidr(key) == Some(net) && net <= ip &&
         LeastSpecific(values, parse, ip, key, net) {
        NetRateOfKey(nets, values, parse, host, ip, key, net);
      }
      if parse.ip(host) == Some(ip) && forall k, n :: k in values && parse.cidr(k) == Some(n) ==> !(n <= ip) {
        NoNetRate(nets, values, parse, host, ip);
      }
    }

    /** And the service's, under `$`. */
    lemma CachedService()
      requires Valid()
      ensures "$" in limits <==> "$" in values && values["$"] > 0
      ensures "$" in limits ==> limits["$"].limit == limits["$"].burst == values["$"]
    {
      CachedIsPositive();
      assert "$" in limits ==> "$" in Rates();
    }

    /** A cached host the table does not name: its limiter follows its network's rate, or goes. */
    method Follow(k: string, rate: Option<int>)
      requires Uniform() && k in limits && (rate.Some? ==> rate.value > 0)
      modifies this`limits, limits.Values
      ensures Uniform() && limits == if rate.Some? then old(limits) else old(limits) - {k}
      ensures Rates() == if rate.Some? then old(Rates())[k := rate.value] else old(Rates()) - {k}
      ensures forall l: Limiter | old(allocated(l)) && old(l.burst) > 0 :: l.burst > 0
    {
      if rate.Some? {
        var lim := limits[k];
        if lim.limit != rate.value {
          lim.Set(rate.value);
        }
      } else {
        limits := limits - {k};
      }
    }

    method ReloadRest(rest: set<string>, nets': map<Bits, int>)
      requires Uniform() && rest <= limits.Keys
      modifies this`limits, limits.Values
      ensures Uniform() && SameObjects() && Rates() == WithNets(old(Rates()), nets', parse, rest)
      ensures limits.Keys <= old(limits).Keys
      ensures forall l: Limiter | old(allocated(l)) && old(l.burst) > 0 :: l.burst > 0
    {
      hide NetRate, WithNets, Rates, Uniform;
      var todo := rest;
      ghost var was, start, gone: set<string> := Rates(), limits, {};
      CachedKeys();
      WithNoNets(Rates(), nets', parse);
      assert rest - todo == {} && limits == start - gone;
      while todo != {}
        invariant todo <= rest && todo <= limits.Keys && limits == start - gone && gone !! todo
        invariant Uniform() && Rates() == WithNets(was, nets', parse, rest - todo)
        invariant forall l: Limiter | old(allocated(l)) && old(l.burst) > 0 :: l.burst > 0
        decreases todo
      {
        var k :| k in todo;
        FollowOneMore(was, nets', parse, rest - todo, k);
        NetRateIsPositive(nets', parse, k);
        assert k in was by { CachedKeys(); }
        assert rest - (todo - {k}) == (rest - todo) + {k};
        todo := todo - {k};
        var rate := NetRate(nets', parse, k);
        Follow(k, rate);
        gone := if rate.Some? then gone else gone + {k};
        assert limits == start - gone;
      }
      assert rest - todo == rest;
    }

    /** The service and the hosts a new table names. */
    method ReloadNamed(table: map<string, int>)
      returns (rest: set<string>, nets': map<Bits, int>, ghost named: set<string>)
      requires parse.Valid() && Uniform()
      modifies this`limits, limits.Values
      ensures named <= table.Keys && forall h :: h in named <==> IsHostKey(table, parse, h)
      ensures Uniform() && SameObjects() && NetsOf(nets', table, parse) && rest <= limits.Keys
      ensures var service := WithRate(old(Rates()), GLOBAL_LIMIT_KEY, Value(table, GLOBAL_LIMIT_KEY));
              rest == service.Keys - {GLOBAL_LIMIT_KEY} - named && Rates() == WithHosts(service, table, named)
      ensures forall l: Limiter | old(allocated(l)) && old(l.burst) > 0 :: l.burst > 0
    {
      hide NetsOf, IsHostKey, WithRate, WithHosts, Rates, Uniform;
      HostKeys(table, parse);
      CachedKeys();
      ghost var made := SetRate(GLOBAL_LIMIT_KEY, Value(table, GLOBAL_LIMIT_KEY));
      CachedKeys();
      ghost var between := limits;
      rest, nets', named := ReloadHosts(table);
      assert forall h :: h in limits && h in old(limits) && h != GLOBAL_LIMIT_KEY ==> h in between;
    }

    /** The cached limiters for a new table: service, named hosts, the rest. */
    method ReloadLimits(table: map<string, int>) returns (nets': map<Bits, int>)
      requires parse.Valid() && Uniform()
      modifies this`limits, limits.Values
      ensures Uniform() && Coherent(Rates(), table, nets', parse) && SameObjects()
      ensures forall h :: h in limits <==> Survives(table, nets', parse, h, h in old(limits))
      ensures forall l: Limiter | old(allocated(l)) && old(l.burst) > 0 :: l.burst > 0
    {
      hide NetRate, NetsOf, Resolve, IsHostKey, WithRate, WithHosts, WithNets, Rates, Uniform, Coherent, Survives;
      ghost var was := Rates();
      CachedKeys();
      var rest, n, named := ReloadNamed(table);
      nets' := n;
      ReloadRest(rest, nets');
      CachedKeys();
      AfterReload(was, table, nets', parse, named, rest);
    }

    /** Brings the cache in line with a new table, whatever rates it held. The limiters of hosts that
        stay limited are the ones already handed out, and none handed out begins to stop transfers. */
    method Reload(table: map<string, int>)
      requires parse.Valid() && Uniform()
      modifies this, limits.Values
      ensures Valid() && values == table && SameObjects() && fresh(limits.Values - old(limits.Values))
      ensures forall h :: h in limits <==> Survives(table, nets, parse, h, h in old(limits))
      ensures forall l: Limiter | old(allocated(l)) && old(l.burst) > 0 :: l.burst > 0
      ensures forall h :: h in old(limits) && h !in table && Resolve(table, nets, parse, h).Some? ==> h in limits
    {
      SurvivesUnnamed(table, parse);
      hide Rates, Coherent, Survives, Resolve;
      var nets' := ReloadLimits(table);
      label swap:
      nets, values := nets', table;
      SwapKeeps@swap();
    }

    /** A lookup that missed and read the networks, a reload, and only then the lookup's new limiter:
        the cache agrees with the table exactly if the table happens to give the host that same rate.
        The next reload puts it right, as it does not ask for agreement. */
    method ReloadDuringLookup(host: string, table: map<string, int>)
      requires Valid() && host !in limits
      modifies this, limits.Values
      ensures Uniform() && values == table
      ensures var rate := old(NetRate(nets, parse, host));
              Valid() <==> rate.None? || Resolve(values, nets, parse, host) == rate
    {
      var rate := NetRate(nets, parse, host);
      hide Resolve, NetRate, Coherent, Uniform, Rates;
      Reload(table);
      if rate.Some? {
        LateStore(Rates(), values, nets, parse, host, rate.value);
        Store(host, rate.value);
      }
    }

    method Store(host: string, rate: int)
      requires Uniform()
      modifies this`limits
      ensures Uniform() && Rates() == old(Rates())[host := rate]
    {
      var lim := new Limiter(rate);
      limits := limits[host := lim];
      assert Rates() == old(Rates())[host := rate];
    }

    /** Swapping the network table leaves the cached limiters alone. */
    twostate lemma SwapKeeps()
      requires limits == old(limits) && forall h :: h in limits ==> unchanged(limits[h])
      ensures Rates() == old(Rates()) && (Uniform() <==> old(Uniform()))
    {
    }
  }

  /** A table of limiters after a change: those that stay are the same, the others were made. */
  ghost predicate KeptOrMade(was: map<string, Limiter>, now: map<string, Limiter>, made: set<Limiter>)
  {
    forall h :: h in now ==> if h in was then now[h] == was[h] else now[h] in made
  }

  /** One change after others that left `key` alone. */
  lemma KeptOrMadeThen(was: map<string, Limiter>, between: map<string, Limiter>, now: map<string, Limiter>,
                       made: set<Limiter>, more: set<Limiter>, key: string)
    requires KeptOrMade(was, between, made) && KeptOrMade(between, now, more)
    requires now.Keys + {key} == between.Keys + {key} && (key in was ==> key in between)
    ensures KeptOrMade(was, now, made + more)
  {
    forall h | h in now ensures if h in was then now[h] == was[h] else now[h] in made + more {
      assert h == key || h in between by { assert h in now.Keys + {key}; }
    }
  }

  function WithRate(rates: map<string, int>, key: string, rate: int): map<string, int>
  {
    if rate > 0 then rates[key := rate] else rates - {key}
  }

  /** The rates once the named hosts have their own. */
  function WithHosts(rates: map<string, int>, table: map<string, int>, named: set<string>): map<string, int>
    requires named <= table.Keys
  {
    map h | h in rates.Keys + named && (if h in named then table[h] > 0 else h in rates) ::
      if h in named then table[h] else rates[h]
  }

  lemma WithNoHosts(rates: map<string, int>, table: map<string, int>)
    ensures WithHosts(rates, table, {}) == rates
  {
  }

  lemma WithOneMore(rates: map<string, int>, table: map<string, int>, named: set<string>, key: string)
    requires named + {key} <= table.Keys && key !in named
    ensures WithHosts(rates, table, named + {key}) == WithRate(WithHosts(rates, table, named), key, table[key])
  {
  }

  /** The rates once the hosts of `rest` have their network's. */
  function WithNets(rates: map<string, int>, nets: map<Bits, int>, parse: Parsers, rest: set<string>): map<string, int>
  {
    map h | h in rates && (h in rest ==> NetRate(nets, parse, h).Some?) ::
      if h in rest then NetRate(nets, parse, h).value else rates[h]
  }

  lemma WithNoNets(rates: map<string, int>, nets: map<Bits, int>, parse: Parsers)
    ensures WithNets(rates, nets, parse, {}) == rates
  {
  }

  lemma FollowOneMore(rates: map<string, int>, nets: map<Bits, int>, parse: Parsers, done: set<string>, k: string)
    requires k in rates && k !in done
    ensures var now := WithNets(rates, nets, parse, done);
            WithNets(rates, nets, parse, done + {k}) ==
            if NetRate(nets, parse, k).Some? then now[k := NetRate(nets, parse, k).value] else now - {k}
  {
    hide NetRate;
  }

  /** Every cached rate is the one that resolving its host afresh in the loaded table gives, and
      hosts with a limit of their own are all cached. */
  ghost predicate Coherent(rates: map<string, int>, values: map<string, int>, nets: map<Bits, int>, parse: Parsers)
  {
    && NetsOf(nets, values, parse)
    && (forall h :: h in rates ==> Resolve(values, nets, parse, h) == Some(rates[h]))
    && (forall h :: IsHostKey(values, parse, h) && values[h] > 0 ==> h in rates)
    && (Value(values, GLOBAL_LIMIT_KEY) > 0 ==> GLOBAL_LIMIT_KEY in rates)
  }

  lemma LateStore(rates: map<string, int>, values: map<string, int>, nets: map<Bits, int>, parse: Parsers,
                  host: string, rate: int)
    requires Coherent(rates, values, nets, parse)
    ensures Coherent(rates[host := rate], values, nets, parse) <==> Resolve(values, nets, parse, host) == Some(rate)
  {
    hide Resolve, IsHostKey, NetsOf;
    assert host in rates[host := rate];
  }

  /** Which entries are cached after a reload: the service's and those of hosts with a positive limit
      of their own always, other hosts' when they were and a network still limits them. */
  ghost predicate Survives(table: map<string, int>, nets: map<Bits, int>, parse: Parsers, h: string, cached: bool)
  {
    && Resolve(table, nets, parse, h).Some?
    && (h == GLOBAL_LIMIT_KEY || (if IsHostKey(table, parse, h) then table[h] > 0 else cached))
  }

  /** What a reload makes of the rates, whatever they were. */
  lemma AfterReload(was: map<string, int>, table: map<string, int>, nets: map<Bits, int>, parse: Parsers,
                    named: set<string>, rest: set<string>)
    requires parse.Valid() && NetsOf(nets, table, parse)
    requires named <= table.Keys && forall h :: h in named <==> IsHostKey(table, parse, h)
    requires rest == WithRate(was, GLOBAL_LIMIT_KEY, Value(table, GLOBAL_LIMIT_KEY)).Keys - {GLOBAL_LIMIT_KEY} - named
    ensures var service := WithRate(was, GLOBAL_LIMIT_KEY, Value(table, GLOBAL_LIMIT_KEY));
            var now := WithNets(WithHosts(service, table, named), nets, parse, rest);
            && Coherent(now, table, nets, parse)
            && forall h :: h in now <==> Survives(table, nets, parse, h, h in was)
  {
    ResolveByCase(table, parse);
    HostKeys(table, parse);
    hide NetsOf, NetRate, Resolve, IsHostKey;
    var service := WithRate(was, GLOBAL_LIMIT_KEY, Value(table, GLOBAL_LIMIT_KEY));
    var now := WithNets(WithHosts(service, table, named), nets, parse, rest);
    forall h ensures h in now <==> Survives(table, nets, parse, h, h in was)
    {
      assert h == GLOBAL_LIMIT_KEY || h in named || h in rest || h !in was;
    }
    forall h | h in now ensures Resolve(table, nets, parse, h) == Some(now[h]) {
      assert h == GLOBAL_LIMIT_KEY || h in named || h in rest;
    }
  }

  /** The cached limiters of connections, in one direction. `rate` is what new connections get. */
  class ConnCache {
    var conns: map<string, Limiter>
    var rate: int

    /** They only exist while connections are limited, and never stop a transfer. */
    ghost predicate Valid()
      reads this, conns.Values
    {
      && (conns != map[] ==> rate > 0)
      && (forall c :: c in conns ==> conns[c].limit == conns[c].burst > 0)
    }

    constructor ()
      ensures Valid() && conns == map[] && rate == 0
    {
      conns, rate := map[], 0;
    }

    /** The connection's own limiter, made when it is first asked for. */
    method ConnLimiter(key: string) returns (lims: seq<Limiter>)
      requires Valid()
      modifies this`conns
      ensures Valid()
      ensures key in conns <==> key in old(conns) || rate > 0
      ensures lims == if key in conns then [conns[key]] else []
      ensures conns == if key in conns && key !in old(conns) then old(conns)[key := conns[key]] else old(conns)
      ensures key in conns && key !in old(conns) ==> fresh(conns[key])
      ensures Extends(old(conns), conns) && fresh(conns.Values - old(conns.Values))
    {
      lims := [];
      if key in conns {
        lims := [conns[key]];
      } else if rate > 0 {
        var lim := new Limiter(rate);
        lims := [lim];
        conns := conns[key := lim];
      }
    }

    /** Entries expire when their connections have not asked for a while. */
    method Expire(keys: set<string>)
      requires Valid()
      modifies this`conns
      ensures Valid() && conns == old(conns) - keys
    {
      conns := conns - keys;
    }

    /** New connections get the new rate, cached ones what `ConnRateAfter` says, and none are left
        when connections are no longer limited. */
    method Reload(newRate: int)
      requires Valid()
      modifies this, conns.Values
      ensures Valid() && rate == newRate
      ensures conns == if newRate <= 0 then map[] else old(conns)
      ensures forall c :: c in conns ==> conns[c].limit == ConnRateAfter(old(rate), newRate, old(conns[c].limit))
      ensures forall c :: c in conns ==>
                conns[c].limit == if old(rate) != newRate then old(rate) else old(conns[c].limit)
      ensures forall l: Limiter | old(allocated(l)) && old(l.burst) > 0 :: l.burst > 0
    {
      var was := rate;
      rate := newRate;
      if newRate <= 0 {
        conns := map[];
      } else if was != newRate {
        var todo := conns.Keys;
        while todo != {}
          invariant todo <= conns.Keys && conns == old(conns) && rate == newRate
          invariant forall c :: c in conns.Keys - todo ==> conns[c].limit == conns[c].burst == was
          invariant forall l: Limiter | old(allocated(l)) && old(l.burst) > 0 :: l.burst > 0
          decreases todo
        {
          var c :| c in todo;
          todo := todo - {c};
          conns[c].Set(was);
        }
      }
    }
  }

  /** A connection limited to 10 stays at 10 when the limit becomes 20. */
  method ReloadLeavesStale() returns (configured: int, applied: int)
    ensures configured == 20 && applied == 10
  {
    var c := new ConnCache();
    c.Reload(10);
    var lims := c.ConnLimiter("k");
    c.Reload(20);
    configured, applied := c.rate, lims[0].limit;
  }

  /** The table without the entries still to be looked at. */
  function Without(table: map<string, int>, todo: set<string>): map<string, int>
  {
    map k | k in table && k !in todo :: table[k]
  }

  lemma WithAll(table: map<string, int>)
    ensures Without(table, {}) == table
  {
  }

  lemma LessOne(start: set<string>, now: set<string>, rest: set<string>, named: set<string>, key: string)
    requires now - named == start - named && key !in named && rest == start - {GLOBAL_LIMIT_KEY} - named
    ensures key in now <==> key in start
    ensures (if key in now then rest - {key} else rest) == start - {GLOBAL_LIMIT_KEY} - (named + {key})
  {
    assert key in now - named <==> key in start - named;
  }

  lemma SameButOne(start: set<string>, before: set<string>, now: set<string>, named: set<string>, key: string)
    requires before - named == start - named && now + {key} == before + {key}
    ensures now - (named + {key}) == start - (named + {key})
  {
    forall h ensures h in now - (named + {key}) <==> h in start - (named + {key}) {
      assert h in now + {key} <==> h in before + {key};
      assert h in before - named <==> h in start - named;
    }
  }

  lemma MadeOrKept(was: map<string, Limiter>, now: map<string, Limiter>, made: set<Limiter>)
    requires KeptOrMade(was, now, made)
    ensures forall h :: h in now ==> if h in was then now[h] == was[h] else now[h] in made
  {
  }

  lemma MadeValues(was: map<string, Limiter>, now: map<string, Limiter>, made: set<Limiter>)
    requires KeptOrMade(was, now, made)
    ensures now.Values <= was.Values + made
  {
    forall l <- now.Values ensures l in was.Values + made {
      var h :| h in now && now[h] == l;
      assert h in was ==> was[h] in was.Values;
    }
  }

  lemma NoNets(table: map<string, int>, parse: Parsers)
    requires parse.Valid()
    ensures NetsOf(map[], Without(table, table.Keys - {GLOBAL_LIMIT_KEY, CONN_LIMIT_KEY}), parse)
  {
  }

  lemma NetsStep(nets: map<Bits, int>, table: map<string, int>, todo: set<string>, key: string, parse: Parsers)
    requires key in todo && key in table && NetsOf(nets, Without(table, todo), parse)
    ensures parse.cidr(key).None? ==> NetsOf(nets, Without(table, todo - {key}), parse)
    ensures parse.cidr(key).Some? ==>
            NetsOf(nets[parse.cidr(key).value := table[key]], Without(table, todo - {key}), parse)
  {
    var was, now := Without(table, todo), Without(table, todo - {key});
    assert now == was[key := table[key]];
    forall net | net in nets
      ensures exists k :: k in now && parse.cidr(k) == Some(net) && nets[net] == now[k]
    {
      var k :| k in was && parse.cidr(k) == Some(net) && nets[net] == was[k];
      assert k in now && now[k] == was[k];
    }
  }

  lemma ResolveByCase(values: map<string, int>, parse: Parsers)
    requires parse.Valid()
    ensures forall nets, h :: IsHostKey(values, parse, h) && values[h] > 0 ==>
            Resolve(values, nets, parse, h) == Some(values[h])
    ensures forall nets, h :: h != GLOBAL_LIMIT_KEY && !IsHostKey(values, parse, h) ==>
              Resolve(values, nets, parse, h) == NetRate(nets, parse, h)
    ensures forall nets :: Resolve(values, nets, parse, GLOBAL_LIMIT_KEY) ==
              if Value(values, GLOBAL_LIMIT_KEY) > 0 then Some(Value(values, GLOBAL_LIMIT_KEY)) else None
  {
  }

  lemma HostKeys(table: map<string, int>, parse: Parsers)
    requires parse.Valid()
    ensures forall h :: IsHostKey(table, parse, h) <==>
              h in table.Keys - {GLOBAL_LIMIT_KEY, CONN_LIMIT_KEY} && parse.cidr(h).None?
    ensures !IsHostKey(table, parse, GLOBAL_LIMIT_KEY)
  {
  }

  lemma NotCached(values: map<string, int>, nets: map<Bits, int>, parse: Parsers, host: string, cached: set<string>)
    requires parse.Valid() && host !in cached
    requires forall h :: IsHostKey(values, parse, h) && values[h] > 0 ==> h in cached
    requires Value(values, GLOBAL_LIMIT_KEY) > 0 ==> GLOBAL_LIMIT_KEY in cached
    ensures Resolve(values, nets, parse, host) == NetRate(nets, parse, host)
    ensures NetRate(nets, parse, host).Some? ==> host != GLOBAL_LIMIT_KEY
  {
  }

  // ---------------------------------------------------------------------------------------
  // The limiter
  // ---------------------------------------------------------------------------------------

  /** The traffic limiter in one direction: `Obtain` is `In` for what clients send and `Out` for what
      they receive, each on its own two caches. */
  class TrafficLimiter {
    const hosts: HostCache
    const conns: ConnCache

    ghost predicate Valid()
      reads hosts, conns, hosts.limits.Values, conns.conns.Values
    {
      hosts.Valid() && conns.Valid() && hosts.limits.Values !! conns.conns.Values
    }

    constructor (parse: Parsers)
      requires parse.Valid()
      ensures Valid() && hosts.parse == parse && hosts.values == map[]
    {
      hosts := new HostCache(parse);
      conns := new ConnCache();
    }

    method Obtain(key: string) returns (lim: Option<LimiterGroup>)
      requires Valid()
      modifies hosts`limits, conns`conns
      ensures Valid() && Answers(lim, hosts, conns, key, hosts.parse.host(key))
      ensures var service := if "$" in hosts.limits then [hosts.limits["$"]] else [];
              var own := if key in conns.conns then [conns.conns[key]] else [];
              var host := hosts.parse.host(key);
              var ls := service + own + if host in hosts.limits then [hosts.limits[host]] else [];
              (lim.None? <==> ls == []) && (lim.Some? ==> lim.value.limiters == ls)
      ensures forall h :: h in old(hosts.limits) ==> h in hosts.limits && hosts.limits[h] == old(hosts.limits)[h]
      ensures forall c :: c in old(conns.conns) ==> c in conns.conns && conns.conns[c] == old(conns.conns)[c]
      ensures key in conns.conns <==> key in old(conns.conns) || conns.rate > 0
      ensures Extends(old(hosts.limits), hosts.limits) && Extends(old(conns.conns), conns.conns)
      ensures fresh(hosts.limits.Values - old(hosts.limits.Values))
      ensures fresh(conns.conns.Values - old(conns.conns.Values))
    {
      hide HostCache.Valid, ConnCache.Valid, Resolve;
      var lims := Gather(key);
      lim := None;
      if |lims| > 0 {
        var g := new LimiterGroup(lims);
        lim := Some(g);
      }
    }

    method Gather(key: string) returns (lims: seq<Limiter>)
      requires Valid()
      modifies hosts`limits, conns`conns
      ensures Valid() && lims == Collected(hosts, conns, key, hosts.parse.host(key))
      ensures Present(hosts, hosts.parse.host(key))
      ensures key in conns.conns <==> key in old(conns.conns) || conns.rate > 0
      ensures Extends(old(hosts.limits), hosts.limits) && Extends(old(conns.conns), conns.conns)
      ensures fresh(hosts.limits.Values - old(hosts.limits.Values))
      ensures fresh(conns.conns.Values - old(conns.conns.Values))
    {
      hide Coherent, Resolve, Extends, HostCache.Uniform, HostCache.Rates, HostCache.Valid, ConnCache.Valid;
      var service := hosts.Service();
      var conn := conns.ConnLimiter(key);
      var own := hosts.HostLimiter(hosts.parse.host(key));
      lims := service + conn + own;
    }

    /** No limiter a connection is given can stop its transfers altogether. */
    lemma NoneStops(lim: LimiterGroup, key: string, host: string)
      requires Valid() && Answers(Some(lim), hosts, conns, key, host)
      ensures forall l <- lim.limiters :: l.burst > 0
    {
      hosts.CachedIsPositive();
    }

    /** Entries of connections expire. */
    method Expire(keys: set<string>)
      requires Valid()
      modifies conns`conns
      ensures Valid() && conns.conns == old(conns.conns) - keys
    {
      conns.Expire(keys);
    }

    /** Loads a table: the caches agree with it, whatever state they were in, and limiters that stay
        in force are the ones connections already hold. */
    method Reload(table: map<string, int>)
      requires Valid()
      modifies hosts, conns, hosts.limits.Values, conns.conns.Values
      ensures Valid() && hosts.values == table && conns.rate == Value(table, CONN_LIMIT_KEY)
      ensures hosts.SameObjects()
      ensures forall h :: h in hosts.limits && h in old(hosts.limits) ==> hosts.limits[h] == old(hosts.limits)[h]
      ensures forall h :: h in hosts.limits <==> Survives(table, hosts.nets, hosts.parse, h, h in old(hosts.limits))
      ensures conns.conns == if Value(table, CONN_LIMIT_KEY) <= 0 then map[] else old(conns.conns)
      ensures fresh(hosts.limits.Values - old(hosts.limits.Values))
      ensures forall l: Limiter | old(allocated(l)) && old(l.burst) > 0 :: l.burst > 0
    {
      hide Coherent, Resolve, HostCache.Uniform, HostCache.Rates, Value, Survives, ConnRateAfter;
      hosts.Reload(table);
      conns.Reload(Value(table, CONN_LIMIT_KEY));
    }
  }

  lemma SurvivesUnnamed(table: map<string, int>, parse: Parsers)
    ensures forall nets, h :: h !in table && Resolve(table, nets, parse, h).Some? ==>
              Survives(table, nets, parse, h, true)
  {
  }

  /** One line that gives a network a rate, and a connection from a host in it: it gets a limiter of
      just that rate, or none if the rate is not positive. */
  method NetworkRateOnObjects(t: TrafficLimiter, line: string, rate: int, ghost net: Bits, key: string, ghost ip: Bits)
    returns (lim: Option<LimiterGroup>)
    requires t.Valid() && line != "$" && line != "$$" && t.hosts.parse.cidr(line) == Some(net)
    requires var host := t.hosts.parse.host(key);
             host != "$" && host != line && t.hosts.parse.ip(host) == Some(ip) && net <= ip
    modifies t.hosts, t.conns, t.hosts.limits.Values, t.conns.conns.Values
    ensures t.Valid() && (lim.Some? <==> rate > 0)
    ensures rate > 0 ==> |lim.value.limiters| == 1 && lim.value.limiters[0].limit == lim.value.limiters[0].burst == rate
  {
    LoadOne(t, line, rate, net, t.hosts.parse.host(key), ip);
    hide HostCache.Valid, ConnCache.Valid, Answers, LeastSpecific, Resolve;
    lim := t.Obtain(key);
    t.hosts.CachedService();
    t.hosts.CachedRate(t.hosts.parse.host(key), line, net, ip);
  }

  method LoadOne(t: TrafficLimiter, line: string, rate: int, ghost net: Bits, ghost host: string, ghost ip: Bits)
    requires t.Valid() && line != "$" && line != "$$" && t.hosts.parse.cidr(line) == Some(net)
    requires host != "$" && host != line && t.hosts.parse.ip(host) == Some(ip) && net <= ip
    modifies t.hosts, t.conns, t.hosts.limits.Values, t.conns.conns.Values
    ensures t.Valid() && t.hosts.values == map[line := rate] && t.conns.rate == 0 && t.conns.conns == map[]
    ensures fresh(t.hosts.limits.Values - old(t.hosts.limits.Values))
    ensures LeastSpecific(t.hosts.values, t.hosts.parse, ip, line, net)
  {
    var table := map[line := rate];
    hide HostCache.Valid, ConnCache.Valid, Survives, HostCache.SameObjects;
    t.Reload(table);
  }

  /** The cached limiters a connection is subject to, in the order they are collected. */
  ghost function Collected(hosts: HostCache, conns: ConnCache, key: string, host: string): seq<Limiter>
    reads hosts, conns
  {
    (if GLOBAL_LIMIT_KEY in hosts.limits then [hosts.limits[GLOBAL_LIMIT_KEY]] else [])
    + (if key in conns.conns then [conns.conns[key]] else [])
    + (if host in hosts.limits then [hosts.limits[host]] else [])
  }

  /** A table of limiters that only grew. */
  ghost predicate Extends(was: map<string, Limiter>, now: map<string, Limiter>)
  {
    forall h :: h in was ==> h in now && now[h] == was[h]
  }

  ghost predicate Present(hosts: HostCache, host: string)
    reads hosts
  {
    && (host in hosts.limits <==> Resolve(hosts.values, hosts.nets, hosts.parse, host).Some?)
    && (GLOBAL_LIMIT_KEY in hosts.limits <==> Resolve(hosts.values, hosts.nets, hosts.parse, GLOBAL_LIMIT_KEY).Some?)
  }

  /** `lim` is what a connection is subject to: the service's limiter, its own and its host's. The
      service and the host have one exactly when the loaded table gives them a limit. */
  ghost predicate Answers(lim: Option<LimiterGroup>, hosts: HostCache, conns: ConnCache, key: string, host: string)
    reads hosts, conns
  {
    && Present(hosts, host)
    && (lim.None? <==> Collected(hosts, conns, key, host) == [])
    && (lim.Some? ==> lim.value.limiters == Collected(hosts, conns, key, host))
  }
}
