/** The connection limiter's objects: counters, groups of counters, and the limiter that resolves a
    client to its group. The methods here are what one thread sees; `ConnLimitRuns` interleaves them. */
module ConnLimiter {
  import opened Options
  import opened Ranger
  import opened ConnLimits

  class Limiter {
    const limit: int
    var current: int

    constructor (n: int)
      ensures limit == n && current == 0
    {
      limit, current := n, 0;
    }

    method Allow(n: int) returns (b: bool)
      modifies this
      ensures b <==> old(current) + n <= limit
      ensures current == if b || n <= 0 then old(current) + n else old(current)
    {
      current := current + n;
      if current > limit {
        if n > 0 {
          current := current - n;
        }
        return false;
      }
      return true;
    }
  }

  ghost predicate Distinct(ls: seq<Limiter>)
  {
    forall i, j :: 0 <= i < j < |ls| ==> ls[i] != ls[j]
  }

  /** The first member of the group that has no room for `n`, or the size of the group. */
  ghost function FirstOver(ls: seq<Limiter>, n: int): (k: nat)
    reads ls
    ensures k <= |ls|
    ensures forall i :: 0 <= i < k ==> ls[i].current + n <= ls[i].limit
    ensures k < |ls| ==> ls[k].current + n > ls[k].limit
  {
    if ls == [] || ls[0].current + n > ls[0].limit then 0 else 1 + FirstOver(ls[1..], n)
  }

  predicate SortedByLimit(ls: seq<Limiter>)
  {
    forall i, j :: 0 <= i < j < |ls| ==> ls[i].limit <= ls[j].limit
  }

  class LimiterGroup {
    const limiters: seq<Limiter>

    ghost predicate Valid()
    {
      Distinct(limiters) && SortedByLimit(limiters)
    }

    /** The group of these limiters, tightest first. */
    constructor (limiters: seq<Limiter>)
      requires Distinct(limiters)
      ensures Valid() && this.limiters == Sort(limiters)
    {
      SortSorts(limiters);
      SortDistinct(limiters);
      this.limiters := Sort(limiters);
    }

    /** All or nothing: `n` places are taken in every member or, when some member has no room, in
        none. Giving places back goes through the members in order and stops at the first that is
        over its limit even so. */
    method Allow(n: int) returns (b: bool)
      requires Valid()
      modifies limiters
      ensures b <==> limiters != [] && old(FirstOver(limiters, n)) == |limiters|
      ensures n > 0 ==> forall l <- limiters :: l.current == old(l.current) + (if b then n else 0)
      ensures n > 0 && b ==> forall l <- limiters :: l.current <= l.limit
      ensures n <= 0 ==> forall i :: 0 <= i < |limiters| ==>
        limiters[i].current == old(limiters[i].current) + (if i <= old(FirstOver(limiters, n)) then n else 0)
    {
      hide FirstOver, SortedByLimit;
      ghost var k := FirstOver(limiters, n);
      var i := 0;
      b := false;
      while i < |limiters|
        invariant 0 <= i <= k <= |limiters|
        invariant b <==> i > 0
        invariant forall j :: 0 <= j < i ==> limiters[j].current == old(limiters[j].current) + n
        invariant forall j :: i <= j < |limiters| ==> limiters[j].current == old(limiters[j].current)
      {
        b := limiters[i].Allow(n);
        if !b {
          break;
        }
        i := i + 1;
      }
      if !b && i > 0 && n > 0 {
        TakeBack(i, n);
      }
    }

    /** Takes `n` back from the first `count` members, all of which let it in. */
    method TakeBack(count: nat, n: int)
      requires Valid() && count <= |limiters| && n > 0
      modifies limiters
      ensures forall i :: 0 <= i < |limiters| ==>
        limiters[i].current == old(limiters[i].current) - (if i < count then n else 0)
    {
      for j := 0 to count
        invariant forall m :: 0 <= m < |limiters| ==>
          limiters[m].current == old(limiters[m].current) - (if m < j then n else 0)
      {
        var _ := limiters[j].Allow(-n);
      }
    }

    /** The tightest member's limit. */
    function Limit(): (limit: int)
      requires Valid()
      ensures limiters == [] ==> limit == 0
      ensures limiters != [] ==> (exists l <- limiters :: l.limit == limit) && forall l <- limiters :: limit <= l.limit
    {
      if |limiters| == 0 then 0 else limiters[0].limit
    }
  }

  // ---------------------------------------------------------------------------------------
  // Sorting
  // ---------------------------------------------------------------------------------------

  function Insert(l: Limiter, ls: seq<Limiter>): seq<Limiter>
  {
    if ls == [] || l.limit <= ls[0].limit then [l] + ls else [ls[0]] + Insert(l, ls[1..])
  }

  /** The limiters by increasing limit; equal ones keep their order. */
  function Sort(ls: seq<Limiter>): seq<Limiter>
  {
    if ls == [] then [] else Insert(ls[0], Sort(ls[1..]))
  }

  lemma {:induction false} InsertPermutes(l: Limiter, ls: seq<Limiter>)
    ensures multiset(Insert(l, ls)) == multiset{l} + multiset(ls)
  {
    if ls == [] || l.limit <= ls[0].limit {
    } else {
      InsertPermutes(l, ls[1..]);
      assert ls == [ls[0]] + ls[1..];
    }
  }

  lemma {:induction false} InsertSorted(l: Limiter, ls: seq<Limiter>)
    requires SortedByLimit(ls)
    ensures SortedByLimit(Insert(l, ls))
  {
    if ls != [] && l.limit > ls[0].limit {
      InsertSorted(l, ls[1..]);
      var r := Insert(l, ls[1..]);
      forall k | 0 <= k < |r| ensures ls[0].limit <= r[k].limit {
        InsertedElement(l, ls[1..], k);
        if r[k] != l {
          var j :| 0 <= j < |ls[1..]| && ls[1..][j] == r[k];
          assert ls[j + 1] == r[k];
        }
      }
    }
  }

  lemma {:induction false} InsertDistinct(l: Limiter, ls: seq<Limiter>)
    requires Distinct(ls) && l !in ls
    ensures Distinct(Insert(l, ls))
  {
    if ls != [] && l.limit > ls[0].limit {
      InsertDistinct(l, ls[1..]);
      var r := Insert(l, ls[1..]);
      forall k | 0 <= k < |r| ensures ls[0] != r[k] {
        InsertedElement(l, ls[1..], k);
      }
    }
  }

  lemma {:induction false} InsertedElement(l: Limiter, ls: seq<Limiter>, k: nat)
    requires k < |Insert(l, ls)|
    ensures Insert(l, ls)[k] == l || Insert(l, ls)[k] in ls
  {
    if ls != [] && l.limit > ls[0].limit {
      if k > 0 {
        InsertedElement(l, ls[1..], k - 1);
      }
    }
  }

  /** `Sort` is a sorted permutation. */
  lemma {:induction false} SortSorts(ls: seq<Limiter>)
    ensures SortedByLimit(Sort(ls)) && multiset(Sort(ls)) == multiset(ls)
  {
    if ls != [] {
      var rest := Sort(ls[1..]);
      SortSorts(ls[1..]);
      InsertSorted(ls[0], rest);
      InsertPermutes(ls[0], rest);
      assert ls == [ls[0]] + ls[1..];
    }
  }

  lemma {:induction false} SortDistinct(ls: seq<Limiter>)
    requires Distinct(ls)
    ensures Distinct(Sort(ls))
  {
    if ls != [] {
      SortSorts(ls[1..]);
      SortDistinct(ls[1..]);
      assert ls[0] !in multiset(ls[1..]);
      assert ls[0] !in multiset(Sort(ls[1..]));
      InsertDistinct(ls[0], Sort(ls[1..]));
    }
  }

  // ---------------------------------------------------------------------------------------
  // Resolution
  // ---------------------------------------------------------------------------------------

  /** A fresh counter for every client it is asked for, or one counter they share. */
  datatype Generator = PerKey(n: int) | Single(limiter: Option<Limiter>)

  method Generate(p: Generator) returns (l: Option<Limiter>)
    ensures p.Single? ==> l == p.limiter
    ensures p.PerKey? ==>
            (l.Some? <==> p.n > 0) && (l.Some? ==> fresh(l.value) && l.value.limit == p.n && l.value.current == 0)
  {
    match p
    case PerKey(n) =>
      if n <= 0 {
        return None;
      }
      var lim := new Limiter(n);
      return Some(lim);
    case Single(limiter) =>
      return limiter;
  }

  method NewSingle(n: int) returns (p: Generator)
    ensures p.Single? && (p.limiter.Some? <==> n > 0)
    ensures p.limiter.Some? ==> fresh(p.limiter.value) && p.limiter.value.limit == n && p.limiter.value.current == 0
  {
    if n > 0 {
      var lim := new Limiter(n);
      return Single(Some(lim));
    }
    return Single(None);
  }

  /** `cfg` is the loaded configuration; `issued` names the counter objects handed out for it. */
  class ConnLimiter {
    var ipLimits: map<string, Generator>
    var cidrLimits: map<Bits, Generator>
    var limits: map<string, Option<LimiterGroup>>
    const parse: Parsers
    ghost var cfg: Config
    ghost var issued: map<LimitId, Limiter>

    ghost predicate Valid()
      reads this
    {
      && parse.Valid()
      && Tables(cfg, parse, ipLimits, cidrLimits, issued)
      && Issued(cfg, parse, issued)
      && (forall key :: Host(key) in issued ==> key in limits || key in cfg.explicit)
      && (forall key :: key in limits ==> Resolved(cfg, parse, issued, key, limits[key]))
    }

    constructor (parse: Parsers)
      requires parse.Valid()
      ensures Valid() && this.parse == parse && cfg == NO_LIMITS && limits == map[]
    {
      this.parse := parse;
      ipLimits, cidrLimits, limits := map[], map[], map[];
      cfg, issued := NO_LIMITS, map[];
    }

    /** The counter a client has of its own: its address's shared one, or a new one from the first
        network that contains it or from the limit every client gets. */
    method HostCounter(key: string) returns (lims: seq<Limiter>)
      requires Valid() && key !in limits
      ensures var h := HostLimit(cfg, parse, key);
              && |lims| == (if h.Some? then 1 else 0)
              && (h.Some? ==> lims[0].limit == h.value)
              && (h.Some? ==> if Host(key) in issued then lims[0] == issued[Host(key)]
                              else fresh(lims[0]) && lims[0].current == 0)
    {
      lims := [];
      var ip := parse.ip(key);
      SameFirst(cidrLimits, cfg.nets, ip);
      if ip.Some? {
        var found := false;
        if key in ipLimits {
          var l := Generate(ipLimits[key]);
          if l.Some? {
            lims := lims + [l.value];
            found := true;
          }
        }
        if !found {
          var net := FirstContaining(cidrLimits, ip.value);
          if net.Some? {
            var l := Generate(cidrLimits[net.value]);
            if l.Some? {
              lims := lims + [l.value];
            }
          }
        }
      }
      if |lims| == 0 {
        if IP_LIMIT_KEY in ipLimits {
          var l := Generate(ipLimits[IP_LIMIT_KEY]);
          if l.Some? {
            lims := lims + [l.value];
          }
        }
      }
    }

    /** The group of counters for a client: the same one every time until the next reload. */
    method Limiter(key: string) returns (lim: Option<LimiterGroup>)
      requires Valid()
      modifies this
      ensures Valid() && cfg == old(cfg)
      ensures key in limits && limits == old(limits)[key := lim]
      ensures key in old(limits) ==> lim == old(limits)[key]
      ensures Extends(old(issued), issued)
      ensures forall id :: id in issued && id !in old(issued) ==> fresh(issued[id]) && issued[id].current == 0
    {
      hide Tables, Issued, Resolved, Collected, Sort, SortedByLimit;
      if key in limits {
        return limits[key];
      }
      var lims;
      ghost var known;
      lims, known := Collect(key);
      lim := None;
      if |lims| > 0 {
        var g := new LimiterGroup(lims);
        lim := Some(g);
      }
      GroupResolves(cfg, parse, known, key, lims, lim);
      limits := limits[key := lim];
      issued := known;
    }

    /** The counters of a client that has no group yet, and all counters with a new one for it. */
    method Collect(key: string) returns (lims: seq<Limiter>, ghost known: map<LimitId, Limiter>)
      requires Valid() && key !in limits
      ensures Distinct(lims) && Collected(cfg, parse, known, key, lims)
      ensures Tables(cfg, parse, ipLimits, cidrLimits, known) && Issued(cfg, parse, known)
      ensures forall k :: k in limits ==> Resolved(cfg, parse, known, k, limits[k])
      ensures Extends(issued, known) && known.Keys <= issued.Keys + {Host(key)}
      ensures forall id :: id in known && id !in issued ==> fresh(known[id]) && known[id].current == 0
    {
      hide Tables, Issued, Resolved, Members, HostLimit, Bound, Sort, SortedByLimit;
      lims := HostCounter(key);
      ghost var own := lims;
      known := if lims != [] then issued[Host(key) := lims[0]] else issued;
      IssueOne(cfg, parse, issued, key, lims);
      TablesExtend(cfg, parse, ipLimits, cidrLimits, issued, known);
      CacheExtends(cfg, parse, issued, known, limits);
      ServiceGenerator(cfg, parse, ipLimits, cidrLimits, known);
      if GLOBAL_LIMIT_KEY in ipLimits {
        var l := Generate(ipLimits[GLOBAL_LIMIT_KEY]);
        if l.Some? {
          lims := lims + [l.value];
        }
      }
      assert lims == own + if cfg.service.Some? then [known[Service]] else [];
      ResolvesTo(cfg, parse, known, key, own, lims);
    }

    /** Loads a configuration: new counters for everything, and no client resolved yet. */
    method Reload(lines: seq<(string, int)>)
      requires Valid()
      modifies this
      ensures Valid() && cfg == ConfigOf(parse, lines) && limits == map[]
      ensures forall id :: id in issued ==> fresh(issued[id]) && issued[id].current == 0
    {
      hide Tables, Issued, FromLines;
      var ipLimits': map<string, Generator>, cidrLimits': map<Bits, Generator> := map[], map[];
      ghost var c, known: map<LimitId, Limiter> := NO_LIMITS, map[];
      FromNothing(parse);
      for i := 0 to |lines|
        invariant c == ConfigOf(parse, lines[..i])
        invariant FromLines(c, parse, ipLimits', cidrLimits', known)
        invariant forall id :: id in known ==> fresh(known[id]) && known[id].current == 0
      {
        var (key, limit) := lines[i];
        assert lines[..i + 1][..i] == lines[..i];
        ghost var was := c;
        c := AddLine(c, parse, key, limit);
        if key == "" || limit <= 0 {
          continue;
        }
        if key == GLOBAL_LIMIT_KEY {
          var p := NewSingle(limit);
          AddService(was, parse, ipLimits', cidrLimits', known, limit, p);
          ipLimits', known := ipLimits'[key := p], known[Service := p.limiter.value];
        } else if key == IP_LIMIT_KEY {
          AddPerIP(was, parse, ipLimits', cidrLimits', known, limit);
          ipLimits' := ipLimits'[key := PerKey(limit)];
        } else if parse.ip(key).Some? {
          var p := NewSingle(limit);
          AddExplicit(was, parse, ipLimits', cidrLimits', known, key, limit, p);
          ipLimits', known := ipLimits'[key := p], known[Host(key) := p.limiter.value];
        } else {
          var net := parse.cidr(key);
          if net.Some? {
            AddNet(was, parse, ipLimits', cidrLimits', known, net.value, limit);
            cidrLimits' := cidrLimits'[net.value := PerKey(limit)];
          }
        }
      }
      assert lines[..|lines|] == lines;
      Loaded(c, parse, ipLimits', cidrLimits', known);
      ipLimits, cidrLimits, limits := ipLimits', cidrLimits', map[];
      cfg, issued := c, known;
    }
  }

  lemma ServiceGenerator(cfg: Config, parse: Parsers, ipLimits: map<string, Generator>,
                         cidrLimits: map<Bits, Generator>, issued: map<LimitId, Limiter>)
    requires Tables(cfg, parse, ipLimits, cidrLimits, issued)
    ensures GLOBAL_LIMIT_KEY in ipLimits <==> cfg.service.Some?
    ensures cfg.service.Some? ==> Service in issued && ipLimits[GLOBAL_LIMIT_KEY] == Single(Some(issued[Service]))
  {
  }

  ghost predicate Extends(issued: map<LimitId, Limiter>, known: map<LimitId, Limiter>)
  {
    forall id :: id in issued ==> id in known && known[id] == issued[id]
  }

  lemma TablesExtend(cfg: Config, parse: Parsers, ipLimits: map<string, Generator>, cidrLimits: map<Bits, Generator>,
                     issued: map<LimitId, Limiter>, known: map<LimitId, Limiter>)
    requires Tables(cfg, parse, ipLimits, cidrLimits, issued) && Extends(issued, known)
    ensures Tables(cfg, parse, ipLimits, cidrLimits, known)
  {
  }

  lemma CacheExtends(cfg: Config, parse: Parsers, issued: map<LimitId, Limiter>, known: map<LimitId, Limiter>,
                     limits: map<string, Option<LimiterGroup>>)
    requires Extends(issued, known)
    requires forall key :: key in limits ==> Resolved(cfg, parse, issued, key, limits[key])
    ensures forall key :: key in limits ==> Resolved(cfg, parse, known, key, limits[key])
  {
    forall key | key in limits ensures Resolved(cfg, parse, known, key, limits[key]) {
      assert Resolved(cfg, parse, issued, key, limits[key]);
    }
  }

  /** The counters a client's group is built from, in the order they are collected. */
  lemma ResolvesTo(cfg: Config, parse: Parsers, known: map<LimitId, Limiter>, key: string, own: seq<Limiter>,
                   lims: seq<Limiter>)
    requires Issued(cfg, parse, known) && (cfg.service.Some? ==> Service in known)
    requires HostLimit(cfg, parse, key).Some? ==> Host(key) in known && own == [known[Host(key)]]
    requires HostLimit(cfg, parse, key).None? ==> own == []
    requires lims == own + if cfg.service.Some? then [known[Service]] else []
    ensures Distinct(lims)
    ensures Collected(cfg, parse, known, key, lims)
  {
    SortUpToTwo(lims);
  }

  ghost predicate Collected(cfg: Config, parse: Parsers, known: map<LimitId, Limiter>, key: string, lims: seq<Limiter>)
  {
    var ids := Members(cfg, parse, key);
    && |lims| == |Sort(lims)| == |ids|
    && forall i :: 0 <= i < |ids| ==> ids[i] in known && Sort(lims)[i] == known[ids[i]]
  }

  lemma GroupResolves(cfg: Config, parse: Parsers, known: map<LimitId, Limiter>, key: string, lims: seq<Limiter>,
                      lim: Option<LimiterGroup>)
    requires Collected(cfg, parse, known, key, lims)
    requires lim.None? <==> lims == []
    requires lim.Some? ==> lim.value.Valid() && lim.value.limiters == Sort(lims)
    ensures Resolved(cfg, parse, known, key, lim)
  {
  }

  /** The tables built so far hold what the lines so far say, and only the counters that clients
      share exist. */
  ghost predicate FromLines(cfg: Config, parse: Parsers, ipLimits: map<string, Generator>,
                            cidrLimits: map<Bits, Generator>, known: map<LimitId, Limiter>)
  {
    && Tables(cfg, parse, ipLimits, cidrLimits, known)
    && Issued(cfg, parse, known)
    && (forall id :: id in known ==> (id.Service? && cfg.service.Some?) || (id.Host? && id.key in cfg.explicit))
  }

  lemma FromNothing(parse: Parsers)
    ensures FromLines(NO_LIMITS, parse, map[], map[], map[])
  {
  }

  lemma Loaded(cfg: Config, parse: Parsers, ipLimits: map<string, Generator>, cidrLimits: map<Bits, Generator>,
               known: map<LimitId, Limiter>)
    requires FromLines(cfg, parse, ipLimits, cidrLimits, known)
    ensures Tables(cfg, parse, ipLimits, cidrLimits, known) && Issued(cfg, parse, known)
    ensures forall key :: Host(key) in known ==> key in cfg.explicit
  {
  }

  ghost predicate NewCounter(p: Generator, limit: nat, known: map<LimitId, Limiter>)
  {
    p.Single? && p.limiter.Some? && p.limiter.value.limit == limit && p.limiter.value !in known.Values
  }

  lemma IssuedWith(cfg: Config, cfg': Config, parse: Parsers, known: map<LimitId, Limiter>, id: LimitId, l: Limiter)
    requires Issued(cfg, parse, known) && l !in known.Values && l.limit == Bound(cfg', parse, id)
    requires forall other :: other in known.Keys - {id} ==> Bound(cfg', parse, other) == Bound(cfg, parse, other)
    ensures Issued(cfg', parse, known[id := l])
  {
    var all := known[id := l];
    forall a, b | a in all && b in all && a != b ensures all[a] != all[b] {
      assert a in known ==> known[a] in known.Values;
      assert b in known ==> known[b] in known.Values;
    }
  }

  lemma AddService(cfg: Config, parse: Parsers, ipLimits: map<string, Generator>, cidrLimits: map<Bits, Generator>,
                   known: map<LimitId, Limiter>, limit: nat, p: Generator)
    requires parse.Valid() && FromLines(cfg, parse, ipLimits, cidrLimits, known) && limit > 0 &&
             NewCounter(p, limit, known)
    ensures FromLines(cfg.(service := Some(limit)), parse, ipLimits[GLOBAL_LIMIT_KEY := p], cidrLimits,
                      known[Service := p.limiter.value])
  {
    IssuedWith(cfg, cfg.(service := Some(limit)), parse, known, Service, p.limiter.value);
  }

  lemma AddPerIP(cfg: Config, parse: Parsers, ipLimits: map<string, Generator>, cidrLimits: map<Bits, Generator>,
                 known: map<LimitId, Limiter>, limit: nat)
    requires parse.Valid() && FromLines(cfg, parse, ipLimits, cidrLimits, known) && limit > 0
    ensures FromLines(cfg.(perIP := Some(limit)), parse, ipLimits[IP_LIMIT_KEY := PerKey(limit)], cidrLimits, known)
  {
  }

  lemma AddExplicit(cfg: Config, parse: Parsers, ipLimits: map<string, Generator>, cidrLimits: map<Bits, Generator>,
                    known: map<LimitId, Limiter>, key: string, limit: nat, p: Generator)
    requires parse.Valid() && FromLines(cfg, parse, ipLimits, cidrLimits, known) && limit > 0 &&
             NewCounter(p, limit, known)
    requires parse.ip(key).Some?
    ensures FromLines(cfg.(explicit := cfg.explicit[key := limit]), parse, ipLimits[key := p], cidrLimits,
                      known[Host(key) := p.limiter.value])
  {
    IssuedWith(cfg, cfg.(explicit := cfg.explicit[key := limit]), parse, known, Host(key), p.limiter.value);
    ExplicitTable(cfg, parse, ipLimits, cidrLimits, known, key, limit, p);
    hide Tables, Issued;
  }

  lemma ExplicitTable(cfg: Config, parse: Parsers, ipLimits: map<string, Generator>, cidrLimits: map<Bits, Generator>,
                      known: map<LimitId, Limiter>, key: string, limit: nat, p: Generator)
    requires parse.Valid() && Tables(cfg, parse, ipLimits, cidrLimits, known) && limit > 0 &&
             NewCounter(p, limit, known)
    requires parse.ip(key).Some?
    ensures Tables(cfg.(explicit := cfg.explicit[key := limit]), parse, ipLimits[key := p], cidrLimits,
                   known[Host(key) := p.limiter.value])
  {
  }

  lemma AddNet(cfg: Config, parse: Parsers, ipLimits: map<string, Generator>, cidrLimits: map<Bits, Generator>,
               known: map<LimitId, Limiter>, net: Bits, limit: nat)
    requires parse.Valid() && FromLines(cfg, parse, ipLimits, cidrLimits, known) && limit > 0
    ensures FromLines(cfg.(nets := cfg.nets[net := limit]), parse, ipLimits, cidrLimits[net := PerKey(limit)], known)
  {
  }

  lemma IssueOne(cfg: Config, parse: Parsers, issued: map<LimitId, Limiter>, key: string, lims: seq<Limiter>)
    requires Issued(cfg, parse, issued) && |lims| <= 1
    requires lims != [] ==> HostLimit(cfg, parse, key).Some? && lims[0].limit == HostLimit(cfg, parse, key).value
    requires lims != [] ==> if Host(key) in issued then lims[0] == issued[Host(key)] else lims[0] !in issued.Values
    ensures Issued(cfg, parse, if lims != [] then issued[Host(key) := lims[0]] else issued)
  {
    if lims != [] {
      var known := issued[Host(key) := lims[0]];
      forall a, b | a in known && b in known && a != b ensures known[a] != known[b] {
        assert a in issued ==> issued[a] in issued.Values;
        assert b in issued ==> issued[b] in issued.Values;
      }
    }
  }

  lemma SortUpToTwo(ls: seq<Limiter>)
    requires |ls| <= 2
    ensures |ls| <= 1 ==> Sort(ls) == ls
    ensures |ls| == 2 ==> Sort(ls) == if ls[0].limit <= ls[1].limit then ls else [ls[1], ls[0]]
  {
    if |ls| > 0 {
      assert ls == [ls[0]] + ls[1..];
      if |ls| == 2 {
        assert ls[1..] == [ls[1]];
        assert Sort([ls[1]]) == Insert(ls[1], []) == [ls[1]];
        assert Insert(ls[0], [ls[1]]) == if ls[0].limit <= ls[1].limit then [ls[0]] + [ls[1]]
                                         else [ls[1]] + Insert(ls[0], []);
      } else {
        assert ls == [ls[0]];
      }
    }
  }

  /** The generators are the configuration's, and the shared counters are the issued ones. */
  ghost predicate Tables(cfg: Config, parse: Parsers, ipLimits: map<string, Generator>,
                         cidrLimits: map<Bits, Generator>, issued: map<LimitId, Limiter>)
  {
    && (IP_LIMIT_KEY in ipLimits <==> cfg.perIP.Some?)
    && (cfg.perIP.Some? ==> cfg.perIP.value > 0 && ipLimits[IP_LIMIT_KEY] == PerKey(cfg.perIP.value))
    && (GLOBAL_LIMIT_KEY in ipLimits <==> cfg.service.Some?)
    && (cfg.service.Some? ==>
        cfg.service.value > 0 && Service in issued && ipLimits[GLOBAL_LIMIT_KEY] == Single(Some(issued[Service])))
    && (forall key :: key in cfg.explicit ==> parse.ip(key).Some?)
    && (forall key :: parse.ip(key).Some? ==> (key in ipLimits <==> key in cfg.explicit))
    && (forall key :: key in cfg.explicit ==>
        cfg.explicit[key] > 0 && Host(key) in issued && ipLimits[key] == Single(Some(issued[Host(key)])))
    && cidrLimits.Keys == cfg.nets.Keys
    && (forall net :: net in cfg.nets ==> cfg.nets[net] > 0 && cidrLimits[net] == PerKey(cfg.nets[net]))
  }

  /** Different names have different counters, each with the configured bound. */
  ghost predicate Issued(cfg: Config, parse: Parsers, issued: map<LimitId, Limiter>)
  {
    && (forall a, b :: a in issued && b in issued && a != b ==> issued[a] != issued[b])
    && (forall id :: id in issued ==> issued[id].limit == Bound(cfg, parse, id))
  }

  /** The cached answer for a client is the group of the counters the configuration gives it. */
  ghost predicate Resolved(cfg: Config, parse: Parsers, issued: map<LimitId, Limiter>, key: string,
                           lim: Option<LimiterGroup>)
  {
    var ids := Members(cfg, parse, key);
    && (lim.None? <==> ids == [])
    && (lim.Some? ==>
          && lim.value.Valid()
          && |lim.value.limiters| == |ids|
          && forall i :: 0 <= i < |ids| ==> ids[i] in issued && lim.value.limiters[i] == issued[ids[i]])
  }

  lemma SameFirst<A, B>(a: map<Bits, A>, b: map<Bits, B>, ip: Option<Bits>)
    requires a.Keys == b.Keys
    ensures ip.Some? ==> FirstContaining(a, ip.value) == FirstContaining(b, ip.value)
  {
    if ip.Some? {
      var x, y := FirstContaining(a, ip.value), FirstContaining(b, ip.value);
      if x.Some? || y.Some? {
        assert x.Some? ==> x.value in b && x.value == ip.value[..|x.value|];
        assert y.Some? ==> y.value in a && y.value == ip.value[..|y.value|];
      }
    }
  }

  // ---------------------------------------------------------------------------------------
  // Connections
  // ---------------------------------------------------------------------------------------

  class Conn {
    var closed: bool

    constructor ()
      ensures !closed
    {
      closed := false;
    }
  }

  /** A connection that holds a place in each counter of its group. */
  class ServerConn {
    const conn: Conn
    const limiter: LimiterGroup

    constructor (limiter: LimiterGroup, conn: Conn)
      ensures this.limiter == limiter && this.conn == conn
    {
      this.limiter, this.conn := limiter, conn;
    }

    /** Gives a place back in every counter up to the first that is above its limit even so: in every
        counter of the group, provided none is above its limit. */
    method Close()
      requires limiter.Valid()
      modifies conn, limiter.limiters
      ensures conn.closed
      ensures var ls := limiter.limiters;
              forall i :: 0 <= i < |ls| ==>
                ls[i].current == old(ls[i].current) - (if i <= old(FirstOver(ls, -1)) then 1 else 0)
      ensures old(forall l <- limiter.limiters :: l.current <= l.limit) ==>
              && old(FirstOver(limiter.limiters, -1)) == |limiter.limiters|
              && forall l <- limiter.limiters :: l.current == old(l.current) - 1
    {
      ghost var ls := limiter.limiters;
      var _ := limiter.Allow(-1);
      conn.closed := true;
    }
  }

  /** A resolved group is the issued counters of its client, and has room exactly if each of them has. */
  lemma GroupIsMembers(cfg: Config, parse: Parsers, issued: map<LimitId, Limiter>, host: string, g: LimiterGroup)
    requires Issued(cfg, parse, issued) && Resolved(cfg, parse, issued, host, Some(g))
    ensures g.Valid() && g.limiters != [] && forall l <- g.limiters :: l in issued.Values
    ensures forall id :: id in issued ==> (issued[id] in g.limiters <==> id in Members(cfg, parse, host))
    ensures FirstOver(g.limiters, 1) == |g.limiters| <==>
            forall id <- Members(cfg, parse, host) :: Current(issued, id) < Bound(cfg, parse, id)
  {
    var ids, k := Members(cfg, parse, host), FirstOver(g.limiters, 1);
    hide Members, HostLimit, Bound, FirstOver;
    if k < |ids| {
      assert ids[k] in ids;
    } else {
      forall id <- ids ensures Current(issued, id) < Bound(cfg, parse, id) {
        var i :| 0 <= i < |ids| && ids[i] == id;
      }
    }
  }

  function Current(issued: map<LimitId, Limiter>, id: LimitId): int
    reads issued.Values
  {
    if id in issued then issued[id].current else 0
  }

  /** A new connection from `host`: wrapped when its group lets it in, closed when the group does
      not, and passed on as it is when `host` has no limit. */
  method Accept(limiter: ConnLimiter, host: string, c: Conn) returns (r: Option<ServerConn>)
    requires limiter.Valid() && !c.closed
    modifies limiter, c, limiter.issued.Values
    ensures limiter.Valid() && limiter.cfg == old(limiter.cfg) && host in limiter.limits
    ensures Resolved(limiter.cfg, limiter.parse, limiter.issued, host, limiter.limits[host])
    ensures r.Some? ==> fresh(r.value) && !c.closed && r.value.conn == c
    ensures r.Some? ==> limiter.limits[host] == Some(r.value.limiter)
    ensures r.Some? ==> forall l <- r.value.limiter.limiters :: l in limiter.issued.Values
    ensures r.Some? ==> forall l <- r.value.limiter.limiters :: l.current <= l.limit
    ensures r.None? ==> (c.closed <==> limiter.limits[host].Some?)
    ensures Extends(old(limiter.issued), limiter.issued)
    ensures fresh(limiter.issued.Values - old(limiter.issued.Values))
    ensures forall id :: id in limiter.issued ==>
      limiter.issued[id].current == old(Current(limiter.issued, id)) +
                                    (if r.Some? && id in Members(limiter.cfg, limiter.parse, host) then 1 else 0)
    ensures var ids := Members(limiter.cfg, limiter.parse, host);
            r.Some? <==> (ids != [] && forall id <- ids ::
              old(Current(limiter.issued, id)) < Bound(limiter.cfg, limiter.parse, id))
  {
    hide Tables, Members, HostLimit, Bound, Resolved, Issued;
    var lim := limiter.Limiter(host);
    NewAreFresh(limiter.issued, old(limiter.issued));
    assert fresh(limiter.issued.Values - old(limiter.issued.Values));
    NoneForNoMembers(limiter.cfg, limiter.parse, limiter.issued, host, lim);
    if lim == None {
      return None;
    }
    r := Admit(limiter.cfg, limiter.parse, limiter.issued, host, lim.value, c);
  }

  lemma NoneForNoMembers(cfg: Config, parse: Parsers, issued: map<LimitId, Limiter>, host: string,
                         lim: Option<LimiterGroup>)
    requires Resolved(cfg, parse, issued, host, lim)
    ensures lim.None? <==> Members(cfg, parse, host) == []
    ensures lim.Some? ==> forall l <- lim.value.limiters :: l in issued.Values
    ensures forall id <- Members(cfg, parse, host) :: id in issued
  {
    hide Members;
    var ids := Members(cfg, parse, host);
    forall id <- ids ensures id in issued {
      var i :| 0 <= i < |ids| && ids[i] == id;
    }
  }

  /** A connection of `host`, whose group is `g`, is let in or closed. */
  method Admit(ghost cfg: Config, ghost parse: Parsers, ghost issued: map<LimitId, Limiter>, ghost host: string,
               g: LimiterGroup, c: Conn)
    returns (r: Option<ServerConn>)
    requires Issued(cfg, parse, issued) && Resolved(cfg, parse, issued, host, Some(g)) && !c.closed
    modifies g.limiters, c
    ensures r.Some? ==> fresh(r.value) && r.value.conn == c && r.value.limiter == g
    ensures r.Some? ==> forall l <- g.limiters :: l.current <= l.limit
    ensures c.closed == r.None?
    ensures r.Some? <==> forall id <- Members(cfg, parse, host) :: old(Current(issued, id)) < Bound(cfg, parse, id)
    ensures forall id :: id in issued ==>
      issued[id].current == old(issued[id].current) + if r.Some? && id in Members(cfg, parse, host) then 1 else 0
  {
    GroupIsMembers(cfg, parse, issued, host, g);
    hide Members, HostLimit, Bound, FirstOver, SortedByLimit, Resolved, Issued;
    var b := g.Allow(1);
    if b {
      var s := new ServerConn(g, c);
      return Some(s);
    }
    c.closed := true;
    return None;
  }

  lemma NewAreFresh(issued: map<LimitId, Limiter>, was: map<LimitId, Limiter>)
    requires Extends(was, issued)
    ensures forall l <- issued.Values - was.Values :: exists id :: id in issued && id !in was && issued[id] == l
  {
    forall l <- issued.Values - was.Values ensures exists id :: id in issued && id !in was && issued[id] == l {
      var id :| id in issued && issued[id] == l;
      OwnValue(was, id);
    }
  }

  lemma OwnValue(was: map<LimitId, Limiter>, id: LimitId)
    ensures id in was ==> was[id] in was.Values
  {
  }

  /** A connection that is accepted and closed again leaves every counter as it was. */
  method AcceptThenClose(limiter: ConnLimiter, host: string, c: Conn)
    requires limiter.Valid() && !c.closed
    modifies limiter, c, limiter.issued.Values
    ensures limiter.Valid() && limiter.cfg == old(limiter.cfg) && Extends(old(limiter.issued), limiter.issued)
    ensures forall id :: id in limiter.issued ==> limiter.issued[id].current == old(Current(limiter.issued, id))
  {
    hide Tables, Members, HostLimit, Bound, Resolved, Issued;
    var r := Accept(limiter, host, c);
    if r.Some? {
      Release(limiter.cfg, limiter.parse, limiter.issued, host, r.value);
    }
  }

  /** Closes a connection of `host` none of whose counters is over its limit. */
  method Release(ghost cfg: Config, ghost parse: Parsers, ghost issued: map<LimitId, Limiter>, ghost host: string,
                 s: ServerConn)
    requires Issued(cfg, parse, issued) && Resolved(cfg, parse, issued, host, Some(s.limiter))
    requires forall l <- s.limiter.limiters :: l.current <= l.limit
    modifies s.conn, s.limiter.limiters
    ensures forall id :: id in issued ==>
      issued[id].current == old(issued[id].current) - if id in Members(cfg, parse, host) then 1 else 0
  {
    GroupIsMembers(cfg, parse, issued, host, s.limiter);
    hide Members, HostLimit, Bound, FirstOver, SortedByLimit, Resolved, Issued;
    s.Close();
  }

  /** One line that limits a network, and `k` connections from a host in it: exactly the first `n` are
      let in. */
  method NetworkLimitOnObjects(limiter: ConnLimiter, line: string, n: nat, ghost net: Bits, host: string,
                               ghost ip: Bits, k: nat)
    returns (letIn: seq<bool>)
    requires limiter.Valid() && n > 0 && line != "" && line != "$" && line != "$$"
    requires limiter.parse.ip(line) == None && limiter.parse.cidr(line) == Some(net)
    requires limiter.parse.ip(host) == Some(ip) && net <= ip
    modifies limiter
    ensures |letIn| == k && forall i :: 0 <= i < k ==> (letIn[i] <==> i < n)
  {
    limiter.Reload([(line, n)]);
    OneNetworkLine(limiter.parse, line, n, net, host, ip);
    NoneIsOld(limiter.issued);
    assert Current(limiter.issued, Host(host)) == 0;
    assert fresh(limiter.issued.Values);
    hide ConfigOf, Members, Bound, HostLimit, ConnLimiter.Valid;
    letIn := AcceptAll(limiter, host, n, k);
  }

  /** The host has its own counter and no other, of limit `n`. */
  ghost predicate OneCounter(limiter: ConnLimiter, host: string, n: nat)
    reads limiter
  {
    && limiter.Valid()
    && Members(limiter.cfg, limiter.parse, host) == [Host(host)]
    && Bound(limiter.cfg, limiter.parse, Host(host)) == n
  }

  method AcceptAll(limiter: ConnLimiter, host: string, n: nat, k: nat) returns (letIn: seq<bool>)
    requires OneCounter(limiter, host, n) && Current(limiter.issued, Host(host)) == 0
    modifies limiter, limiter.issued.Values
    ensures |letIn| == k && forall i :: 0 <= i < k ==> (letIn[i] <==> i < n)
  {
    hide OneCounter, Current;
    letIn := [];
    for i := 0 to k
      invariant OneCounter(limiter, host, n) && |letIn| == i
      invariant fresh(limiter.issued.Values - old(limiter.issued.Values))
      invariant Current(limiter.issued, Host(host)) == if i < n then i else n
      invariant forall j :: 0 <= j < i ==> (letIn[j] <==> j < n)
    {
      var ok := AcceptOne(limiter, host, n);
      letIn := letIn + [ok];
    }
  }

  /** A new connection from such a host. */
  method AcceptOne(limiter: ConnLimiter, host: string, n: nat) returns (letIn: bool)
    requires OneCounter(limiter, host, n)
    modifies limiter, limiter.issued.Values
    ensures OneCounter(limiter, host, n)
    ensures fresh(limiter.issued.Values - old(limiter.issued.Values))
    ensures letIn <==> old(Current(limiter.issued, Host(host))) < n
    ensures Current(limiter.issued, Host(host)) == old(Current(limiter.issued, Host(host))) + if letIn then 1 else 0
  {
    hide Members, Bound, HostLimit, ConnLimiter.Valid;
    var c := new Conn();
    var r := Accept(limiter, host, c);
    assert Host(host) in [Host(host)];
    letIn := r.Some?;
  }

  lemma NoneIsOld(issued: map<LimitId, Limiter>)
    ensures forall l <- issued.Values :: exists id :: id in issued && issued[id] == l
  {
  }

  lemma OneNetworkLine(parse: Parsers, line: string, n: nat, net: Bits, host: string, ip: Bits)
    requires parse.Valid() && n > 0 && line != "" && line != "$" && line != "$$"
    requires parse.ip(line) == None && parse.cidr(line) == Some(net)
    requires parse.ip(host) == Some(ip) && net <= ip
    ensures var cfg := ConfigOf(parse, [(line, n)]);
            Members(cfg, parse, host) == [Host(host)] && Bound(cfg, parse, Host(host)) == n
  {
    var lines := [(line, n)];
    assert lines[..|lines| - 1] == [] && lines[|lines| - 1] == (line, n as int);
    assert ConfigOf(parse, []) == NO_LIMITS;
    var cfg := ConfigOf(parse, lines);
    assert cfg == NO_LIMITS.(nets := map[][net := n]);
    OwnLimit(cfg, parse, host, ip, net);
  }
}
