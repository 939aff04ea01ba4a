/** Names looked up by longest suffix: the domain matcher, the host table and the ingress rules walk
    a host name in three loops; all follow one rule. */
module SuffixLookup {
  import opened Options
  import opened Bytes

  /** Where the first dot is, or -1. */
  function IndexOfDot(s: string): (r: int)
    ensures -1 <= r < |s| && (r >= 0 ==> s[r] == '.')
    ensures forall i :: 0 <= i < (if r >= 0 then r else |s|) ==> s[i] != '.'
  {
    if s == "" then -1
    else if s[0] == '.' then 0
    else
      var r := IndexOfDot(s[1..]);
      if r < 0 then -1 else r + 1
  }

  /** The suffixes the loops look at, in their order. */
  function Suffixes(s: string): seq<string>
    decreases |s|
  {
    var index := IndexOfDot(s);
    if index > 0 then [s[index..]] + Suffixes(s[index + 1..]) else []
  }

  /** A dot with no empty label before it. */
  predicate Break(s: string, i: nat)
  {
    && i < |s| && s[i] == '.'
    && forall j :: 0 <= j <= i && s[j] == '.' ==> j > 0 && s[j - 1] != '.'
  }

  lemma BreakAfterFirst(s: string, i: nat)
    requires IndexOfDot(s) > 0
    ensures var index := IndexOfDot(s);
            Break(s, i) <==> i == index || (i > index && Break(s[index + 1..], i - index - 1))
  {
    var index := IndexOfDot(s);
    var t := s[index + 1..];
    if i > index && i < |s| {
      assert t[i - index - 1] == s[i];
      if Break(s, i) {
        forall j | 0 <= j <= i - index - 1 && t[j] == '.' ensures j > 0 && t[j - 1] != '.' {
          assert s[index + 1 + j] == '.';
        }
      }
      if Break(t, i - index - 1) {
        forall j | 0 <= j <= i && s[j] == '.' ensures j > 0 && s[j - 1] != '.' {
          if j > index {
            assert t[j - index - 1] == '.';
          }
        }
      }
    }
  }

  lemma BreakAtFirst(s: string)
    requires IndexOfDot(s) > 0
    ensures Break(s, IndexOfDot(s))
  {
    BreakAfterFirst(s, IndexOfDot(s));
  }

  lemma BreakOfTail(s: string, t: string, j: nat)
    requires IndexOfDot(s) > 0 && t == s[IndexOfDot(s) + 1..] && Break(t, j)
    ensures var i := IndexOfDot(s) + 1 + j; i < |s| && Break(s, i) && s[i..] == t[j..]
  {
    BreakAfterFirst(s, IndexOfDot(s) + 1 + j);
  }

  lemma SuffixesOf(s: string, x: string)
    requires x in Suffixes(s)
    ensures IndexOfDot(s) > 0 && (x == s[IndexOfDot(s)..] || x in Suffixes(s[IndexOfDot(s) + 1..]))
  {
  }

  lemma {:induction false} SuffixIsBreak(s: string, x: string) returns (i: nat)
    requires x in Suffixes(s)
    ensures i < |s| && Break(s, i) && x == s[i..]
    decreases |s|
  {
    SuffixesOf(s, x);
    hide Break, IndexOfDot, Suffixes;
    i := IndexOfDot(s);
    if x == s[i..] {
      BreakAtFirst(s);
    } else {
      var t := s[i + 1..];
      var j := SuffixIsBreak(t, x);
      BreakOfTail(s, t, j);
      i := i + 1 + j;
    }
  }

  lemma {:induction false} BreakIsSuffix(s: string, i: nat)
    requires Break(s, i)
    ensures s[i..] in Suffixes(s)
    decreases |s|
  {
    var index := IndexOfDot(s);
    BreakAfterFirst(s, i);
    if i != index {
      var t := s[index + 1..];
      BreakIsSuffix(t, i - index - 1);
      assert s[i..] == t[i - index - 1..];
    }
  }

  lemma {:induction false} SuffixesShrink(s: string)
    ensures forall a :: 0 <= a < |Suffixes(s)| ==> |s| > |Suffixes(s)[a]|
    ensures forall a, b :: 0 <= a < b < |Suffixes(s)| ==> |Suffixes(s)[a]| > |Suffixes(s)[b]|
    decreases |s|
  {
    if IndexOfDot(s) > 0 {
      SuffixesShrink(s[IndexOfDot(s) + 1..]);
    }
  }

  /** The names a host may be found under, in order. */
  function Names(host: string): seq<string>
  {
    [host, "." + host] + Suffixes(host)
  }

  /** The first name that is a key. */
  function FirstKey(keys: set<string>, names: seq<string>): (r: Option<string>)
    ensures r.Some? ==> r.value in keys && r.value in names
    ensures r.Some? <==> exists n <- names :: n in keys
  {
    if names == [] then None
    else if names[0] in keys then Some(names[0])
    else FirstKey(keys, names[1..])
  }

  lemma {:induction false} LongestFirst(keys: set<string>, names: seq<string>)
    requires forall a, b :: 0 <= a < b < |names| ==> |names[a]| > |names[b]|
    ensures FirstKey(keys, names).Some? ==> forall n <- names :: n in keys ==> |n| <= |FirstKey(keys, names).value|
  {
    if names != [] && names[0] !in keys {
      LongestFirst(keys, names[1..]);
    }
  }

  /** The rule: the host itself, then as a domain, then its longest suffix at a dot that is a key. */
  lemma FirstKeyIsLongest(keys: set<string>, host: string)
    ensures var r := FirstKey(keys, Names(host));
            && (r.Some? <==> host in keys || "." + host in keys || exists i: nat :: Break(host, i) && host[i..] in keys)
            && (host in keys ==> r == Some(host))
            && (host !in keys && "." + host in keys ==> r == Some("." + host))
            && (host !in keys && "." + host !in keys && r.Some? ==>
                  forall i: nat :: Break(host, i) && host[i..] in keys ==> |host[i..]| <= |r.value|)
  {
    FirstTwoNames(keys, host);
    SuffixesShrink(host);
    LongestFirst(keys, Suffixes(host));
    var r := FirstKey(keys, Suffixes(host));
    if r.Some? {
      var i := SuffixIsBreak(host, r.value);
    }
    forall i: nat | Break(host, i) ensures host[i..] in Suffixes(host) {
      BreakIsSuffix(host, i);
    }
  }

  /** One turn of the loops: the suffix at the first dot, unless the name starts with it. */
  lemma NextSuffix(keys: set<string>, s: string)
    ensures var index := IndexOfDot(s);
            FirstKey(keys, Suffixes(s)) == if index <= 0 then None
                                           else if s[index..] in keys then Some(s[index..])
                                           else FirstKey(keys, Suffixes(s[index + 1..]))
  {
    var index := IndexOfDot(s);
    if index > 0 {
      assert Suffixes(s)[1..] == Suffixes(s[index + 1..]);
    }
  }

  lemma FirstTwoNames(keys: set<string>, host: string)
    ensures FirstKey(keys, Names(host)) == if host in keys then Some(host)
                                           else if "." + host in keys then Some("." + host)
                                           else FirstKey(keys, Suffixes(host))
  {
    var names := Names(host);
    assert names[1..] == ["." + host] + Suffixes(host) && names[1..][1..] == Suffixes(host);
  }

  class DomainMatcher {
    var domains: set<string>

    constructor (domains: seq<string>)
      ensures this.domains == set d <- domains
    {
      this.domains := {};
      new;
      for i := 0 to |domains|
        invariant this.domains == set d <- domains[..i]
      {
        this.domains := this.domains + {domains[i]};
      }
    }

    method Match(domain: string) returns (hit: bool)
      ensures hit <==> FirstKey(domains, Names(domain)).Some?
    {
      hide FirstKey, Names, Suffixes, IndexOfDot;
      if |domains| == 0 {
        return false;
      }
      FirstTwoNames(domains, domain);
      if domain in domains || "." + domain in domains {
        return true;
      }
      var s := domain;
      while true
        invariant FirstKey(domains, Suffixes(s)) == FirstKey(domains, Names(domain))
        decreases |s|
      {
        NextSuffix(domains, s);
        var index := IndexOfDot(s);
        if index <= 0 {
          break;
        }
        if s[index..] in domains {
          return true;
        }
        s := s[index + 1..];
      }
      return false;
    }
  }

  predicate EndsWith(s: string, suffix: string)
  {
    |suffix| <= |s| && s[|s| - |suffix|..] == suffix
  }

  /** The pattern `.d` matches `.d` itself, `d`, and exactly those of its subdomains that have no
      empty label before it. */
  lemma DomainAndSubdomains(d: string, host: string)
    ensures FirstKey({"." + d}, Names(host)).Some? <==>
            host == "." + d || host == d || (EndsWith(host, "." + d) && Break(host, |host| - |d| - 1))
  {
    var p := "." + d;
    FirstKeyIsLongest({p}, host);
    hide FirstKey, Names;
    assert "." + host == p <==> host == d by {
      assert ("." + host)[1..] == host && p[1..] == d;
    }
    forall i: nat | i < |host| && host[i..] == p ensures i == |host| - |d| - 1 {
      assert |host[i..]| == |p|;
    }
  }

  /** An address in 4-byte form, in 16-byte form, or not IPv4. */
  datatype IP = V4(bits: nat) | Mapped(bits: nat) | V6(bits: nat)

  function To4(ip: IP): Option<IP>
  {
    match ip
    case V6(_) => None
    case _ => Some(V4(ip.bits))
  }

  predicate Equal(a: IP, b: IP)
  {
    a.V6? == b.V6? && a.bits == b.bits
  }

  datatype Mapping = Mapping(hostname: string, ip: IP)

  /** The host table: per name the addresses of its lines, each kept where it first occurs. */
  function Table(lines: seq<Mapping>): map<string, seq<IP>>
  {
    if lines == [] then map[]
    else
      var table, line := Table(lines[..|lines| - 1]), lines[|lines| - 1];
      var ips := Of(table, line.hostname);
      table[line.hostname := if exists ip <- ips :: Equal(line.ip, ip) then ips else ips + [line.ip]]
  }

  function Of(table: map<string, seq<IP>>, name: string): seq<IP>
  {
    if name in table then table[name] else []
  }

  /** The addresses of one name. */
  function AddressesOf(lines: seq<Mapping>, name: string): (r: seq<IP>)
    ensures forall a, b :: 0 <= a < b < |r| ==> !Equal(r[a], r[b])
  {
    if lines == [] then []
    else
      var front, last := lines[..|lines| - 1], lines[|lines| - 1];
      var ips := AddressesOf(front, name);
      assert forall a :: 0 <= a < |ips| ==> ips[a] in ips;
      if last.hostname != name || (exists ip <- ips :: Equal(last.ip, ip)) then ips else ips + [last.ip]
  }

  lemma {:induction false} AddressesAreSound(lines: seq<Mapping>, name: string, ip: IP)
    requires ip in AddressesOf(lines, name)
    ensures Mapping(name, ip) in lines
  {
    var front, last := lines[..|lines| - 1], lines[|lines| - 1];
    if ip in AddressesOf(front, name) {
      AddressesAreSound(front, name, ip);
    } else {
      assert last == Mapping(name, ip);
    }
  }

  lemma {:induction false} AddressesAreComplete(lines: seq<Mapping>, l: Mapping)
    requires l in lines
    ensures exists ip <- AddressesOf(lines, l.hostname) :: Equal(l.ip, ip)
  {
    var front, last := lines[..|lines| - 1], lines[|lines| - 1];
    var ips := AddressesOf(front, l.hostname);
    if l != last {
      AddressesAreComplete(front, l);
      var ip :| ip in ips && Equal(l.ip, ip);
      assert ip in AddressesOf(lines, l.hostname);
    } else if forall ip <- ips :: !Equal(last.ip, ip) {
      assert AddressesOf(lines, l.hostname) == ips + [last.ip];
      assert last.ip in AddressesOf(lines, l.hostname);
    }
  }

  lemma {:induction false} TableOfName(lines: seq<Mapping>, name: string)
    ensures Of(Table(lines), name) == AddressesOf(lines, name)
    ensures name in Table(lines) ==> Table(lines)[name] != []
  {
    if lines != [] {
      TableOfName(lines[..|lines| - 1], name);
    }
  }

  /** The table has an address for a name, in whichever form, exactly if a line has, and has none
      twice. Addresses differ if their bits do or only one of them is IPv6. */
  lemma TableHoldsTheLines(lines: seq<Mapping>, name: string, ip: IP)
    ensures (exists o <- Of(Table(lines), name) :: o.V6? == ip.V6? && o.bits == ip.bits) <==>
            (exists l <- lines :: l.hostname == name && l.ip.V6? == ip.V6? && l.ip.bits == ip.bits)
    ensures name in Table(lines) <==> exists l <- lines :: l.hostname == name
    ensures var ips := Of(Table(lines), name);
            forall a, b :: 0 <= a < b < |ips| ==> ips[a].V6? != ips[b].V6? || ips[a].bits != ips[b].bits
  {
    TableOfName(lines, name);
    var ips := AddressesOf(lines, name);
    assert forall a, b :: 0 <= a < b < |ips| ==> !Equal(ips[a], ips[b]);
    hide Table, AddressesOf;
    forall o <- ips ensures Mapping(name, o) in lines {
      AddressesAreSound(lines, name, o);
    }
    if l :| l in lines && l.hostname == name && l.ip.V6? == ip.V6? && l.ip.bits == ip.bits {
      AddressesAreComplete(lines, l);
      var o :| o in ips && Equal(l.ip, o);
      assert o in Of(Table(lines), name) && o.V6? == ip.V6? && o.bits == ip.bits;
    }
    NamesOfTable(lines, name);
  }

  lemma NamesOfTable(lines: seq<Mapping>, name: string)
    ensures name in Table(lines) <==> exists l <- lines :: l.hostname == name
  {
    TableOfName(lines, name);
    if name in Table(lines) {
      AddressesAreSound(lines, name, Table(lines)[name][0]);
    }
    hide Table, AddressesOf;
    forall l <- lines | l.hostname == name ensures name in Table(lines) {
      AddressesAreComplete(lines, l);
    }
  }

  /** Later lines come after earlier ones: the addresses of more lines begin with those of the first. */
  lemma {:induction false} AddressesGrow(lines: seq<Mapping>, more: seq<Mapping>, name: string)
    ensures Of(Table(lines), name) <= Of(Table(lines + more), name)
    decreases |more|
  {
    if more == [] {
      assert lines + more == lines;
    } else {
      var front := more[..|more| - 1];
      AddressesGrow(lines, front, name);
      TableOfName(lines + front, name);
      TableOfName(lines + more, name);
      assert (lines + more)[..|lines + more| - 1] == lines + front;
      var ips := AddressesOf(lines + front, name);
      assert ips <= AddressesOf(lines + more, name);
      hide Table, AddressesOf;
    }
  }

  datatype Network = AnyIP | IP4 | IP6

  /** What of the addresses fits the network; IPv4 addresses are handed out in 4-byte form. */
  function Family(network: Network, ips: seq<IP>): seq<IP>
  {
    if network == AnyIP then ips
    else if ips == [] then []
    else
      var front, last := Family(network, ips[..|ips| - 1]), ips[|ips| - 1];
      if network == IP4 && To4(last).Some? then front + [To4(last).value]
      else if network == IP6 && To4(last).None? then front + [last]
      else front
  }

  /** An address is handed out exactly if it is of the family: IPv4 addresses for `ip4`, in 4-byte form,
      the others for `ip6`. */
  lemma {:induction false} FamilyFits(ips: seq<IP>, ip: IP)
    ensures Family(AnyIP, ips) == ips
    ensures ip in Family(IP4, ips) <==> ip.V4? && exists o <- ips :: !o.V6? && o.bits == ip.bits
    ensures ip in Family(IP6, ips) <==> ip.V6? && ip in ips
  {
    if ips != [] {
      var n := |ips| - 1;
      FamilyFits(ips[..n], ip);
      assert forall o :: o in ips <==> o in ips[..n] || o == ips[n];
    }
  }

  /** In the order of the table. */
  lemma {:induction false} FamilyInOrder(network: Network, a: seq<IP>, b: seq<IP>)
    ensures Family(network, a + b) == Family(network, a) + Family(network, b)
    decreases |b|
  {
    if b == [] {
      assert a + b == a && Family(network, b) == [];
    } else {
      var front, last := b[..|b| - 1], [b[|b| - 1]];
      hide Family;
      FamilyInOrder(network, a, front);
      FamilyOfMore(network, b);
      FamilyOfMore(network, a + b);
      assert (a + b)[..|a + b| - 1] == a + front && [(a + b)[|a + b| - 1]] == last;
      Associative(Family(network, a), Family(network, front), Family(network, last));
    }
  }

  lemma FamilyOfMore(network: Network, ips: seq<IP>)
    requires ips != []
    ensures Family(network, ips) == Family(network, ips[..|ips| - 1]) + Family(network, [ips[|ips| - 1]])
  {
    var last := [ips[|ips| - 1]];
    assert last[..0] == [] && last[|last| - 1] == ips[|ips| - 1];
    assert network == AnyIP ==> ips == ips[..|ips| - 1] + last;
  }

  class HostMapper {
    var mappings: map<string, seq<IP>>

    constructor ()
      ensures mappings == map[]
    {
      mappings := map[];
    }

    method Reload(configured: seq<Mapping>, loaded: seq<Mapping>)
      modifies this
      ensures mappings == Table(configured + loaded) && forall name <- mappings :: mappings[name] != []
    {
      var table: map<string, seq<IP>> := map[];
      var lines := configured + loaded;
      for i := 0 to |lines|
        invariant table == Table(lines[..i])
        modifies {}
      {
        assert lines[..i + 1][..i] == lines[..i];
        table := WithLine(table, lines[i]);
      }
      assert lines[..|lines|] == lines;
      mappings := table;
      forall name <- mappings ensures mappings[name] != [] {
        TableOfName(lines, name);
      }
    }

    method WithLine(table: map<string, seq<IP>>, line: Mapping) returns (r: map<string, seq<IP>>)
      ensures r == table[line.hostname := if exists ip <- Of(table, line.hostname) :: Equal(line.ip, ip)
                                          then Of(table, line.hostname) else Of(table, line.hostname) + [line.ip]]
    {
      var ips := Of(table, line.hostname);
      var found := false;
      for i := 0 to |ips|
        invariant !found && forall ip <- ips[..i] :: !Equal(line.ip, ip)
      {
        if Equal(line.ip, ips[i]) {
          found := true;
          break;
        }
      }
      if !found {
        ips := ips + [line.ip];
      }
      r := table[line.hostname := ips];
    }

    /** `ok` is in the signature of the interface; nothing sets it. */
    method Lookup(network: Network, host: string) returns (ips: seq<IP>, ok: bool)
      requires forall name <- mappings :: mappings[name] != []
      ensures var name := FirstKey(mappings.Keys, Names(host));
              ips == if name.Some? then Family(network, mappings[name.value]) else []
      ensures !ok
    {
      hide FirstKey, Names, Suffixes, IndexOfDot;
      ok := false;
      FirstTwoNames(mappings.Keys, host);
      ips := Of(mappings, host);
      if ips == [] {
        ips := Of(mappings, "." + host);
      }
      if ips == [] {
        var s := host;
        while true
          invariant ips == [] && FirstKey(mappings.Keys, Suffixes(s)) == FirstKey(mappings.Keys, Names(host))
          decreases |s|
        {
          NextSuffix(mappings.Keys, s);
          var index := IndexOfDot(s);
          if index > 0 {
            ips := Of(mappings, s[index..]);
            s := s[index + 1..];
            if ips == [] {
              continue;
            }
          }
          break;
        }
      }
      if ips == [] {
        return;
      }
      ips := Filter(network, ips);
    }

    method Filter(network: Network, ips: seq<IP>) returns (v: seq<IP>)
      ensures v == Family(network, ips)
    {
      if network == AnyIP {
        return ips;
      }
      v := [];
      for i := 0 to |ips|
        invariant v == Family(network, ips[..i])
      {
        assert ips[..i + 1][..i] == ips[..i];
        if network == IP4 {
          if To4(ips[i]).Some? {
            v := v + [To4(ips[i]).value];
          }
        } else if To4(ips[i]).None? {
          v := v + [ips[i]];
        }
      }
      assert ips[..|ips|] == ips;
    }
  }

  /** Two different addresses of one name both come out, in the order of their lines; two forms of one
      address come out once. */
  method TwoAddresses(h: HostMapper, name: string, a: IP, b: IP) returns (ips: seq<IP>)
    modifies h
    ensures ips == if a.V6? != b.V6? || a.bits != b.bits then [a, b] else [a]
  {
    var lines := [Mapping(name, a), Mapping(name, b)];
    h.Reload(lines, []);
    assert lines + [] == lines;
    TwoLines(name, a, b);
    FirstTwoNames(h.mappings.Keys, name);
    var ok;
    ips, ok := h.Lookup(AnyIP, name);
  }

  lemma TwoLines(name: string, a: IP, b: IP)
    ensures var table := Table([Mapping(name, a), Mapping(name, b)]);
            name in table && table[name] == if a.V6? != b.V6? || a.bits != b.bits then [a, b] else [a]
  {
    var one, two := [Mapping(name, a)], [Mapping(name, a), Mapping(name, b)];
    assert one[..0] == [] && two[..1] == one;
    TableOfName(one, name);
    TableOfName(two, name);
    assert AddressesOf([], name) == [];
    assert AddressesOf(one, name) == [a];
    assert forall ip <- [a] :: ip == a;
    assert a in [a];
    NamesOfTable(two, name);
    assert two[0] in two;
  }

  datatype Rule = Rule(hostname: string, endpoint: string)

  predicate Usable(rule: Rule)
  {
    rule.hostname != "" && rule.endpoint != ""
  }

  /** `*.d` is kept as `.d`. */
  function Key(rule: Rule): string
    requires Usable(rule)
  {
    if rule.hostname[0] == '*' then rule.hostname[1..] else rule.hostname
  }

  function Rules(rules: seq<Rule>): map<string, string>
  {
    if rules == [] then map[]
    else
      var front, last := Rules(rules[..|rules| - 1]), rules[|rules| - 1];
      if Usable(last) then front[Key(last) := last.endpoint] else front
  }

  /** A later rule for a name replaces an earlier one; rules without a host name or endpoint are none. */
  lemma {:induction false} LastRuleWins(rules: seq<Rule>, name: string, endpoint: string)
    ensures (name in Rules(rules) && Rules(rules)[name] == endpoint) <==>
            exists i :: 0 <= i < |rules| && Decides(rules, i, name) && rules[i].endpoint == endpoint
    ensures forall n <- Rules(rules) :: Rules(rules)[n] != ""
  {
    if rules != [] {
      var n := |rules| - 1;
      LastRuleWins(rules[..n], name, endpoint);
      assert Decides(rules, n, name) <==> Usable(rules[n]) && Key(rules[n]) == name;
      forall i | 0 <= i < n
        ensures Decides(rules, i, name) <==>
                Decides(rules[..n], i, name) && !(Usable(rules[n]) && Key(rules[n]) == name)
      {
        DecidesAmongMore(rules, i, name);
      }
      hide Decides;
    }
  }

  lemma DecidesAmongMore(rules: seq<Rule>, i: int, name: string)
    requires 0 <= i < |rules| - 1
    ensures var n := |rules| - 1;
            Decides(rules, i, name) <==>
            Decides(rules[..n], i, name) && !(Usable(rules[n]) && Key(rules[n]) == name)
  {
    var front := rules[..|rules| - 1];
    assert forall j :: i <= j < |front| ==> front[j] == rules[j];
  }

  /** Rule `i` is the last one for the name. */
  predicate Decides(rules: seq<Rule>, i: int, name: string)
    requires 0 <= i < |rules|
  {
    && Usable(rules[i]) && Key(rules[i]) == name
    && forall j :: i < j < |rules| ==> !(Usable(rules[j]) && Key(rules[j]) == name)
  }

  class Ingress {
    var rules: map<string, string>   // to the endpoint of the rule

    constructor ()
      ensures rules == map[]
    {
      rules := map[];
    }

    method Reload(configured: seq<Rule>, loaded: seq<Rule>)
      modifies this
      ensures rules == Rules(configured + loaded) && forall name <- rules :: rules[name] != ""
    {
      var table: map<string, string> := map[];
      var all := configured + loaded;
      for i := 0 to |all|
        invariant table == Rules(all[..i])
        modifies {}
      {
        assert all[..i + 1][..i] == all[..i];
        var rule := all[i];
        if rule.hostname == "" || rule.endpoint == "" {
          continue;
        }
        var host := rule.hostname;
        if host[0] == '*' {
          host := host[1..];
        }
        table := table[host := rule.endpoint];
      }
      assert all[..|all|] == all;
      rules := table;
      LastRuleWins(all, "", "");
    }

    function Endpoint(host: string): string
      reads this
    {
      if host in rules then rules[host] else ""
    }

    /** `bare` is the host without its port, or empty if it has none. */
    method Get(address: string, bare: string) returns (ep: string)
      requires forall name <- rules :: rules[name] != ""
      ensures var name := FirstKey(rules.Keys, Names(if bare != "" then bare else address));
              ep == if address != "" && name.Some? then rules[name.value] else ""
    {
      if address == "" {
        return "";
      }
      var host := if bare != "" then bare else address;
      hide FirstKey, Names, Suffixes, IndexOfDot;
      FirstTwoNames(rules.Keys, host);
      ep := Endpoint(host);
      if ep == "" {
        ep := Endpoint("." + host);
      }
      if ep == "" {
        var s := host;
        while true
          invariant ep == "" && FirstKey(rules.Keys, Suffixes(s)) == FirstKey(rules.Keys, Names(host))
          decreases |s|
        {
          NextSuffix(rules.Keys, s);
          var index := IndexOfDot(s);
          if index > 0 {
            ep := Endpoint(s[index..]);
            s := s[index + 1..];
            if ep == "" {
              continue;
            }
          }
          break;
        }
      }
    }
  }

  /** A rule for `*.d` answers for `d` itself and for every subdomain with no empty label before `d`. */
  method StarRuleAnswers(ing: Ingress, d: string, endpoint: string, sub: string) returns (own: string, under: string)
    requires endpoint != "" && d != "" && sub != "" && Break(sub + "." + d, |sub|)
    modifies ing
    ensures own == endpoint && under == endpoint
  {
    var rules := [Rule("*." + d, endpoint)];
    ing.Reload(rules, []);
    OneStarRule(d, endpoint);
    assert rules + [] == rules;
    var host := sub + "." + d;
    assert host[|sub|..] == "." + d;
    DomainAndSubdomains(d, host);
    DomainAndSubdomains(d, d);
    own := ing.Get(d, "");
    under := ing.Get(host, "");
  }

  lemma OneStarRule(d: string, endpoint: string)
    requires endpoint != ""
    ensures Rules([Rule("*." + d, endpoint)]) == map["." + d := endpoint]
    ensures Rules([Rule("*." + d, endpoint)]).Keys == {"." + d}
  {
    var rules := [Rule("*." + d, endpoint)];
    assert rules[..|rules| - 1] == [] && Rules([]) == map[];
    assert ("*." + d)[1..] == "." + d;
  }

  /** What a rule is kept under. */
  lemma KeyMeans(rule: Rule)
    requires Usable(rule)
    ensures rule.hostname != "" && rule.endpoint != ""
    ensures rule.hostname[0] == '*' ==> rule.hostname == "*" + Key(rule)
    ensures rule.hostname[0] != '*' ==> Key(rule) == rule.hostname
  {
  }
}
