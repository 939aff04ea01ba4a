/** The connection limiter's configuration: which limits apply to a client, and with what bound. */
module ConnLimits {
  import opened Options
  import opened Ranger

  const GLOBAL_LIMIT_KEY: string := "$"
  const IP_LIMIT_KEY: string := "$$"

  /** A parsed configuration: limits of single addresses, of networks, the limit every other client
      gets of its own, and the limit all connections share. All limits are positive. */
  datatype Config = Config(explicit: map<string, nat>, nets: map<Bits, nat>, perIP: Option<nat>, service: Option<nat>)

  /** The counters of a configuration: one a client host, one for the service. */
  datatype LimitId = Host(key: string) | Service

  /** How the text of an address and of a network reads. */
  datatype Parsers = Parsers(ip: string -> Option<Bits>, cidr: string -> Option<Bits>)
  {
    /** The two special keys are neither addresses nor networks. */
    predicate Valid()
    {
      ip(GLOBAL_LIMIT_KEY).None? && ip(IP_LIMIT_KEY).None?
    }
  }

  /** The limit a host counts against on its own: its address's, else its first network's, else the
      one every client gets. */
  function HostLimit(cfg: Config, parse: Parsers, key: string): Option<nat>
  {
    match parse.ip(key)
    case None => cfg.perIP
    case Some(ip) =>
      if key in cfg.explicit then Some(cfg.explicit[key])
      else match FirstContaining(cfg.nets, ip)
        case Some(net) => Some(cfg.nets[net])
        case None => cfg.perIP
  }

  /** The counters a connection from `key` takes, the tighter limit first. */
  function Members(cfg: Config, parse: Parsers, key: string): (ids: seq<LimitId>)
    ensures forall i, j :: 0 <= i < j < |ids| ==> ids[i] != ids[j]
    ensures Host(key) in ids <==> HostLimit(cfg, parse, key).Some?
    ensures Service in ids <==> cfg.service.Some?
    ensures forall id :: id in ids ==> id == Host(key) || id == Service
  {
    match (HostLimit(cfg, parse, key), cfg.service)
    case (None, None) => []
    case (Some(_), None) => [Host(key)]
    case (None, Some(_)) => [Service]
    case (Some(h), Some(s)) => if s < h then [Service, Host(key)] else [Host(key), Service]
  }

  /** The bound of a counter. */
  function Bound(cfg: Config, parse: Parsers, id: LimitId): nat
  {
    var limit := match id case Host(key) => HostLimit(cfg, parse, key) case Service => cfg.service;
    if limit.Some? then limit.value else 0
  }

  const NO_LIMITS: Config := Config(map[], map[], None, None)

  /** One configuration line, over what the lines before it say. */
  function AddLine(cfg: Config, parse: Parsers, key: string, limit: int): Config
  {
    if key == "" || limit <= 0 then cfg
    else if key == GLOBAL_LIMIT_KEY then cfg.(service := Some(limit))
    else if key == IP_LIMIT_KEY then cfg.(perIP := Some(limit))
    else if parse.ip(key).Some? then cfg.(explicit := cfg.explicit[key := limit])
    else match parse.cidr(key)
      case Some(net) => cfg.(nets := cfg.nets[net := limit])
      case None => cfg
  }

  function ConfigOf(parse: Parsers, lines: seq<(string, int)>): Config
  {
    if lines == [] then NO_LIMITS
    else AddLine(ConfigOf(parse, lines[..|lines| - 1]), parse, lines[|lines| - 1].0, lines[|lines| - 1].1)
  }

  // ---------------------------------------------------------------------------------------
  // What the lines mean for a client
  // ---------------------------------------------------------------------------------------

  /** The network that decides for an address: of those that contain it, the least specific. */
  predicate Decides(nets: map<Bits, nat>, ip: Bits, net: Bits)
  {
    net in nets && net <= ip && forall other :: other in nets && other <= ip ==> |net| <= |other|
  }

  /** Which limit a client's own counter has: that of its address, else that of the least specific
      network it is in, else the one every client gets. */
  lemma OwnLimit(cfg: Config, parse: Parsers, key: string, ip: Bits, net: Bits)
    ensures parse.ip(key) == Some(ip) && key in cfg.explicit ==>
            Host(key) in Members(cfg, parse, key) && Bound(cfg, parse, Host(key)) == cfg.explicit[key]
    ensures parse.ip(key) == Some(ip) && key !in cfg.explicit && net in cfg.nets && net <= ip &&
            (forall other :: other in cfg.nets && other <= ip ==> |net| <= |other|) ==>
            Host(key) in Members(cfg, parse, key) && Bound(cfg, parse, Host(key)) == cfg.nets[net]
    ensures parse.ip(key) == None || (parse.ip(key) == Some(ip) && key !in cfg.explicit &&
            (forall other :: other in cfg.nets ==> !(other <= ip))) ==>
            && (Host(key) in Members(cfg, parse, key) <==> cfg.perIP.Some?)
            && (cfg.perIP.Some? ==> Bound(cfg, parse, Host(key)) == cfg.perIP.value)
    ensures cfg.service.Some? ==> Bound(cfg, parse, Service) == cfg.service.value
  {
    if parse.ip(key) == Some(ip) && Decides(cfg.nets, ip, net) {
      OnlyOneDecides(cfg.nets, ip, net);
    }
  }

  lemma OnlyOneDecides(nets: map<Bits, nat>, ip: Bits, net: Bits)
    requires Decides(nets, ip, net)
    ensures FirstContaining(nets, ip) == Some(net)
  {
    var first := FirstContaining(nets, ip).value;
    assert |first| == |net| && first == ip[..|first|] && net == ip[..|net|];
  }

  /** The last positive line for `$` is the limit all connections share. */
  lemma {:induction false} ServiceLine(parse: Parsers, lines: seq<(string, int)>, limit: nat)
    ensures ConfigOf(parse, lines).service == Some(limit) <==>
            exists i :: 0 <= i < |lines| && lines[i] == ("$", limit) && limit > 0 &&
              forall j :: i < j < |lines| ==> lines[j].0 != "$" || lines[j].1 <= 0
  {
    if lines != [] {
      var n := |lines| - 1;
      ServiceLine(parse, lines[..n], limit);
      assert forall i :: 0 <= i < n ==> lines[..n][i] == lines[i];
    }
  }

  /** The last positive line for `$$` is the limit every client gets. */
  lemma {:induction false} PerIPLine(parse: Parsers, lines: seq<(string, int)>, limit: nat)
    ensures ConfigOf(parse, lines).perIP == Some(limit) <==>
            exists i :: 0 <= i < |lines| && lines[i] == ("$$", limit) && limit > 0 &&
              forall j :: i < j < |lines| ==> lines[j].0 != "$$" || lines[j].1 <= 0
  {
    if lines != [] {
      var n := |lines| - 1;
      PerIPLine(parse, lines[..n], limit);
      assert forall i :: 0 <= i < n ==> lines[..n][i] == lines[i];
    }
  }

  /** The last positive line for an address is the address's limit. */
  lemma {:induction false} AddressLine(parse: Parsers, lines: seq<(string, int)>, key: string, limit: nat)
    requires parse.Valid() && key != "" && parse.ip(key).Some?
    ensures (key in ConfigOf(parse, lines).explicit && ConfigOf(parse, lines).explicit[key] == limit) <==>
            exists i :: 0 <= i < |lines| && lines[i] == (key, limit) && limit > 0 &&
              forall j :: i < j < |lines| ==> lines[j].0 != key || lines[j].1 <= 0
  {
    if lines != [] {
      var n := |lines| - 1;
      AddressLine(parse, lines[..n], key, limit);
      assert forall i :: 0 <= i < n ==> lines[..n][i] == lines[i];
    }
  }

  /** The last positive line that spells a network is the network's limit. */
  lemma {:induction false} NetworkLine(parse: Parsers, lines: seq<(string, int)>, net: Bits, limit: nat)
    requires parse.Valid()
    ensures (net in ConfigOf(parse, lines).nets && ConfigOf(parse, lines).nets[net] == limit) <==>
            exists i :: 0 <= i < |lines| && Spells(parse, lines[i].0, net) && lines[i].1 == limit > 0 &&
              forall j :: i < j < |lines| ==> !Spells(parse, lines[j].0, net) || lines[j].1 <= 0
  {
    if lines != [] {
      var n := |lines| - 1;
      NetworkLine(parse, lines[..n], net, limit);
      assert forall i :: 0 <= i < n ==> lines[..n][i] == lines[i];
    }
  }

  predicate Spells(parse: Parsers, key: string, net: Bits)
  {
    key != "" && key != "$" && key != "$$" && parse.ip(key) == None && parse.cidr(key) == Some(net)
  }
}
