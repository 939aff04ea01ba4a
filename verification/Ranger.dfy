/** Networks as bit prefixes, and the lookup the limiters use: the first network a ranger lists for
    an address is the least specific one that contains it. */
module Ranger {
  import opened Options

  type Bits = seq<bool>

  /** The shortest prefix of `ip` of at least `n` bits that is a network of the table. */
  function FirstFrom<V>(nets: map<Bits, V>, ip: Bits, n: nat): (r: Option<Bits>)
    requires n <= |ip|
    ensures r.Some? ==> r.value in nets && r.value <= ip && n <= |r.value|
    ensures forall net :: net in nets && net <= ip && n <= |net| ==> r.Some? && |r.value| <= |net|
    decreases |ip| - n
  {
    assert forall net: Bits :: net <= ip && |net| == n ==> net == ip[..n];
    if ip[..n] in nets then Some(ip[..n])
    else if n == |ip| then None
    else FirstFrom(nets, ip, n + 1)
  }

  /** The first containing network. */
  function FirstContaining<V>(nets: map<Bits, V>, ip: Bits): (r: Option<Bits>)
    ensures r.Some? ==> r.value in nets && r.value <= ip
    ensures forall net :: net in nets && net <= ip ==> r.Some? && |r.value| <= |net|
  {
    FirstFrom(nets, ip, 0)
  }
}
