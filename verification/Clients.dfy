/** Which configured client an address belongs to. */
module Clients {
  import opened Names

  datatype Family = V4 | V6

  /** The bits of an address, most significant first. */
  datatype Bits = Bits(family: Family, bits: seq<bool>)

  function Width(family: Family): nat { if family.V4? then 32 else 128 }

  type Address = a: Bits | |a.bits| == Width(a.family) witness Bits(V4, seq(32, _ => false))

  /** One `ids` element of an entry, by what it parses as. */
  datatype Id = Host(ip: Address) | Slash(network: Address, prefix: nat) | Other

  /** The `ids` of the configured entries, in order. */
  type Entries = seq<seq<Id>>

  datatype Subnet = Subnet(network: Address, prefix: nat, entry: nat)

  datatype Index = Index(exactIps: map<Address, nat>, subnets: seq<Subnet>)

  // ---- Masks ------------------------------------------------------------

  function Ones(n: nat): (r: seq<bool>) { seq(n, _ => true) }

  function ShiftLeft(x: seq<bool>, n: nat): (r: seq<bool>)
    requires n <= |x|
    ensures |r| == |x|
  {
    x[n..] + seq(n, _ => false)
  }

  function And(x: seq<bool>, y: seq<bool>): (r: seq<bool>)
    requires |x| == |y|
  {
    seq(|x|, i requires 0 <= i < |x| => x[i] && y[i])
  }

  predicate InSubnet(network: Address, prefix: nat, target: Address) {
    && network.family == target.family
    && (prefix == 0 ||
        var width := Width(network.family);
        var mask := if prefix >= width then Ones(width) else ShiftLeft(Ones(width), width - prefix);
        And(network.bits, mask) == And(target.bits, mask))
  }

  /** The address begins with the network's first `prefix` bits. */
  predicate Begins(network: Address, prefix: nat, target: Address)
    requires prefix <= Width(network.family)
  {
    network.family == target.family && network.bits[..prefix] == target.bits[..prefix]
  }

  lemma MaskComparesPrefix(x: seq<bool>, y: seq<bool>, prefix: nat)
    requires |x| == |y| && prefix <= |x|
    ensures var mask := ShiftLeft(Ones(|x|), |x| - prefix);
            And(x, mask) == And(y, mask) <==> x[..prefix] == y[..prefix]
  {
    var mask := ShiftLeft(Ones(|x|), |x| - prefix);
    assert forall i | 0 <= i < |x| :: mask[i] <==> i < prefix;
    assert forall i | 0 <= i < |x| ::
        And(x, mask)[i] == (x[i] && i < prefix) && And(y, mask)[i] == (y[i] && i < prefix);
    if And(x, mask) == And(y, mask) {
      assert forall i | 0 <= i < prefix :: x[i] == And(x, mask)[i] == And(y, mask)[i] == y[i];
    } else {
      assert exists i | 0 <= i < |x| :: And(x, mask)[i] != And(y, mask)[i];
      assert exists i | 0 <= i < prefix :: x[..prefix][i] != y[..prefix][i];
    }
  }

  lemma WholeMask(width: nat)
    ensures ShiftLeft(Ones(width), 0) == Ones(width)
  {
  }

  /** Masking tells exactly whether the address begins with the network. */
  lemma InSubnetIsPrefix(network: Address, prefix: nat, target: Address)
    requires prefix <= Width(network.family)
    ensures InSubnet(network, prefix, target) <==> Begins(network, prefix, target)
  {
    if network.family == target.family {
      MaskComparesPrefix(network.bits, target.bits, prefix);
      WholeMask(|network.bits|);
    }
  }

  // ---- The index --------------------------------------------------------

  /** Position `m` of entry `j` lies before position `k` of entry `e`. */
  predicate Before(j: nat, m: nat, e: nat, k: nat) { j < e || (j == e && m < k) }

  predicate HostBefore(entries: Entries, e: nat, k: nat, j: nat, ip: Address) {
    j < |entries| && exists m: nat | m < |entries[j]| :: entries[j][m] == Host(ip) && Before(j, m, e, k)
  }

  predicate CidrBefore(entries: Entries, e: nat, k: nat, s: Subnet) {
    && s.entry < |entries| && s.prefix <= Width(s.network.family)
    && exists m: nat | m < |entries[s.entry]| ::
         entries[s.entry][m] == Slash(s.network, s.prefix) && Before(s.entry, m, e, k)
  }

  ghost predicate HostsIndexed(entries: Entries, e: nat, k: nat, exactIps: map<Address, nat>) {
    && (forall ip: Address, j: nat | HostBefore(entries, e, k, j, ip) :: ip in exactIps && exactIps[ip] <= j)
    && (forall ip: Address | ip in exactIps :: HostBefore(entries, e, k, exactIps[ip], ip))
  }

  ghost predicate SubnetsIndexed(entries: Entries, e: nat, k: nat, subnets: seq<Subnet>) {
    && (forall s: Subnet :: s in subnets <==> CidrBefore(entries, e, k, s))
    && (forall a, b | 0 <= a < b < |subnets| :: subnets[a].entry <= subnets[b].entry)
  }

  /** The index holds the first entry of every host address, and every valid
      subnet in configured order. */
  ghost predicate IsIndex(entries: Entries, index: Index) {
    HostsIndexed(entries, |entries|, 0, index.exactIps) && SubnetsIndexed(entries, |entries|, 0, index.subnets)
  }

  function ParseCidr(id: Id): (r: Option<(Address, nat)>) {
    if id.Slash? && id.prefix <= Width(id.network.family) then Some((id.network, id.prefix)) else None
  }

  method BuildClientIndex(entries: Entries) returns (index: Index)
    ensures IsIndex(entries, index)
  {
    var exactIps: map<Address, nat>, subnets: seq<Subnet> := map[], [];
    for e := 0 to |entries|
      invariant HostsIndexed(entries, e, 0, exactIps) && SubnetsIndexed(entries, e, 0, subnets)
    {
      for k := 0 to |entries[e]|
        invariant HostsIndexed(entries, e, k, exactIps) && SubnetsIndexed(entries, e, k, subnets)
      {
        var id := entries[e][k];
        HostsGrow(entries, e, k, k + 1, exactIps);
        SubnetsGrow(entries, e, k);
        if id.Host? {
          if id.ip !in exactIps {
            exactIps := exactIps[id.ip := e];
          }
        } else {
          var cidr := ParseCidr(id);
          if cidr.Some? {
            subnets := subnets + [Subnet(cidr.value.0, cidr.value.1, e)];
          }
        }
      }
      EntryDone(entries, e, e + 1, exactIps);
    }
    index := Index(exactIps, subnets);
  }

  /** What one more position, or the step to the next entry, adds. */
  lemma HostsGrow(entries: Entries, e: nat, k: nat, next: nat, m: map<Address, nat>)
    requires e < |entries| && k < |entries[e]| && next == k + 1 && HostsIndexed(entries, e, k, m)
    ensures var id := entries[e][k];
            HostsIndexed(entries, e, next, if id.Host? && id.ip !in m then m[id.ip := e] else m)
  {
    assert Before(e, k, e, next);
    forall ip: Address, j: nat
      ensures HostBefore(entries, e, next, j, ip) <==>
                HostBefore(entries, e, k, j, ip) || (j == e && entries[e][k] == Host(ip))
    {
      if HostBefore(entries, e, k, j, ip) {
        var at: nat :| at < |entries[j]| && entries[j][at] == Host(ip) && Before(j, at, e, k);
        assert Before(j, at, e, next);
      }
    }
  }

  lemma SubnetsGrow(entries: Entries, e: nat, k: nat)
    requires e < |entries| && k < |entries[e]|
    ensures forall s: Subnet :: CidrBefore(entries, e, k + 1, s) <==>
                                CidrBefore(entries, e, k, s)
                                    || (s.entry == e && ParseCidr(entries[e][k]) == Some((s.network, s.prefix)))
  {
  }

  lemma EntryDone(entries: Entries, e: nat, next: nat, m: map<Address, nat>)
    requires e < |entries| && next == e + 1 && HostsIndexed(entries, e, |entries[e]|, m)
    ensures HostsIndexed(entries, next, 0, m)
    ensures forall s: Subnet :: CidrBefore(entries, e, |entries[e]|, s) <==> CidrBefore(entries, next, 0, s)
  {
    forall ip: Address, j: nat
      ensures HostBefore(entries, e, |entries[e]|, j, ip) <==> HostBefore(entries, next, 0, j, ip)
    {
      assert j < |entries| ==> forall at: nat | at < |entries[j]| :: Before(j, at, e, |entries[e]|) <==>
          Before(j, at, next, 0);
    }
  }

  // ---- Matching ---------------------------------------------------------

  /** Entry `j` lists the address itself. */
  predicate Lists(entries: Entries, j: nat, ip: Address) { j < |entries| && Host(ip) in entries[j] }

  /** Entry `j` lists a valid subnet of `prefix` bits that the address begins with. */
  predicate Covers(entries: Entries, j: nat, prefix: nat, ip: Address) {
    && j < |entries|
    && exists id | id in entries[j] ::
         id.Slash? && id.prefix == prefix <= Width(id.network.family) && Begins(id.network, prefix, ip)
  }

  /** The first entry with the address itself; failing that the longest covering
      prefix, the first configured entry among equals; failing that nobody. */
  ghost predicate IsMatch(entries: Entries, ip: Address, r: Option<nat>) {
    if exists j: nat :: Lists(entries, j, ip) then
      r.Some? && Lists(entries, r.value, ip) && forall j: nat | Lists(entries, j, ip) :: r.value <= j
    else if exists j: nat, p: nat :: Covers(entries, j, p, ip) then
      r.Some? && exists p: nat :: Covers(entries, r.value, p, ip) &&
                                  forall j: nat, p': nat | Covers(entries, j, p', ip) :: p' < p
                                      || (p' == p && r.value <= j)
    else r.None?
  }

  /** The best among the first `n` subnets. */
  predicate IsBest(subnets: seq<Subnet>, n: nat, ip: Address, best: Option<Subnet>)
    requires n <= |subnets|
  {
    match best
    case None => forall i | 0 <= i < n :: !InSubnet(subnets[i].network, subnets[i].prefix, ip)
    case Some(s) =>
      && InSubnet(s.network, s.prefix, ip) && s in subnets[..n]
      && forall i | 0 <= i < n && InSubnet(subnets[i].network, subnets[i].prefix, ip) ::
           subnets[i].prefix < s.prefix || (subnets[i].prefix == s.prefix && s.entry <= subnets[i].entry)
  }

  /** What one more subnet does to the best. */
  lemma BestGrows(subnets: seq<Subnet>, n: nat, ip: Address, best: Option<Subnet>)
    requires n < |subnets| && IsBest(subnets, n, ip, best)
    requires forall a, b | 0 <= a < b < |subnets| :: subnets[a].entry <= subnets[b].entry
    ensures var s := subnets[n];
            IsBest(subnets, n + 1, ip,
                   if InSubnet(s.network, s.prefix, ip)
                       && (best.None? || best.value.prefix < s.prefix) then Some(s) else best)
  {
    assert subnets[..n + 1] == subnets[..n] + [subnets[n]];
    if best.Some? {
      var k :| 0 <= k < n && subnets[k] == best.value;
    }
  }

  lemma FirstHostIsMatch(entries: Entries, index: Index, ip: Address)
    requires IsIndex(entries, index) && ip in index.exactIps
    ensures IsMatch(entries, ip, Some(index.exactIps[ip]))
  {
    HostsAreListed(entries, index, ip);
  }

  method MatchByIpOrCidr(entries: Entries, index: Index, ip: Address) returns (r: Option<nat>)
    requires IsIndex(entries, index)
    ensures IsMatch(entries, ip, r)
  {
    if ip in index.exactIps {
      FirstHostIsMatch(entries, index, ip);
      return Some(index.exactIps[ip]);
    }
    var best: Option<Subnet> := None;
    for n := 0 to |index.subnets|
      invariant IsBest(index.subnets, n, ip, best)
    {
      BestGrows(index.subnets, n, ip, best);
      var s := index.subnets[n];
      if InSubnet(s.network, s.prefix, ip) {
        if best.None? || best.value.prefix < s.prefix {
          best := Some(s);
        }
      }
    }
    HostsAreListed(entries, index, ip);
    BestIsMatch(entries, index, ip, best);
    r := if best.Some? then Some(best.value.entry) else None;
  }

  lemma HostsAreListed(entries: Entries, index: Index, ip: Address)
    requires IsIndex(entries, index)
    ensures forall j: nat :: Lists(entries, j, ip) <==> HostBefore(entries, |entries|, 0, j, ip)
    ensures ip in index.exactIps <==> exists j: nat :: Lists(entries, j, ip)
  {
  }

  lemma CoveredIsIndexed(entries: Entries, index: Index, ip: Address, j: nat, p: nat)
    requires IsIndex(entries, index) && Covers(entries, j, p, ip)
    ensures exists s | s in index.subnets :: s.entry == j && s.prefix == p && InSubnet(s.network, p, ip)
  {
    var id :| id in entries[j] && id.Slash? && id.prefix == p <= Width(id.network.family) && Begins(id.network, p, ip);
    InSubnetIsPrefix(id.network, p, ip);
    assert CidrBefore(entries, |entries|, 0, Subnet(id.network, p, j));
  }

  lemma IndexedIsCovered(entries: Entries, index: Index, ip: Address, s: Subnet)
    requires IsIndex(entries, index) && s in index.subnets && InSubnet(s.network, s.prefix, ip)
    ensures Covers(entries, s.entry, s.prefix, ip)
  {
    assert CidrBefore(entries, |entries|, 0, s);
    InSubnetIsPrefix(s.network, s.prefix, ip);
    assert Slash(s.network, s.prefix) in entries[s.entry];
  }

  lemma BestIsMatch(entries: Entries, index: Index, ip: Address, best: Option<Subnet>)
    requires IsIndex(entries, index) && !exists j: nat :: Lists(entries, j, ip)
    requires IsBest(index.subnets, |index.subnets|, ip, best)
    ensures IsMatch(entries, ip, if best.Some? then Some(best.value.entry) else None)
  {
    forall j: nat, p: nat | Covers(entries, j, p, ip)
      ensures best.Some? && (p < best.value.prefix || (p == best.value.prefix && best.value.entry <= j))
    {
      CoveredIsIndexed(entries, index, ip, j, p);
    }
    if best.Some? {
      IndexedIsCovered(entries, index, ip, best.value);
    }
  }

  /** A registry built from the configuration matches as the configuration says. */
  method Identify(entries: Entries, ip: Address) returns (r: Option<nat>)
    ensures IsMatch(entries, ip, r)
  {
    var index := BuildClientIndex(entries);
    r := MatchByIpOrCidr(entries, index, ip);
  }

  /** The match is unique: the rule decides every address. */
  lemma MatchUnique(entries: Entries, ip: Address, r: Option<nat>, r': Option<nat>)
    requires IsMatch(entries, ip, r) && IsMatch(entries, ip, r')
    ensures r == r'
  {
  }
}
