/** Concrete scenarios of the target pipeline, one per behaviour the repository's own tests pin
    down. Each fixes what the parsers and lookups answer for the tokens involved and states
    the resulting target list. */
module Scenarios {
  import opened Wrappers
  import opened Text
  import opened IpNet
  import opened Seqs
  import opened Address

  /** 192.168.0.0 */
  const Net192: nat := 3232235520
  /** 79.98.104.0 */
  const Net79: nat := 1331849216
  /** 127.0.0.1 */
  const Loopback: nat := 2130706433

  /** A list of one token that yields addresses goes to no file and gives those addresses. */
  lemma OneToken(syntax: Syntax, dns: Dns, resolver: Resolver, t: string)
    requires ParseAddress(syntax, dns, resolver, t) != []
    ensures DirectIps(syntax, dns, resolver, [t]) == ParseAddress(syntax, dns, resolver, t)
    ensures Unresolved(syntax, dns, resolver, [t]) == []
  {
    ConcatMapSingle(t => ParseAddress(syntax, dns, resolver, t), t);
    FilterSingle(t => ParseAddress(syntax, dns, resolver, t) == [], t);
  }

  /** The four addresses of 192.168.0.0/30. */
  lemma Block30(inet: Inet)
    requires inet == IpInet(V4(Net192), 30)
    ensures Addresses(NetworkOf(inet)) == [V4(Net192), V4(Net192 + 1), V4(Net192 + 2), V4(Net192 + 3)]
  {
    assert Pow2(2) == 4;
    var c := NetworkOf(inet);
    assert c.base == V4(Net192);
  }

  /** With every token resolved directly, the targets are the filtered direct addresses. */
  lemma AllDirect(opts: Opts, env: Env)
    requires Unresolved(env.syntax, env.dns, GetResolver(env, opts.resolver), opts.addresses) == []
    ensures var resolver := GetResolver(env, opts.resolver);
            Targets(opts, env) == Retain(DirectIps(env.syntax, env.dns, resolver, opts.addresses),
                                         ParseExcludedNetworks(env.syntax, env.dns, resolver, opts.excludeAddresses))
  {
    var resolver := GetResolver(env, opts.resolver);
    var direct := DirectIps(env.syntax, env.dns, resolver, opts.addresses);
    assert FileIps(env, resolver, []) == [];
    assert direct + [] == direct;
  }

  /** `192.168.0.0/30` without `192.168.0.1` leaves `.0`, `.2` and `.3`, whether the CIDR
      parser reads the bare address as its host network or rejects it for the IP branch. */
  lemma ExcludeOneAddress(opts: Opts, env: Env)
    requires opts.addresses == ["192.168.0.0/30"] && opts.excludeAddresses == Some(["192.168.0.1"])
    requires env.syntax.parseIp("192.168.0.0/30").None?
    requires env.syntax.parseInet("192.168.0.0/30") == Some(IpInet(V4(Net192), 30))
    requires env.syntax.parseIp("192.168.0.1") == Some(V4(Net192 + 1))
    requires env.syntax.parseCidr("192.168.0.1").None? ||
             env.syntax.parseCidr("192.168.0.1") == Some(HostNetwork(V4(Net192 + 1)))
    ensures Targets(opts, env) == [V4(Net192), V4(Net192 + 2), V4(Net192 + 3)]
  {
    Pow2Of32();
    var resolver := GetResolver(env, opts.resolver);
    var a0, a1, a2, a3 := V4(Net192), V4(Net192 + 1), V4(Net192 + 2), V4(Net192 + 3);
    var ips: seq<Addr> := [a0, a1, a2, a3];
    assert DirectIps(env.syntax, env.dns, resolver, opts.addresses) == ips by {
      Block30(env.syntax.parseInet("192.168.0.0/30").value);
      OneToken(env.syntax, env.dns, resolver, "192.168.0.0/30");
    }
    OneToken(env.syntax, env.dns, resolver, "192.168.0.0/30");
    AllDirect(opts, env);
    var nets := ParseExcludedNetworks(env.syntax, env.dns, resolver, opts.excludeAddresses);
    assert nets == [HostNetwork(a1)] by {
      ConcatMapSingle(spec => ParseSingleExcludedAddress(env.syntax, env.dns, resolver, spec), "192.168.0.1");
    }
    RetainFourWithoutSecond(a0, a1, a2, a3, nets);
  }

  /** One more address passes the filter unless it came before or is excluded. */
  lemma RetainStep(front: seq<Addr>, x: Addr, nets: seq<Cidr>)
    ensures Retain(front + [x], nets)
            == Retain(front, nets) + (if x in front || Excluded(x, nets) then [] else [x])
  {
    assert (front + [x])[..|front|] == front;
  }

  /** A new address that is not excluded is kept at the end. */
  lemma KeepStep(front: seq<Addr>, x: Addr, nets: seq<Cidr>, r: seq<Addr>)
    requires Retain(front, nets) == r && x !in front && !Excluded(x, nets)
    ensures Retain(front + [x], nets) == r + [x]
  {
    RetainStep(front, x, nets);
  }

  /** An excluded address is dropped. */
  lemma DropStep(front: seq<Addr>, x: Addr, nets: seq<Cidr>, r: seq<Addr>)
    requires Retain(front, nets) == r && Excluded(x, nets)
    ensures Retain(front + [x], nets) == r
  {
    RetainStep(front, x, nets);
  }

  /** Four distinct addresses of which only the second is excluded. */
  lemma RetainFourWithoutSecond(a0: Addr, a1: Addr, a2: Addr, a3: Addr, nets: seq<Cidr>)
    requires a0 != a1 && a0 != a2 && a0 != a3 && a1 != a2 && a1 != a3 && a2 != a3
    requires nets == [HostNetwork(a1)]
    ensures Retain([a0, a1, a2, a3], nets) == [a0, a2, a3]
  {
    var s1 := [] + [a0];
    var s2 := s1 + [a1];
    var s3 := s2 + [a2];
    var s4 := s3 + [a3];
    assert HostNetwork(a1) in nets;
    assert !Excluded(a0, nets) by {
      HostNetworkContains(a1, a0);
    }
    assert Excluded(a1, nets) by {
      HostNetworkContains(a1, a1);
    }
    assert !Excluded(a2, nets) by {
      HostNetworkContains(a1, a2);
    }
    assert !Excluded(a3, nets) by {
      HostNetworkContains(a1, a3);
    }
    KeepStep([], a0, nets, []);
    DropStep(s1, a1, nets, [a0]);
    KeepStep(s2, a2, nets, [a0]);
    KeepStep(s3, a3, nets, [a0] + [a2]);
    assert s4 == [a0, a1, a2, a3];
  }

  /** Addresses that are all excluded leave nothing. */
  lemma {:induction false} RetainAllExcluded(a: seq<Addr>, nets: seq<Cidr>)
    requires forall x :: x in a ==> Excluded(x, nets)
    ensures Retain(a, nets) == []
  {
    if a != [] {
      var front, last := a[..|a| - 1], a[|a| - 1];
      assert forall x :: x in front ==> x in a;
      RetainAllExcluded(front, nets);
      assert last in a;
      RetainStep(front, last, nets);
      assert front + [last] == a;
    }
  }

  /** Excluded addresses in front of fresh ones leave just the fresh ones. */
  lemma {:induction false} RetainAfterExcluded(a: seq<Addr>, b: seq<Addr>, nets: seq<Cidr>)
    requires forall x :: x in a ==> Excluded(x, nets)
    requires NoDuplicates(b)
    requires forall x :: x in b ==> !Excluded(x, nets) && x !in a
    ensures Retain(a + b, nets) == b
  {
    if b == [] {
      assert a + b == a;
      RetainAllExcluded(a, nets);
    } else {
      var front, last := b[..|b| - 1], b[|b| - 1];
      assert forall x :: x in front ==> x in b;
      RetainAfterExcluded(a, front, nets);
      assert last in b;
      assert last !in a + front;
      RetainStep(a + front, last, nets);
      assert b == front + [last];
      assert a + b == (a + front) + [last];
    }
  }

  /** The address `192.168.0.k`. */
  function Host192(k: nat): (a: Addr)
    requires k < 256
    ensures a == V4(Net192 + k)
  {
    Pow2Of32();
    V4(Net192 + k)
  }

  /** The eight addresses of 192.168.0.0/29. */
  lemma Block29(inet: Inet)
    requires inet == IpInet(V4(Net192), 29)
    ensures Addresses(NetworkOf(inet)) == [Host192(0), Host192(1), Host192(2), Host192(3),
                                           Host192(4), Host192(5), Host192(6), Host192(7)]
  {
    assert Pow2(3) == 8;
    var c := NetworkOf(inet);
    assert c.base == V4(Net192);
  }

  /** `192.168.0.0/30` takes the lower half of `192.168.0.0/29` out. */
  lemma DropLowHalf(nets: seq<Cidr>)
    requires nets == [IpCidr(V4(Net192), 30)]
    ensures Retain([Host192(0), Host192(1), Host192(2), Host192(3),
                    Host192(4), Host192(5), Host192(6), Host192(7)], nets)
            == [Host192(4), Host192(5), Host192(6), Host192(7)]
  {
    var excluded := nets[0];
    var low: seq<Addr> := [Host192(0), Host192(1), Host192(2), Host192(3)];
    var high: seq<Addr> := [Host192(4), Host192(5), Host192(6), Host192(7)];
    assert BlockSize(excluded.base, excluded.len) == 4 by {
      assert Pow2(2) == 4;
    }
    forall x | x in low
      ensures Excluded(x, nets)
    {
      assert Contains(excluded, x);
    }
    forall x | x in high
      ensures !Excluded(x, nets) && x !in low
    {
      assert !Contains(excluded, x);
    }
    RetainAfterExcluded(low, high, nets);
    assert low + high == [Host192(0), Host192(1), Host192(2), Host192(3),
                          Host192(4), Host192(5), Host192(6), Host192(7)];
  }

  /** `192.168.0.0/29` without `192.168.0.0/30` leaves `.4` to `.7`. */
  lemma ExcludeSubnet(opts: Opts, env: Env)
    requires opts.addresses == ["192.168.0.0/29"] && opts.excludeAddresses == Some(["192.168.0.0/30"])
    requires env.syntax.parseIp("192.168.0.0/29").None?
    requires env.syntax.parseInet("192.168.0.0/29") == Some(IpInet(V4(Net192), 29))
    requires env.syntax.parseCidr("192.168.0.0/30") == Some(IpCidr(V4(Net192), 30))
    ensures Targets(opts, env) == [Host192(4), Host192(5), Host192(6), Host192(7)]
  {
    Pow2Of32();
    var resolver := GetResolver(env, opts.resolver);
    Block29(env.syntax.parseInet("192.168.0.0/29").value);
    OneToken(env.syntax, env.dns, resolver, "192.168.0.0/29");
    AllDirect(opts, env);
    var nets := ParseExcludedNetworks(env.syntax, env.dns, resolver, opts.excludeAddresses);
    assert nets == [IpCidr(V4(Net192), 30)] by {
      ConcatMapSingle(spec => ParseSingleExcludedAddress(env.syntax, env.dns, resolver, spec), "192.168.0.0/30");
    }
    DropLowHalf(nets);
  }

  /** An address listing without its repeats: all of it passes a filter with no exclusions. */
  lemma AddressesPassUnchanged(c: Cidr)
    ensures Retain(Addresses(c), []) == Addresses(c)
  {
    var a := Addresses(c);
    forall i, j | 0 <= i < j < |a|
      ensures a[i] != a[j]
    {
      AddressesAscending(c, i, j);
    }
    RetainKeepsDistinct(a, []);
  }

  /** A list of two tokens: the addresses of each in turn, and those that gave none. */
  lemma TwoTokens(syntax: Syntax, dns: Dns, resolver: Resolver, t1: string, t2: string)
    ensures DirectIps(syntax, dns, resolver, [t1, t2])
            == ParseAddress(syntax, dns, resolver, t1) + ParseAddress(syntax, dns, resolver, t2)
    ensures Unresolved(syntax, dns, resolver, [t1, t2])
            == (if ParseAddress(syntax, dns, resolver, t1) == [] then [t1] else [])
               + (if ParseAddress(syntax, dns, resolver, t2) == [] then [t2] else [])
  {
    var f := t => ParseAddress(syntax, dns, resolver, t);
    var p := t => ParseAddress(syntax, dns, resolver, t) == [];
    assert [t1, t2] == [t1] + [t2];
    ConcatMapAppend(f, [t1], [t2]);
    ConcatMapSingle(f, t1);
    ConcatMapSingle(f, t2);
    FilterAppend(p, [t1], [t2]);
    FilterSingle(p, t1);
    FilterSingle(p, t2);
  }

  /** A subnet listed after a network on the same base adds nothing to it. */
  lemma SubnetAddsNothing(c: Cidr, d: Cidr)
    requires d.base == c.base && c.len <= d.len
    ensures Retain(Addresses(c) + Addresses(d), []) == Addresses(c)
  {
    SubnetIsPrefix(c, d);
    assert forall x :: x in Addresses(d) ==> x in Addresses(c);
    RetainDropsRepeats(Addresses(c), Addresses(d), []);
    AddressesPassUnchanged(c);
  }

  /** 79.98.104.0/21 holds 2048 addresses and starts where 79.98.104.0/24 does. */
  lemma Nets79(wide: Inet, narrow: Inet)
    requires wide == IpInet(V4(Net79), 21) && narrow == IpInet(V4(Net79), 24)
    ensures |Addresses(NetworkOf(wide))| == 2048
    ensures NetworkOf(wide).base == NetworkOf(narrow).base
    ensures NetworkOf(wide).len <= NetworkOf(narrow).len
  {
    assert Pow2(11) == 2048;
    assert Pow2(8) == 256;
  }

  /** `79.98.104.0/21` and `79.98.104.0/24` together are the 2048 addresses of the /21:
      the /24 adds only repeats. */
  lemma DuplicateCidrs(opts: Opts, env: Env)
    requires opts.addresses == ["79.98.104.0/21", "79.98.104.0/24"] && opts.excludeAddresses.None?
    requires env.syntax.parseIp("79.98.104.0/21").None? && env.syntax.parseIp("79.98.104.0/24").None?
    requires env.syntax.parseInet("79.98.104.0/21") == Some(IpInet(V4(Net79), 21))
    requires env.syntax.parseInet("79.98.104.0/24") == Some(IpInet(V4(Net79), 24))
    ensures |Targets(opts, env)| == 2048
  {
    var resolver := GetResolver(env, opts.resolver);
    var wide := env.syntax.parseInet("79.98.104.0/21").value;
    var narrow := env.syntax.parseInet("79.98.104.0/24").value;
    Nets79(wide, narrow);
    TwoTokens(env.syntax, env.dns, resolver, "79.98.104.0/21", "79.98.104.0/24");
    AllDirect(opts, env);
    SubnetAddsNothing(NetworkOf(wide), NetworkOf(narrow));
  }

  /** `192.128.1.1/24` has host bits set and still gives the 256 addresses of its /24. */
  lemma OverspecificCidr(opts: Opts, env: Env)
    requires opts.addresses == ["192.128.1.1/24"] && opts.excludeAddresses.None?
    requires env.syntax.parseIp("192.128.1.1/24").None?
    requires env.syntax.parseInet("192.128.1.1/24") == Some(IpInet(V4(3229614337), 24))
    ensures |Targets(opts, env)| == 256
  {
    var resolver := GetResolver(env, opts.resolver);
    var c := NetworkOf(env.syntax.parseInet("192.128.1.1/24").value);
    assert |Addresses(c)| == 256 by {
      assert Pow2(8) == 256;
    }
    OneToken(env.syntax, env.dns, resolver, "192.128.1.1/24");
    AllDirect(opts, env);
    AddressesPassUnchanged(c);
  }

  /** A token that is no address, no network and no host name gives no address. */
  lemma NothingAtAll(syntax: Syntax, dns: Dns, resolver: Resolver, t: string)
    requires syntax.parseIp(t).None? && syntax.parseInet(t).None?
    requires dns.osLookup(t + ":80").None? && dns.osLookup(t).None?
    requires dns.resolverLookup(resolver, t).None?
    ensures ParseAddress(syntax, dns, resolver, t) == []
  {
  }

  /** A token that names no file adds no address and is warned about. */
  lemma NoSuchFile(env: Env, resolver: Resolver, path: string)
    requires path !in env.fs.entries
    ensures FileIps(env, resolver, [path]) == []
    ensures Warnings(env, resolver, [path]) == [path]
  {
    ConcatMapSingle(path => FileTargets(env, resolver, path).GetOr([]), path);
    FilterSingle(path => FileTargets(env, resolver, path).None?, path);
  }

  /** `127.0.0.1` next to a token that is nothing at all: the address, and one warning. */
  lemma CorrectAndIncorrect(opts: Opts, env: Env)
    requires opts.addresses == ["127.0.0.1", "im_wrong"] && opts.excludeAddresses.None?
    requires env.syntax.parseIp("127.0.0.1") == Some(V4(Loopback))
    requires env.syntax.parseIp("im_wrong").None? && env.syntax.parseInet("im_wrong").None?
    requires env.dns.osLookup("im_wrong:80").None? && env.dns.osLookup("im_wrong").None?
    requires forall r :: env.dns.resolverLookup(r, "im_wrong").None?
    requires "im_wrong" !in env.fs.entries
    ensures Targets(opts, env) == [V4(Loopback)]
    ensures TargetWarnings(opts, env) == ["im_wrong"]
  {
    Pow2Of32();
    var resolver := GetResolver(env, opts.resolver);
    var good, bad := "127.0.0.1", "im_wrong";
    assert bad + ":80" == "im_wrong:80";
    NothingAtAll(env.syntax, env.dns, resolver, bad);
    TwoTokens(env.syntax, env.dns, resolver, good, bad);
    NoSuchFile(env, resolver, bad);
    assert [V4(Loopback)] + [] == [V4(Loopback)];
    assert Retain([V4(Loopback)], []) == [V4(Loopback)] by {
      assert [V4(Loopback)][..0] == [];
    }
  }

  /** A resolver source that names no file and is two comma-separated addresses. */
  lemma ListOfTwo(env: Env, source: string, one: string, two: string, a: Addr, b: Addr)
    requires source == one + "," + two && ',' !in one && ',' !in two
    requires source !in env.fs.entries
    requires env.syntax.parseIp(one) == Some(a) && env.syntax.parseIp(two) == Some(b)
    ensures ResolverIps(env, source) == [a, b]
  {
    assert ReadLines(env.fs, source).None?;
    SplitJoin([one, two], ',');
    assert Join([one, two], [',']) == source;
    var f := piece => ParsedIp(env.syntax, piece);
    assert [one, two] == [one] + [two];
    ConcatMapAppend(f, [one], [two]);
    ConcatMapSingle(f, one);
    ConcatMapSingle(f, two);
  }

  /** Two resolver IPs make two UDP name servers on port 53, in the same order. */
  lemma TwoServers(env: Env, source: string, a: Addr, b: Addr)
    requires ResolverIps(env, source) == [a, b]
    ensures GetResolver(env, Some(source)).nameServers == [NameServer(a, 53, Udp), NameServer(b, 53, Udp)]
  {
    ResolverNameServers(env, source);
  }

  /** The resolver list `8.8.8.8,8.8.4.4`, naming no file: one name server per address, in order. */
  lemma ResolverFromList(env: Env, source: string, one: string, two: string)
    requires one == "8.8.8.8" && two == "8.8.4.4"
    requires source == one + "," + two && source !in env.fs.entries
    requires env.syntax.parseIp(one) == Some(V4(134744072))
    requires env.syntax.parseIp(two) == Some(V4(134743044))
    ensures GetResolver(env, Some(source)).nameServers
            == [NameServer(V4(134744072), 53, Udp), NameServer(V4(134743044), 53, Udp)]
  {
    ListOfTwo(env, source, one, two, V4(134744072), V4(134743044));
    TwoServers(env, source, V4(134744072), V4(134743044));
  }
}
