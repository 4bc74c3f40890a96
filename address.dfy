/** The target-address pipeline of `src/address.rs`: tokens become an ordered list of
    addresses without duplicates and without excluded addresses.

    What the source gets from the operating system and from other crates is given to the
    model as values: the text parsers of `std::net` and `cidr` (`Syntax`), host lookups
    (`Dns`) and the files on disk (`FileSystem`). */
module Address {
  import opened Wrappers
  import opened Text
  import opened IpNet
  import opened Seqs

  /** The text parsers the source calls: `IpAddr::from_str`, `IpInet::from_str` (an address
      and a prefix length, host bits allowed) and `IpCidr::from_str` (host bits must be zero). */
  datatype Syntax = Syntax(
    parseIp: string -> Option<Addr>,
    parseInet: string -> Option<Inet>,
    parseCidr: string -> Option<Cidr>)

  /** What a successful OS lookup (`ToSocketAddrs`) yields: at least one address.
      The source takes the first one with `unwrap`, so an empty success would panic. */
  type Answer = s: seq<Addr> | |s| >= 1 witness [V4(0)]

  datatype Protocol = Udp

  /** `NameServerConfig`: a socket address and a transport. */
  datatype NameServer = NameServer(ip: Addr, port: nat, protocol: Protocol)

  /** The resolver `get_resolver` builds: from a list of name servers, from the system
      configuration, or the Cloudflare default over TLS. */
  datatype Resolver = Custom(nameServers: seq<NameServer>) | SystemConf | CloudflareTls

  /** Host lookups. `osLookup` is `ToSocketAddrs::to_socket_addrs` (`None` when it fails),
      `resolverLookup` is `Resolver::lookup_ip` on the given resolver, and `systemConf` says
      whether `Resolver::from_system_conf` succeeds. */
  datatype Dns = Dns(
    osLookup: string -> Option<Answer>,
    resolverLookup: (Resolver, string) -> Option<seq<Addr>>,
    systemConf: bool)

  /** A file is the sequence of its lines as `BufReader::lines` yields them; a line that is
      not valid UTF-8 is `None`. `readable` is false when `File::open` fails on it. */
  datatype Entry = RegularFile(readable: bool, lines: seq<Option<string>>) | Directory

  datatype FileSystem = FileSystem(entries: map<string, Entry>)

  datatype Env = Env(syntax: Syntax, dns: Dns, fs: FileSystem)

  /** The fields of `Opts` the pipeline reads. */
  datatype Opts = Opts(
    addresses: seq<string>,
    resolver: Option<string>,
    excludeAddresses: Option<seq<string>>)

  // ---------------------------------------------------------------------------------------
  // Files

  /** `Path::is_file`. */
  predicate IsFile(fs: FileSystem, path: string) {
    path in fs.entries && fs.entries[path].RegularFile?
  }

  /** `File::open` then `BufReader::lines`. */
  function OpenLines(fs: FileSystem, path: string): (r: Option<seq<Option<string>>>)
    ensures r.Some? <==> IsFile(fs, path) && fs.entries[path].readable
  {
    if IsFile(fs, path) && fs.entries[path].readable then Some(fs.entries[path].lines) else None
  }

  /** `fs::read_to_string(path)?.lines()`: fails unless the file opens and every line is text. */
  function ReadLines(fs: FileSystem, path: string): (r: Option<seq<string>>)
    ensures r.Some? <==> OpenLines(fs, path).Some?
                         && forall i :: 0 <= i < |OpenLines(fs, path).value| ==> OpenLines(fs, path).value[i].Some?
    ensures r.Some? ==> |r.value| == |OpenLines(fs, path).value|
                        && forall i :: 0 <= i < |r.value| ==> Some(r.value[i]) == OpenLines(fs, path).value[i]
  {
    match OpenLines(fs, path)
    case None => None
    case Some(ls) =>
      if forall i :: 0 <= i < |ls| ==> ls[i].Some? then
        Some(seq(|ls|, i requires 0 <= i < |ls| && ls[i].Some? => ls[i].value))
      else None
  }

  // ---------------------------------------------------------------------------------------
  // Hostnames and tokens

  /** `resolve_ips_from_host`: every address of the OS lookup of `host`; only when that
      fails, every address of the resolver's lookup; when both fail, nothing. A host yields
      no address exactly when the OS lookup fails and the resolver finds nothing. */
  function HostAddresses(dns: Dns, resolver: Resolver, host: string): (r: seq<Addr>)
    ensures r == [] <==> dns.osLookup(host).None? && dns.resolverLookup(resolver, host).GetOr([]) == []
  {
    match dns.osLookup(host)
    case Some(answer) => answer
    case None => dns.resolverLookup(resolver, host).GetOr([])
  }

  /** `resolve_ips_from_host` as the source writes it, pushing the OS answers one by one. */
  method ResolveIpsFromHost(dns: Dns, resolver: Resolver, source: string) returns (ips: seq<Addr>)
    ensures ips == HostAddresses(dns, resolver, source)
  {
    ips := [];
    match dns.osLookup(source) {
      case Some(addrs) =>
        for k := 0 to |addrs|
          invariant ips == addrs[..k]
        {
          ips := ips + [addrs[k]];
        }
        assert addrs[..|addrs|] == addrs;
      case None =>
        match dns.resolverLookup(resolver, source) {
          case Some(addrs) => ips := ips + addrs;
          case None =>
        }
    }
  }

  /** `parse_address`: an IP literal, else a CIDR expanded to its whole network, else a host
      name: the first address of the OS lookup of `address:80`, or, when that lookup fails,
      `resolve_ips_from_host`. It takes no file system: a token is never read as a file here.
      A token yields nothing exactly when it is neither an IP nor a CIDR, its `:80` lookup
      fails and its host lookups find nothing. */
  function ParseAddress(syntax: Syntax, dns: Dns, resolver: Resolver, address: string): (r: seq<Addr>)
    ensures r == [] <==> && syntax.parseIp(address).None?
                         && syntax.parseInet(address).None?
                         && dns.osLookup(address + ":80").None?
                         && HostAddresses(dns, resolver, address) == []
  {
    match syntax.parseIp(address)
    case Some(a) => [a]
    case None =>
      match syntax.parseInet(address)
      case Some(inet) => Addresses(NetworkOf(inet))
      case None =>
        match dns.osLookup(address + ":80")
        case Some(answer) => [answer[0]]
        case None => HostAddresses(dns, resolver, address)
  }

  predicate Ascending(s: seq<Addr>) {
    forall i, j :: 0 <= i < j < |s| ==> s[i].bits < s[j].bits
  }

  /** An IP literal yields exactly itself. */
  lemma IpLiteralYieldsItself(syntax: Syntax, dns: Dns, resolver: Resolver, address: string, a: Addr)
    requires syntax.parseIp(address) == Some(a)
    ensures ParseAddress(syntax, dns, resolver, address) == [a]
  {
  }

  /** A CIDR token `a/n` that is not an IP literal yields the whole network of `a` cut to `n`
      bits, in strictly ascending order: `2^(width - n)` addresses, from the network address
      to the broadcast address, whatever host bits `a` has set. */
  lemma CidrYieldsNetwork(syntax: Syntax, dns: Dns, resolver: Resolver, address: string, inet: Inet)
    requires syntax.parseIp(address).None? && syntax.parseInet(address) == Some(inet)
    ensures var r := ParseAddress(syntax, dns, resolver, address);
            var c := NetworkOf(inet);
            && |r| == Pow2(Width(inet.addr) - inet.len)
            && Ascending(r)
            && (forall x: Addr :: x in r <==> x.V4? == inet.addr.V4? && x.bits / |r| == inet.addr.bits / |r|)
            && r[0].bits == c.base.bits && c.base.bits % |r| == 0
            && r[|r| - 1].bits == c.base.bits + |r| - 1
  {
    var c := NetworkOf(inet);
    var r := Addresses(c);
    forall x: Addr
      ensures x in r <==> x.V4? == inet.addr.V4? && x.bits / |r| == inet.addr.bits / |r|
    {
      AddressesExactly(c, x);
    }
    forall i, j | 0 <= i < j < |r|
      ensures r[i].bits < r[j].bits
    {
      AddressesAscending(c, i, j);
    }
  }

  /** A token that is neither an IP nor a CIDR is a host name: the first address of a
      successful OS lookup of `token:80`, else what `resolve_ips_from_host` finds. */
  lemma HostnameFallback(syntax: Syntax, dns: Dns, resolver: Resolver, address: string)
    requires syntax.parseIp(address).None? && syntax.parseInet(address).None?
    ensures var r := ParseAddress(syntax, dns, resolver, address);
            && (dns.osLookup(address + ":80").Some? ==>
                  |r| == 1 && r[0] == dns.osLookup(address + ":80").value[0])
            && (dns.osLookup(address + ":80").None? && dns.osLookup(address).Some? ==>
                  r == dns.osLookup(address).value)
            && (dns.osLookup(address + ":80").None? && dns.osLookup(address).None? ==>
                  r == dns.resolverLookup(resolver, address).GetOr([]))
  {
  }

  // ---------------------------------------------------------------------------------------
  // Exclusions

  /** `IpCidr::new_host` over a list of addresses. */
  function HostNetworks(ips: seq<Addr>): (r: seq<Cidr>)
    ensures |r| == |ips| && forall i :: 0 <= i < |r| ==> r[i] == HostNetwork(ips[i])
  {
    seq(|ips|, i requires 0 <= i < |ips| => HostNetwork(ips[i]))
  }

  /** `parse_single_excluded_address`: a CIDR, else one host network for an IP, else one
      host network per address the host name resolves to. A CIDR or an IP gives one network;
      anything else gives host networks only. */
  function ParseSingleExcludedAddress(syntax: Syntax, dns: Dns, resolver: Resolver, addr: string): (r: seq<Cidr>)
    ensures syntax.parseCidr(addr).Some? || syntax.parseIp(addr).Some? ==> |r| == 1
    ensures syntax.parseCidr(addr).None? ==> forall i :: 0 <= i < |r| ==> r[i].len == Width(r[i].base)
  {
    match syntax.parseCidr(addr)
    case Some(c) => [c]
    case None =>
      match syntax.parseIp(addr)
      case Some(ip) => [HostNetwork(ip)]
      case None => HostNetworks(HostAddresses(dns, resolver, addr))
  }

  /** The networks of all exclusion specs, spec after spec (`flat_map`). */
  function ExcludedFrom(syntax: Syntax, dns: Dns, resolver: Resolver, specs: seq<string>): seq<Cidr> {
    ConcatMap(spec => ParseSingleExcludedAddress(syntax, dns, resolver, spec), specs)
  }

  /** `parse_excluded_networks`: no list means no exclusions. */
  function ParseExcludedNetworks(syntax: Syntax, dns: Dns, resolver: Resolver,
                                 specs: Option<seq<string>>): seq<Cidr> {
    match specs
    case None => []
    case Some(ss) => ExcludedFrom(syntax, dns, resolver, ss)
  }

  /** The containment test of the final filter: some network contains the address. */
  predicate Excluded(a: Addr, nets: seq<Cidr>) {
    exists n :: n in nets && Contains(n, a)
  }

  /** What one exclusion spec excludes: a CIDR excludes its network; an IP excludes itself
      alone; a host name excludes exactly the addresses it resolves to. */
  lemma SingleExclusion(syntax: Syntax, dns: Dns, resolver: Resolver, spec: string, x: Addr)
    ensures var nets := ParseSingleExcludedAddress(syntax, dns, resolver, spec);
            && (syntax.parseCidr(spec).Some? ==>
                  nets == [syntax.parseCidr(spec).value]
                  && (Excluded(x, nets) <==> Contains(syntax.parseCidr(spec).value, x)))
            && (syntax.parseCidr(spec).None? && syntax.parseIp(spec).Some? ==>
                  |nets| == 1 && (Excluded(x, nets) <==> x == syntax.parseIp(spec).value))
            && (syntax.parseCidr(spec).None? && syntax.parseIp(spec).None? ==>
                  |nets| == |HostAddresses(dns, resolver, spec)|
                  && (Excluded(x, nets) <==> x in HostAddresses(dns, resolver, spec)))
  {
    var nets := ParseSingleExcludedAddress(syntax, dns, resolver, spec);
    if syntax.parseCidr(spec).Some? {
      assert nets[0] in nets;
    } else if syntax.parseIp(spec).Some? {
      HostNetworkContains(syntax.parseIp(spec).value, x);
      assert nets[0] in nets;
    } else {
      var h := HostAddresses(dns, resolver, spec);
      if Excluded(x, nets) {
        var n :| n in nets && Contains(n, x);
        var i :| 0 <= i < |nets| && nets[i] == n;
        HostNetworkContains(h[i], x);
      }
      if x in h {
        var i :| 0 <= i < |h| && h[i] == x;
        HostNetworkContains(h[i], x);
        assert nets[i] in nets;
      }
    }
  }

  /** An address is excluded exactly when the networks of one of the specs contain it;
      no list excludes nothing. */
  lemma {:induction false} ExcludedExactly(syntax: Syntax, dns: Dns, resolver: Resolver,
                                           specs: Option<seq<string>>, x: Addr)
    ensures specs.None? ==> ParseExcludedNetworks(syntax, dns, resolver, specs) == []
    ensures specs.Some? ==>
      (Excluded(x, ParseExcludedNetworks(syntax, dns, resolver, specs)) <==>
       exists i :: 0 <= i < |specs.value|
                   && Excluded(x, ParseSingleExcludedAddress(syntax, dns, resolver, specs.value[i])))
  {
    if specs.Some? {
      ExcludedFromExactly(syntax, dns, resolver, specs.value, x);
    }
  }

  lemma ExcludedFromExactly(syntax: Syntax, dns: Dns, resolver: Resolver, specs: seq<string>, x: Addr)
    ensures Excluded(x, ExcludedFrom(syntax, dns, resolver, specs)) <==>
            exists i :: 0 <= i < |specs|
                        && Excluded(x, ParseSingleExcludedAddress(syntax, dns, resolver, specs[i]))
  {
    var f := spec => ParseSingleExcludedAddress(syntax, dns, resolver, spec);
    forall n ensures n in ExcludedFrom(syntax, dns, resolver, specs) <==>
                     exists i :: 0 <= i < |specs| && n in f(specs[i]) {
      ConcatMapMembers(f, specs, n);
    }
  }

  // ---------------------------------------------------------------------------------------
  // The resolver

  /** The one-element list of an IP literal, the empty list otherwise (`IpAddr::from_str(s).ok()`). */
  function ParsedIp(syntax: Syntax, piece: string): (r: seq<Addr>)
    ensures |r| <= 1
  {
    match syntax.parseIp(piece)
    case Some(a) => [a]
    case None => []
  }

  /** `filter_map(|s| IpAddr::from_str(s).ok())`: the pieces that parse, in order. */
  function ParseIps(syntax: Syntax, pieces: seq<string>): seq<Addr> {
    ConcatMap(piece => ParsedIp(syntax, piece), pieces)
  }

  /** `ParseIps` keeps order over concatenation, never grows the input, and keeps exactly
      the addresses some piece parses to. */
  lemma ParseIpsProperties(syntax: Syntax, pieces: seq<string>, more: seq<string>)
    ensures ParseIps(syntax, pieces + more) == ParseIps(syntax, pieces) + ParseIps(syntax, more)
    ensures |ParseIps(syntax, pieces)| <= |pieces|
    ensures forall a :: a in ParseIps(syntax, pieces) <==>
                        exists i :: 0 <= i < |pieces| && syntax.parseIp(pieces[i]) == Some(a)
  {
    var f := piece => ParsedIp(syntax, piece);
    ConcatMapAppend(f, pieces, more);
    ConcatMapShorter(f, pieces);
    forall a ensures a in ParseIps(syntax, pieces) <==>
                     exists i :: 0 <= i < |pieces| && syntax.parseIp(pieces[i]) == Some(a) {
      ConcatMapMembers(f, pieces, a);
    }
  }

  /** `read_resolver_from_file`: the trimmed lines of the file that parse as IPs. It fails
      exactly when the file cannot be read, and gives at most one IP per line. */
  function ReadResolverFromFile(env: Env, path: string): (r: Option<seq<Addr>>)
    ensures r.Some? <==> ReadLines(env.fs, path).Some?
    ensures r.Some? ==> |r.value| <= |ReadLines(env.fs, path).value|
  {
    match ReadLines(env.fs, path)
    case None => None
    case Some(ls) =>
      var pieces := seq(|ls|, i requires 0 <= i < |ls| => Trim(ls[i]));
      ConcatMapShorter(piece => ParsedIp(env.syntax, piece), pieces);
      Some(ParseIps(env.syntax, pieces))
  }

  /** A readable resolver file gives the trimmed lines that parse as IPs, in line order:
      an address is listed exactly when some trimmed line parses to it. */
  lemma ResolverFileIps(env: Env, path: string)
    requires ReadLines(env.fs, path).Some?
    ensures var ls := ReadLines(env.fs, path).value;
            var pieces := seq(|ls|, i requires 0 <= i < |ls| => Trim(ls[i]));
            && ReadResolverFromFile(env, path) == Some(ParseIps(env.syntax, pieces))
            && forall a :: a in ReadResolverFromFile(env, path).value <==>
                           exists i :: 0 <= i < |ls| && env.syntax.parseIp(Trim(ls[i])) == Some(a)
  {
    var ls := ReadLines(env.fs, path).value;
    var pieces := seq(|ls|, i requires 0 <= i < |ls| => Trim(ls[i]));
    var r := ParseIps(env.syntax, pieces);
    assert ReadResolverFromFile(env, path) == Some(r);
    forall a
      ensures a in r <==> exists i :: 0 <= i < |ls| && env.syntax.parseIp(Trim(ls[i])) == Some(a)
    {
      TrimmedLineIp(env.syntax, ls, a);
    }
  }

  /** An address parses from the trimmed lines exactly when some trimmed line parses to it. */
  lemma TrimmedLineIp(syntax: Syntax, ls: seq<string>, a: Addr)
    ensures a in ParseIps(syntax, seq(|ls|, i requires 0 <= i < |ls| => Trim(ls[i]))) <==>
            exists i :: 0 <= i < |ls| && syntax.parseIp(Trim(ls[i])) == Some(a)
  {
    var pieces := seq(|ls|, i requires 0 <= i < |ls| => Trim(ls[i]));
    ParseIpsProperties(syntax, pieces, []);
    assert forall i :: 0 <= i < |ls| ==> pieces[i] == Trim(ls[i]);
  }

  /** The IPs of `get_resolver`: from the file named `source` when it can be read, otherwise
      from the comma-separated pieces of `source` itself (untrimmed). */
  function ResolverIps(env: Env, source: string): seq<Addr> {
    match ReadResolverFromFile(env, source)
    case Some(ips) => ips
    case None => ParseIps(env.syntax, Split(source, ','))
  }

  /** `get_resolver`: one UDP name server on port 53 per resolver IP, in order; without a
      source, the system configuration, or Cloudflare when that fails. */
  function GetResolver(env: Env, source: Option<string>): (r: Resolver)
    ensures source.Some? ==> r.Custom?
    ensures source.None? ==> r == (if env.dns.systemConf then SystemConf else CloudflareTls)
  {
    match source
    case Some(s) =>
      var ips := ResolverIps(env, s);
      Custom(seq(|ips|, i requires 0 <= i < |ips| => NameServer(ips[i], 53, Udp)))
    case None => if env.dns.systemConf then SystemConf else CloudflareTls
  }

  /** With a resolver source, the name servers are the resolver IPs in order, each on UDP
      port 53. When the source is not a readable text file, those IPs are exactly what its
      comma-separated pieces parse to, and the pieces put back together are the source. */
  lemma ResolverNameServers(env: Env, source: string)
    ensures var r := GetResolver(env, Some(source));
            var ips := ResolverIps(env, source);
            && |r.nameServers| == |ips|
            && (forall i :: 0 <= i < |ips| ==> r.nameServers[i] == NameServer(ips[i], 53, Udp))
    ensures ReadLines(env.fs, source).None? ==>
              var pieces := Split(source, ',');
              && Join(pieces, ",") == source
              && ResolverIps(env, source) == ParseIps(env.syntax, pieces)
              && (forall a :: a in ResolverIps(env, source) <==>
                              exists i :: 0 <= i < |pieces| && env.syntax.parseIp(pieces[i]) == Some(a))
  {
    if ReadLines(env.fs, source).None? {
      JoinSplit(source, ',');
      ParseIpsProperties(env.syntax, Split(source, ','), []);
    }
  }

  // ---------------------------------------------------------------------------------------
  // The two passes over the tokens

  /** The addresses of the direct tokens, token after token. */
  function DirectIps(syntax: Syntax, dns: Dns, resolver: Resolver, tokens: seq<string>): seq<Addr> {
    ConcatMap(t => ParseAddress(syntax, dns, resolver, t), tokens)
  }

  /** The tokens `parse_address` found nothing for, in order: the candidates for files. */
  function Unresolved(syntax: Syntax, dns: Dns, resolver: Resolver, tokens: seq<string>): seq<string> {
    Filter(t => ParseAddress(syntax, dns, resolver, t) == [], tokens)
  }

  /** The addresses of one line of a file; a line that is not text gives none. */
  function LineIps(syntax: Syntax, dns: Dns, resolver: Resolver, line: Option<string>): seq<Addr> {
    match line
    case Some(l) => ParseAddress(syntax, dns, resolver, l)
    case None => []
  }

  /** The addresses of the lines of a file, line after line. */
  function LinesIps(syntax: Syntax, dns: Dns, resolver: Resolver, lines: seq<Option<string>>): seq<Addr> {
    ConcatMap(line => LineIps(syntax, dns, resolver, line), lines)
  }

  /** The file stage for one unresolved token: `None` (a warning) when it is not a file or
      cannot be opened, else the addresses of its lines. */
  function FileTargets(env: Env, resolver: Resolver, path: string): Option<seq<Addr>> {
    if !IsFile(env.fs, path) then None
    else
      match OpenLines(env.fs, path)
      case None => None
      case Some(ls) => Some(LinesIps(env.syntax, env.dns, resolver, ls))
  }

  function FileIps(env: Env, resolver: Resolver, paths: seq<string>): seq<Addr> {
    ConcatMap(path => FileTargets(env, resolver, path).GetOr([]), paths)
  }

  /** The tokens warned about as "could not be resolved", in order. */
  function Warnings(env: Env, resolver: Resolver, paths: seq<string>): seq<string> {
    Filter(path => FileTargets(env, resolver, path).None?, paths)
  }

  /** A token goes to the file stage exactly when `parse_address` found nothing for it,
      and the file stage sees the tokens in their input order. */
  lemma UnresolvedExactly(syntax: Syntax, dns: Dns, resolver: Resolver, tokens: seq<string>, t: string)
    ensures t in Unresolved(syntax, dns, resolver, tokens) <==>
            t in tokens && ParseAddress(syntax, dns, resolver, t) == []
    ensures forall more :: Unresolved(syntax, dns, resolver, tokens + more)
                           == Unresolved(syntax, dns, resolver, tokens) + Unresolved(syntax, dns, resolver, more)
  {
    var p := t => ParseAddress(syntax, dns, resolver, t) == [];
    FilterMembers(p, tokens, t);
    forall more ensures Unresolved(syntax, dns, resolver, tokens + more)
                        == Unresolved(syntax, dns, resolver, tokens) + Unresolved(syntax, dns, resolver, more) {
      FilterAppend(p, tokens, more);
    }
  }

  /** Direct addresses keep token order: the addresses of `a + b` are those of `a` followed
      by those of `b`; an address is direct exactly when some token yields it. */
  lemma DirectIpsInOrder(syntax: Syntax, dns: Dns, resolver: Resolver, a: seq<string>, b: seq<string>, x: Addr)
    ensures DirectIps(syntax, dns, resolver, a + b)
            == DirectIps(syntax, dns, resolver, a) + DirectIps(syntax, dns, resolver, b)
    ensures x in DirectIps(syntax, dns, resolver, a) <==>
            exists i :: 0 <= i < |a| && x in ParseAddress(syntax, dns, resolver, a[i])
  {
    var f := t => ParseAddress(syntax, dns, resolver, t);
    ConcatMapAppend(f, a, b);
    ConcatMapMembers(f, a, x);
  }

  /** `read_ips_from_file` keeps line order, and each text line counts as a target token
      (`parse_address`), never as another file. */
  lemma LinesIpsInOrder(syntax: Syntax, dns: Dns, resolver: Resolver,
                        a: seq<Option<string>>, b: seq<Option<string>>, x: Addr)
    ensures LinesIps(syntax, dns, resolver, a + b)
            == LinesIps(syntax, dns, resolver, a) + LinesIps(syntax, dns, resolver, b)
    ensures x in LinesIps(syntax, dns, resolver, a) <==>
            exists i :: 0 <= i < |a| && a[i].Some? && x in ParseAddress(syntax, dns, resolver, a[i].value)
  {
    var f := line => LineIps(syntax, dns, resolver, line);
    ConcatMapAppend(f, a, b);
    ConcatMapMembers(f, a, x);
  }

  /** A token is warned about exactly when it is unresolved and is not a file that opens:
      one warning for each such token, in token order. */
  lemma WarningsExactly(env: Env, resolver: Resolver, paths: seq<string>, more: seq<string>, p: string)
    ensures p in Warnings(env, resolver, paths) <==>
            p in paths && (!IsFile(env.fs, p) || OpenLines(env.fs, p).None?)
    ensures |Warnings(env, resolver, paths)| <= |paths|
    ensures Warnings(env, resolver, [p]) == (if FileTargets(env, resolver, p).None? then [p] else [])
    ensures Warnings(env, resolver, paths + more)
            == Warnings(env, resolver, paths) + Warnings(env, resolver, more)
  {
    var failed := path => FileTargets(env, resolver, path).None?;
    FilterMembers(failed, paths, p);
    FilterSingle(failed, p);
    FilterAppend(failed, paths, more);
  }

  // ---------------------------------------------------------------------------------------
  // The final filter

  /** The `retain` pass: an address stays when it was not seen before and no exclusion
      network contains it. Every address is marked as seen, excluded or not. */
  function Retain(ips: seq<Addr>, nets: seq<Cidr>): seq<Addr> {
    if ips == [] then []
    else
      var front, ip := ips[..|ips| - 1], ips[|ips| - 1];
      Retain(front, nets) + (if ip in front || Excluded(ip, nets) then [] else [ip])
  }

  predicate NoDuplicates(s: seq<Addr>) {
    forall i, j :: 0 <= i < j < |s| ==> s[i] != s[j]
  }

  /** The filter keeps exactly the addresses that occur and are not excluded. */
  lemma {:induction false} RetainMembers(ips: seq<Addr>, nets: seq<Cidr>, x: Addr)
    ensures x in Retain(ips, nets) <==> x in ips && !Excluded(x, nets)
  {
    if ips != [] {
      var front := ips[..|ips| - 1];
      RetainMembers(front, nets, x);
      assert ips == front + [ips[|ips| - 1]];
    }
  }

  /** The filter leaves no duplicates. */
  lemma {:induction false} RetainNoDuplicates(ips: seq<Addr>, nets: seq<Cidr>)
    ensures NoDuplicates(Retain(ips, nets))
  {
    if ips != [] {
      var front, ip := ips[..|ips| - 1], ips[|ips| - 1];
      RetainNoDuplicates(front, nets);
      RetainMembers(front, nets, ip);
    }
  }

  /** A list without duplicates and without excluded addresses passes the filter unchanged. */
  lemma {:induction false} RetainKeepsDistinct(ips: seq<Addr>, nets: seq<Cidr>)
    requires NoDuplicates(ips)
    requires forall x :: x in ips ==> !Excluded(x, nets)
    ensures Retain(ips, nets) == ips
  {
    if ips != [] {
      var front, ip := ips[..|ips| - 1], ips[|ips| - 1];
      assert NoDuplicates(front) by {
        assert forall i :: 0 <= i < |front| ==> front[i] == ips[i];
      }
      RetainKeepsDistinct(front, nets);
      assert ip !in front by {
        assert forall i :: 0 <= i < |front| ==> front[i] == ips[i];
      }
      assert !Excluded(ip, nets) by {
        assert ip in ips;
      }
    }
  }

  /** Addresses that were all listed before add nothing. */
  lemma {:induction false} RetainDropsRepeats(a: seq<Addr>, b: seq<Addr>, nets: seq<Cidr>)
    requires forall x :: x in b ==> x in a
    ensures Retain(a + b, nets) == Retain(a, nets)
    decreases |b|
  {
    if b == [] {
      assert a + b == a;
    } else {
      var front := b[..|b| - 1];
      assert b[|b| - 1] in b;
      RetainDropsRepeats(a, front, nets);
      assert (a + b)[..|a + b| - 1] == a + front;
    }
  }

  /** Every element of `r` occurs in `s`, and `r` lists them in the order of their first
      occurrences in `s`. */
  predicate InFirstOccurrenceOrder(r: seq<Addr>, s: seq<Addr>) {
    forall i, j :: 0 <= i < j < |r| ==> PairInFirstOccurrenceOrder(r, s, i, j)
  }

  /** The `i`-th and `j`-th elements of `r` occur in `s`, the `i`-th one first. */
  predicate PairInFirstOccurrenceOrder(r: seq<Addr>, s: seq<Addr>, i: nat, j: nat)
    requires i < j < |r|
  {
    r[i] in s && r[j] in s && IndexOf(s, r[i]) < IndexOf(s, r[j])
  }

  /** The filter keeps the order of first occurrences. */
  lemma RetainFirstOccurrenceOrder(ips: seq<Addr>, nets: seq<Cidr>)
    ensures InFirstOccurrenceOrder(Retain(ips, nets), ips)
  {
    var r := Retain(ips, nets);
    forall i, j | 0 <= i < j < |r|
      ensures PairInFirstOccurrenceOrder(r, ips, i, j)
    {
      RetainPairOrder(ips, nets, i, j);
    }
  }

  lemma {:induction false} RetainPairOrder(ips: seq<Addr>, nets: seq<Cidr>, i: nat, j: nat)
    requires i < j < |Retain(ips, nets)|
    ensures Retain(ips, nets)[i] in ips && Retain(ips, nets)[j] in ips
    ensures IndexOf(ips, Retain(ips, nets)[i]) < IndexOf(ips, Retain(ips, nets)[j])
  {
    var front, ip := ips[..|ips| - 1], ips[|ips| - 1];
    var r0 := Retain(front, nets);
    var r := Retain(ips, nets);
    assert ips == front + [ip];
    assert r[i] == r0[i] && r0[i] in r0;
    RetainMembers(front, nets, r0[i]);
    IndexOfPrefix(front, ip, r[i]);
    if j < |r0| {
      assert r[j] == r0[j];
      RetainPairOrder(front, nets, i, j);
      IndexOfPrefix(front, ip, r[j]);
    } else {
      assert ip !in front && r[j] == ip;
      IndexOfUnique(ips, ip, |ips| - 1);
    }
  }

  /** Appending an element does not move the first occurrence of an earlier one. */
  lemma IndexOfPrefix(front: seq<Addr>, last: Addr, y: Addr)
    requires y in front
    ensures y in front + [last] && IndexOf(front + [last], y) == IndexOf(front, y)
  {
    var k := IndexOf(front, y);
    assert (front + [last])[..k] == front[..k];
    IndexOfUnique(front + [last], y, k);
  }

  // ---------------------------------------------------------------------------------------
  // parse_addresses

  /** What `parse_addresses` returns: direct addresses first, then file addresses, through
      the filter. */
  function Targets(opts: Opts, env: Env): seq<Addr> {
    var resolver := GetResolver(env, opts.resolver);
    var direct := DirectIps(env.syntax, env.dns, resolver, opts.addresses);
    var files := FileIps(env, resolver, Unresolved(env.syntax, env.dns, resolver, opts.addresses));
    Retain(direct + files, ParseExcludedNetworks(env.syntax, env.dns, resolver, opts.excludeAddresses))
  }

  /** The tokens `parse_addresses` warns about. */
  function TargetWarnings(opts: Opts, env: Env): seq<string> {
    var resolver := GetResolver(env, opts.resolver);
    Warnings(env, resolver, Unresolved(env.syntax, env.dns, resolver, opts.addresses))
  }

  /** The targets hold no address twice; an address is a target exactly when a token or a
      file yielded it and no exclusion contains it; targets keep the order in which the
      addresses were first found. */
  lemma TargetsProperties(opts: Opts, env: Env, x: Addr)
    ensures NoDuplicates(Targets(opts, env))
    ensures var resolver := GetResolver(env, opts.resolver);
            var direct := DirectIps(env.syntax, env.dns, resolver, opts.addresses);
            var files := FileIps(env, resolver, Unresolved(env.syntax, env.dns, resolver, opts.addresses));
            && (x in Targets(opts, env) <==>
                  (x in direct || x in files)
                  && !Excluded(x, ParseExcludedNetworks(env.syntax, env.dns, resolver, opts.excludeAddresses)))
            && InFirstOccurrenceOrder(Targets(opts, env), direct + files)
  {
    var resolver := GetResolver(env, opts.resolver);
    var direct := DirectIps(env.syntax, env.dns, resolver, opts.addresses);
    var files := FileIps(env, resolver, Unresolved(env.syntax, env.dns, resolver, opts.addresses));
    var nets := ParseExcludedNetworks(env.syntax, env.dns, resolver, opts.excludeAddresses);
    RetainNoDuplicates(direct + files, nets);
    RetainMembers(direct + files, nets, x);
    RetainFirstOccurrenceOrder(direct + files, nets);
  }

  /** `read_ips_from_file`: open the file and add the addresses of each text line. */
  method ReadIpsFromFile(env: Env, path: string, resolver: Resolver) returns (r: Option<seq<Addr>>)
    ensures r.None? <==> OpenLines(env.fs, path).None?
    ensures r.Some? ==> r.value == LinesIps(env.syntax, env.dns, resolver, OpenLines(env.fs, path).value)
  {
    match OpenLines(env.fs, path) {
      case None => return None;
      case Some(lines) =>
        var ips: seq<Addr> := [];
        for k := 0 to |lines|
          invariant ips == LinesIps(env.syntax, env.dns, resolver, lines[..k])
        {
          assert lines[..k + 1][..k] == lines[..k];
          if lines[k].Some? {
            ips := ips + ParseAddress(env.syntax, env.dns, resolver, lines[k].value);
          }
        }
        assert lines[..|lines|] == lines;
        return Some(ips);
    }
  }

  /** `parse_addresses`, with its warnings returned instead of printed. */
  method ParseAddresses(opts: Opts, env: Env) returns (ips: seq<Addr>, warnings: seq<string>)
    ensures ips == Targets(opts, env)
    ensures warnings == TargetWarnings(opts, env)
  {
    var resolver := GetResolver(env, opts.resolver);
    var direct, unresolved := ResolveTokens(env.syntax, env.dns, resolver, opts.addresses);
    var fromFiles;
    fromFiles, warnings := ReadUnresolved(env, resolver, unresolved);
    var excluded := ParseExcludedNetworks(env.syntax, env.dns, resolver, opts.excludeAddresses);
    ips := RetainUnseenIncluded(direct + fromFiles, excluded);
  }

  /** The first loop of `parse_addresses`: each token's addresses are appended, and the
      tokens that yield none are set aside in order. */
  method ResolveTokens(syntax: Syntax, dns: Dns, resolver: Resolver, tokens: seq<string>)
    returns (ips: seq<Addr>, unresolved: seq<string>)
    ensures ips == DirectIps(syntax, dns, resolver, tokens)
    ensures unresolved == Unresolved(syntax, dns, resolver, tokens)
  {
    ips, unresolved := [], [];
    for k := 0 to |tokens|
      invariant ips == DirectIps(syntax, dns, resolver, tokens[..k])
      invariant unresolved == Unresolved(syntax, dns, resolver, tokens[..k])
    {
      assert tokens[..k + 1][..k] == tokens[..k];
      var parsed := ParseAddress(syntax, dns, resolver, tokens[k]);
      if parsed != [] {
        ips := ips + parsed;
      } else {
        unresolved := unresolved + [tokens[k]];
      }
    }
    assert tokens[..|tokens|] == tokens;
  }

  /** The second loop of `parse_addresses`: each set-aside token is read as a file of
      targets; a token that is not a file, or a file that does not open, is warned about. */
  method ReadUnresolved(env: Env, resolver: Resolver, paths: seq<string>)
    returns (ips: seq<Addr>, warnings: seq<string>)
    ensures ips == FileIps(env, resolver, paths)
    ensures warnings == Warnings(env, resolver, paths)
  {
    ips, warnings := [], [];
    for k := 0 to |paths|
      invariant ips == FileIps(env, resolver, paths[..k])
      invariant warnings == Warnings(env, resolver, paths[..k])
    {
      assert paths[..k + 1][..k] == paths[..k];
      var path := paths[k];
      if !IsFile(env.fs, path) {
        warnings := warnings + [path];
        continue;
      }
      var read := ReadIpsFromFile(env, path, resolver);
      if read.Some? {
        ips := ips + read.value;
      } else {
        warnings := warnings + [path];
      }
    }
    assert paths[..|paths|] == paths;
  }

  /** `ips.retain(|ip| seen.insert(*ip) && !excluded.any(|c| c.contains(ip)))`: the insertion
      into `seen` happens first, so an excluded address is marked as seen too. */
  method RetainUnseenIncluded(ips: seq<Addr>, excluded: seq<Cidr>) returns (kept: seq<Addr>)
    ensures kept == Retain(ips, excluded)
  {
    var seen: set<Addr> := {};
    kept := [];
    for k := 0 to |ips|
      invariant forall x :: x in seen <==> x in ips[..k]
      invariant kept == Retain(ips[..k], excluded)
    {
      assert ips[..k + 1][..k] == ips[..k];
      var inserted := ips[k] !in seen;
      seen := seen + {ips[k]};
      if inserted && !Excluded(ips[k], excluded) {
        kept := kept + [ips[k]];
      }
    }
    assert ips[..|ips|] == ips;
  }
}
