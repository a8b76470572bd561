/** The access-control filter of main.go: its configuration, its construction
    and the per-request decision taken by ServeHTTP. */
module Plugin {
  import opened Strings

  /** Go's `(value, error)` return pair. */
  datatype Result<T> = Success(value: T) | Failure(error: string)

  /** The plugin configuration handed over by the proxy host. */
  datatype Config = Config(
    disallowedIPs: seq<string>,
    allowedSubnet: string,
    requiredHeader: string,
    requiredValue: string)

  /** A constructed filter. The downstream handler and the instance name are
      not modelled: neither influences the decision. The Go map to empty
      structs is a set. */
  datatype AccessControl = AccessControl(
    disallowedIPs: set<string>,
    allowedSubnet: string,
    requiredHeader: string,
    requiredValue: string)

  /** What ServeHTTP does with a request: hand it to the next handler, or
      answer 403 Forbidden. */
  datatype Decision = Forward | Forbidden

  /** Header lookup by name; an absent header reads as "". */
  type Header = string -> string

  /** The defaults the host starts from before applying user settings. */
  function CreateConfig(): (c: Config)
    ensures c.disallowedIPs == []
    ensures c.allowedSubnet == "10.0.0.0/8"
    ensures c.requiredHeader == "X-Custom-Header"
    ensures c.requiredValue == "ExpectedValue"
  {
    Config([], "10.0.0.0/8", "X-Custom-Header", "ExpectedValue")
  }

  // ---------------------------------------------------------------------
  // Construction

  /** Every pair of positions of `s` holds different values. */
  predicate Distinct(s: seq<string>)
  {
    forall i, j :: 0 <= i < j < |s| ==> s[i] != s[j]
  }

  /** The blocklist New builds from a list of addresses, accumulated front to
      back as its loop does: an address is blocked exactly when it occurs in
      the list. */
  function Blocklist(ips: seq<string>): (blocked: set<string>)
    ensures forall ip :: ip in blocked <==> ip in ips
  {
    if ips == [] then {}
    else
      var init := ips[..|ips| - 1];
      assert ips == init + [ips[|ips| - 1]];
      Blocklist(init) + {ips[|ips| - 1]}
  }

  /** The filter New returns for `config`: the listed addresses become the
      blocklist, the other settings are carried over as they are. */
  function Build(config: Config): (a: AccessControl)
    ensures forall ip :: ip in a.disallowedIPs <==> ip in config.disallowedIPs
    ensures a.allowedSubnet == config.allowedSubnet
    ensures a.requiredHeader == config.requiredHeader
    ensures a.requiredValue == config.requiredValue
  {
    AccessControl(
      Blocklist(config.disallowedIPs),
      config.allowedSubnet,
      config.requiredHeader,
      config.requiredValue)
  }

  /** Repeating an address already listed leaves the blocklist as it was. */
  lemma BlocklistDuplicate(ips: seq<string>, ip: string)
    requires ip in ips
    ensures Blocklist(ips + [ip]) == Blocklist(ips)
  {
  }

  /** A list extended by one address has no duplicates exactly when the
      list had none and did not hold that address. */
  lemma DistinctSnoc(init: seq<string>, last: string)
    ensures Distinct(init + [last]) <==> Distinct(init) && last !in init
  {
    var ips := init + [last];
    if last in init {
      var k :| 0 <= k < |init| && init[k] == last;
      assert ips[k] == ips[|init|];
    }
    if !Distinct(init) {
      var i, j :| 0 <= i < j < |init| && init[i] == init[j];
      assert ips[i] == ips[j];
    }
    if Distinct(init) && last !in init {
      forall i, j | 0 <= i < j < |ips| ensures ips[i] != ips[j] {
        assert ips[i] == init[i];
        if j < |init| {
          assert ips[j] == init[j];
        }
      }
    }
  }

  /** Duplicates collapse: the blocklist is never larger than the list, and
      is exactly as large when the list has no duplicates. */
  lemma {:induction false} BlocklistSize(ips: seq<string>)
    ensures |Blocklist(ips)| <= |ips|
    ensures |Blocklist(ips)| == |ips| <==> Distinct(ips)
  {
    if ips != [] {
      var init, last := ips[..|ips| - 1], ips[|ips| - 1];
      assert ips == init + [last];
      BlocklistSize(init);
      DistinctSnoc(init, last);
      var blocked := Blocklist(init);
      assert Blocklist(ips) == blocked + {last};
      assert last in blocked <==> last in init;
      if last in init {
        assert blocked + {last} == blocked;
      } else {
        assert |blocked + {last}| == |blocked| + 1;
      }
    }
  }

  /** main.go `New`: copies the configured addresses into a set and keeps
      the other settings unchanged. It never returns an error. */
  method New(config: Config) returns (r: Result<AccessControl>)
    ensures r.Success?
    ensures r.value == Build(config)
    ensures forall ip :: ip in r.value.disallowedIPs <==> ip in config.disallowedIPs
    ensures r.value.allowedSubnet == config.allowedSubnet
    ensures r.value.requiredHeader == config.requiredHeader
    ensures r.value.requiredValue == config.requiredValue
  {
    var ips := config.disallowedIPs;
    var disallowed: set<string> := {};
    for i := 0 to |ips|
      invariant disallowed == Blocklist(ips[..i])
    {
      assert ips[..i + 1][..i] == ips[..i];
      disallowed := disallowed + {ips[i]};
    }
    assert ips[..|ips|] == ips;
    r := Success(AccessControl(disallowed, config.allowedSubnet, config.requiredHeader, config.requiredValue));
  }

  // ---------------------------------------------------------------------
  // Address normalisation

  /** The remote address cut at its last ':' (the part before it is kept);
      an address without ':' is returned unchanged. */
  function StripPort(addr: string): (host: string)
    ensures ':' !in addr ==> host == addr
    ensures ':' in addr ==>
      && |host| < |addr|
      && host == addr[..|host|]
      && addr[|host|] == ':'
      && ':' !in addr[|host| + 1..]
  {
    var idx := LastIndex(addr, ':');
    if idx != -1 then addr[..idx] else addr
  }

  /** StripPort undoes appending a colon-free port: whatever precedes that
      last ':' (brackets, further colons) is kept as it is. */
  lemma StripHostPort(host: string, port: string)
    requires ':' !in port
    ensures StripPort(host + ":" + port) == host
  {
    var addr := host + ":" + port;
    assert addr[|host|] == ':';
    assert addr[|host| + 1..] == port;
    assert addr[..|host|] == host;
  }

  /** Stripping a second time changes nothing exactly when the first strip
      left no ':' behind. */
  lemma StripPortIdempotentIff(addr: string)
    ensures StripPort(StripPort(addr)) == StripPort(addr) <==> ':' !in StripPort(addr)
  {
  }

  /** Concrete cuts: a bracketed IPv6 address keeps its brackets, a port-less
      IPv6 loopback is cut to ":", and stripping twice can cut twice. */
  lemma StripPortExamples()
    ensures StripPort("[2001:db8::1]:443") == "[2001:db8::1]"
    ensures StripPort("::1") == ":"
    ensures StripPort("a:b:c") == "a:b"
    ensures StripPort(StripPort("a:b:c")) == "a"
  {
  }

  /** An address with nothing before its last ':' strips to the empty
      string. */
  lemma StripPortEmptyHost(port: string)
    requires ':' !in port
    ensures StripPort(":" + port) == ""
  {
  }

  // ---------------------------------------------------------------------
  // The decision taken by ServeHTTP

  /** main.go `ServeHTTP` reduced to its outcome. The subnet setting is not
      consulted: its check is still a TODO in the source. */
  function Decide(a: AccessControl, remoteAddr: string, get: Header): (d: Decision)
    ensures d == Forward ==> get(a.requiredHeader) == a.requiredValue
    ensures d == Forward ==> StripPort(remoteAddr) !in a.disallowedIPs
  {
    var clientIP := StripPort(remoteAddr);
    if clientIP in a.disallowedIPs then Forbidden
    else if get(a.requiredHeader) == a.requiredValue then Forward
    else Forbidden
  }

  /** A blocked address is refused whatever headers the request carries,
      the correct one included. */
  lemma BlockedIsForbidden(a: AccessControl, remoteAddr: string, get: Header)
    requires StripPort(remoteAddr) in a.disallowedIPs
    ensures Decide(a, remoteAddr, get) == Forbidden
  {
  }

  /** An unblocked address carrying the required header value is forwarded. */
  lemma MatchingHeaderForwards(a: AccessControl, remoteAddr: string, get: Header)
    requires StripPort(remoteAddr) !in a.disallowedIPs
    requires get(a.requiredHeader) == a.requiredValue
    ensures Decide(a, remoteAddr, get) == Forward
  {
  }

  /** Forwarding happens exactly in the case above; every other request is
      refused, and no request is both. */
  lemma ForwardIff(a: AccessControl, remoteAddr: string, get: Header)
    ensures Decide(a, remoteAddr, get) == Forward <==>
      StripPort(remoteAddr) !in a.disallowedIPs && get(a.requiredHeader) == a.requiredValue
    ensures Decide(a, remoteAddr, get) == Forbidden <==>
      StripPort(remoteAddr) in a.disallowedIPs || get(a.requiredHeader) != a.requiredValue
  {
  }

  /** Any address listed in the configuration is refused by the filter New
      builds from it, for every header map. */
  lemma ConfiguredAddressForbidden(config: Config, remoteAddr: string, get: Header)
    requires StripPort(remoteAddr) in config.disallowedIPs
    ensures Decide(Build(config), remoteAddr, get) == Forbidden
  {
  }

  /** Two configurations that differ only in the subnet setting decide every
      request alike. */
  lemma SubnetIrrelevant(c1: Config, c2: Config, remoteAddr: string, get: Header)
    requires c1.(allowedSubnet := c2.allowedSubnet) == c2
    ensures Decide(Build(c1), remoteAddr, get) == Decide(Build(c2), remoteAddr, get)
  {
  }

  /** With the defaults nothing is blocked, and a request is forwarded exactly
      when its X-Custom-Header reads ExpectedValue; the subnet default is
      10.0.0.0/8. */
  lemma DefaultPolicy(remoteAddr: string, get: Header)
    ensures CreateConfig().disallowedIPs == [] && Build(CreateConfig()).disallowedIPs == {}
    ensures CreateConfig().allowedSubnet == "10.0.0.0/8"
    ensures Decide(Build(CreateConfig()), remoteAddr, get) == Forward <==>
      get("X-Custom-Header") == "ExpectedValue"
  {
  }

  /** A request without any header is forwarded when the required value is
      the empty string, since an absent header reads as "". */
  lemma NoHeadersMatchEmptyValue(a: AccessControl, remoteAddr: string)
    requires StripPort(remoteAddr) !in a.disallowedIPs
    requires a.requiredValue == ""
    ensures Decide(a, remoteAddr, _ => "") == Forward
  {
  }

  /** A blocklisted client is refused even with the correct header:
      configuration ["1.2.3.4"], request from 1.2.3.4:5555. */
  lemma BlockedClientScenario(get: Header)
    requires get("X-Custom-Header") == "ExpectedValue"
    ensures Decide(Build(CreateConfig().(disallowedIPs := ["1.2.3.4"])), "1.2.3.4:5555", get) == Forbidden
  {
    StripHostPort("1.2.3.4", "5555");
    assert "1.2.3.4" + ":" + "5555" == "1.2.3.4:5555";
  }
}
