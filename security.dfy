/**
 * The checks of the Telegram webhook guard and what a guard call decides.
 * A Python `HTTPException(status_code, detail)` is a `Reject` outcome, the
 * `AddressValueError` that `IPv4Address` raises on a bad host string is
 * `ParseError`, and returning normally is `Allow`.
 */
module Security {
  import opened Wrappers
  import opened Ipv4
  import opened Ipv4Text

  /** What one guard call does with a request. */
  datatype Outcome = Allow | Reject(status: int, detail: Option<string>) | ParseError

  /** A value, or the outcome that was raised instead of producing it. */
  datatype Result<T> = Ok(value: T) | Err(error: Outcome)

  const BadIpDetail: string := "Bad IP address"
  const EmptyHostDetail: string := "IP address cannot be empty"

  /** `DEFAULT_NETWORKS`, Telegram's webhook source ranges. */
  const DefaultNetworks: seq<Network> := TelegramNetworks()

  /** 149.154.160.0/20 and 91.108.4.0/22, in this order. */
  function TelegramNetworks(): seq<Network>
  {
    DefaultBlockSizes();
    [Cidr(FromOctets(149, 154, 160, 0), 20), Cidr(FromOctets(91, 108, 4, 0), 22)]
  }

  lemma DefaultBlockSizes()
    ensures BlockSize(20) == 0x1000 && BlockSize(22) == 0x400
  {
  }

  /**
   * `secrets.compare_digest` on two strings, taken for its boolean answer:
   * the strings are equal.
   */
  function CompareDigest(a: string, b: string): bool
  {
    a == b
  }

  /** `check_secret`: returns normally on a matching secret, else a 403 without detail. */
  function CheckSecret(requestSecret: string, realSecret: string): (r: Outcome)
    ensures r == Allow <==> requestSecret == realSecret
    ensures r != Allow ==> r == Reject(403, None)
  {
    if !CompareDigest(requestSecret, realSecret) then Reject(403, None) else Allow
  }

  /** `any(ip in network for network in networks)`, scanning left to right. */
  function AnyContains(networks: seq<Network>, ip: Address): (r: bool)
    ensures r <==> exists net :: net in networks && Contains(net, ip)
  {
    if |networks| == 0 then false
    else if Contains(networks[0], ip) then true
    else AnyContains(networks[1..], ip)
  }

  /** `check_ip`: returns normally when some network holds the address, else a 403 "Bad IP address". */
  function CheckIp(ip: Address, networks: seq<Network>): (r: Outcome)
    ensures r == Allow <==> exists net :: net in networks && Contains(net, ip)
    ensures r != Allow ==> r == Reject(403, Some(BadIpDetail))
  {
    if !AnyContains(networks, ip) then Reject(403, Some(BadIpDetail)) else Allow
  }

  /**
   * `convert_to_ip`: an absent host is a 500 "IP address cannot be empty";
   * a present one is parsed by `IPv4Address`, which either yields the
   * address the host spells or fails with `ParseError`.
   */
  function ConvertToIp(requestHost: Option<string>): (r: Result<Address>)
    ensures requestHost.None? ==> r == Err(Reject(500, Some(EmptyHostDetail)))
    ensures requestHost.Some? && r.Err? ==> r.error == ParseError
    ensures r.Ok? ==> requestHost == Some(FormatAddress(r.value))
    ensures forall a: Address :: requestHost == Some(FormatAddress(a)) ==> r == Ok(a)
  {
    if requestHost.None? then Err(Reject(500, Some(EmptyHostDetail)))
    else
      var host := requestHost.value;
      SpelledAddresses(host);
      match ParseAddress(host)
      case None => Err(ParseError)
      case Some(a) => Ok(a)
  }

  /** The addresses a host string spells are those it parses to. */
  lemma SpelledAddresses(host: string)
    ensures forall a: Address :: host == FormatAddress(a) <==> ParseAddress(host) == Some(a)
  {
    forall a: Address
      ensures host == FormatAddress(a) <==> ParseAddress(host) == Some(a)
    {
      ParseAddressIff(host, a);
    }
  }

  /** `OnlyTelegramNetwork.__call__`: convert the host, then check the address. */
  function NetworkVerdict(networks: seq<Network>, requestHost: Option<string>): Outcome
  {
    match ConvertToIp(requestHost)
    case Err(e) => e
    case Ok(ip) => CheckIp(ip, networks)
  }

  /** `OnlyTelegramNetworkWithSecret.__call__`: the network verdict, then the secret check. */
  function SecretVerdict(networks: seq<Network>, realSecret: string,
                         requestHost: Option<string>, requestSecret: string): Outcome
  {
    match NetworkVerdict(networks, requestHost)
    case Allow => CheckSecret(requestSecret, realSecret)
    case other => other
  }

  // ---- properties of the checks ----

  /** With no networks at all, every address is refused. */
  lemma CheckIpEmpty(ip: Address)
    ensures CheckIp(ip, []) == Reject(403, Some(BadIpDetail))
  {
  }

  /** `check_ip` looks only at which networks are listed, not at their order or repetitions. */
  lemma CheckIpSameNetworks(ip: Address, ns1: seq<Network>, ns2: seq<Network>)
    requires forall net :: net in ns1 <==> net in ns2
    ensures CheckIp(ip, ns1) == CheckIp(ip, ns2)
  {
  }

  /** In particular, reordering the networks never changes the answer. */
  lemma CheckIpPermutation(ip: Address, ns1: seq<Network>, ns2: seq<Network>)
    requires multiset(ns1) == multiset(ns2)
    ensures CheckIp(ip, ns1) == CheckIp(ip, ns2)
  {
    forall net
      ensures net in ns1 <==> net in ns2
    {
      assert net in ns1 <==> net in multiset(ns1);
      assert net in ns2 <==> net in multiset(ns2);
    }
    CheckIpSameNetworks(ip, ns1, ns2);
  }

  /** A concatenation of two network lists accepts an address iff one of the two lists does. */
  lemma CheckIpAppend(ip: Address, ns1: seq<Network>, ns2: seq<Network>)
    ensures CheckIp(ip, ns1 + ns2) == Allow <==> CheckIp(ip, ns1) == Allow || CheckIp(ip, ns2) == Allow
  {
  }

  // ---- properties of the guard calls ----

  /**
   * The network guard: an absent host is a 500, a host that is not a
   * dotted quad is a `ParseError`, and the host of address `a` gets what
   * `check_ip` says of `a`. Only the last case can be a 403.
   */
  lemma NetworkVerdictCases(networks: seq<Network>, requestHost: Option<string>)
    ensures requestHost.None? ==> NetworkVerdict(networks, requestHost) == Reject(500, Some(EmptyHostDetail))
    ensures requestHost.Some? && ParseAddress(requestHost.value).None? ==>
              NetworkVerdict(networks, requestHost) == ParseError
    ensures forall a: Address :: requestHost == Some(FormatAddress(a)) ==>
              NetworkVerdict(networks, requestHost) == CheckIp(a, networks)
    ensures NetworkVerdict(networks, requestHost).Reject? && NetworkVerdict(networks, requestHost).status == 403 ==>
              exists a: Address :: requestHost == Some(FormatAddress(a)) && CheckIp(a, networks) != Allow
  {
  }

  /** The network guard accepts exactly the hosts that spell an address inside a listed network. */
  lemma NetworkVerdictAllowIff(networks: seq<Network>, requestHost: Option<string>)
    ensures NetworkVerdict(networks, requestHost) == Allow <==>
              exists a: Address, net :: requestHost == Some(FormatAddress(a)) && net in networks && Contains(net, a)
  {
  }

  /** An empty network list, which the constructors store as given, refuses every request. */
  lemma EmptyNetworksRefuseAll(requestHost: Option<string>)
    ensures NetworkVerdict([], requestHost) != Allow
  {
  }

  /**
   * The secret guard runs the network guard first and reaches the secret
   * check only when that passes: it accepts exactly when the network guard
   * accepts and the secrets match, its detail-free 403 means the network
   * passed and the secret did not, and any other outcome is the network
   * guard's own.
   */
  lemma SecretVerdictOrder(networks: seq<Network>, realSecret: string,
                           requestHost: Option<string>, requestSecret: string)
    ensures SecretVerdict(networks, realSecret, requestHost, requestSecret) == Allow <==>
              NetworkVerdict(networks, requestHost) == Allow && requestSecret == realSecret
    ensures SecretVerdict(networks, realSecret, requestHost, requestSecret) == Reject(403, None) <==>
              NetworkVerdict(networks, requestHost) == Allow && requestSecret != realSecret
    ensures NetworkVerdict(networks, requestHost) != Allow ==>
              SecretVerdict(networks, realSecret, requestHost, requestSecret) == NetworkVerdict(networks, requestHost)
  {
  }

  /** A disallowed address is refused with "Bad IP address" even when the secret is right. */
  lemma BadIpBeatsCorrectSecret(networks: seq<Network>, secret: string, a: Address)
    requires CheckIp(a, networks) != Allow
    ensures SecretVerdict(networks, secret, Some(FormatAddress(a)), secret) == Reject(403, Some(BadIpDetail))
  {
  }

  /** An allowed address with the right secret is let through. */
  lemma AllowedIpWithSecretPasses(networks: seq<Network>, secret: string, a: Address)
    requires CheckIp(a, networks) == Allow
    ensures SecretVerdict(networks, secret, Some(FormatAddress(a)), secret) == Allow
  {
  }
}
