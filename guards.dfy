/**
 * The two guard classes. Each keeps the networks (and, for the second, the
 * secret) it was built with and never changes them; a call decides one
 * request from its peer host (and path secret).
 */
module Guards {
  import opened Wrappers
  import opened Ipv4
  import opened Security

  /** `OnlyTelegramNetwork`: lets a request through only from a listed network. */
  class OnlyTelegramNetwork {
    /** The networks as they are at construction; later changes to the list object are not seen. */
    const telegramNetworks: seq<Network>

    /** `None` selects `DEFAULT_NETWORKS`; any given list, even an empty one, is kept as it is. */
    constructor (telegramNetworks: Option<seq<Network>>)
      ensures telegramNetworks.None? ==> this.telegramNetworks == DefaultNetworks
      ensures telegramNetworks.Some? ==> this.telegramNetworks == telegramNetworks.value
    {
      var networks := if telegramNetworks.None? then DefaultNetworks else telegramNetworks.value;
      this.telegramNetworks := networks;
    }

    /** `__call__`: convert the peer host to an address, then check it against the networks. */
    method Call(requestHost: Option<string>) returns (r: Outcome)
      ensures r == NetworkVerdict(telegramNetworks, requestHost)
      ensures requestHost.None? ==> r == Reject(500, Some(EmptyHostDetail))
      ensures r == Allow <==> exists ip: Address, net :: requestHost == Some(Ipv4Text.FormatAddress(ip))
                                                     && net in telegramNetworks && Contains(net, ip)
    {
      var ip := ConvertToIp(requestHost);
      if ip.Err? {
        return ip.error;
      }
      r := CheckIp(ip.value, telegramNetworks);
      NetworkVerdictAllowIff(telegramNetworks, requestHost);
    }
  }

  /** `OnlyTelegramNetworkWithSecret`: a listed network and the right path secret. */
  class OnlyTelegramNetworkWithSecret {
    const realSecret: string
    /** The networks as they are at construction; later changes to the list object are not seen. */
    const telegramNetworks: seq<Network>

    /** Keeps the secret as given; `None` networks select `DEFAULT_NETWORKS`, any given list is kept. */
    constructor (realSecret: string, telegramNetworks: Option<seq<Network>>)
      ensures this.realSecret == realSecret
      ensures telegramNetworks.None? ==> this.telegramNetworks == DefaultNetworks
      ensures telegramNetworks.Some? ==> this.telegramNetworks == telegramNetworks.value
    {
      this.realSecret := realSecret;
      var networks := if telegramNetworks.None? then DefaultNetworks else telegramNetworks.value;
      this.telegramNetworks := networks;
    }

    /**
     * `__call__`: convert the peer host, check the address, then compare the
     * secret; the first check that fails decides.
     */
    method Call(requestHost: Option<string>, requestSecret: string) returns (r: Outcome)
      ensures r == SecretVerdict(telegramNetworks, realSecret, requestHost, requestSecret)
      ensures r == Allow <==> NetworkVerdict(telegramNetworks, requestHost) == Allow && requestSecret == realSecret
      ensures NetworkVerdict(telegramNetworks, requestHost) != Allow ==> r == NetworkVerdict(telegramNetworks, requestHost)
    {
      var ip := ConvertToIp(requestHost);
      if ip.Err? {
        return ip.error;
      }
      r := CheckIp(ip.value, telegramNetworks);
      if r != Allow {
        return;
      }
      r := CheckSecret(requestSecret, realSecret);
    }
  }
}
