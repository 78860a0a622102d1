/**
 * How the default networks, and a custom list, decide particular peers:
 * the first and last addresses of both Telegram ranges pass, the addresses
 * just past them and a public resolver do not, and hosts that are not
 * dotted quads never reach the address check.
 */
module DefaultNetworkCases {
  import opened Wrappers
  import opened Ipv4
  import opened Ipv4Text
  import opened Security

  /** The text o0.o1.o2.o3. */
  function Quad(o0: Octet, o1: Octet, o2: Octet, o3: Octet): string
  {
    OctetString(o0) + "." + OctetString(o1) + "." + OctetString(o2) + "." + OctetString(o3)
  }

  lemma FormatOfOctets(o0: Octet, o1: Octet, o2: Octet, o3: Octet)
    ensures FormatAddress(FromOctets(o0, o1, o2, o3)) == Quad(o0, o1, o2, o3)
  {
    ToOctetsOfOctets(o0, o1, o2, o3);
    var p := [OctetString(o0), OctetString(o1), OctetString(o2), OctetString(o3)];
    assert p[1..][1..][1..] == [OctetString(o3)];
    assert p[1..][1..] == [OctetString(o2), OctetString(o3)];
    assert p[1..] == [OctetString(o1), OctetString(o2), OctetString(o3)];
    assert Join(p[1..][1..], '.') == OctetString(o2) + "." + OctetString(o3);
    assert Join(p[1..], '.') == OctetString(o1) + "." + OctetString(o2) + "." + OctetString(o3);
  }

  /** The network guard decides the host o0.o1.o2.o3 as `check_ip` decides that address. */
  lemma HostVerdict(networks: seq<Network>, o0: Octet, o1: Octet, o2: Octet, o3: Octet)
    ensures NetworkVerdict(networks, Some(Quad(o0, o1, o2, o3))) == CheckIp(FromOctets(o0, o1, o2, o3), networks)
  {
    FormatOfOctets(o0, o1, o2, o3);
    NetworkVerdictCases(networks, Some(FormatAddress(FromOctets(o0, o1, o2, o3))));
  }

  lemma DefaultNetworksValues()
    ensures DefaultNetworks == [Cidr(0x959A_A000, 20), Cidr(0x5B6C_0400, 22)]
  {
  }

  /** The boundaries of 149.154.160.0/20 and of 91.108.4.0/22, and one address inside each, pass. */
  lemma DefaultNetworksAccept()
    ensures CheckIp(FromOctets(149, 154, 160, 0), DefaultNetworks) == Allow
    ensures CheckIp(FromOctets(149, 154, 160, 1), DefaultNetworks) == Allow
    ensures CheckIp(FromOctets(149, 154, 175, 255), DefaultNetworks) == Allow
    ensures CheckIp(FromOctets(91, 108, 4, 0), DefaultNetworks) == Allow
    ensures CheckIp(FromOctets(91, 108, 4, 1), DefaultNetworks) == Allow
    ensures CheckIp(FromOctets(91, 108, 7, 255), DefaultNetworks) == Allow
  {
    DefaultNetworksValues();
    DefaultBlockSizes();
    assert Contains(DefaultNetworks[0], FromOctets(149, 154, 160, 0));
    assert Contains(DefaultNetworks[0], FromOctets(149, 154, 160, 1));
    assert Contains(DefaultNetworks[0], FromOctets(149, 154, 175, 255));
    assert Contains(DefaultNetworks[1], FromOctets(91, 108, 4, 0));
    assert Contains(DefaultNetworks[1], FromOctets(91, 108, 4, 1));
    assert Contains(DefaultNetworks[1], FromOctets(91, 108, 7, 255));
  }

  /** The addresses just past both ranges, and 8.8.8.8, are refused with "Bad IP address". */
  lemma DefaultNetworksReject()
    ensures CheckIp(FromOctets(149, 154, 176, 0), DefaultNetworks) == Reject(403, Some(BadIpDetail))
    ensures CheckIp(FromOctets(91, 108, 8, 0), DefaultNetworks) == Reject(403, Some(BadIpDetail))
    ensures CheckIp(FromOctets(8, 8, 8, 8), DefaultNetworks) == Reject(403, Some(BadIpDetail))
  {
    DefaultNetworksValues();
    DefaultBlockSizes();
    assert forall net :: net in DefaultNetworks ==> !Contains(net, FromOctets(149, 154, 176, 0));
    assert forall net :: net in DefaultNetworks ==> !Contains(net, FromOctets(91, 108, 8, 0));
    assert forall net :: net in DefaultNetworks ==> !Contains(net, FromOctets(8, 8, 8, 8));
  }

  lemma TelegramHostsText()
    ensures Quad(149, 154, 160, 1) == "149.154.160.1"
    ensures Quad(91, 108, 4, 1) == "91.108.4.1"
    ensures Quad(8, 8, 8, 8) == "8.8.8.8"
  {
  }

  /** A guard on the default networks passes peers 149.154.160.1 and 91.108.4.1 and refuses 8.8.8.8. */
  lemma DefaultGuardOnHosts()
    ensures NetworkVerdict(DefaultNetworks, Some("149.154.160.1")) == Allow
    ensures NetworkVerdict(DefaultNetworks, Some("91.108.4.1")) == Allow
    ensures NetworkVerdict(DefaultNetworks, Some("8.8.8.8")) == Reject(403, Some(BadIpDetail))
  {
    TelegramHostsText();
    DefaultNetworksAccept();
    DefaultNetworksReject();
    HostVerdict(DefaultNetworks, 149, 154, 160, 1);
    HostVerdict(DefaultNetworks, 91, 108, 4, 1);
    HostVerdict(DefaultNetworks, 8, 8, 8, 8);
  }

  /** A peer host that is an IPv6 literal or a name is a `ParseError` on any networks, never a 403. */
  lemma NonIpv4Hosts(networks: seq<Network>)
    ensures NetworkVerdict(networks, Some("::1")) == ParseError
    ensures NetworkVerdict(networks, Some("testclient")) == ParseError
    ensures NetworkVerdict(networks, Some("")) == ParseError
  {
  }

  lemma PrefixEightBlock()
    ensures BlockSize(8) == 0x100_0000
  {
    assert Pow2(8) == 0x100;
    assert Pow2(16) == 0x1_0000;
    assert Pow2(24) == 0x100_0000;
  }

  /** The one-network list 10.0.0.0/8. */
  function TenSlashEight(): seq<Network>
  {
    PrefixEightBlock();
    [Cidr(0x0A00_0000, 8)]
  }

  /**
   * A secret guard built on 10.0.0.0/8 lets peer 10.1.2.3 through with the
   * right secret, refuses it with a detail-free 403 with a wrong one, and
   * refuses a Telegram peer with "Bad IP address" whatever the secret.
   */
  lemma CustomNetworkGuard(secret: string, wrong: string)
    requires wrong != secret
    ensures SecretVerdict(TenSlashEight(), secret, Some("10.1.2.3"), secret) == Allow
    ensures SecretVerdict(TenSlashEight(), secret, Some("10.1.2.3"), wrong) == Reject(403, None)
    ensures SecretVerdict(TenSlashEight(), secret, Some("149.154.160.1"), secret) == Reject(403, Some(BadIpDetail))
  {
    var custom := TenSlashEight();
    PrefixEightBlock();
    assert Quad(10, 1, 2, 3) == "10.1.2.3" by {
      assert OctetString(10) == "10";
      assert OctetString(1) == "1";
      assert OctetString(2) == "2";
      assert OctetString(3) == "3";
    }
    TelegramHostsText();
    assert Contains(custom[0], FromOctets(10, 1, 2, 3));
    assert !Contains(custom[0], FromOctets(149, 154, 160, 1));
    HostVerdict(custom, 10, 1, 2, 3);
    HostVerdict(custom, 149, 154, 160, 1);
    SecretVerdictOrder(custom, secret, Some("10.1.2.3"), wrong);
    SecretVerdictOrder(custom, secret, Some("149.154.160.1"), secret);
  }
}
