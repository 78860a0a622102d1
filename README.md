# Telegram webhook guard, modelled in Dafny

`fastapi_security_telegram_webhook` protects a FastAPI webhook route so that
only Telegram can call it. Its whole logic is in
`fastapi_security_telegram_webhook/security.py`:

- `convert_to_ip` turns the peer host of a request into an `IPv4Address`.
  An absent host is an HTTP 500 "IP address cannot be empty". A host that is
  not an IPv4 literal makes `IPv4Address` raise `AddressValueError`.
- `check_ip` accepts the address when one of the configured `IPv4Network`s
  contains it. Otherwise it raises a 403 "Bad IP address".
- `check_secret` compares the secret taken from the request path with the
  configured one using `compare_digest`. A mismatch is a 403 without detail.
- `OnlyTelegramNetwork` and `OnlyTelegramNetworkWithSecret` keep the networks
  they were built with. `DEFAULT_NETWORKS` (149.154.160.0/20 and
  91.108.4.0/22) is used when the networks are `None`. Their `__call__` runs
  host conversion, then the IP check, then (second class only) the secret check.

The model has one Dafny module per concern:

- `Wrappers` holds `Option`.
- `Ipv4` holds addresses (naturals below 2^32) and strict networks (a
  network address with zero host bits, and a prefix of at most 32 bits). It
  models membership the way `ipaddress` tests `address in network`: mask the
  address with the netmask and compare with the network address. Lemmas show
  this is the same as the address interval, and the same as agreeing on the
  top `prefix` bits as in section 3.1 of RFC 4632.
- `Ipv4Text` holds the strict dotted-quad parser that `IPv4Address(str)`
  runs. The string must be non-empty and split at '.' into exactly four
  pieces. Each piece must be 1 to 3 ASCII digits with no leading zero, and
  its value must be at most 255. This is the leading-zero rule of Python
  3.9.5 and later. The module also has the canonical formatter. Lemmas prove
  that the parser accepts exactly the canonical texts.
- `Security` holds the outcome of a call: `Allow`, `Reject(status, detail)`
  for an `HTTPException`, and `ParseError` for the `AddressValueError`. It
  also holds the three checks, `DEFAULT_NETWORKS`, the two call verdicts as
  functions, and the ordering lemmas.
- `Guards` holds the two classes. Their fields are `const`s fixed by the
  constructor. Each class has a `Call` method, proved equal to its verdict
  function.
- `DefaultNetworkCases` holds concrete cases: the boundaries of both
  default ranges, the addresses just past them, 8.8.8.8, non-IPv4 hosts,
  and a guard on 10.0.0.0/8.

Two behaviours of the code worth noting:

- The constructors replace only `None` by the default networks. An empty
  list is stored as given, and such a guard then refuses every request
  (`Security.EmptyNetworksRefuseAll`).
- A host that is present but unparsable does not raise an `HTTPException`
  500 with a detail. It leaks `AddressValueError` from `IPv4Address`, and
  the model keeps this as its own outcome, `ParseError`. `ParseError` is
  never a 403.

## Model

| member | source | states |
|---|---|---|
| `Ipv4.Masked` | fastapi_security_telegram_webhook/security.py:44 | the address masked by a prefix's netmask is a multiple of the block size, at most the address, and less than one block below it |
| `Ipv4.ContainsIffInRange` | fastapi_security_telegram_webhook/security.py:44 | a network contains an address iff the address lies in the interval from the network address up to, but not including, the network address plus 2^(32-prefix) |
| `Ipv4.ContainsIffSameTopBits` | fastapi_security_telegram_webhook/security.py:44 | a network contains an address iff the address and the network address agree on their top `prefix` bits (RFC 4632, section 3.1) |
| `Ipv4.NetworkBoundaries` | fastapi_security_telegram_webhook/security.py:44 | every network fits in the address space, and its first and last addresses are both members |
| `Ipv4Text.ParseOctetIff` | fastapi_security_telegram_webhook/security.py:56 | an octet piece is accepted and has value n iff it is the decimal text of n without leading zeros |
| `Ipv4Text.ParseFormat` | fastapi_security_telegram_webhook/security.py:56 | every address parses back from its dotted-quad text |
| `Ipv4Text.FormatParse` | fastapi_security_telegram_webhook/security.py:56 | any accepted host string is exactly the dotted-quad text of the address it yields |
| `Ipv4Text.ParseAddressIff` | fastapi_security_telegram_webhook/security.py:56 | `IPv4Address(s)` yields `a` iff `s` is the canonical dotted quad of `a`; every other string is refused |
| `Security.CheckSecret` | fastapi_security_telegram_webhook/security.py:28-35 | passes iff the request secret equals the real secret; otherwise a 403 with no detail |
| `Security.AnyContains` | fastapi_security_telegram_webhook/security.py:44 | the left-to-right `any` over the networks is true iff some listed network contains the address |
| `Security.CheckIp` | fastapi_security_telegram_webhook/security.py:38-45 | passes iff some listed network contains the address; otherwise a 403 "Bad IP address" |
| `Security.CheckIpEmpty` | fastapi_security_telegram_webhook/security.py:44 | with no networks, every address gets the 403 "Bad IP address" |
| `Security.CheckIpSameNetworks` | fastapi_security_telegram_webhook/security.py:44 | two network lists with the same members give the same answer for every address |
| `Security.CheckIpPermutation` | fastapi_security_telegram_webhook/security.py:44 | reordering the networks never changes the answer |
| `Security.CheckIpAppend` | fastapi_security_telegram_webhook/security.py:44 | an address passes a concatenation of lists iff it passes one of the parts |
| `Security.ConvertToIp` | fastapi_security_telegram_webhook/security.py:48-56 | an absent host is a 500 "IP address cannot be empty"; a present host yields `a` exactly when it is the dotted quad of `a`, and otherwise a `ParseError`; it never yields a 403 |
| `Security.NetworkVerdictCases` | fastapi_security_telegram_webhook/security.py:81-83 | the network guard gives a 500 for no host and a `ParseError` for an unparsable host; a host spelling `a` gets what `check_ip` says of `a`; a 403 comes only from a parsed address outside the networks |
| `Security.NetworkVerdictAllowIff` | fastapi_security_telegram_webhook/security.py:81-83 | the network guard passes iff the host spells an address that some listed network contains |
| `Security.EmptyNetworksRefuseAll` | fastapi_security_telegram_webhook/security.py:73-83 | a guard whose stored network list is empty refuses every request |
| `Security.SecretVerdictOrder` | fastapi_security_telegram_webhook/security.py:128-131 | the secret guard passes iff the network guard passes and the secrets match; its detail-free 403 happens iff the network passed and the secret did not; when the network guard fails, its outcome is the result |
| `Security.BadIpBeatsCorrectSecret` | fastapi_security_telegram_webhook/security.py:128-131 | a disallowed address with the correct secret gets the 403 "Bad IP address" |
| `Security.AllowedIpWithSecretPasses` | fastapi_security_telegram_webhook/security.py:128-131 | an allowed address with the correct secret passes |
| `Guards.OnlyTelegramNetwork.constructor` | fastapi_security_telegram_webhook/security.py:70-75 | stores `DEFAULT_NETWORKS` for `None`, and any given list unchanged |
| `Guards.OnlyTelegramNetwork.Call` | fastapi_security_telegram_webhook/security.py:77-83 | returns the network verdict: a 500 for an absent host, and a pass iff the host spells an address in a stored network |
| `Guards.OnlyTelegramNetworkWithSecret.constructor` | fastapi_security_telegram_webhook/security.py:111-120 | stores the real secret unchanged, and `DEFAULT_NETWORKS` for `None` or the given list unchanged |
| `Guards.OnlyTelegramNetworkWithSecret.Call` | fastapi_security_telegram_webhook/security.py:122-131 | returns the secret verdict: a pass iff the network guard passes and the secret matches; otherwise the network guard's failure if there is one |
| `DefaultNetworkCases.DefaultNetworksAccept` | fastapi_security_telegram_webhook/security.py:20 | 149.154.160.0, 149.154.160.1, 149.154.175.255, 91.108.4.0, 91.108.4.1 and 91.108.7.255 pass the default networks |
| `DefaultNetworkCases.DefaultNetworksReject` | fastapi_security_telegram_webhook/security.py:20 | 149.154.176.0, 91.108.8.0 and 8.8.8.8 get the 403 "Bad IP address" from the default networks |
| `DefaultNetworkCases.DefaultGuardOnHosts` | fastapi_security_telegram_webhook/security.py:20 | on the default networks, peer hosts "149.154.160.1" and "91.108.4.1" pass and "8.8.8.8" gets the 403 |
| `DefaultNetworkCases.NonIpv4Hosts` | fastapi_security_telegram_webhook/security.py:56 | the peer hosts "::1", "testclient" and "" are a `ParseError` on any networks |
| `DefaultNetworkCases.CustomNetworkGuard` | fastapi_security_telegram_webhook/security.py:117-131 | on 10.0.0.0/8, peer 10.1.2.3 passes with the right secret and gets a detail-free 403 with a wrong one; a Telegram peer gets "Bad IP address" |

## Left out

- `Security.CheckSecret`: `compare_digest` returns only a boolean here, equality of the two strings. Its constant running time cannot be stated in Dafny. The `TypeError` it raises for `str` arguments with non-ASCII characters is not modelled.
- `Ipv4.Masked`: the bitwise AND with the netmask is written arithmetically, as clearing the low 32 - prefix bits (`addr - addr % 2^(32 - prefix)`). It is not written over 32-bit words.
- The framework side is not modelled: the `Request` object and where `request.client.host` comes from, a missing `request.client`, binding the `{secret}` path parameter (`SECRET_PATH_PARAM`), `SecurityBase`, and turning an `HTTPException` or `AddressValueError` into a response. A call takes the peer host as an `Option<string>` and the path secret as a `string`.
- Guards.OnlyTelegramNetwork.constructor: `__init__` stores a reference to the caller's own list, not a copy. Every guard built with `None` shares the one module-level list `DEFAULT_NETWORKS`, and `__call__` reads that list's contents at call time. So changing the caller's list or `DEFAULT_NETWORKS` after construction changes what an existing guard accepts. The model stores the list as an immutable `seq` fixed at construction, so this aliasing and mutation after construction are not modelled.
- Guards.OnlyTelegramNetworkWithSecret.constructor: the same holds for its stored network list. The stored list is shared with the caller, or with `DEFAULT_NETWORKS`, not copied, and mutation after construction is not modelled.
- Ipv4Text.ParseAddressIff: the parser follows the strict leading-zero rule of the `ipaddress` module in Python 3.9.5 and later. Earlier releases accept octets with leading zeros (such as "010.1.2.3"), and on those releases an accepted host need not be the canonical text of its address. The "accepted implies canonical" direction (also `Ipv4Text.FormatParse`) then does not hold.
- The `HTTPBase` scheme metadata (`scheme_name`, `model`) is descriptive only and is not modelled.
- Only the IPv4 part of `ipaddress` is modelled: the `IPv4Address(str)` parser, the `IPv4Network` invariant and membership. Networks are taken as already-built values, so the parsing of network strings (such as "149.154.160.0/20") is not modelled. Non-IPv4 values in the network list are not modelled either.
- The `AddressValueError` messages are not modelled. Every refused host string is one `ParseError`.
- Concurrency is not modelled: the guards' own code never assigns their fields after construction, so there is nothing to synchronise (the lists those fields refer to can still be changed from outside; see the constructor lines above).
- `fastapi_security_telegram_webhook/__init__.py` only re-exports the two classes and is not part of this model.
