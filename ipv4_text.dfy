/**
 * The text form of IPv4 addresses: the strict dotted-quad parser behind
 * `IPv4Address(str)` in Python's `ipaddress` module (releases that refuse
 * leading zeros, 3.9.5 and later), and the canonical dotted-quad format that
 * it accepts exactly.
 */
module Ipv4Text {
  import opened Wrappers
  import opened Ipv4

  predicate IsDigit(c: char)
  {
    '0' <= c <= '9'
  }

  /** `str.isascii() and str.isdigit()`. */
  predicate AllDigits(s: string)
  {
    forall i :: 0 <= i < |s| ==> IsDigit(s[i])
  }

  function DigitValue(c: char): nat
    requires IsDigit(c)
  {
    c as int - '0' as int
  }

  function Digit(d: nat): (c: char)
    requires d < 10
    ensures IsDigit(c) && DigitValue(c) == d
  {
    ('0' as int + d) as char
  }

  /** `int(s, 10)` on a string of ASCII digits. */
  function DecimalValue(s: string): nat
    requires AllDigits(s)
  {
    if |s| == 0 then 0 else 10 * DecimalValue(s[..|s| - 1]) + DigitValue(s[|s| - 1])
  }

  // ---- str.split and its inverse ----

  /** `s.split(sep)`: the maximal runs between separators, empty runs included. */
  function Split(s: string, sep: char): (parts: seq<string>)
    ensures |parts| >= 1
    ensures forall i :: 0 <= i < |parts| ==> sep !in parts[i]
  {
    if |s| == 0 then [""]
    else
      var rest := Split(s[1..], sep);
      if s[0] == sep then [""] + rest
      else [[s[0]] + rest[0]] + rest[1..]
  }

  /** `sep.join(parts)`. */
  function Join(parts: seq<string>, sep: char): string
    requires |parts| >= 1
  {
    if |parts| == 1 then parts[0] else parts[0] + [sep] + Join(parts[1..], sep)
  }

  lemma {:induction false} JoinConsHead(c: char, parts: seq<string>, sep: char)
    requires |parts| >= 1
    ensures Join([[c] + parts[0]] + parts[1..], sep) == [c] + Join(parts, sep)
  {
  }

  /** Joining the pieces of a split gives back the string. */
  lemma {:induction false} JoinSplit(s: string, sep: char)
    ensures Join(Split(s, sep), sep) == s
  {
    if |s| > 0 {
      var rest := Split(s[1..], sep);
      JoinSplit(s[1..], sep);
      if s[0] == sep {
        assert ([""] + rest)[1..] == rest;
      } else {
        JoinConsHead(s[0], rest, sep);
      }
      assert s == [s[0]] + s[1..];
    }
  }

  lemma {:induction false} SplitWithoutSeparator(x: string, sep: char)
    requires sep !in x
    ensures Split(x, sep) == [x]
  {
    if |x| > 0 {
      SplitWithoutSeparator(x[1..], sep);
      assert x == [x[0]] + x[1..];
    }
  }

  lemma {:induction false} SplitAtFirstSeparator(x: string, sep: char, rest: string)
    requires sep !in x
    ensures Split(x + [sep] + rest, sep) == [x] + Split(rest, sep)
  {
    var s := x + [sep] + rest;
    if |x| == 0 {
      assert s == [sep] + rest;
      assert s[1..] == rest;
    } else {
      assert s[1..] == x[1..] + [sep] + rest;
      SplitAtFirstSeparator(x[1..], sep, rest);
      assert x == [x[0]] + x[1..];
    }
  }

  /** Splitting a join of separator-free pieces gives back the pieces. */
  lemma {:induction false} SplitJoin(parts: seq<string>, sep: char)
    requires |parts| >= 1
    requires forall i :: 0 <= i < |parts| ==> sep !in parts[i]
    ensures Split(Join(parts, sep), sep) == parts
  {
    if |parts| == 1 {
      SplitWithoutSeparator(parts[0], sep);
    } else {
      SplitJoin(parts[1..], sep);
      SplitAtFirstSeparator(parts[0], sep, Join(parts[1..], sep));
      assert parts == [parts[0]] + parts[1..];
    }
  }

  // ---- octets ----

  /**
   * `_parse_octet`: a non-empty run of at most three ASCII digits, without a
   * leading zero unless it is "0" itself, whose value is at most 255.
   */
  function ParseOctet(s: string): Option<Octet>
  {
    if |s| == 0 then None
    else if !AllDigits(s) then None
    else if |s| > 3 then None
    else if s != "0" && s[0] == '0' then None
    else if DecimalValue(s) > 255 then None
    else Some(DecimalValue(s))
  }

  /** The decimal form of an octet, without leading zeros (`str(n)`). */
  function OctetString(n: Octet): string
  {
    if n < 10 then [Digit(n)]
    else if n < 100 then [Digit(n / 10), Digit(n % 10)]
    else [Digit(n / 100), Digit(n / 10 % 10), Digit(n % 10)]
  }

  lemma DigitOfValue(c: char)
    requires IsDigit(c)
    ensures Digit(DigitValue(c)) == c
  {
  }

  lemma ParseOctetString(n: Octet)
    ensures ParseOctet(OctetString(n)) == Some(n)
  {
    var s := OctetString(n);
    assert AllDigits(s);
    if n >= 100 {
      assert s[..2][..1] == s[..1];
      assert DecimalValue(s[..1]) == n / 100;
      assert DecimalValue(s[..2]) == 10 * (n / 100) + n / 10 % 10;
    } else if n >= 10 {
      assert DecimalValue(s[..1]) == n / 10;
    }
  }

  lemma OctetStringOfParse(s: string)
    requires ParseOctet(s).Some?
    ensures s == OctetString(ParseOctet(s).value)
  {
    var n := ParseOctet(s).value;
    assert 1 <= |s| <= 3;
    DigitOfValue(s[0]);
    DigitOfValue(s[|s| - 1]);
    if |s| == 2 {
      assert DecimalValue(s[..1]) == DigitValue(s[0]);
      assert n == 10 * DigitValue(s[0]) + DigitValue(s[1]);
      assert s == [s[0], s[1]];
    } else if |s| == 3 {
      DigitOfValue(s[1]);
      assert s[..2][..1] == s[..1];
      assert DecimalValue(s[..1]) == DigitValue(s[0]);
      assert DecimalValue(s[..2]) == 10 * DigitValue(s[0]) + DigitValue(s[1]);
      assert n == 100 * DigitValue(s[0]) + 10 * DigitValue(s[1]) + DigitValue(s[2]);
      assert s == [s[0], s[1], s[2]];
    } else {
      assert s == [s[0]];
    }
  }

  /** The octet text forms are exactly the canonical decimal strings. */
  lemma ParseOctetIff(s: string, n: Octet)
    ensures ParseOctet(s) == Some(n) <==> s == OctetString(n)
  {
    if ParseOctet(s) == Some(n) {
      OctetStringOfParse(s);
    }
    if s == OctetString(n) {
      ParseOctetString(n);
    }
  }

  // ---- addresses ----

  /** `int.from_bytes(octets, 'big')` for four octets. */
  function FromOctets(o0: Octet, o1: Octet, o2: Octet, o3: Octet): Address
  {
    ((o0 * 256 + o1) * 256 + o2) * 256 + o3
  }

  /** The four octets of an address, most significant first. */
  function ToOctets(a: Address): (octets: seq<Octet>)
    ensures |octets| == 4
    ensures FromOctets(octets[0], octets[1], octets[2], octets[3]) == a
  {
    var r1 := a / 256;
    var r2 := r1 / 256;
    [r2 / 256, r2 % 256, r1 % 256, a % 256]
  }

  lemma ToOctetsOfOctets(o0: Octet, o1: Octet, o2: Octet, o3: Octet)
    ensures ToOctets(FromOctets(o0, o1, o2, o3)) == [o0, o1, o2, o3]
  {
    var r2 := o0 * 256 + o1;
    var r1 := r2 * 256 + o2;
    DivModUnique(r1 * 256 + o3, 256, r1, o3);
    DivModUnique(r1, 256, r2, o2);
    DivModUnique(r2, 256, o0, o1);
  }

  /** The dotted-quad text of an address (`str(IPv4Address(a))`). */
  function FormatAddress(a: Address): string
  {
    var o := ToOctets(a);
    Join([OctetString(o[0]), OctetString(o[1]), OctetString(o[2]), OctetString(o[3])], '.')
  }

  /**
   * `IPv4Address(s)` for a str `s`: `None` where `ipaddress` raises
   * `AddressValueError`. An empty string is refused, the string is split at
   * every '.', there must be exactly four pieces, and each must be an octet.
   * (The library also refuses a '/' up front; such a string fails the octet
   * test anyway, with the same exception.)
   */
  function ParseAddress(s: string): Option<Address>
  {
    if |s| == 0 then None
    else
      var parts := Split(s, '.');
      if |parts| != 4 then None
      else
        var o0, o1, o2, o3 := ParseOctet(parts[0]), ParseOctet(parts[1]), ParseOctet(parts[2]), ParseOctet(parts[3]);
        if o0.Some? && o1.Some? && o2.Some? && o3.Some? then
          Some(FromOctets(o0.value, o1.value, o2.value, o3.value))
        else None
  }

  lemma OctetStringHasNoDot(n: Octet)
    ensures '.' !in OctetString(n) && |OctetString(n)| >= 1
  {
  }

  /** Every address parses back from its dotted-quad text. */
  lemma ParseFormat(a: Address)
    ensures ParseAddress(FormatAddress(a)) == Some(a)
  {
    var o := ToOctets(a);
    var pieces := [OctetString(o[0]), OctetString(o[1]), OctetString(o[2]), OctetString(o[3])];
    OctetStringHasNoDot(o[0]);
    OctetStringHasNoDot(o[1]);
    OctetStringHasNoDot(o[2]);
    OctetStringHasNoDot(o[3]);
    SplitJoin(pieces, '.');
    assert |FormatAddress(a)| >= 1;
    ParseOctetString(o[0]);
    ParseOctetString(o[1]);
    ParseOctetString(o[2]);
    ParseOctetString(o[3]);
  }

  /** A string that parses is the dotted-quad text of the address it parses to. */
  lemma FormatParse(s: string)
    requires ParseAddress(s).Some?
    ensures s == FormatAddress(ParseAddress(s).value)
  {
    var parts := Split(s, '.');
    var a := ParseAddress(s).value;
    OctetStringOfParse(parts[0]);
    OctetStringOfParse(parts[1]);
    OctetStringOfParse(parts[2]);
    OctetStringOfParse(parts[3]);
    var n0, n1, n2, n3 := ParseOctet(parts[0]).value, ParseOctet(parts[1]).value,
                          ParseOctet(parts[2]).value, ParseOctet(parts[3]).value;
    ToOctetsOfOctets(n0, n1, n2, n3);
    JoinSplit(s, '.');
    assert parts == [parts[0], parts[1], parts[2], parts[3]];
  }

  /**
   * The strings `IPv4Address` accepts are exactly the canonical dotted quads,
   * and each stands for the one address it spells.
   */
  lemma ParseAddressIff(s: string, a: Address)
    ensures ParseAddress(s) == Some(a) <==> s == FormatAddress(a)
  {
    if ParseAddress(s) == Some(a) {
      FormatParse(s);
    }
    if s == FormatAddress(a) {
      ParseFormat(a);
    }
  }
}
