/**
 * Subnet resolution and candidate addresses of `NetworkScanner`
 * (CameraIP/NetworkScanner.swift). The interface list that `getifaddrs`
 * returns is an abstract sequence of records; `getnameinfo` has already
 * turned each address into its numeric text.
 */
module Subnet {
  import opened Wrappers
  import opened Strings

  /** The interface name the scanner treats as Wi-Fi. */
  const WifiInterface: string := "en0"

  /** The first and last host octet scanned. */
  const FirstHost: nat := 1
  const LastHost: nat := 254

  /** One entry of the interface list: whether its address family is
      AF_INET, its name, and the numeric host text of its address. */
  datatype Interface = Interface(isIPv4: bool, name: string, numericHost: string)

  predicate IsWifiIPv4(itf: Interface)
  {
    itf.isIPv4 && itf.name == WifiInterface
  }

  /** The /24 prefix of a numeric IPv4 text: the first three components
      joined by ".", when splitting on "." yields exactly four
      (non-empty) components. Cutting the prefix at every "." gives those
      three components and nothing else, so it has no leading, trailing or
      doubled dot. */
  function PrefixOf(ip: string): (r: Option<string>)
    ensures r.Some? <==> |Split(ip, '.')| == 4
    ensures r.Some? ==> Pieces(r.value, '.') == Split(ip, '.')[..3]
    ensures r.Some? ==> Split(r.value, '.') == Split(ip, '.')[..3]
  {
    var components := Split(ip, '.');
    if |components| == 4 then
      SplitComponents(ip, '.');
      PiecesJoin(components[..3], '.');
      SplitJoin(components[..3], '.');
      Some(Join(components[..3], '.'))
    else
      None
  }

  /** `getSubnet`: the prefix of the first AF_INET "en0" interface whose
      address has four components. An interface whose address does not
      split into four is passed over; when none qualifies the result is
      `nil` (the local `address` is never assigned). A failing
      `getifaddrs` is the empty list. */
  function GetSubnet(interfaces: seq<Interface>): Option<string>
  {
    if interfaces == [] then None
    else if Qualifies(interfaces[0]) then PrefixOf(interfaces[0].numericHost)
    else GetSubnet(interfaces[1..])
  }

  /** Interface `itf` yields a prefix. */
  predicate Qualifies(itf: Interface)
  {
    IsWifiIPv4(itf) && PrefixOf(itf.numericHost).Some?
  }

  /** Interface `i` is the first that qualifies, and its prefix is `p`. */
  ghost predicate FirstQualifying(interfaces: seq<Interface>, i: int, p: string)
  {
    && 0 <= i < |interfaces|
    && Qualifies(interfaces[i])
    && PrefixOf(interfaces[i].numericHost) == Some(p)
    && forall j :: 0 <= j < i ==> !Qualifies(interfaces[j])
  }

  /** What `GetSubnet` returns is the prefix of the first interface that
      qualifies. */
  lemma {:induction false} GetSubnetIsFirst(interfaces: seq<Interface>, p: string)
    requires GetSubnet(interfaces) == Some(p)
    ensures exists i :: FirstQualifying(interfaces, i, p)
  {
    var rest := interfaces[1..];
    if !Qualifies(interfaces[0]) {
      GetSubnetIsFirst(rest, p);
      var i :| FirstQualifying(rest, i, p);
      assert FirstQualifying(interfaces, i + 1, p) by {
        forall j | 0 <= j < i + 1 ensures !Qualifies(interfaces[j]) {
          if j > 0 { assert interfaces[j] == rest[j - 1]; }
        }
      }
    } else {
      assert FirstQualifying(interfaces, 0, p);
    }
  }

  /** The prefix of the first interface that qualifies is what
      `GetSubnet` returns. */
  lemma {:induction false} FirstIsGetSubnet(interfaces: seq<Interface>, i: int, p: string)
    requires FirstQualifying(interfaces, i, p)
    ensures GetSubnet(interfaces) == Some(p)
  {
    if i > 0 {
      var rest := interfaces[1..];
      assert !Qualifies(interfaces[0]);
      assert FirstQualifying(rest, i - 1, p) by {
        forall j | 0 <= j < i - 1 ensures !Qualifies(rest[j]) {
          assert rest[j] == interfaces[j + 1];
        }
      }
      FirstIsGetSubnet(rest, i - 1, p);
    }
  }

  /** `GetSubnet` returns `p` exactly when some interface qualifies, no
      earlier interface does, and `p` is that interface's prefix. */
  lemma GetSubnetFindsFirst(interfaces: seq<Interface>, p: string)
    ensures GetSubnet(interfaces) == Some(p) <==> exists i :: FirstQualifying(interfaces, i, p)
  {
    if GetSubnet(interfaces) == Some(p) {
      GetSubnetIsFirst(interfaces, p);
    }
    if exists i :: FirstQualifying(interfaces, i, p) {
      var i :| FirstQualifying(interfaces, i, p);
      FirstIsGetSubnet(interfaces, i, p);
    }
  }

  /** `GetSubnet` is `nil` exactly when no interface qualifies. */
  lemma {:induction false} GetSubnetNone(interfaces: seq<Interface>)
    ensures GetSubnet(interfaces).None? <==> forall i :: 0 <= i < |interfaces| ==> !Qualifies(interfaces[i])
  {
    if interfaces != [] {
      GetSubnetNone(interfaces[1..]);
      assert forall i :: 1 <= i < |interfaces| ==> interfaces[i] == interfaces[1..][i - 1];
    }
  }

  /** The address `"\(subnet).\(octet)"`. */
  function CandidateAddress(subnet: string, octet: nat): string
  {
    subnet + "." + Decimal(octet)
  }

  /** The addresses `scanSubnet` walks, for `i` in 1...254, in order. */
  function Candidates(subnet: string): (ips: seq<string>)
    ensures |ips| == LastHost
    ensures forall k :: 0 <= k < LastHost ==> ips[k] == CandidateAddress(subnet, k + FirstHost)
  {
    seq(LastHost, k requires 0 <= k => CandidateAddress(subnet, k + FirstHost))
  }

  /** The `k`-th candidate is the subnet, a dot, and the decimal octet
      `k + FirstHost`, with no leading zero: the octets ascend from
      `FirstHost` to `LastHost`. */
  lemma CandidatesAscend(subnet: string, k: nat)
    requires k < LastHost
    ensures |Candidates(subnet)| == LastHost
    ensures Candidates(subnet)[k][..|subnet| + 1] == subnet + "."
    ensures IsDigits(Candidates(subnet)[k][|subnet| + 1..])
    ensures ParseDecimal(Candidates(subnet)[k][|subnet| + 1..]) == k + FirstHost
    ensures Candidates(subnet)[k][|subnet| + 1] != '0'
  {
    var c := Candidates(subnet)[k];
    assert c[|subnet| + 1..] == Decimal(k + FirstHost);
    ParseDecimalOfDecimal(k + FirstHost);
  }

  /** No address is dispatched twice. */
  lemma CandidatesDistinct(subnet: string, i: nat, j: nat)
    requires i < j < LastHost
    ensures Candidates(subnet)[i] != Candidates(subnet)[j]
  {
    var a, b := Candidates(subnet)[i], Candidates(subnet)[j];
    if a == b {
      assert a[|subnet| + 1..] == Decimal(i + FirstHost);
      assert b[|subnet| + 1..] == Decimal(j + FirstHost);
      DecimalInjective(i + FirstHost, j + FirstHost);
    }
  }

  /** Every candidate built from the prefix of an address lies in that
      address's /24: its own prefix is the same. */
  lemma CandidateInSubnet(ip: string, octet: nat)
    requires PrefixOf(ip).Some?
    ensures PrefixOf(CandidateAddress(PrefixOf(ip).value, octet)) == PrefixOf(ip)
  {
    var p := PrefixOf(ip).value;
    var d := Decimal(octet);
    assert CandidateAddress(p, octet) == p + ['.'] + d;
    SplitAround(p, '.', d);
    assert SepFree(d, '.');
    PiecesOfSepFree(d, '.');
    assert Split(d, '.') == [d] by {
      assert NonEmpty([d]) == [d] + NonEmpty([]);
    }
    var c := Split(ip, '.');
    assert Split(CandidateAddress(p, octet), '.') == c[..3] + [d];
    assert (c[..3] + [d])[..3] == c[..3];
  }

  /** Every address a scan dispatches for the subnet `GetSubnet` found
      lies in that subnet. */
  lemma CandidatesInFoundSubnet(interfaces: seq<Interface>, k: nat)
    requires GetSubnet(interfaces).Some?
    requires k < LastHost
    ensures PrefixOf(Candidates(GetSubnet(interfaces).value)[k]) == GetSubnet(interfaces)
  {
    var p := GetSubnet(interfaces).value;
    GetSubnetIsFirst(interfaces, p);
    var i :| FirstQualifying(interfaces, i, p);
    CandidateInSubnet(interfaces[i].numericHost, k + FirstHost);
  }

  /** The prefix text is exactly the first three components with one "."
      between each: for "192.168.1.23" and "..192.168.1.23" alike it is
      "192.168.1". */
  lemma PrefixOfText(ip: string)
    requires PrefixOf(ip).Some?
    ensures var c := Split(ip, '.'); PrefixOf(ip).value == c[0] + "." + c[1] + "." + c[2]
  {
    var p, c := PrefixOf(ip).value, Split(ip, '.');
    JoinPieces(p, '.');
    var parts := c[..3];
    assert Join(parts, '.') == parts[0] + ['.'] + Join(parts[1..], '.');
    assert Join(parts[1..], '.') == parts[1] + ['.'] + Join(parts[2..], '.');
    assert Join(parts[2..], '.') == parts[2];
  }

  /** A well-formed address yields its first three components. */
  lemma PrefixOfDottedQuad(ip: string)
    requires ip == "192.168.1.23"
    ensures PrefixOf(ip) == Some("192.168.1")
  {
    var parts := ["192", "168", "1", "23"];
    assert Join(["23"], '.') == "23";
    assert Join(["1", "23"], '.') == "1" + "." + "23";
    assert Join(["168", "1", "23"], '.') == "168" + "." + "1.23";
    assert Join(parts, '.') == ip;
    SplitJoin(parts, '.');
    assert parts[..3] == ["192", "168", "1"];
    assert Join(["1"], '.') == "1";
    assert Join(["168", "1"], '.') == "168" + "." + "1";
    assert Join(["192", "168", "1"], '.') == "192" + "." + "168.1" == "192.168.1";
    assert Split(ip, '.') == parts;
    assert PrefixOf(ip) == Some(Join(parts[..3], '.'));
  }

  /** Three components are not an address. */
  lemma PrefixOfThreeComponents(ip: string)
    requires ip == "192.168.1"
    ensures PrefixOf(ip) == None
  {
    var parts := ["192", "168", "1"];
    assert Join(["1"], '.') == "1";
    assert Join(["168", "1"], '.') == "168" + "." + "1";
    assert Join(parts, '.') == "192" + "." + "168.1" == ip;
    SplitJoin(parts, '.');
    assert |Split(ip, '.')| == 3;
  }
}
