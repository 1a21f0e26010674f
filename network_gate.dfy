/** The source-address allow-list, `check_ip` in handler.py. Addresses and
    networks come out of Python's `ipaddress` text parsers, which are not part
    of this model: they are parameters that either give the parsed numbers or
    fail. What `ipaddress` does with those numbers (strict host-bit checking,
    netmask membership) is modelled here. */
module NetworkGate {
  import opened Wrappers
  import opened Text

  datatype Family = IPv4 | IPv6

  function Width(f: Family): nat {
    if f == IPv4 then 32 else 128
  }

  function Pow2(n: nat): (p: nat)
    ensures p >= 1
  {
    if n == 0 then 1 else 2 * Pow2(n - 1)
  }

  /** An address as `ipaddress.ip_address` holds it. */
  datatype Address = Address(family: Family, value: nat)

  /** A network as `ipaddress.ip_network` is asked to build it: the family,
      the network address and the prefix length. */
  datatype Network = Network(family: Family, base: nat, prefixLen: nat)

  datatype GateError =
    | MissingWhiteList          // KeyError: `ip_white_list` is not in the environment
    | InvalidAddress(text: string)
    | InvalidNetwork(text: string)
    | HostBitsSet(text: string) // strict `ip_network` refuses a base with host bits

  /** A network `ip_network` accepts: prefix within the width, base within
      range, no host bits set. */
  predicate WellFormed(n: Network) {
    n.prefixLen <= Width(n.family) && n.base < Pow2(Width(n.family))
    && n.base % Pow2(Width(n.family) - n.prefixLen) == 0
  }

  /** Number of addresses in the network, `2 ** (width - prefixLen)`; a
      prefix longer than the width (which `ip_network` refuses) counts as a
      single address. */
  function BlockSize(n: Network): (size: nat)
    ensures size >= 1
  {
    if n.prefixLen <= Width(n.family) then Pow2(Width(n.family) - n.prefixLen) else 1
  }

  lemma {:induction false} Pow2Sum(a: nat, b: nat)
    ensures Pow2(a + b) == Pow2(a) * Pow2(b)
  {
    if a > 0 {
      Pow2Sum(a - 1, b);
    }
  }

  /** `ipaddress.ip_address(text)`. */
  function IpAddress(text: string, parse: string -> Option<Address>): (r: Result<Address, GateError>)
    ensures r.Ok? <==> parse(text).Some? && parse(text).value.value < Pow2(Width(parse(text).value.family))
    ensures r.Ok? ==> r.value == parse(text).value
    ensures r.Err? ==> r.error == InvalidAddress(text)
  {
    match parse(text)
    case None => Err(InvalidAddress(text))
    case Some(a) => if a.value < Pow2(Width(a.family)) then Ok(a) else Err(InvalidAddress(text))
  }

  /** `ipaddress.ip_network(text)` with its default `strict=True`. */
  function IpNetwork(text: string, parse: string -> Option<Network>): (r: Result<Network, GateError>)
    ensures r.Ok? <==> parse(text).Some? && WellFormed(parse(text).value)
    ensures r.Ok? ==> r.value == parse(text).value
    ensures r.Err? ==> r.error in {InvalidNetwork(text), HostBitsSet(text)}
  {
    match parse(text)
    case None => Err(InvalidNetwork(text))
    case Some(n) =>
      if n.prefixLen > Width(n.family) || n.base >= Pow2(Width(n.family)) then Err(InvalidNetwork(text))
      else if n.base % BlockSize(n) != 0 then Err(HostBitsSet(text))
      else Ok(n)
  }

  /** `address in network`: same family, and the address with its host bits
      cleared (`address & netmask`) is the network address. */
  predicate Contains(n: Network, a: Address) {
    a.family == n.family && (a.value / BlockSize(n)) * BlockSize(n) == n.base
  }

  /** A well-formed network holds exactly the addresses of its family from
      its base up to the next block. */
  lemma ContainsRange(n: Network, a: Address)
    requires WellFormed(n)
    ensures Contains(n, a) <==> a.family == n.family && n.base <= a.value < n.base + BlockSize(n)
  {
    MaskRange(a.value, BlockSize(n), n.base);
  }

  /** Equivalently, address and base agree on their top `prefixLen` bits. */
  lemma ContainsPrefix(n: Network, a: Address)
    requires WellFormed(n)
    ensures Contains(n, a) <==> a.family == n.family && a.value / BlockSize(n) == n.base / BlockSize(n)
  {
    MaskPrefix(a.value, BlockSize(n), n.base);
  }

  /** Clearing the low bits of `x` (rounding down to a multiple of `h`) gives
      `base` exactly when `x` lies in the block starting at `base`. */
  lemma MaskRange(x: nat, h: nat, base: nat)
    requires h > 0 && base % h == 0
    ensures (x / h) * h == base <==> base <= x < base + h
  {
    var q := x / h;
    assert x == q * h + x % h;
    if base <= x < base + h {
      var b := base / h;
      assert base == b * h;
      DivUnique(x, h, b);
    }
  }

  /** The same block, told by the quotients. */
  lemma MaskPrefix(x: nat, h: nat, base: nat)
    requires h > 0 && base % h == 0
    ensures (x / h) * h == base <==> x / h == base / h
  {
    var b := base / h;
    assert base == b * h;
    if (x / h) * h == base {
      DivMulCancel(x / h, h);
      DivMulCancel(b, h);
    }
  }

  lemma DivMulCancel(q: nat, h: nat)
    requires h > 0
    ensures (q * h) / h == q
  {
    DivUnique(q * h, h, q);
  }

  lemma DivUnique(x: int, h: int, q: int)
    requires h > 0 && q * h <= x < q * h + h
    ensures x / h == q
  {
    var m := x / h;
    assert x == m * h + x % h;
    if m > q {
      assert m * h >= (q + 1) * h by { MulMonotone(q + 1, m, h); }
    } else if m < q {
      assert q * h >= (m + 1) * h by { MulMonotone(m + 1, q, h); }
    }
  }

  lemma MulMonotone(a: int, b: int, h: int)
    requires a <= b && h > 0
    ensures a * h <= b * h
  {
  }

  // ---------------------------------------------------------------------------
  // The allow-list

  /** One comma-separated entry of the list, stripped and parsed. */
  function ParseEntry(entry: string, parseNetwork: string -> Option<Network>): Result<Network, GateError> {
    IpNetwork(PythonStrip(entry), parseNetwork)
  }

  /** The list comprehension: every entry parsed, left to right, the first
      failure raising. */
  function ParseAll(entries: seq<string>, parseNetwork: string -> Option<Network>): Result<seq<Network>, GateError> {
    if entries == [] then Ok([])
    else match ParseEntry(entries[0], parseNetwork)
      case Err(e) => Err(e)
      case Ok(n) =>
        match ParseAll(entries[1..], parseNetwork)
        case Err(e) => Err(e)
        case Ok(rest) => Ok([n] + rest)
  }

  /** When every entry parses, the list holds their networks in order. */
  lemma {:induction false} ParseAllOk(entries: seq<string>, parseNetwork: string -> Option<Network>, networks: seq<Network>)
    requires |networks| == |entries|
    requires forall j :: 0 <= j < |entries| ==> ParseEntry(entries[j], parseNetwork) == Ok(networks[j])
    ensures ParseAll(entries, parseNetwork) == Ok(networks)
  {
    if entries != [] {
      ParseAllTail(entries, parseNetwork, networks);
      ParseAllOk(entries[1..], parseNetwork, networks[1..]);
      ParseAllCons(entries, parseNetwork, networks[0], networks[1..]);
      Recombine(networks, 1);
      assert networks[..1] == [networks[0]];
    }
  }

  lemma ParseAllTail(entries: seq<string>, parseNetwork: string -> Option<Network>, networks: seq<Network>)
    requires |networks| == |entries| > 0
    requires forall j :: 0 <= j < |entries| ==> ParseEntry(entries[j], parseNetwork) == Ok(networks[j])
    ensures ParseEntry(entries[0], parseNetwork) == Ok(networks[0])
    ensures forall j :: 0 <= j < |entries| - 1 ==> ParseEntry(entries[1..][j], parseNetwork) == Ok(networks[1..][j])
  {
    forall j | 0 <= j < |entries| - 1
      ensures ParseEntry(entries[1..][j], parseNetwork) == Ok(networks[1..][j])
    {
      assert entries[1..][j] == entries[j + 1];
    }
  }

  /** One step of `ParseAll`: a parsed first entry in front of the parsed rest. */
  lemma ParseAllCons(entries: seq<string>, parseNetwork: string -> Option<Network>, n: Network, rest: seq<Network>)
    requires entries != [] && ParseEntry(entries[0], parseNetwork) == Ok(n)
    requires ParseAll(entries[1..], parseNetwork) == Ok(rest)
    ensures ParseAll(entries, parseNetwork) == Ok([n] + rest)
  {
  }

  /** The first entry that fails decides the error. */
  lemma {:induction false} ParseAllFirstError(entries: seq<string>, parseNetwork: string -> Option<Network>, i: nat)
    requires i < |entries| && ParseEntry(entries[i], parseNetwork).Err?
    requires forall j :: 0 <= j < i ==> ParseEntry(entries[j], parseNetwork).Ok?
    ensures ParseAll(entries, parseNetwork) == Err(ParseEntry(entries[i], parseNetwork).error)
  {
    if i > 0 {
      assert ParseEntry(entries[0], parseNetwork).Ok?;
      ParseAllFirstError(entries[1..], parseNetwork, i - 1);
    }
  }

  /** A successful parse gives entry j's network at position j. */
  lemma {:induction false} ParseAllSound(entries: seq<string>, parseNetwork: string -> Option<Network>)
    requires ParseAll(entries, parseNetwork).Ok?
    ensures var networks := ParseAll(entries, parseNetwork).value;
      |networks| == |entries| && forall j :: 0 <= j < |entries| ==> ParseEntry(entries[j], parseNetwork) == Ok(networks[j])
  {
    if entries != [] {
      var networks := ParseAll(entries, parseNetwork).value;
      var rest := ParseAll(entries[1..], parseNetwork).value;
      ParseAllSound(entries[1..], parseNetwork);
      assert networks == [ParseEntry(entries[0], parseNetwork).value] + rest;
      forall j | 0 <= j < |entries| ensures ParseEntry(entries[j], parseNetwork) == Ok(networks[j]) {
        if j > 0 {
          assert entries[j] == entries[1..][j - 1];
          assert networks[j] == rest[j - 1];
        }
      }
    }
  }

  /** Parsing succeeds exactly when every entry is a valid network. */
  lemma ParseAllIff(entries: seq<string>, parseNetwork: string -> Option<Network>)
    ensures ParseAll(entries, parseNetwork).Ok? <==>
      forall j :: 0 <= j < |entries| ==> ParseEntry(entries[j], parseNetwork).Ok?
    ensures ParseAll(entries, parseNetwork).Ok? ==>
      var networks := ParseAll(entries, parseNetwork).value;
      |networks| == |entries| && forall j :: 0 <= j < |entries| ==> ParseEntry(entries[j], parseNetwork) == Ok(networks[j])
  {
    if ParseAll(entries, parseNetwork).Ok? {
      ParseAllSound(entries, parseNetwork);
    } else if forall j :: 0 <= j < |entries| ==> ParseEntry(entries[j], parseNetwork).Ok? {
      var networks := seq(|entries|, j requires 0 <= j < |entries| => ParseEntry(entries[j], parseNetwork).value);
      ParseAllOk(entries, parseNetwork, networks);
    }
  }

  /** The address lies in at least one of the networks. */
  predicate InSome(a: Address, networks: seq<Network>) {
    exists k :: 0 <= k < |networks| && Contains(networks[k], a)
  }

  /** What `check_ip` returns or raises. */
  function CheckIpResult(sourceIp: string, whiteList: Option<string>,
                         parseAddress: string -> Option<Address>,
                         parseNetwork: string -> Option<Network>): Result<bool, GateError>
  {
    if whiteList.None? then Err(MissingWhiteList)
    else match IpAddress(sourceIp, parseAddress)
      case Err(e) => Err(e)
      case Ok(a) =>
        var entries := SplitOn(whiteList.value, ",");
        match ParseAll(entries, parseNetwork)
        case Err(e) => Err(e)
        case Ok(networks) => Ok(InSome(a, networks))
  }

  /** The list comprehension of `check_ip`, run: entries parsed in order,
      the first that fails ending the run. */
  method ParseEntries(entries: seq<string>, parseNetwork: string -> Option<Network>)
    returns (r: Result<seq<Network>, GateError>)
    ensures r == ParseAll(entries, parseNetwork)
  {
    var networks: seq<Network> := [];
    var i := 0;
    while i < |entries|
      invariant 0 <= i <= |entries| && |networks| == i
      invariant forall j :: 0 <= j < i ==> ParseEntry(entries[j], parseNetwork) == Ok(networks[j])
    {
      var network := ParseEntry(entries[i], parseNetwork);
      if network.Err? {
        ParseAllFirstError(entries, parseNetwork, i);
        return Err(network.error);
      }
      networks := networks + [network.value];
      i := i + 1;
    }
    ParseAllOk(entries, parseNetwork, networks);
    return Ok(networks);
  }

  /** The `for` loop of `check_ip`: true at the first network holding the
      address, whose index is `k`; false after looking at them all. */
  method Scan(a: Address, networks: seq<Network>) returns (found: bool, ghost k: nat)
    ensures found == InSome(a, networks)
    ensures found ==> (k < |networks| && Contains(networks[k], a)
      && forall j :: 0 <= j < k ==> !Contains(networks[j], a))
  {
    for i := 0 to |networks|
      invariant forall j :: 0 <= j < i ==> !Contains(networks[j], a)
    {
      if Contains(networks[i], a) {
        return true, i;
      }
    }
    return false, 0;
  }

  /** `check_ip`: parse the address, parse every entry of the list, then scan
      the networks in order and stop at the first that holds the address.
      `matched` is the index of the network that let the address in. */
  method CheckIp(sourceIp: string, whiteList: Option<string>,
                 parseAddress: string -> Option<Address>,
                 parseNetwork: string -> Option<Network>)
    returns (r: Result<bool, GateError>, ghost matched: nat)
    ensures r == CheckIpResult(sourceIp, whiteList, parseAddress, parseNetwork)
    ensures r == Ok(true) ==>
      var a := IpAddress(sourceIp, parseAddress).value;
      var networks := ParseAll(SplitOn(whiteList.value, ","), parseNetwork).value;
      matched < |networks| && Contains(networks[matched], a)
      && forall j :: 0 <= j < matched ==> !Contains(networks[j], a)
  {
    matched := 0;
    if whiteList.None? {
      return Err(MissingWhiteList), matched;
    }
    var address := IpAddress(sourceIp, parseAddress);
    if address.Err? {
      return Err(address.error), matched;
    }
    var networks := ParseEntries(SplitOn(whiteList.value, ","), parseNetwork);
    if networks.Err? {
      return Err(networks.error), matched;
    }
    var found;
    found, matched := Scan(address.value, networks.value);
    r := Ok(found);
  }

  /** The parsed address and list `check_ip` looks at, when both parse. */
  predicate Admits(sourceIp: string, entries: seq<string>,
                   parseAddress: string -> Option<Address>,
                   parseNetwork: string -> Option<Network>)
  {
    IpAddress(sourceIp, parseAddress).Ok?
    && (forall j :: 0 <= j < |entries| ==> ParseEntry(entries[j], parseNetwork).Ok?)
    && exists j :: 0 <= j < |entries| && Contains(ParseEntry(entries[j], parseNetwork).value, IpAddress(sourceIp, parseAddress).value)
  }

  /** `check_ip` is true exactly when the address parses, every entry is a
      valid network, and one of them contains the address. */
  lemma AllowedIff(sourceIp: string, whiteList: string,
                   parseAddress: string -> Option<Address>,
                   parseNetwork: string -> Option<Network>)
    ensures CheckIpResult(sourceIp, Some(whiteList), parseAddress, parseNetwork) == Ok(true) <==>
      Admits(sourceIp, SplitOn(whiteList, ","), parseAddress, parseNetwork)
  {
    if CheckIpResult(sourceIp, Some(whiteList), parseAddress, parseNetwork) == Ok(true) {
      AllowedSound(sourceIp, whiteList, parseAddress, parseNetwork);
    }
    if Admits(sourceIp, SplitOn(whiteList, ","), parseAddress, parseNetwork) {
      AllowedComplete(sourceIp, whiteList, parseAddress, parseNetwork);
    }
  }

  lemma AllowedSound(sourceIp: string, whiteList: string,
                     parseAddress: string -> Option<Address>,
                     parseNetwork: string -> Option<Network>)
    requires CheckIpResult(sourceIp, Some(whiteList), parseAddress, parseNetwork) == Ok(true)
    ensures Admits(sourceIp, SplitOn(whiteList, ","), parseAddress, parseNetwork)
  {
    var entries := SplitOn(whiteList, ",");
    var address := IpAddress(sourceIp, parseAddress);
    var parsed := ParseAll(entries, parseNetwork);
    assert address.Ok? && parsed.Ok?;
    ParseAllIff(entries, parseNetwork);
    InSomeEntry(address.value, entries, parseNetwork, parsed.value);
  }

  lemma AllowedComplete(sourceIp: string, whiteList: string,
                        parseAddress: string -> Option<Address>,
                        parseNetwork: string -> Option<Network>)
    requires Admits(sourceIp, SplitOn(whiteList, ","), parseAddress, parseNetwork)
    ensures CheckIpResult(sourceIp, Some(whiteList), parseAddress, parseNetwork) == Ok(true)
  {
    var entries := SplitOn(whiteList, ",");
    var a := IpAddress(sourceIp, parseAddress).value;
    var networks := seq(|entries|, j requires 0 <= j < |entries| => ParseEntry(entries[j], parseNetwork).value);
    ParseAllOk(entries, parseNetwork, networks);
    InSomeEntry(a, entries, parseNetwork, networks);
    CheckIpAllows(sourceIp, whiteList, parseAddress, parseNetwork, a, networks);
  }

  /** `check_ip` once the address and the list have been parsed. */
  lemma CheckIpAllows(sourceIp: string, whiteList: string,
                      parseAddress: string -> Option<Address>,
                      parseNetwork: string -> Option<Network>,
                      a: Address, networks: seq<Network>)
    requires IpAddress(sourceIp, parseAddress) == Ok(a)
    requires ParseAll(SplitOn(whiteList, ","), parseNetwork) == Ok(networks)
    ensures CheckIpResult(sourceIp, Some(whiteList), parseAddress, parseNetwork) == Ok(InSome(a, networks))
  {
  }

  /** Scanning the parsed list finds the address exactly when some entry's
      network contains it. */
  lemma InSomeEntry(a: Address, entries: seq<string>, parseNetwork: string -> Option<Network>, networks: seq<Network>)
    requires |networks| == |entries|
    requires forall j :: 0 <= j < |entries| ==> ParseEntry(entries[j], parseNetwork) == Ok(networks[j])
    ensures InSome(a, networks) <==>
      exists j :: 0 <= j < |entries| && Contains(ParseEntry(entries[j], parseNetwork).value, a)
  {
    if InSome(a, networks) {
      var k :| 0 <= k < |networks| && Contains(networks[k], a);
      assert ParseEntry(entries[k], parseNetwork).value == networks[k];
    }
  }

  predicate SomeEntryFails(entries: seq<string>, parseNetwork: string -> Option<Network>) {
    exists j :: 0 <= j < |entries| && ParseEntry(entries[j], parseNetwork).Err?
  }

  /** With the variable set, `check_ip` raises exactly when the address does
      not parse or some entry is not a valid network; the address is looked
      at first. */
  lemma FailsIff(sourceIp: string, whiteList: string,
                 parseAddress: string -> Option<Address>,
                 parseNetwork: string -> Option<Network>)
    ensures CheckIpResult(sourceIp, Some(whiteList), parseAddress, parseNetwork).Err? <==>
      IpAddress(sourceIp, parseAddress).Err? || SomeEntryFails(SplitOn(whiteList, ","), parseNetwork)
    ensures IpAddress(sourceIp, parseAddress).Err? ==>
      CheckIpResult(sourceIp, Some(whiteList), parseAddress, parseNetwork) == Err(InvalidAddress(sourceIp))
  {
    var entries := SplitOn(whiteList, ",");
    ParseAllIff(entries, parseNetwork);
    var address := IpAddress(sourceIp, parseAddress);
    if address.Err? {
      assert address.error == InvalidAddress(sourceIp);
    } else if ParseAll(entries, parseNetwork).Err? {
      var j :| 0 <= j < |entries| && !ParseEntry(entries[j], parseNetwork).Ok?;
      assert ParseEntry(entries[j], parseNetwork).Err?;
      assert CheckIpResult(sourceIp, Some(whiteList), parseAddress, parseNetwork) == Err(ParseAll(entries, parseNetwork).error);
    } else {
      assert CheckIpResult(sourceIp, Some(whiteList), parseAddress, parseNetwork).Ok?;
    }
  }

  /** An empty list is not "allow all": it is the one entry "", which
      `ip_network` refuses. */
  lemma EmptyListFails(sourceIp: string, parseAddress: string -> Option<Address>,
                       parseNetwork: string -> Option<Network>)
    requires parseNetwork("") == None
    ensures CheckIpResult(sourceIp, Some(""), parseAddress, parseNetwork).Err?
  {
    assert SplitOn("", ",") == [""];
    assert PythonStrip("") == "";
  }

  /** `10.0.0.0/8` holds 10.1.2.3 and not 8.8.8.8. */
  lemma TenSlashEight()
    ensures WellFormed(Network(IPv4, 0x0A00_0000, 8))
    ensures Contains(Network(IPv4, 0x0A00_0000, 8), Address(IPv4, 0x0A01_0203))
    ensures !Contains(Network(IPv4, 0x0A00_0000, 8), Address(IPv4, 0x0808_0808))
  {
    Pow2OfTwentyFour();
    var n := Network(IPv4, 0x0A00_0000, 8);
    assert BlockSize(n) == 0x100_0000;
    assert 0x0A01_0203 / 0x100_0000 == 0x0A;
    assert 0x0808_0808 / 0x100_0000 == 0x08;
  }

  lemma Pow2OfTwentyFour()
    ensures Pow2(24) == 0x100_0000 && Pow2(32) == 0x1_0000_0000
  {
    Pow2Eight();
    Pow2Sum(8, 8);
    Pow2Sum(16, 8);
    Pow2Sum(24, 8);
  }

  lemma Pow2Eight()
    ensures Pow2(8) == 256
  {
    assert Pow2(2) == 4;
    Pow2Sum(2, 2);
    Pow2Sum(4, 4);
  }
}
