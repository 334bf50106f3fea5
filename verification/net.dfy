/** The network layer: the `NetworkProvider` probe interface as an oracle,
    the result classification the Win32-backed provider applies to what the
    operating system returns, and the deterministic `MockNet` provider. */
module Net {
  import opened Wrappers
  import opened Text
  import opened Ip
  import opened Types

  /** `trait NetworkProvider`: the five probe operations. Each component is
      an arbitrary total function, so every property proved against a
      `Provider` holds for every implementation of the trait. */
  datatype Provider = Provider(
    ping: Ipv4 -> Result<bool, GError>,
    resolveMac: Ipv4 -> Result<Option<string>, GError>,
    resolveHostname: Ipv4 -> Result<Option<string>, GError>,
    resolveVendor: string -> Option<string>,
    scanPort: (Ipv4, u16) -> bool)

  // ---------------------------------------------------------------------
  // Address packing for the Win32 calls
  // ---------------------------------------------------------------------

  /** `u32::from_le_bytes(octets)`: octet 0 is the least significant byte. */
  function LeU32(o: seq<byte>): (n: u32)
    requires |o| == 4
    ensures n % 0x100 == o[0]
    ensures n / 0x100_0000 == o[3]
  {
    var o0: int, o1: int, o2: int, o3: int := o[0], o[1], o[2], o[3];
    ((o3 * 0x100 + o2) * 0x100 + o1) * 0x100 + o0
  }

  /** `u32::to_le_bytes` */
  function LeBytes(n: u32): (o: seq<byte>)
    ensures |o| == 4
    ensures LeU32(o) == n
  {
    var q1 := n / 0x100;
    var q2 := q1 / 0x100;
    [n % 0x100, q1 % 0x100, q2 % 0x100, q2 / 0x100]
  }

  /** Packing loses nothing: the bytes can be read back. */
  lemma LeBytesRoundTrip(o: seq<byte>)
    requires |o| == 4
    ensures LeBytes(LeU32(o)) == o
  {
    var n := LeU32(o);
    var o1: int, o2: int, o3: int := o[1], o[2], o[3];
    assert n / 0x100 == (o3 * 0x100 + o2) * 0x100 + o1;
    assert n / 0x100 / 0x100 == o3 * 0x100 + o2;
  }

  /** The address handed to the Win32 calls is the byte-swapped form of
      `u32::from(ip)`: the first octet lands in the low byte. */
  lemma WireAddressIsByteSwapped(ip: Ipv4)
    ensures var o := ip.Octets();
      && LeU32(o) == FromOctets(o[3], o[2], o[1], o[0]).bits
      && LeU32(o) % 0x100 == o[0]
      && LeU32(o) / 0x100_0000 == ip.bits % 0x100
  {
  }

  // ---------------------------------------------------------------------
  // SafeHandle::new
  // ---------------------------------------------------------------------

  /** `INVALID_HANDLE_VALUE` is the handle with value -1. */
  const INVALID_HANDLE_VALUE: int := -1

  /** `SafeHandle::new`: rejects the invalid and the null handle. */
  function SafeHandle(h: int): (r: Result<int, GError>)
    ensures r.Ok? <==> h != INVALID_HANDLE_VALUE && h != 0
    ensures r.Ok? ==> r.value == h
    ensures r.Err? ==> r.error == Internal("Invalid Win32 Handle")
  {
    if h == INVALID_HANDLE_VALUE || h == 0 then Err(Internal("Invalid Win32 Handle"))
    else Ok(h)
  }

  // ---------------------------------------------------------------------
  // MAC address text
  // ---------------------------------------------------------------------

  /** An upper-case hexadecimal digit. */
  predicate IsHexDigit(c: char) {
    '0' <= c <= '9' || 'A' <= c <= 'F'
  }

  function HexValue(c: char): nat
    requires IsHexDigit(c)
  {
    if '0' <= c <= '9' then c as int - '0' as int else c as int - 'A' as int + 10
  }

  function HexDigit(v: nat): (c: char)
    requires v < 16
    ensures IsHexDigit(c) && HexValue(c) == v
  {
    if v < 10 then ('0' as int + v) as char else ('A' as int + v - 10) as char
  }

  /** `format!("{:02X}", x)`: two upper-case hexadecimal digits. */
  function Hex2(x: byte): (s: string)
    ensures HexPair(s) && HexPairValue(s) == x
  {
    [HexDigit(x / 16), HexDigit(x % 16)]
  }

  predicate HexPair(f: string) {
    |f| == 2 && IsHexDigit(f[0]) && IsHexDigit(f[1])
  }

  function HexPairValue(f: string): nat
    requires HexPair(f)
  {
    HexValue(f[0]) * 16 + HexValue(f[1])
  }

  /** The six `{:02X}` fields joined with `:`. */
  function FormatMac(m: seq<byte>): (s: string)
    requires |m| == 6
    ensures |s| == 17
  {
    var parts := [Hex2(m[0]), Hex2(m[1]), Hex2(m[2]), Hex2(m[3]), Hex2(m[4]), Hex2(m[5])];
    assert Join(parts[5..], ':') == Hex2(m[5]);
    assert Join(parts[4..], ':') == Hex2(m[4]) + [':'] + Join(parts[4..][1..], ':');
    assert parts[4..][1..] == parts[5..];
    assert Join(parts[3..], ':') == Hex2(m[3]) + [':'] + Join(parts[3..][1..], ':');
    assert parts[3..][1..] == parts[4..];
    assert Join(parts[2..], ':') == Hex2(m[2]) + [':'] + Join(parts[2..][1..], ':');
    assert parts[2..][1..] == parts[3..];
    assert Join(parts[1..], ':') == Hex2(m[1]) + [':'] + Join(parts[1..][1..], ':');
    assert parts[1..][1..] == parts[2..];
    assert |Join(parts, ':')| == 17;
    Join(parts, ':')
  }

  /** Reads a MAC address in the form `FormatMac` writes it. */
  function ParseMac(s: string): Option<seq<nat>> {
    var fs := Split(s, ':');
    if |fs| == 6 && HexPair(fs[0]) && HexPair(fs[1]) && HexPair(fs[2])
       && HexPair(fs[3]) && HexPair(fs[4]) && HexPair(fs[5])
    then Some([HexPairValue(fs[0]), HexPairValue(fs[1]), HexPairValue(fs[2]),
               HexPairValue(fs[3]), HexPairValue(fs[4]), HexPairValue(fs[5])])
    else None
  }

  /** Six two-digit fields joined with `:` read back as their values. */
  lemma ParseMacJoin(parts: seq<string>)
    requires |parts| == 6
    requires forall i :: 0 <= i < 6 ==> HexPair(parts[i]) && ':' !in parts[i]
    ensures ParseMac(Join(parts, ':')) == Some([HexPairValue(parts[0]), HexPairValue(parts[1]),
      HexPairValue(parts[2]), HexPairValue(parts[3]), HexPairValue(parts[4]), HexPairValue(parts[5])])
  {
    SplitJoin(parts, ':');
  }

  /** The MAC text names exactly the six bytes it was made from. */
  lemma ParseFormatMac(m: seq<byte>)
    requires |m| == 6
    ensures ParseMac(FormatMac(m)) == Some(m)
  {
    var parts := [Hex2(m[0]), Hex2(m[1]), Hex2(m[2]), Hex2(m[3]), Hex2(m[4]), Hex2(m[5])];
    forall i | 0 <= i < 6
      ensures ':' !in parts[i] && HexPair(parts[i]) && HexPairValue(parts[i]) == m[i]
    {
    }
    assert FormatMac(m) == Join(parts, ':');
    ParseMacJoin(parts);
    assert [HexPairValue(parts[0]), HexPairValue(parts[1]), HexPairValue(parts[2]),
            HexPairValue(parts[3]), HexPairValue(parts[4]), HexPairValue(parts[5])] == m;
  }

  // ---------------------------------------------------------------------
  // Result classification of the Win32-backed provider
  // ---------------------------------------------------------------------

  /** The 8-byte buffer `SendARP` fills in. */
  type Buffer8 = s: seq<byte> | |s| == 8 witness [0, 0, 0, 0, 0, 0, 0, 0]

  /** What one `SendARP` call reports: its return code, the length it wrote
      back, and the buffer. */
  datatype ArpReply = ArpReply(code: u32, macLen: u32, buffer: Buffer8)

  const ERROR_BAD_NET_NAME: u32 := 67
  const ERROR_NOT_FOUND: u32 := 1168

  /** `resolve_mac`'s classification of a `SendARP` reply. */
  function ArpOutcome(reply: ArpReply): (r: Result<Option<string>, GError>)
    ensures r.Ok? && r.value.Some? <==> reply.code == 0 && reply.macLen >= 6
    ensures r.Ok? && r.value.Some? ==>
      |r.value.value| == 17 && ParseMac(r.value.value) == Some(reply.buffer[..6])
    ensures r.Err? <==> reply.code !in {0, ERROR_BAD_NET_NAME, ERROR_NOT_FOUND}
    ensures r.Err? ==> r.error == Win32(reply.code, "SendARP failed")
  {
    if reply.code == 0 then
      if reply.macLen >= 6 then
        ParseFormatMac(reply.buffer[..6]);
        Ok(Some(FormatMac(reply.buffer[..6])))
      else Ok(None)
    else if reply.code == ERROR_BAD_NET_NAME || reply.code == ERROR_NOT_FOUND then Ok(None)
    else Err(Win32(reply.code, "SendARP failed"))
  }

  /** `resolve_hostname`'s classification of a reverse lookup: never an
      error, and a name that merely echoes the address counts as none. */
  function HostnameOutcome(ip: Ipv4, lookup: Result<string, string>): (r: Result<Option<string>, GError>)
    ensures r.Ok?
    ensures r.value.Some? <==> lookup.Ok? && lookup.value != Show(ip)
    ensures r.value.Some? ==> r.value.value == lookup.value
  {
    match lookup
    case Ok(name) => if name == Show(ip) then Ok(None) else Ok(Some(name))
    case Err(_) => Ok(None)
  }

  /** `ping`'s classification: a failed `IcmpCreateFile` becomes a Win32
      error with code 0, an unusable handle an internal error, and
      otherwise the host is up iff `IcmpSendEcho` counted a reply. */
  function PingOutcome(create: Result<int, string>, echo: int -> u32): (r: Result<bool, GError>)
    ensures create.Err? ==> r == Err(Win32(0, "IcmpCreateFile failed: " + create.error))
    ensures create.Ok? ==> (r.Err? <==> SafeHandle(create.value).Err?)
    ensures create.Ok? && SafeHandle(create.value).Err? ==> r == Err(Internal("Invalid Win32 Handle"))
    ensures r == Ok(true) <==> create.Ok? && SafeHandle(create.value).Ok? && echo(create.value) > 0
  {
    match create
    case Err(e) => Err(Win32(0, "IcmpCreateFile failed: " + e))
    case Ok(raw) =>
      match SafeHandle(raw)
      case Err(e) => Err(e)
      case Ok(h) => Ok(echo(h) > 0)
  }

  /** The operating-system facilities the Win32-backed provider calls, as
      oracles: `IcmpCreateFile`, `IcmpSendEcho` (keyed by handle and packed
      address), `SendARP` (keyed by packed address), the reverse DNS lookup,
      the OUI vendor database, and a TCP connect within its timeout. */
  datatype Win32Api = Win32Api(
    icmpCreateFile: Ipv4 -> Result<int, string>,
    icmpSendEcho: (int, u32) -> u32,
    sendArp: u32 -> ArpReply,
    lookupAddr: Ipv4 -> Result<string, string>,
    ouiLookup: string -> Option<string>,
    tcpConnect: (Ipv4, u16) -> bool)

  /** `NetUtils`: the production provider built from the classifications. */
  function NetUtils(api: Win32Api): Provider {
    Provider(
      (ip: Ipv4) => PingOutcome(api.icmpCreateFile(ip), (h: int) => api.icmpSendEcho(h, LeU32(ip.Octets()))),
      (ip: Ipv4) => ArpOutcome(api.sendArp(LeU32(ip.Octets()))),
      ip => HostnameOutcome(ip, api.lookupAddr(ip)),
      mac => api.ouiLookup(mac),
      (ip: Ipv4, port: u16) => api.tcpConnect(ip, port))
  }

  /** The production provider never reports a lookup failure, and any MAC
      it reports is well-formed text. */
  lemma NetUtilsContract(api: Win32Api, ip: Ipv4)
    ensures NetUtils(api).resolveHostname(ip).Ok?
    ensures var m := NetUtils(api).resolveMac(ip);
            m.Ok? && m.value.Some? ==> |m.value.value| == 17 && ParseMac(m.value.value).Some?
  {
    assert NetUtils(api).resolveHostname(ip) == HostnameOutcome(ip, api.lookupAddr(ip));
    assert NetUtils(api).resolveMac(ip) == ArpOutcome(api.sendArp(LeU32(ip.Octets())));
  }

  // ---------------------------------------------------------------------
  // MockNet
  // ---------------------------------------------------------------------

  const MOCK_HOST: Ipv4 := FromOctets(192, 168, 1, 1)
  const MOCK_FAILING_HOST: Ipv4 := FromOctets(192, 168, 1, 2)

  /** The deterministic fake provider: .1 answers everything, .2 fails its
      ping, every other address is silent, and only port 80 is open. */
  const MockNet: Provider := Provider(
    ip => if ip == MOCK_HOST then Ok(true)
          else if ip == MOCK_FAILING_HOST then Err(Internal("Simulated Failure"))
          else Ok(false),
    ip => if ip == MOCK_HOST then Ok(Some("00:11:22:33:44:55")) else Ok(None),
    ip => if ip == MOCK_HOST then Ok(Some("mock-host")) else Ok(None),
    mac => Some("Mock Vendor"),
    (ip, port) => port == 80)
}
