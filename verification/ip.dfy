/** Rust's `std::net::Ipv4Addr` as the scanner uses it: its octets, the
    big-endian `u32` conversions, its ordering, its dotted-decimal
    `Display`, and its `FromStr` parser. */
module Ip {
  import opened Wrappers
  import opened Text

  type byte = x: int | 0 <= x < 0x100
  type u32 = x: int | 0 <= x < 0x1_0000_0000

  const U32_MAX: u32 := 0xFFFF_FFFF

  /** An IPv4 address, held as its 32-bit value (`u32::from(ip)`); the
      octets are derived from it, most significant first. */
  datatype Ipv4 = Ipv4(bits: u32) {
    /** `Ipv4Addr::octets` */
    function Octets(): (o: seq<byte>)
      ensures |o| == 4
    {
      var q1 := bits / 0x100;
      var q2 := q1 / 0x100;
      [q2 / 0x100, q2 % 0x100, q1 % 0x100, bits % 0x100]
    }
  }

  /** `Ipv4Addr::new(a, b, c, d)` */
  function FromOctets(a: byte, b: byte, c: byte, d: byte): (ip: Ipv4)
    ensures ip.Octets() == [a, b, c, d]
  {
    var n := ((a * 0x100 + b) * 0x100 + c) * 0x100 + d;
    assert n / 0x100 == (a * 0x100 + b) * 0x100 + c;
    assert n / 0x100 / 0x100 == a * 0x100 + b;
    Ipv4(n)
  }

  /** An address is determined by its octets. */
  lemma FromOctetsOfOctets(ip: Ipv4)
    ensures var o := ip.Octets(); FromOctets(o[0], o[1], o[2], o[3]) == ip
  {
    var n := ip.bits;
    var q1 := n / 0x100;
    var q2 := q1 / 0x100;
    assert q2 == (q2 / 0x100) * 0x100 + q2 % 0x100;
    assert q1 == q2 * 0x100 + q1 % 0x100;
    assert n == q1 * 0x100 + n % 0x100;
  }

  lemma OctetsInjective(x: Ipv4, y: Ipv4)
    requires x.Octets() == y.Octets()
    ensures x == y
  {
    FromOctetsOfOctets(x);
    FromOctetsOfOctets(y);
  }

  /** `Ipv4Addr`'s `Ord`: numeric order of the 32-bit values. */
  predicate Less(x: Ipv4, y: Ipv4) {
    x.bits < y.bits
  }

  /** The numeric order is the lexicographic order of the octets. */
  lemma LessIsLexicographic(x: Ipv4, y: Ipv4)
    ensures var o, p := x.Octets(), y.Octets();
      Less(x, y) <==>
        (o[0] < p[0]
         || (o[0] == p[0] && o[1] < p[1])
         || (o[0] == p[0] && o[1] == p[1] && o[2] < p[2])
         || (o[0] == p[0] && o[1] == p[1] && o[2] == p[2] && o[3] < p[3]))
  {
    FromOctetsOfOctets(x);
    FromOctetsOfOctets(y);
  }

  /** `ip.to_string()`: four decimal octets separated by dots. */
  function Show(ip: Ipv4): string {
    var o := ip.Octets();
    Join([ShowNat(o[0]), ShowNat(o[1]), ShowNat(o[2]), ShowNat(o[3])], '.')
  }

  /** One field accepted by `Ipv4Addr::from_str`: a decimal numeral without
      a leading zero, at most 255. */
  predicate OctetField(f: string) {
    Canonical(f) && DigitsValue(f) < 0x100
  }

  /** `Ipv4Addr::from_str`: exactly four dot-separated octet fields. */
  function Parse(s: string): (r: Option<Ipv4>)
    ensures r.Some? ==> '.' in s
  {
    var fs := Split(s, '.');
    if |fs| == 4 && OctetField(fs[0]) && OctetField(fs[1])
       && OctetField(fs[2]) && OctetField(fs[3])
    then
      assert s == Join(fs, '.');
      assert s == fs[0] + ['.'] + Join(fs[1..], '.');
      assert s[|fs[0]|] == '.';
      Some(FromOctets(DigitsValue(fs[0]), DigitsValue(fs[1]), DigitsValue(fs[2]), DigitsValue(fs[3])))
    else None
  }

  lemma DigitsHaveNoSeparator(s: string, sep: char)
    requires AllDigits(s) && !IsDigit(sep)
    ensures sep !in s
  {
  }

  /** Parsing the rendering of an address gives the address back. */
  lemma ParseShow(ip: Ipv4)
    ensures Parse(Show(ip)) == Some(ip)
  {
    var o := ip.Octets();
    var parts := [ShowNat(o[0]), ShowNat(o[1]), ShowNat(o[2]), ShowNat(o[3])];
    forall i | 0 <= i < 4
      ensures '.' !in parts[i]
    {
      DigitsHaveNoSeparator(parts[i], '.');
    }
    SplitJoin(parts, '.');
    FromOctetsOfOctets(ip);
  }

  /** Every string the parser accepts is the rendering of its result, so
      the text form of an address is unique. */
  lemma ShowParse(s: string)
    requires Parse(s).Some?
    ensures Show(Parse(s).value) == s
  {
    var fs := Split(s, '.');
    ShowDigitsValue(fs[0]);
    ShowDigitsValue(fs[1]);
    ShowDigitsValue(fs[2]);
    ShowDigitsValue(fs[3]);
    assert [fs[0], fs[1], fs[2], fs[3]] == fs;
  }

  lemma ShowInjective(x: Ipv4, y: Ipv4)
    requires Show(x) == Show(y)
    ensures x == y
  {
    ParseShow(x);
    ParseShow(y);
  }

  /** Text with no dot is never an address. */
  lemma ParseNeedsDot(s: string)
    requires '.' !in s
    ensures Parse(s) == None
  {
  }

  /** The rendering of an address consists of digits and dots, and starts
      and ends with a digit. */
  lemma ShowShape(ip: Ipv4)
    ensures var s := Show(ip);
      && |s| > 0 && IsDigit(s[0]) && IsDigit(s[|s| - 1])
      && forall i :: 0 <= i < |s| ==> IsDigit(s[i]) || s[i] == '.'
  {
    var o := ip.Octets();
    var p0, p1, p2, p3 := ShowNat(o[0]), ShowNat(o[1]), ShowNat(o[2]), ShowNat(o[3]);
    var parts := [p0, p1, p2, p3];
    assert parts[1..][1..][1..] == [p3];
    assert Join(parts[1..][1..], '.') == p2 + ['.'] + p3;
    assert Join(parts[1..], '.') == p1 + ['.'] + (p2 + ['.'] + p3);
    assert Show(ip) == p0 + ['.'] + (p1 + ['.'] + (p2 + ['.'] + p3));
  }

  /** No character other than digits and dots appears in a rendered address. */
  lemma ShowHasNo(ip: Ipv4, c: char)
    requires !IsDigit(c) && c != '.'
    ensures c !in Show(ip)
  {
    ShowShape(ip);
  }
}
