/** Concrete runs: the engine against the `MockNet` provider, and the
    range parser on the inputs its examples use. */
module Scenarios {
  import opened Wrappers
  import opened Text
  import opened Ip
  import opened Types
  import opened Net
  import opened Scanner
  import opened Bridge
  import TuiApp

  /** An engine over `MockNet` whose tasks never fail. */
  function MockEnv(ports: seq<u16>): (env: Env)
    ensures env.net == MockNet && env.ports == ports
    ensures forall ip :: env.fault(ip).None?
  {
    Env(MockNet, ip => None, ports)
  }

  /** 192.168.1.1 is online with its MAC, name and vendor, and exactly
      port 80 open when 80 is scanned. */
  lemma MockHostOnline(ports: seq<u16>)
    ensures var r := RunTarget(MockEnv(ports), MOCK_HOST);
      && r.status == Online
      && r.mac == Some("00:11:22:33:44:55")
      && r.hostname == Some("mock-host")
      && r.vendor == Some("Mock Vendor")
      && (80 in ports <==> 80 in r.openPorts)
      && forall p :: p in r.openPorts ==> p == 80
  {
    var env := MockEnv(ports);
    RunTargetContract(env, MOCK_HOST);
    ArpHitIsOnline(env, MOCK_HOST, "00:11:22:33:44:55");
  }

  /** 192.168.1.2's ping fails, so it reports that error and nothing else. */
  lemma MockFailingHost(ports: seq<u16>)
    ensures var r := RunTarget(MockEnv(ports), MOCK_FAILING_HOST);
      r == NewResult(MOCK_FAILING_HOST).(status := SystemError(Internal("Simulated Failure")))
  {
    assert MOCK_FAILING_HOST != MOCK_HOST;
  }

  /** Every other address is offline and has nothing to report. */
  lemma MockSilentHost(ports: seq<u16>, ip: Ipv4)
    requires ip != MOCK_HOST && ip != MOCK_FAILING_HOST
    ensures RunTarget(MockEnv(ports), ip) == NewResult(ip).(status := Offline)
  {
  }

  /** Scanning 192.168.1.1 alone: one update, online with port 80 when it
      is scanned, then progress 100, then completion. A single target can
      only finish in one order. */
  lemma MockSingleHostScan(ports: seq<u16>)
    ensures CompletionOrder([MOCK_HOST.bits], Admissions(MOCK_HOST.bits, MOCK_HOST.bits, Never))
    ensures var r := Scan(MockEnv(ports), MOCK_HOST, MOCK_HOST, Never, [MOCK_HOST.bits]);
      && |r| == 3
      && r[0] == ScanUpdate(RunTarget(MockEnv(ports), MOCK_HOST))
      && r[0].result.status == Online
      && (80 in ports ==> 80 in r[0].result.openPorts)
      && r[1] == Progress(100)
      && r[2] == ScanComplete
  {
    var env, b := MockEnv(ports), MOCK_HOST.bits;
    assert Admissions(b, b, Never) == [b];
    ScanBody(env, MOCK_HOST, MOCK_HOST, Never, [b]);
    assert UpdateEvents(env, [b]) == [ScanUpdate(RunTarget(env, MOCK_HOST))];
    assert ProgressEvents(1, 1) == [Progress(Percent(1, 1))];
    MockHostOnline(ports);
    PercentFull(1);
  }

  /** An address renders as its four octets' numerals joined by dots. */
  lemma ShowOctets(a: byte, b: byte, c: byte, d: byte)
    ensures Show(FromOctets(a, b, c, d))
      == ShowNat(a) + "." + ShowNat(b) + "." + ShowNat(c) + "." + ShowNat(d)
  {
    assert FromOctets(a, b, c, d).Octets() == [a, b, c, d];
    JoinFour(ShowNat(a), ShowNat(b), ShowNat(c), ShowNat(d));
  }

  lemma JoinFour(p0: string, p1: string, p2: string, p3: string)
    ensures Join([p0, p1, p2, p3], '.') == p0 + "." + p1 + "." + p2 + "." + p3
  {
    var parts := [p0, p1, p2, p3];
    assert parts[1..] == [p1, p2, p3];
    assert [p1, p2, p3][1..] == [p2, p3];
    assert [p2, p3][1..] == [p3];
    assert Join([p2, p3], '.') == p2 + ['.'] + p3;
    assert Join([p1, p2, p3], '.') == p1 + ['.'] + (p2 + ['.'] + p3);
    assert Join(parts, '.') == p0 + ['.'] + (p1 + ['.'] + (p2 + ['.'] + p3));
  }

  lemma Numerals()
    ensures ShowNat(0) == "0" && ShowNat(1) == "1" && ShowNat(5) == "5"
    ensures ShowNat(10) == "10" && ShowNat(50) == "50" && ShowNat(168) == "168"
    ensures ShowNat(192) == "192" && ShowNat(255) == "255"
  {
    assert ShowNat(16) == "16";
    assert ShowNat(19) == "19";
    assert ShowNat(25) == "25";
  }

  /** The renderings of the addresses the examples below use. */
  lemma ShowHome()
    ensures Show(FromOctets(192, 168, 1, 1)) == "192.168.1.1"
  {
    Numerals();
    ShowOctets(192, 168, 1, 1);
    assert "192" + "." + "168" + "." + "1" + "." + "1" == "192.168.1.1";
  }

  lemma ShowTenth()
    ensures Show(FromOctets(192, 168, 1, 10)) == "192.168.1.10"
  {
    Numerals();
    ShowOctets(192, 168, 1, 10);
    assert "192" + "." + "168" + "." + "1" + "." + "10" == "192.168.1.10";
  }

  lemma ShowPrivateEnds()
    ensures Show(FromOctets(10, 0, 0, 1)) == "10.0.0.1"
    ensures Show(FromOctets(10, 0, 0, 255)) == "10.0.0.255"
  {
    Numerals();
    ShowOctets(10, 0, 0, 1);
    assert "10" + "." + "0" + "." + "0" + "." + "1" == "10.0.0.1";
    ShowOctets(10, 0, 0, 255);
    assert "10" + "." + "0" + "." + "0" + "." + "255" == "10.0.0.255";
  }

  // The examples below are proved in two halves each: what the parser makes
  // of text built from renderings, and that the example's text is built so.

  lemma SingleShown(h: Ipv4)
    ensures ParseRange(Show(h)) == Ok((h, h))
  {
    ParseSingle("", h, "");
    assert "" + Show(h) + "" == Show(h);
  }

  lemma OctetRangeShown(h: Ipv4, n: byte)
    ensures ParseRange(Show(h) + "-" + ShowNat(n)) == OrderedRange(h, WithLastOctet(h, n))
  {
    ParseOctet("", h, "", "", n, "");
    Unpadded(Show(h), ShowNat(n));
  }

  lemma FullRangeShown(a: Ipv4, b: Ipv4)
    ensures ParseRange(Show(a) + " - " + Show(b)) == OrderedRange(a, b)
  {
    assert AllWhitespace(" ");
    ParseFull("", a, " ", " ", b, "");
    Spaced(Show(a), Show(b));
  }

  lemma Spaced(x: string, y: string)
    ensures "" + x + " " + "-" + " " + y + "" == x + " - " + y
  {
  }

  lemma BadEndShown(h: Ipv4, t: string)
    requires t != [] && !IsWhitespace(t[0]) && !IsWhitespace(t[|t| - 1])
    requires '-' !in t && '.' !in t && ParseU8(t).None?
    ensures ParseRange(Show(h) + "-" + t) == Err("Invalid End IP or Octet: '" + t + "'")
  {
    ShownStart(h);
    SplitShown(h, t);
    BareEnd(t);
    BadEndSegment(Show(h), h, t);
  }

  /** A rendered address trims to itself and parses back. */
  lemma ShownStart(h: Ipv4)
    ensures Parse(Trim(Show(h))) == Some(h)
  {
    PaddedAddress("", h, "");
    assert "" + Show(h) + "" == Show(h);
    ParseShow(h);
  }

  /** A rendered address, a hyphen and a hyphen-free end are two segments. */
  lemma SplitShown(h: Ipv4, t: string)
    requires '-' !in t
    ensures ParseRange(Show(h) + "-" + t) == ParseSegments(Show(h), Some(t))
  {
    assert Show(h) + "-" + t == Show(h) + ['-'] + t;
    ShowHasNo(h, '-');
    TwoSegments(Show(h), t);
  }

  /** Text without surrounding whitespace or a dot trims to itself and is
      no address. */
  lemma BareEnd(t: string)
    requires t != [] && !IsWhitespace(t[0]) && !IsWhitespace(t[|t| - 1])
    requires '.' !in t
    ensures Trim(t) == t && Parse(t).None?
  {
    TrimPadded("", t, "");
    assert "" + t + "" == t;
    ParseNeedsDot(t);
  }

  /** A start that parses and an end that is neither an address nor an
      octet give the end's error, quoting the end. */
  lemma BadEndSegment(s: string, h: Ipv4, t: string)
    requires Parse(Trim(s)) == Some(h)
    requires Trim(t) == t && Parse(t).None? && ParseU8(t).None?
    ensures ParseSegments(s, Some(t)) == Err("Invalid End IP or Octet: '" + t + "'")
  {
  }

  lemma NoDotShown(x: string, y: string)
    requires '-' !in x && '.' !in x
    ensures ParseRange(x + "-" + y).Err?
  {
    assert x + "-" + y == x + ['-'] + y;
    SplitCons(x, '-', y);
    NoDotRejected(x + "-" + y);
  }

  lemma HomeFifty()
    ensures Show(FromOctets(192, 168, 1, 1)) + "-" + ShowNat(50) == "192.168.1.1-50"
  {
    ShowHome();
    Numerals();
  }

  lemma HomeBlock()
    ensures Show(FromOctets(192, 168, 1, 1)) + "-" + ShowNat(255) == TuiApp.INITIAL_INPUT
  {
    ShowHome();
    Numerals();
  }

  lemma TenthFive()
    ensures Show(FromOctets(192, 168, 1, 10)) + "-" + ShowNat(5) == "192.168.1.10-5"
  {
    ShowTenth();
    Numerals();
  }

  lemma PrivateSpan()
    ensures Show(FromOctets(10, 0, 0, 1)) + " - " + Show(FromOctets(10, 0, 0, 255))
            == "10.0.0.1 - 10.0.0.255"
  {
    ShowPrivateEnds();
  }

  lemma HomeLetters()
    ensures Show(FromOctets(192, 168, 1, 1)) + "-" + "abc" == "192.168.1.1-abc"
  {
    ShowHome();
  }

  /** A bare address is a one-address range. */
  lemma SingleAddressExample()
    ensures ParseRange("192.168.1.1") == Ok((FromOctets(192, 168, 1, 1), FromOctets(192, 168, 1, 1)))
  {
    SingleShown(FromOctets(192, 168, 1, 1));
    ShowHome();
  }

  /** A last-octet end keeps the first three octets of the start. */
  lemma OctetRangeExample()
    ensures ParseRange("192.168.1.1-50") == Ok((FromOctets(192, 168, 1, 1), FromOctets(192, 168, 1, 50)))
  {
    var h := FromOctets(192, 168, 1, 1);
    OctetRangeShown(h, 50);
    HomeFifty();
    assert WithLastOctet(h, 50) == FromOctets(192, 168, 1, 50);
  }

  /** The input line's initial text parses to the whole 192.168.1.x block
      but its network address. */
  lemma InitialInputExample()
    ensures ParseRange(TuiApp.INITIAL_INPUT) == Ok((FromOctets(192, 168, 1, 1), FromOctets(192, 168, 1, 255)))
  {
    var h := FromOctets(192, 168, 1, 1);
    OctetRangeShown(h, 255);
    HomeBlock();
    assert WithLastOctet(h, 255) == FromOctets(192, 168, 1, 255);
  }

  /** Spaces around the hyphen are trimmed away. */
  lemma FullRangeExample()
    ensures ParseRange("10.0.0.1 - 10.0.0.255") == Ok((FromOctets(10, 0, 0, 1), FromOctets(10, 0, 0, 255)))
  {
    FullRangeShown(FromOctets(10, 0, 0, 1), FromOctets(10, 0, 0, 255));
    PrivateSpan();
  }

  /** An end octet below the start's last octet is an inverted range. */
  lemma InvertedOctetExample()
    ensures ParseRange("192.168.1.10-5").Err?
  {
    var t := FromOctets(192, 168, 1, 10);
    OctetRangeShown(t, 5);
    TenthFive();
    assert t.Octets()[3] == 10;
  }

  /** Empty input fails on its (empty) start address, quoted. */
  lemma EmptyRejected()
    ensures ParseRange("") == Err("Invalid Start IP: ''")
  {
    SplitNone("", '-');
    assert Trim("") == "";
    ParseNeedsDot("");
    assert "Invalid Start IP: '" + "" + "'" == "Invalid Start IP: ''";
  }

  /** Text without a dot before its first hyphen is never an address. */
  lemma WordsRejected()
    ensures ParseRange("not-an-ip").Err?
  {
    NoDotShown("not", "an-ip");
    NotAnIpText();
  }

  /** The example's text split at its first hyphen; proved apart from the
      parser so that the solver sees only concatenation. */
  lemma NotAnIpText()
    ensures "not" + "-" + "an-ip" == "not-an-ip"
  {
  }

  /** An end that is neither an address nor a number is reported, quoted. */
  lemma EndNotNumber()
    ensures ParseRange("192.168.1.1-abc") == Err("Invalid End IP or Octet: 'abc'")
  {
    LettersAreNoEnd();
    BadEndShown(FromOctets(192, 168, 1, 1), "abc");
    HomeLetters();
    LettersMessage();
  }

  lemma LettersAreNoEnd()
    ensures !IsWhitespace("abc"[0]) && !IsWhitespace("abc"[2])
    ensures '-' !in "abc" && '.' !in "abc" && ParseU8("abc").None?
  {
    assert !IsDigit('a');
  }

  /** The quoted message, proved apart from the parser as above. */
  lemma LettersMessage()
    ensures "Invalid End IP or Octet: '" + "abc" + "'" == "Invalid End IP or Octet: 'abc'"
  {
  }
}
