/** The bridge between front-ends and the engine: the textual range
    grammar (`Bridge::parse_range`) and the command loop that turns each
    `StartScan` into a scan or an error event. */
module Bridge {
  import opened Wrappers
  import opened Text
  import opened Ip
  import opened Types
  import Scanner

  /** Accepts `(start, end)` unless `end` is below `start`; an inverted range
      is rejected, never swapped. */
  function OrderedRange(start: Ipv4, end: Ipv4): (r: Result<(Ipv4, Ipv4), string>)
    ensures r.Ok? <==> start.bits <= end.bits
    ensures r.Ok? ==> r.value == (start, end)
  {
    if Less(end, start) then
      Err("End IP (" + Show(end) + ") cannot be less than Start IP (" + Show(start) + ")")
    else Ok((start, end))
  }

  /** `start` with its last octet replaced by `last`. */
  function WithLastOctet(start: Ipv4, last: byte): (r: Ipv4)
    ensures r.Octets()[..3] == start.Octets()[..3] && r.Octets()[3] == last
  {
    var o := start.Octets();
    FromOctets(o[0], o[1], o[2], last)
  }

  /** `Bridge::parse_range`: `A`, `A-B` or `A-N`, where only the first two
      `-`-separated segments are read, each trimmed; `N` is a byte that
      replaces `A`'s last octet. */
  function ParseRange(text: string): (r: Result<(Ipv4, Ipv4), string>)
    ensures r.Ok? ==> r.value.0.bits <= r.value.1.bits
    ensures r.Ok? ==> Parse(Trim(Split(text, '-')[0])) == Some(r.value.0)
  {
    var parts := Split(text, '-');
    ParseSegments(parts[0], if |parts| == 1 then None else Some(parts[1]))
  }

  /** The range denoted by a first segment and an optional second one. */
  function ParseSegments(first: string, second: Option<string>): (r: Result<(Ipv4, Ipv4), string>)
    ensures r.Ok? ==> r.value.0.bits <= r.value.1.bits
    ensures r.Ok? ==> Parse(Trim(first)) == Some(r.value.0)
  {
    var startText := Trim(first);
    match Parse(startText)
    case None => Err("Invalid Start IP: '" + startText + "'")
    case Some(start) =>
      match second
      case None => Ok((start, start))
      case Some(s) =>
        var endText := Trim(s);
        match Parse(endText)
        case Some(end) => OrderedRange(start, end)
        case None =>
          match ParseU8(endText)
          case Some(last) => OrderedRange(start, WithLastOctet(start, last))
          case None => Err("Invalid End IP or Octet: '" + endText + "'")
  }

  /** A rendered address, possibly surrounded by whitespace, has no `-` and
      trims to itself. */
  lemma PaddedAddress(w1: string, ip: Ipv4, w2: string)
    requires AllWhitespace(w1) && AllWhitespace(w2)
    ensures '-' !in w1 + Show(ip) + w2
    ensures Trim(w1 + Show(ip) + w2) == Show(ip)
  {
    ShowShape(ip);
    ShowHasNo(ip, '-');
    WhitespaceIsNot(w1, '-');
    WhitespaceIsNot(w2, '-');
    TrimPadded(w1, Show(ip), w2);
  }

  /** A rendered byte, possibly surrounded by whitespace, has no `-`, trims
      to itself, and is not an address. */
  lemma PaddedByte(w1: string, n: byte, w2: string)
    requires AllWhitespace(w1) && AllWhitespace(w2)
    ensures '-' !in w1 + ShowNat(n) + w2
    ensures Trim(w1 + ShowNat(n) + w2) == ShowNat(n)
    ensures Parse(ShowNat(n)) == None
    ensures ParseU8(ShowNat(n)) == Some(n)
  {
    var s := ShowNat(n);
    DigitsHaveNoSeparator(s, '-');
    DigitsHaveNoSeparator(s, '.');
    WhitespaceIsNot(w1, '-');
    WhitespaceIsNot(w2, '-');
    TrimPadded(w1, s, w2);
    ParseNeedsDot(s);
    ParseU8Show(n);
  }

  /** A single address, whitespace around it allowed, is the one-address
      range. */
  lemma ParseSingle(w1: string, ip: Ipv4, w2: string)
    requires AllWhitespace(w1) && AllWhitespace(w2)
    ensures ParseRange(w1 + Show(ip) + w2) == Ok((ip, ip))
  {
    PaddedAddress(w1, ip, w2);
    SplitNone(w1 + Show(ip) + w2, '-');
    ParseShow(ip);
  }

  /** `A-B` with two full addresses, whitespace around either side allowed:
      the range `(A, B)` when `B` is not below `A`, an error otherwise. */
  lemma ParseFull(w1: string, start: Ipv4, w2: string, w3: string, end: Ipv4, w4: string)
    requires AllWhitespace(w1) && AllWhitespace(w2) && AllWhitespace(w3) && AllWhitespace(w4)
    ensures ParseRange(w1 + Show(start) + w2 + "-" + w3 + Show(end) + w4) == OrderedRange(start, end)
  {
    var x, y := w1 + Show(start) + w2, w3 + Show(end) + w4;
    PaddedAddress(w1, start, w2);
    PaddedAddress(w3, end, w4);
    Hyphenated(w1, Show(start), w2, w3, Show(end), w4);
    TwoSegments(x, y);
    FullSegments(x, start, y, end);
  }

  lemma FullSegments(x: string, start: Ipv4, y: string, end: Ipv4)
    requires Trim(x) == Show(start) && Trim(y) == Show(end)
    ensures ParseSegments(x, Some(y)) == OrderedRange(start, end)
  {
    ParseShow(start);
    ParseShow(end);
  }

  /** Replacing the last octet moves the address down exactly when the
      new octet is smaller. */
  lemma WithLastOctetOrder(start: Ipv4, n: byte)
    ensures OrderedRange(start, WithLastOctet(start, n)).Ok? <==> n >= start.Octets()[3]
  {
    LessIsLexicographic(WithLastOctet(start, n), start);
  }

  /** `A-N` with a byte `N`, whitespace around either side allowed: the
      range from `A` to `A` with its last octet replaced by `N`, or an
      error when `N` is below `A`'s last octet. */
  lemma ParseOctet(w1: string, start: Ipv4, w2: string, w3: string, n: byte, w4: string)
    requires AllWhitespace(w1) && AllWhitespace(w2) && AllWhitespace(w3) && AllWhitespace(w4)
    ensures ParseRange(w1 + Show(start) + w2 + "-" + w3 + ShowNat(n) + w4)
            == OrderedRange(start, WithLastOctet(start, n))
    ensures ParseRange(w1 + Show(start) + w2 + "-" + w3 + ShowNat(n) + w4).Ok?
            <==> n >= start.Octets()[3]
  {
    var x, y := w1 + Show(start) + w2, w3 + ShowNat(n) + w4;
    Hyphenated(w1, Show(start), w2, w3, ShowNat(n), w4);
    OctetText(x, start, y, n, w1, w2, w3, w4);
    WithLastOctetOrder(start, n);
  }

  lemma OctetText(x: string, start: Ipv4, y: string, n: byte, w1: string, w2: string, w3: string, w4: string)
    requires AllWhitespace(w1) && AllWhitespace(w2) && AllWhitespace(w3) && AllWhitespace(w4)
    requires x == w1 + Show(start) + w2 && y == w3 + ShowNat(n) + w4
    ensures ParseRange(x + ['-'] + y) == OrderedRange(start, WithLastOctet(start, n))
  {
    PaddedAddress(w1, start, w2);
    PaddedByte(w3, n, w4);
    TwoSegments(x, y);
    OctetSegments(x, start, y, n);
  }

  lemma OctetSegments(x: string, start: Ipv4, y: string, n: byte)
    requires Trim(x) == Show(start) && Trim(y) == ShowNat(n)
    requires Parse(ShowNat(n)) == None && ParseU8(ShowNat(n)) == Some(n)
    ensures ParseSegments(x, Some(y)) == OrderedRange(start, WithLastOctet(start, n))
  {
    ParseShow(start);
  }

  /** Regrouping the text of a range around its hyphen, kept apart from
      the parser's definitions so that the solver sees only concatenation. */
  lemma Hyphenated(a: string, b: string, c: string, d: string, e: string, f: string)
    ensures a + b + c + "-" + d + e + f == (a + b + c) + ['-'] + (d + e + f)
  {
  }

  /** Text with exactly one `-` is read as its two sides. */
  lemma TwoSegments(x: string, y: string)
    requires '-' !in x && '-' !in y
    ensures ParseRange(x + ['-'] + y) == ParseSegments(x, Some(y))
  {
    SplitCons(x, '-', y);
    SplitNone(y, '-');
  }

  /** Anything after a second `-` is ignored. */
  lemma ExtraSegmentsIgnored(x: string, y: string, z: string)
    requires '-' !in x && '-' !in y
    ensures ParseRange(x + "-" + y + "-" + z) == ParseRange(x + "-" + y)
  {
    assert x + "-" + y + "-" + z == x + ['-'] + (y + ['-'] + z);
    SplitCons(x, '-', y + ['-'] + z);
    SplitCons(y, '-', z);
    assert x + "-" + y == x + ['-'] + y;
    TwoSegments(x, y);
  }

  /** The two error messages: a start segment that is not an address names
      that segment; an end segment that is neither an address nor a byte
      names the end segment. */
  lemma ParseRangeErrors(text: string)
    ensures var parts := Split(text, '-');
      var startText := Trim(parts[0]);
      && (Parse(startText).None? ==>
            ParseRange(text) == Err("Invalid Start IP: '" + startText + "'"))
      && (Parse(startText).Some? && |parts| > 1
          && Parse(Trim(parts[1])).None? && ParseU8(Trim(parts[1])).None? ==>
            ParseRange(text) == Err("Invalid End IP or Octet: '" + Trim(parts[1]) + "'"))
  {
  }

  /** Text whose first segment has no dot, such as any word of letters,
      is rejected. */
  lemma NoDotRejected(text: string)
    requires '.' !in Split(text, '-')[0]
    ensures ParseRange(text).Err?
  {
    var first := Split(text, '-')[0];
    TrimKeeps(first, '.');
    ParseNeedsDot(Trim(first));
  }

  /** The generator of ranges in the randomized parser test: a start
      address and either a full end address or just a last octet, never
      below the start's; each parses to a range that starts at the start
      address and is well ordered. */
  lemma GeneratedRangesParse(o1: byte, o2: byte, o3: byte, o4: byte, endOctet: byte, fullEnd: bool)
    requires 1 <= o1 < 224 && o2 < 255 && o3 < 255 && o4 < 200 && o4 <= endOctet < 255
    ensures var start := FromOctets(o1, o2, o3, o4);
      var text := if fullEnd then Show(start) + "-" + Show(FromOctets(o1, o2, o3, endOctet))
                  else Show(start) + "-" + ShowNat(endOctet);
      && ParseRange(text).Ok?
      && ParseRange(text).value.0 == start
      && ParseRange(text).value.0.bits <= ParseRange(text).value.1.bits
  {
    var start := FromOctets(o1, o2, o3, o4);
    if fullEnd {
      GeneratedFullRange(start, o1, o2, o3, endOctet);
    } else {
      GeneratedOctetRange(start, endOctet);
    }
  }

  lemma GeneratedFullRange(start: Ipv4, o1: byte, o2: byte, o3: byte, endOctet: byte)
    requires start.Octets()[..3] == [o1, o2, o3] && start.Octets()[3] <= endOctet
    ensures ParseRange(Show(start) + "-" + Show(FromOctets(o1, o2, o3, endOctet)))
      == Ok((start, FromOctets(o1, o2, o3, endOctet)))
  {
    var end := FromOctets(o1, o2, o3, endOctet);
    ParseFull("", start, "", "", end, "");
    Unpadded(Show(start), Show(end));
    assert WithLastOctet(start, endOctet) == end;
    WithLastOctetOrder(start, endOctet);
  }

  lemma GeneratedOctetRange(start: Ipv4, endOctet: byte)
    requires start.Octets()[3] <= endOctet
    ensures ParseRange(Show(start) + "-" + ShowNat(endOctet))
      == Ok((start, WithLastOctet(start, endOctet)))
  {
    ParseOctet("", start, "", "", endOctet, "");
    Unpadded(Show(start), ShowNat(endOctet));
  }

  /** A range written without surrounding whitespace. */
  lemma Unpadded(x: string, y: string)
    ensures "" + x + "" + "-" + "" + y + "" == x + "-" + y
  {
  }

  /** The garbage of the randomized parser test, lower-case letters from
      `a` to `y`, is always rejected. */
  lemma GarbageRejected(text: string)
    requires forall i :: 0 <= i < |text| ==> 'a' <= text[i] < 'z'
    ensures ParseRange(text).Err?
  {
    SplitNone(text, '-');
    NoDotRejected(text);
  }

  // ---------------------------------------------------------------------
  // The command loop
  // ---------------------------------------------------------------------

  /** What the command loop does for one command: start the engine on a
      range, or send an event straight to the front-end. */
  datatype Action = Launch(first: Ipv4, last: Ipv4) | Notify(event: BridgeMessage)

  /** What a `StartScan` with the given text leads to: a launch of the
      parsed range, or a single internal error carrying the parser's
      message. */
  function StartAction(text: string): (a: Action)
    ensures a.Launch? <==> ParseRange(text).Ok?
    ensures a.Launch? ==> (a.first, a.last) == ParseRange(text).value && a.first.bits <= a.last.bits
    ensures a.Notify? ==> a.event == Error(Internal(ParseRange(text).error))
  {
    match ParseRange(text)
    case Ok((start, end)) => Launch(start, end)
    case Err(e) => Notify(Error(Internal(e)))
  }

  /** The command loop over a sequence of received commands, given what a
      `StartScan` leads to: every other command is ignored. */
  function Actions<A>(cmds: seq<BridgeMessage>, onStart: string -> A): seq<A>
    decreases |cmds|
  {
    if cmds == [] then []
    else (if cmds[0].StartScan? then [onStart(cmds[0].text)] else []) + Actions(cmds[1..], onStart)
  }

  /** The bridge's command loop. */
  function Dispatch(cmds: seq<BridgeMessage>): seq<Action> {
    Actions(cmds, StartAction)
  }

  /** The texts of the `StartScan` commands, in order. */
  function StartScanTexts(cmds: seq<BridgeMessage>): seq<string>
    decreases |cmds|
  {
    if cmds == [] then []
    else (if cmds[0].StartScan? then [cmds[0].text] else []) + StartScanTexts(cmds[1..])
  }

  /** One outcome per `StartScan`, in order. */
  lemma {:induction false} ActionsContract<A>(cmds: seq<BridgeMessage>, onStart: string -> A)
    ensures var acts, texts := Actions(cmds, onStart), StartScanTexts(cmds);
      |acts| == |texts| && forall i :: 0 <= i < |acts| ==> acts[i] == onStart(texts[i])
    decreases |cmds|
  {
    if cmds != [] {
      ActionsContract(cmds[1..], onStart);
      var acts, texts := Actions(cmds, onStart), StartScanTexts(cmds);
      var rest, restTexts := Actions(cmds[1..], onStart), StartScanTexts(cmds[1..]);
      if cmds[0].StartScan? {
        assert acts == [onStart(cmds[0].text)] + rest;
        assert texts == [cmds[0].text] + restTexts;
        assert forall i :: 1 <= i < |acts| ==> acts[i] == rest[i - 1] && texts[i] == restTexts[i - 1];
      } else {
        assert acts == rest;
        assert texts == restTexts;
      }
    }
  }

  /** One action per `StartScan`, in order, and nothing for any other
      command: a launch of the parsed, well-ordered range, or a single
      internal error with the parser's message. */
  lemma DispatchContract(cmds: seq<BridgeMessage>)
    ensures var acts, texts := Dispatch(cmds), StartScanTexts(cmds);
      |acts| == |texts| && forall i :: 0 <= i < |acts| ==> acts[i] == StartAction(texts[i])
  {
    ActionsContract(cmds, StartAction);
  }

  /** A scan the bridge launches never hits the engine's range check:
      with nothing cancelling it, it reports one result for every address
      of the parsed range, in the order the targets finish, and ends with
      `ScanComplete`. */
  lemma LaunchedScanRuns(cmds: seq<BridgeMessage>, i: nat, env: Scanner.Env, order: seq<nat>)
    requires i < |Dispatch(cmds)| && Dispatch(cmds)[i].Launch?
    requires var a := Dispatch(cmds)[i];
      a.first.bits <= a.last.bits ==>
        Scanner.CompletionOrder(order, Scanner.Admissions(a.last.bits, a.first.bits, Scanner.Never))
    ensures var a := Dispatch(cmds)[i];
      var r := Scanner.Scan(env, a.first, a.last, Scanner.Never, order);
      && r[|r| - 1] == ScanComplete
      && |Scanner.Reported(r)| == a.last.bits - a.first.bits + 1
  {
    DispatchContract(cmds);
    var a := Dispatch(cmds)[i];
    Scanner.ScanCancellation(env, a.first, a.last, Scanner.Never, order);
  }
}
