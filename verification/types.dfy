/** The protocol vocabulary shared by the engine, the bridge and the
    front-ends: the error taxonomy, per-target status, the per-target
    result record, the command/event messages, and their `Display` texts. */
module Types {
  import opened Wrappers
  import opened Text
  import opened Ip

  type u16 = x: int | 0 <= x < 0x1_0000

  /** Application-wide error: a platform call's numeric code with a
      message, or a free-form internal error. */
  datatype GError = Win32(code: u32, msg: string) | Internal(msg: string)

  /** Status of one target. Only `SystemError` carries a payload. */
  datatype ScanStatus = Scanning | Online | Offline | SystemError(error: GError)

  /** The result of scanning one address. */
  datatype ScanResult = ScanResult(
    ip: Ipv4,
    hostname: Option<string>,
    mac: Option<string>,
    vendor: Option<string>,
    status: ScanStatus,
    openPorts: seq<u16>)

  /** Commands (front-end to bridge) and events (engine to front-end). */
  datatype BridgeMessage =
    | StartScan(text: string)
    | StartScanRange(first: Ipv4, last: Ipv4)
    | StopScan
    | ScanUpdate(result: ScanResult)
    | ScanComplete
    | ScanCancelled
    | Progress(percent: byte)
    | Error(error: GError)
  {
    /** The two events that end a scan. */
    predicate IsTerminal() {
      ScanComplete? || ScanCancelled?
    }
  }

  /** `ScanResult::new(ip)`: a result still in progress with nothing found. */
  function NewResult(ip: Ipv4): ScanResult {
    ScanResult(ip, None, None, None, Scanning, [])
  }

  /** A result whose optional findings are all still absent. */
  predicate NothingFound(r: ScanResult) {
    r.hostname == None && r.mac == None && r.vendor == None && r.openPorts == []
  }

  /** A fresh result is in progress, has found nothing, and is for the
      address it was created for. */
  lemma NewResultIsBlank(ip: Ipv4)
    ensures NewResult(ip).ip == ip
    ensures NewResult(ip).status == Scanning && !NewResult(ip).status.SystemError?
    ensures NothingFound(NewResult(ip))
  {
  }

  // ---------------------------------------------------------------------
  // Display
  // ---------------------------------------------------------------------

  const WIN32_PREFIX: string := "Win32 Error ("
  const INTERNAL_PREFIX: string := "Internal Error: "
  const STATUS_ERROR_PREFIX: string := "Error: "

  /** `impl Display for GError` */
  function ErrorText(e: GError): string {
    match e
    case Win32(code, msg) => WIN32_PREFIX + ShowNat(code) + "): " + msg
    case Internal(msg) => INTERNAL_PREFIX + msg
  }

  /** `impl Display for ScanStatus` */
  function StatusText(s: ScanStatus): string {
    match s
    case Scanning => "Scanning..."
    case Online => "Online"
    case Offline => "Offline"
    case SystemError(e) => STATUS_ERROR_PREFIX + ErrorText(e)
  }

  /** If `x + y == x' + y'`, neither `x` nor `x'` contains `c`, and both `y`
      and `y'` start with `c`, the split point is the same. */
  lemma SplitAtFirst(x: string, y: string, x': string, y': string, c: char)
    requires x + y == x' + y'
    requires c !in x && c !in x'
    requires |y| > 0 && |y'| > 0 && y[0] == c && y'[0] == c
    ensures x == x' && y == y'
  {
    var s := x + y;
    assert forall i | 0 <= i < |x| :: s[i] == x[i] && x[i] in x;
    assert forall i | 0 <= i < |x'| :: s[i] == x'[i] && x'[i] in x';
    assert s[|x|] == c;
    assert s[|x'|] == c;
    assert |x| == |x'|;
    assert x == s[..|x|];
    assert x' == (x' + y')[..|x'|];
  }

  lemma DropPrefix(p: string, s: string, t: string)
    requires p + s == p + t
    ensures s == t
  {
    assert s == (p + s)[|p|..];
    assert t == (p + t)[|p|..];
  }

  lemma ErrorTextHead(e: GError)
    ensures |ErrorText(e)| > 0
    ensures ErrorText(e)[0] == (if e.Win32? then 'W' else 'I')
  {
  }

  /** Rendering an error loses nothing: distinct errors read differently. */
  lemma ErrorTextInjective(e1: GError, e2: GError)
    requires ErrorText(e1) == ErrorText(e2)
    ensures e1 == e2
  {
    ErrorTextHead(e1);
    ErrorTextHead(e2);
    if e1.Win32? && e2.Win32? {
      var d1 := ShowNat(e1.code);
      var d2 := ShowNat(e2.code);
      assert ErrorText(e1) == WIN32_PREFIX + (d1 + ("): " + e1.msg));
      assert ErrorText(e2) == WIN32_PREFIX + (d2 + ("): " + e2.msg));
      DropPrefix(WIN32_PREFIX, d1 + ("): " + e1.msg), d2 + ("): " + e2.msg));
      DigitsHaveNoSeparator(d1, ')');
      DigitsHaveNoSeparator(d2, ')');
      SplitAtFirst(d1, "): " + e1.msg, d2, "): " + e2.msg, ')');
      ShowNatInjective(e1.code, e2.code);
      DropPrefix("): ", e1.msg, e2.msg);
    } else if e1.Internal? && e2.Internal? {
      DropPrefix(INTERNAL_PREFIX, e1.msg, e2.msg);
    }
  }

  lemma StatusTextHead(s: ScanStatus)
    ensures |StatusText(s)| >= 2
    ensures StatusText(s)[..2] ==
      match s
      case Scanning => "Sc"
      case Online => "On"
      case Offline => "Of"
      case SystemError(_) => "Er"
  {
  }

  /** Rendering a status loses nothing: distinct statuses read differently. */
  lemma StatusTextInjective(s1: ScanStatus, s2: ScanStatus)
    requires StatusText(s1) == StatusText(s2)
    ensures s1 == s2
  {
    StatusTextHead(s1);
    StatusTextHead(s2);
    if s1.SystemError? && s2.SystemError? {
      DropPrefix(STATUS_ERROR_PREFIX, ErrorText(s1.error), ErrorText(s2.error));
      ErrorTextInjective(s1.error, s2.error);
    }
  }

  /** Every error status reads "Error: " followed by its error's text. */
  lemma ErrorStatusText(e: GError)
    ensures StatusText(SystemError(e))[..|STATUS_ERROR_PREFIX|] == STATUS_ERROR_PREFIX
    ensures StatusText(SystemError(e))[|STATUS_ERROR_PREFIX|..] == ErrorText(e)
  {
  }
}
