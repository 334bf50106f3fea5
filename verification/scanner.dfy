/** The scan engine (`Scanner::scan_range`): the admission loop, the
    per-target probe pipeline, the port phase, the progress events and the
    terminal event. The order in which the targets' tasks finish is a
    parameter of a scan. */
module Scanner {
  import opened Wrappers
  import opened Ip
  import opened Types
  import opened Net
  import opened Seqs
  import Float32

  /** Everything a scan depends on besides the range: the probe provider,
      which targets' pipeline task dies (with the join error's text), and
      the ordered list of ports the port phase probes. */
  datatype Env = Env(net: Provider, fault: Ipv4 -> Option<string>, ports: seq<u16>)

  /** What the blocking probe stage reports for a target that did not fail:
      `(is_online, mac, hostname, vendor)`. */
  datatype Findings = Findings(online: bool, mac: Option<string>, hostname: Option<string>, vendor: Option<string>)

  /** `resolve_hostname(ip).unwrap_or(None)`: a lookup error means no name. */
  function LookupName(net: Provider, ip: Ipv4): Option<string> {
    match net.resolveHostname(ip)
    case Ok(name) => name
    case Err(_) => None
  }

  /** ARP found a link-layer address for the target. */
  predicate ArpHit(net: Provider, ip: Ipv4) {
    net.resolveMac(ip).Ok? && net.resolveMac(ip).value.Some?
  }

  /** The blocking stage of one target: ping, then (unless ping failed) ARP,
      then the opportunistic name and vendor lookups. A resolved MAC makes
      the target online whatever ping said; an ARP or ping error is the
      stage's error. */
  function ProbeStage(net: Provider, ip: Ipv4): (r: Result<Findings, GError>)
    ensures r.Err? <==> net.ping(ip).Err? || net.resolveMac(ip).Err?
    ensures net.ping(ip).Err? ==> r == Err(net.ping(ip).error)
    ensures r.Ok? ==> (r.value.online <==> net.ping(ip) == Ok(true) || ArpHit(net, ip))
    ensures r.Ok? ==> r.value.hostname == LookupName(net, ip)
    ensures r.Ok? ==> (r.value.mac.Some? <==> ArpHit(net, ip))
    ensures r.Ok? && r.value.mac.Some? ==>
      r.value.mac == net.resolveMac(ip).value && r.value.vendor == net.resolveVendor(r.value.mac.value)
    ensures r.Ok? && r.value.mac.None? ==> r.value.vendor.None?
  {
    match net.ping(ip)
    case Err(e) => Err(e)
    case Ok(up) =>
      match net.resolveMac(ip)
      case Ok(Some(mac)) => Ok(Findings(true, Some(mac), LookupName(net, ip), net.resolveVendor(mac)))
      case Ok(None) => Ok(Findings(up, None, LookupName(net, ip), None))
      case Err(e) => Err(e)
  }

  /** The port phase: every listed port whose probe answered, in list order. */
  function PortPhase(net: Provider, ip: Ipv4, ports: seq<u16>): (open: seq<u16>)
    ensures IsSubsequence(open, ports)
    ensures forall p :: p in open <==> p in ports && net.scanPort(ip, p)
    decreases |ports|
  {
    if ports == [] then []
    else
      var rest := PortPhase(net, ip, ports[1..]);
      assert forall p :: p in ports <==> p == ports[0] || p in ports[1..];
      if net.scanPort(ip, ports[0]) then
        assert ([ports[0]] + rest)[1..] == rest;
        [ports[0]] + rest
      else rest
  }

  /** A port the list repeats is probed, and reported, once per occurrence. */
  lemma {:induction false} PortPhaseCounts(net: Provider, ip: Ipv4, ports: seq<u16>)
    ensures forall p ::
              multiset(PortPhase(net, ip, ports))[p] == if net.scanPort(ip, p) then multiset(ports)[p] else 0
    decreases |ports|
  {
    if ports != [] {
      PortPhaseCounts(net, ip, ports[1..]);
      assert ports == [ports[0]] + ports[1..];
    }
  }

  /** The spawned task of one target: a failed task reports an internal
      error, a failed probe stage its error, and otherwise the probe
      findings, with the port phase run only for online targets. */
  function RunTarget(env: Env, ip: Ipv4): ScanResult {
    var blank := NewResult(ip);
    match env.fault(ip)
    case Some(why) => blank.(status := SystemError(Internal("Task failed: " + why)))
    case None =>
      match ProbeStage(env.net, ip)
      case Err(e) => blank.(status := SystemError(e))
      case Ok(f) =>
        blank.(status := if f.online then Online else Offline,
               mac := f.mac, hostname := f.hostname, vendor := f.vendor,
               openPorts := if f.online then PortPhase(env.net, ip, env.ports) else [])
  }

  /** A target's result is for that target. */
  lemma RunTargetIp(env: Env, ip: Ipv4)
    ensures RunTarget(env, ip).ip == ip
  {
  }

  /** What one target's result says, whichever way its pipeline went: it is
      for that target and final; it is an error exactly when the task died
      or ping or ARP failed, and then carries nothing else; it is online
      exactly when ping or ARP said so; only online targets list ports,
      and those are the port phase's; a MAC comes only with an online
      status and the vendor looked up for it. */
  lemma RunTargetContract(env: Env, ip: Ipv4)
    ensures var r := RunTarget(env, ip);
      && r.ip == ip
      && r.status != Scanning
      && (r.status.SystemError? <==>
            env.fault(ip).Some? || env.net.ping(ip).Err? || env.net.resolveMac(ip).Err?)
      && (r.status == Online <==>
            env.fault(ip).None? && env.net.ping(ip).Ok? && env.net.resolveMac(ip).Ok?
            && (env.net.ping(ip).value || env.net.resolveMac(ip).value.Some?))
      && (r.status.SystemError? ==> NothingFound(r))
      && (r.status == Online ==> r.openPorts == PortPhase(env.net, ip, env.ports))
      && (r.status != Online ==> r.openPorts == [])
      && (r.mac.Some? ==> r.status == Online && r.vendor == env.net.resolveVendor(r.mac.value))
      && (r.vendor.Some? ==> r.mac.Some?)
  {
  }

  /** A failed ping ends the pipeline before ARP: the result is the blank
      one carrying the ping's error, whatever ARP would have answered. */
  lemma PingErrorSkipsArp(env: Env, ip: Ipv4, otherArp: Ipv4 -> Result<Option<string>, GError>)
    requires env.fault(ip).None? && env.net.ping(ip).Err?
    ensures RunTarget(env, ip) == NewResult(ip).(status := SystemError(env.net.ping(ip).error))
    ensures RunTarget(env.(net := env.net.(resolveMac := otherArp)), ip) == RunTarget(env, ip)
  {
  }

  /** A resolved MAC makes the target online whatever ping said, with that
      MAC, its vendor, the name lookup's answer (none if the lookup
      failed), and the ports that answered. */
  lemma ArpHitIsOnline(env: Env, ip: Ipv4, mac: string)
    requires env.fault(ip).None? && env.net.ping(ip).Ok?
    requires env.net.resolveMac(ip) == Ok(Some(mac))
    ensures var r := RunTarget(env, ip);
      && r.status == Online
      && r.mac == Some(mac)
      && r.vendor == env.net.resolveVendor(mac)
      && (env.net.resolveHostname(ip).Err? ==> r.hostname == None)
      && (env.net.resolveHostname(ip).Ok? ==> r.hostname == env.net.resolveHostname(ip).value)
      && r.openPorts == PortPhase(env.net, ip, env.ports)
  {
  }

  /** When ARP finds nothing the ping verdict stands, with no MAC or vendor;
      only an online target has its ports probed. */
  lemma ArpMissKeepsPing(env: Env, ip: Ipv4, up: bool)
    requires env.fault(ip).None? && env.net.ping(ip) == Ok(up)
    requires env.net.resolveMac(ip) == Ok(None)
    ensures var r := RunTarget(env, ip);
      && r.status == (if up then Online else Offline)
      && r.mac == None && r.vendor == None
      && r.hostname == LookupName(env.net, ip)
      && r.openPorts == (if up then PortPhase(env.net, ip, env.ports) else [])
  {
  }

  /** An ARP failure ends the pipeline: the blank result with ARP's error,
      and no port probing. */
  lemma ArpErrorIsSystemError(env: Env, ip: Ipv4)
    requires env.fault(ip).None? && env.net.ping(ip).Ok? && env.net.resolveMac(ip).Err?
    ensures RunTarget(env, ip) == NewResult(ip).(status := SystemError(env.net.resolveMac(ip).error))
  {
  }

  /** A pipeline task that dies is still reported, as an internal error
      naming the failure. */
  lemma TaskFaultIsSystemError(env: Env, ip: Ipv4)
    requires env.fault(ip).Some?
    ensures RunTarget(env, ip) ==
      NewResult(ip).(status := SystemError(Internal("Task failed: " + env.fault(ip).value)))
  {
  }

  // ---------------------------------------------------------------------
  // Progress
  // ---------------------------------------------------------------------

  lemma MulCancel(x: int, y: int, t: int)
    requires 0 < t && x * t < y * t
    ensures x < y
  {
    assert (y - x) * t == y * t - x * t;
  }

  /** Floor division by `t` and multiplication by `t` bracket each other. */
  lemma DivBounds(a: nat, t: nat)
    requires 0 < t
    ensures (a / t) * t <= a < (a / t + 1) * t
  {
  }

  lemma PercentBelow(done: nat, total: nat)
    requires done < total
    ensures done * 100 / total < 100
  {
    var q := done * 100 / total;
    DivBounds(done * 100, total);
    assert q * total <= done * 100 < 100 * total;
    MulCancel(q, 100, total);
  }

  lemma PercentFull(total: nat)
    requires 0 < total
    ensures total * 100 / total == 100
  {
    var q := total * 100 / total;
    DivBounds(total * 100, total);
    assert q * total <= 100 * total < (q + 1) * total;
    MulCancel(q, 101, total);
    MulCancel(100, q + 1, total);
  }

  /** The percentage reported after `done` of `total` targets completed,
      `completed / total * 100` truncated. */
  function Percent(done: nat, total: nat): (p: nat)
    requires 0 < total && done <= total
    ensures p <= 100
    ensures p == 100 <==> done == total
  {
    if done < total then PercentBelow(done, total); done * 100 / total
    else PercentFull(total); done * 100 / total
  }

  lemma PercentMonotone(d1: nat, d2: nat, total: nat)
    requires 0 < total && d1 <= d2 <= total
    ensures Percent(d1, total) <= Percent(d2, total)
  {
    var a, b := d1 * 100, d2 * 100;
    DivBounds(a, total);
    DivBounds(b, total);
    MulCancel(a / total, b / total + 1, total);
  }

  /** The percentage as the engine writes it: both counts converted to
      `f32`, divided, multiplied by 100, each step rounded to the nearest
      binary32 value, and the result truncated into a `u8`. It never
      exceeds 100. The model's scan reports `Percent`, the integer floor of
      `completed * 100 / total` that this expression approximates. */
  function PercentAsWritten(done: nat, total: nat): (p: nat)
    requires 0 < total && done <= total
    ensures p <= 100
  {
    var a, b := Float32.FromNat(done), Float32.FromNat(total);
    Float32.FromNatMonotone(done, total);
    Float32.DivAtMostOne(a, b);
    var q := Float32.Div(a, b);
    Float32.MulMonotone(q, 1.0, 100.0);
    Float32.MulOneHundred();
    Float32.AsU8(Float32.Mul(q, 100.0))
  }

  /** The `f32` computation never reports less after more completions. */
  lemma PercentAsWrittenMonotone(d1: nat, d2: nat, total: nat)
    requires 0 < total && d1 <= d2 <= total
    ensures PercentAsWritten(d1, total) <= PercentAsWritten(d2, total)
  {
    var b := Float32.FromNat(total);
    var a1, a2 := Float32.FromNat(d1), Float32.FromNat(d2);
    Float32.FromNatMonotone(d1, d2);
    Float32.DivMonotone(a1, a2, b);
    var q1, q2 := Float32.Div(a1, b), Float32.Div(a2, b);
    Float32.MulMonotone(q1, q2, 100.0);
    Float32.AsU8Monotone(Float32.Mul(q1, 100.0), Float32.Mul(q2, 100.0));
  }

  /** Both computations report 100 once every target has completed. */
  lemma AsWrittenFullAtEnd(total: nat)
    requires 0 < total
    ensures PercentAsWritten(total, total) == 100 == Percent(total, total)
  {
    Float32.DivSelf(Float32.FromNat(total));
    Float32.MulOneHundred();
  }

  /** With 53 of 100 targets completed the engine reports 52: 0.53 is not a
      binary32 value, the nearest one lies just below it, and so does its
      product with 100. */
  lemma AsWrittenReadsLow()
    ensures PercentAsWritten(53, 100) == 52
    ensures Percent(53, 100) == 53
  {
    Float32.FiftyThreeAndHundred();
    Float32.DivFiftyThreeHundred();
    Float32.MulJustBelowFiftyThree();
  }

  /** In a range of 2^25 addresses the engine reports 100 one completion
      early: `2^25 - 1` is not a binary32 value and rounds up to `2^25`. */
  lemma AsWrittenFullEarly()
    ensures PercentAsWritten(0x1FF_FFFF, 0x200_0000) == 100
    ensures Percent(0x1FF_FFFF, 0x200_0000) < 100
  {
    Float32.NearPow25();
    Float32.DivSelf(33554432.0);
    Float32.MulOneHundred();
    var total: nat := 0x200_0000;
    assert Percent(total - 1, total) < 100;
  }

  // ---------------------------------------------------------------------
  // The whole scan
  // ---------------------------------------------------------------------

  /** When the cancellation token becomes set, as a position in the scan:
      the admission check of address `i` happens at position `i`, and the
      final check, after every admitted target finished, at position
      `end + 1`. A token set once stays set. */
  datatype Cancel = Never | At(position: nat)

  predicate CancelSeen(cancel: Cancel, position: nat) {
    cancel.At? && cancel.position <= position
  }

  /** How many targets of `from..hi` the admission loop admits: all of
      them, unless the token is set before the last admission check, in
      which case exactly those below the cancellation position. */
  function Admitted(hi: nat, from: nat, cancel: Cancel): nat
    requires from <= hi + 1
  {
    if cancel.At? && cancel.position <= hi then
      if cancel.position <= from then 0 else cancel.position - from
    else hi + 1 - from
  }

  /** The addresses the admission loop admits from `i` on, in order: it
      checks the token before each address and stops at the end of the
      range or as soon as it sees the token set. */
  function Admissions(hi: nat, i: nat, cancel: Cancel): (addrs: seq<nat>)
    requires i <= hi + 1
    ensures |addrs| == Admitted(hi, i, cancel)
    ensures i + |addrs| <= hi + 1
    ensures forall j :: 0 <= j < |addrs| ==> addrs[j] == i + j
    decreases hi + 1 - i
  {
    if i > hi || CancelSeen(cancel, i) then []
    else [i] + Admissions(hi, i + 1, cancel)
  }

  /** The order in which the admitted targets' tasks finish, which the
      runtime decides: each admitted address exactly once. */
  predicate CompletionOrder(order: seq<nat>, addrs: seq<nat>) {
    && |order| == |addrs|
    && (forall x :: x in order ==> x in addrs)
    && (forall x :: x in addrs ==> x in order)
    && (forall i, j :: 0 <= i < j < |order| ==> order[i] != order[j])
  }

  /** The addresses of a completion order are the admitted ones. */
  lemma CompletionOrderAdmitted(order: seq<nat>, hi: nat, lo: nat, cancel: Cancel)
    requires lo <= hi + 1 && CompletionOrder(order, Admissions(hi, lo, cancel))
    ensures forall j :: 0 <= j < |order| ==> lo <= order[j] < lo + Admitted(hi, lo, cancel)
    ensures forall a :: lo <= a < lo + Admitted(hi, lo, cancel) ==> a in order
  {
    var addrs := Admissions(hi, lo, cancel);
    forall j | 0 <= j < |order| ensures lo <= order[j] < lo + |addrs| {
      assert order[j] in addrs;
    }
    forall a | lo <= a < lo + |addrs| ensures a in order {
      assert addrs[a - lo] == a;
    }
  }

  /** The engine's results for the given targets, in the given order. */
  function Results(env: Env, order: seq<nat>): (rs: seq<ScanResult>)
    requires forall j :: 0 <= j < |order| ==> order[j] <= U32_MAX
    ensures |rs| == |order|
    ensures forall j :: 0 <= j < |order| ==> rs[j].ip.bits == order[j]
  {
    seq(|order|, j requires 0 <= j < |order| => RunTarget(env, Ipv4(order[j])))
  }

  /** One `ScanUpdate` per result, in order. */
  function Updates(rs: seq<ScanResult>): (es: seq<BridgeMessage>)
    ensures |es| == |rs|
    ensures forall j :: 0 <= j < |rs| ==> es[j] == ScanUpdate(rs[j])
    decreases |rs|
  {
    if rs == [] then [] else [ScanUpdate(rs[0])] + Updates(rs[1..])
  }

  lemma UpdatesCons(rs: seq<ScanResult>)
    requires rs != []
    ensures Updates(rs) == [ScanUpdate(rs[0])] + Updates(rs[1..])
  {
  }

  /** Each target's task sends its result as it finishes. */
  function UpdateEvents(env: Env, order: seq<nat>): seq<BridgeMessage>
    requires forall j :: 0 <= j < |order| ==> order[j] <= U32_MAX
  {
    Updates(Results(env, order))
  }

  /** The collection loop: after the `j`-th join, the percentage of `j`
      completions out of `total`. */
  function ProgressEvents(count: nat, total: nat): seq<BridgeMessage>
    requires 0 < total && count <= total
  {
    seq(count, j requires 0 <= j < count => Progress(Percent(j + 1, total)))
  }

  /** The whole range `0.0.0.0 - 255.255.255.255`. */
  predicate WholeAddressSpace(start: Ipv4, end: Ipv4) {
    start.bits == 0 && end.bits == U32_MAX
  }

  /** `end_u32 - start_u32 + 1` as the engine writes it, in `u32`
      arithmetic that wraps (a build without overflow checks; with them
      the `+ 1` panics instead). It is the size of the range except
      for the whole address space, where it is 0. */
  function TotalAsWritten(start: Ipv4, end: Ipv4): (t: u32)
    requires start.bits <= end.bits
    ensures t == 0 <==> WholeAddressSpace(start, end)
    ensures t != 0 ==> t == end.bits - start.bits + 1
  {
    (end.bits - start.bits + 1) % 0x1_0000_0000
  }

  /** The range `0.0.0.0-255.255.255.255` holds 2^32 addresses, all of which
      the admission loop admits, but the engine's count of them is 0. */
  lemma WholeSpaceCountWraps()
    ensures TotalAsWritten(Ipv4(0), Ipv4(U32_MAX)) == 0
    ensures |Admissions(U32_MAX, 0, Never)| == 0x1_0000_0000
  {
  }

  /** The collection loop's `completed: u32` after `joins` joins, in `u32`
      arithmetic that wraps (with overflow checks the increment panics
      instead). It counts exactly until the 2^32-th join. */
  function CompletedAsWritten(joins: nat): (c: u32)
    ensures joins < 0x1_0000_0000 ==> c == joins
    ensures joins == 0x1_0000_0000 ==> c == 0
  {
    joins % 0x1_0000_0000
  }

  /** Widening the range count alone does not repair the whole address
      space: its 2^32-th join wraps `completed` to 0, so the last progress
      reads 0 under both computations rather than 100. */
  lemma LastProgressWraps()
    ensures |Admissions(U32_MAX, 0, Never)| == 0x1_0000_0000
    ensures CompletedAsWritten(0x1_0000_0000) == 0
    ensures PercentAsWritten(CompletedAsWritten(0x1_0000_0000), 0x1_0000_0000) == 0
    ensures Percent(CompletedAsWritten(0x1_0000_0000), 0x1_0000_0000) == 0
  {
    Float32.NoneDone(0x1_0000_0000);
  }

  const INVALID_RANGE: BridgeMessage := Error(Internal("Invalid IP Range"))

  /** The terminal event of a scan over `lo..hi`: the final token check
      decides between cancelled and complete. */
  function Terminal(hi: nat, cancel: Cancel): BridgeMessage {
    if CancelSeen(cancel, hi + 1) then ScanCancelled else ScanComplete
  }

  /** `Scanner::scan_range(start, end, token)`: the events it sends, in
      order, when the admitted targets finish in `order` and each has sent
      its result before the collection loop joins it, as happens when the
      tasks finish before the first join. The count of the range is its
      true size (see `TotalAsWritten`). */
  function Scan(env: Env, start: Ipv4, end: Ipv4, cancel: Cancel, order: seq<nat>): (r: seq<BridgeMessage>)
    requires start.bits <= end.bits ==> CompletionOrder(order, Admissions(end.bits, start.bits, cancel))
    ensures |r| >= 1
    ensures start.bits > end.bits ==> r == [INVALID_RANGE]
    ensures r[|r| - 1].IsTerminal() <==> start.bits <= end.bits
    ensures forall i :: 0 <= i < |r| - 1 ==> !r[i].IsTerminal() && !r[i].Error?
  {
    var lo, hi := start.bits, end.bits;
    if lo > hi then [INVALID_RANGE]
    else
      CompletionOrderAdmitted(order, hi, lo, cancel);
      UpdateEvents(env, order) + ProgressEvents(Admitted(hi, lo, cancel), hi - lo + 1) + [Terminal(hi, cancel)]
  }

  lemma ScanBody(env: Env, start: Ipv4, end: Ipv4, cancel: Cancel, order: seq<nat>)
    requires start.bits <= end.bits && CompletionOrder(order, Admissions(end.bits, start.bits, cancel))
    ensures var lo, hi := start.bits, end.bits;
      && (forall j :: 0 <= j < |order| ==> order[j] <= hi)
      && Admitted(hi, lo, cancel) <= hi - lo + 1
      && Scan(env, start, end, cancel, order)
         == UpdateEvents(env, order) + ProgressEvents(Admitted(hi, lo, cancel), hi - lo + 1) + [Terminal(hi, cancel)]
  {
    CompletionOrderAdmitted(order, end.bits, start.bits, cancel);
  }

  // ---------------------------------------------------------------------
  // What the events report
  // ---------------------------------------------------------------------

  /** The results the `ScanUpdate` events carry, in order. */
  function Reported(es: seq<BridgeMessage>): seq<ScanResult>
    decreases |es|
  {
    if es == [] then []
    else (if es[0].ScanUpdate? then [es[0].result] else []) + Reported(es[1..])
  }

  /** The values the `Progress` events carry, in order. */
  function ProgressReports(es: seq<BridgeMessage>): seq<nat>
    decreases |es|
  {
    if es == [] then []
    else (if es[0].Progress? then [es[0].percent as nat] else []) + ProgressReports(es[1..])
  }

  lemma ReportsAppend(a: seq<BridgeMessage>, b: seq<BridgeMessage>)
    ensures Reported(a + b) == Reported(a) + Reported(b)
    ensures ProgressReports(a + b) == ProgressReports(a) + ProgressReports(b)
  {
    ReportedAppend(a, b);
    ProgressReportsAppend(a, b);
  }

  lemma {:induction false} ReportedAppend(a: seq<BridgeMessage>, b: seq<BridgeMessage>)
    ensures Reported(a + b) == Reported(a) + Reported(b)
    decreases |a|
  {
    if a == [] {
      assert a + b == b;
    } else {
      assert (a + b)[0] == a[0];
      assert (a + b)[1..] == a[1..] + b;
      ReportedAppend(a[1..], b);
    }
  }

  lemma {:induction false} ProgressReportsAppend(a: seq<BridgeMessage>, b: seq<BridgeMessage>)
    ensures ProgressReports(a + b) == ProgressReports(a) + ProgressReports(b)
    decreases |a|
  {
    if a == [] {
      assert a + b == b;
    } else {
      assert (a + b)[0] == a[0];
      assert (a + b)[1..] == a[1..] + b;
      ProgressReportsAppend(a[1..], b);
    }
  }

  /** Update events report their results and no progress. */
  lemma {:induction false} ReportsOfUpdates(rs: seq<ScanResult>)
    ensures Reported(Updates(rs)) == rs && ProgressReports(Updates(rs)) == []
    decreases |rs|
  {
    if rs != [] {
      var es, tail := Updates(rs), rs[1..];
      ReportsOfUpdates(tail);
      assert es[1..] == Updates(tail);
      assert rs == [rs[0]] + tail;
    }
  }

  /** The collection loop's events report progress and no result. */
  lemma {:induction false} ReportsOfProgress(count: nat, total: nat)
    requires 0 < total && count <= total
    ensures Reported(ProgressEvents(count, total)) == []
    ensures ProgressReports(ProgressEvents(count, total))
      == seq(count, j requires 0 <= j < count => Percent(j + 1, total))
    decreases count
  {
    if count > 0 {
      var last := [Progress(Percent(count, total))];
      ReportsOfProgress(count - 1, total);
      assert ProgressEvents(count, total) == ProgressEvents(count - 1, total) + last;
      ReportsAppend(ProgressEvents(count - 1, total), last);
      assert last[1..] == [];
    }
  }

  lemma ReportsOfTerminal(t: BridgeMessage)
    requires t.IsTerminal()
    ensures Reported([t]) == [] && ProgressReports([t]) == []
  {
    assert [t][1..] == [];
  }

  /** A valid range's events report the admitted targets' results in the
      order they finish, and the progress after each completion. */
  lemma ScanReports(env: Env, start: Ipv4, end: Ipv4, cancel: Cancel, order: seq<nat>)
    requires start.bits <= end.bits && CompletionOrder(order, Admissions(end.bits, start.bits, cancel))
    ensures var r, lo, hi := Scan(env, start, end, cancel, order), start.bits, end.bits;
      var k := Admitted(hi, lo, cancel);
      && k <= hi - lo + 1
      && Reported(r) == Results(env, order)
      && ProgressReports(r) == seq(k, j requires 0 <= j < k => Percent(j + 1, hi - lo + 1))
  {
    var lo: nat, hi: nat := start.bits, end.bits;
    var k := Admitted(hi, lo, cancel);
    ScanBody(env, start, end, cancel, order);
    ReportsOfUpdates(Results(env, order));
    ReportsOfProgress(k, hi - lo + 1);
    ReportsOfTerminal(Terminal(hi, cancel));
    ReportsOfThree(UpdateEvents(env, order), ProgressEvents(k, hi - lo + 1), [Terminal(hi, cancel)]);
  }

  lemma ReportsOfThree(us: seq<BridgeMessage>, ps: seq<BridgeMessage>, t: seq<BridgeMessage>)
    requires ProgressReports(us) == [] && Reported(ps) == [] && Reported(t) == [] && ProgressReports(t) == []
    ensures Reported(us + ps + t) == Reported(us)
    ensures ProgressReports(us + ps + t) == ProgressReports(ps)
  {
    ReportsAppend(us, ps);
    ReportsAppend(us + ps, t);
  }

  // ---------------------------------------------------------------------
  // Properties of a whole scan
  // ---------------------------------------------------------------------

  /** An inverted range yields one `Error` and nothing else. */
  lemma ScanInvertedRange(env: Env, start: Ipv4, end: Ipv4, cancel: Cancel, order: seq<nat>)
    requires start.bits > end.bits
    ensures Scan(env, start, end, cancel, order) == [Error(Internal("Invalid IP Range"))]
  {
  }

  /** The addresses a sequence of results is for. */
  function Addresses(rs: seq<ScanResult>): set<nat> {
    set res | res in rs :: res.ip.bits as nat
  }

  /** Every admitted target is reported by exactly one `ScanUpdate`, which
      carries that target's own result, and no other address is reported. */
  lemma ScanOneUpdatePerTarget(env: Env, start: Ipv4, end: Ipv4, cancel: Cancel, order: seq<nat>)
    requires start.bits <= end.bits && CompletionOrder(order, Admissions(end.bits, start.bits, cancel))
    ensures var rs, lo, k := Reported(Scan(env, start, end, cancel, order)), start.bits as nat,
        Admitted(end.bits, start.bits, cancel);
      && |rs| == k
      && (forall x :: 0 <= x < |rs| ==> rs[x] == RunTarget(env, rs[x].ip))
      && (forall a :: a in Addresses(rs) <==> lo <= a < lo + k)
      && (forall x, y :: 0 <= x < y < |rs| ==> rs[x].ip != rs[y].ip)
  {
    var lo: nat, hi: nat := start.bits, end.bits;
    var k := Admitted(hi, lo, cancel);
    ScanReports(env, start, end, cancel, order);
    CompletionOrderAdmitted(order, hi, lo, cancel);
    ResultsOwn(env, order);
    ResultsAddresses(env, order, lo, k);
  }

  /** The results of distinct targets are each target's own, one per
      address. */
  lemma ResultsOwn(env: Env, order: seq<nat>)
    requires forall j :: 0 <= j < |order| ==> order[j] <= U32_MAX
    requires forall i, j :: 0 <= i < j < |order| ==> order[i] != order[j]
    ensures var rs := Results(env, order);
      && (forall x :: 0 <= x < |rs| ==> rs[x] == RunTarget(env, rs[x].ip))
      && (forall x, y :: 0 <= x < y < |rs| ==> rs[x].ip != rs[y].ip)
  {
    var rs := Results(env, order);
    forall x | 0 <= x < |rs| ensures rs[x] == RunTarget(env, rs[x].ip) {
      assert rs[x] == RunTarget(env, Ipv4(order[x]));
    }
  }

  /** The results of a completion order cover exactly its addresses. */
  lemma ResultsAddresses(env: Env, order: seq<nat>, lo: nat, k: nat)
    requires forall j :: 0 <= j < |order| ==> lo <= order[j] < lo + k && order[j] <= U32_MAX
    requires forall a :: lo <= a < lo + k ==> a in order
    ensures forall a :: a in Addresses(Results(env, order)) <==> lo <= a < lo + k
  {
    var rs := Results(env, order);
    forall a: nat | lo <= a < lo + k ensures a in Addresses(rs) {
      assert a in order;
      var x :| 0 <= x < |order| && order[x] == a;
      assert rs[x] in rs;
    }
    forall a | a in Addresses(rs) ensures lo <= a < lo + k {
      var res :| res in rs && res.ip.bits == a;
      var x :| 0 <= x < |rs| && rs[x] == res;
    }
  }

  /** The `j`-th progress event reports `j` completions of the range's
      total, and there is one per admitted target. */
  lemma ScanProgressCounts(env: Env, start: Ipv4, end: Ipv4, cancel: Cancel, order: seq<nat>)
    requires start.bits <= end.bits && CompletionOrder(order, Admissions(end.bits, start.bits, cancel))
    ensures var ps, total := ProgressReports(Scan(env, start, end, cancel, order)), end.bits - start.bits + 1;
      && |ps| == Admitted(end.bits, start.bits, cancel) <= total
      && forall j :: 0 <= j < |ps| ==> ps[j] == Percent(j + 1, total)
  {
    ScanReports(env, start, end, cancel, order);
  }

  /** Cancellation decides how many targets are admitted and which terminal
      event closes the scan: a token set before target `p` admits exactly
      the targets below `p`; the scan reports `ScanCancelled` exactly when
      the token is set by the final check, and `ScanComplete` only when
      every target of the range was admitted. */
  lemma ScanCancellation(env: Env, start: Ipv4, end: Ipv4, cancel: Cancel, order: seq<nat>)
    requires start.bits <= end.bits && CompletionOrder(order, Admissions(end.bits, start.bits, cancel))
    ensures var r, lo, hi := Scan(env, start, end, cancel, order), start.bits, end.bits;
      var updates := |Reported(r)|;
      && (r[|r| - 1] == ScanCancelled <==> cancel.At? && cancel.position <= hi + 1)
      && (r[|r| - 1] == ScanComplete ==> updates == hi - lo + 1)
      && (cancel.At? && lo <= cancel.position <= hi ==> updates == cancel.position - lo)
      && (cancel.At? && cancel.position < lo ==> updates == 0)
      && (cancel.Never? ==> updates == hi - lo + 1 && r[|r| - 1] == ScanComplete)
  {
    ScanReports(env, start, end, cancel, order);
    ScanBody(env, start, end, cancel, order);
  }

  /** Where a progress event sits among a valid range's events. */
  lemma ProgressAt(env: Env, start: Ipv4, end: Ipv4, cancel: Cancel, order: seq<nat>, x: nat)
    requires start.bits <= end.bits && CompletionOrder(order, Admissions(end.bits, start.bits, cancel))
    requires x < |Scan(env, start, end, cancel, order)| && Scan(env, start, end, cancel, order)[x].Progress?
    ensures var u, total := |order|, end.bits - start.bits + 1;
      && u <= x < u + Admitted(end.bits, start.bits, cancel) <= u + total
      && Scan(env, start, end, cancel, order)[x] == Progress(Percent(x - u + 1, total))
  {
    var lo: nat, hi: nat := start.bits, end.bits;
    var k := Admitted(hi, lo, cancel);
    ScanBody(env, start, end, cancel, order);
    var us, ps := UpdateEvents(env, order), ProgressEvents(k, hi - lo + 1);
    var r := Scan(env, start, end, cancel, order);
    assert |us| <= x < |us| + |ps|;
    assert r[x] == ps[x - |us|];
  }

  /** Progress events are at most 100, never decrease along the scan, and
      a completed scan's last progress event, right before the terminal
      event, is exactly 100. */
  lemma ScanProgress(env: Env, start: Ipv4, end: Ipv4, cancel: Cancel, order: seq<nat>)
    requires start.bits <= end.bits && CompletionOrder(order, Admissions(end.bits, start.bits, cancel))
    ensures var r := Scan(env, start, end, cancel, order);
      && (forall x :: 0 <= x < |r| && r[x].Progress? ==> r[x].percent <= 100)
      && (forall x, y :: 0 <= x < y < |r| && r[x].Progress? && r[y].Progress? ==>
            r[x].percent <= r[y].percent)
      && (r[|r| - 1] == ScanComplete ==> r[|r| - 2] == Progress(100))
  {
    var r := Scan(env, start, end, cancel, order);
    var lo: nat, hi: nat := start.bits, end.bits;
    var total, u := hi - lo + 1, |order|;
    forall x, y | 0 <= x < y < |r| && r[x].Progress? && r[y].Progress?
      ensures r[x].percent <= r[y].percent
    {
      ProgressAt(env, start, end, cancel, order, x);
      ProgressAt(env, start, end, cancel, order, y);
      PercentMonotone(x - u + 1, y - u + 1, total);
    }
    if r[|r| - 1] == ScanComplete {
      ScanBody(env, start, end, cancel, order);
      var k := Admitted(hi, lo, cancel);
      var ps := ProgressEvents(k, total);
      assert r[|r| - 2] == ps[k - 1];
    }
  }
}
