/** The terminal front-end's handling of engine events (the
    `AppEvent::Bridge` arm of the main loop in `bin/tui.rs`): results are
    upserted by address, progress is copied, and the terminal events and
    errors move the scan state. */
module TuiLoop {
  import opened Wrappers
  import opened Ip
  import opened Types
  import opened TuiApp
  import Scanner

  /** The position of the first result for `ip`, if any. */
  function FindIp(rs: seq<ScanResult>, ip: Ipv4): (k: Option<nat>)
    ensures k.Some? ==> k.value < |rs| && rs[k.value].ip == ip
    ensures k.Some? ==> forall j :: 0 <= j < k.value ==> rs[j].ip != ip
    ensures k.None? ==> forall j :: 0 <= j < |rs| ==> rs[j].ip != ip
    decreases |rs|
  {
    if rs == [] then None
    else if rs[0].ip == ip then Some(0)
    else match FindIp(rs[1..], ip)
      case None => None
      case Some(k) => Some(k + 1)
  }

  /** The table update for one `ScanUpdate`: the first row for the same
      address is replaced in place, otherwise the result is appended. */
  function Upsert(rs: seq<ScanResult>, res: ScanResult): seq<ScanResult> {
    match FindIp(rs, res.ip)
    case Some(k) => rs[k := res]
    case None => rs + [res]
  }

  /** No two rows are for the same address. */
  predicate UniqueIps(rs: seq<ScanResult>) {
    forall i, j :: 0 <= i < j < |rs| ==> rs[i].ip != rs[j].ip
  }

  /** The addresses that have a row. */
  function Ips(rs: seq<ScanResult>): set<Ipv4> {
    set x | x in rs :: x.ip
  }

  /** What an upsert does: the table grows by one row exactly when the
      address had none, the new result is in the table, the set of
      addresses gains the result's, every row for another address stays
      where it was, and rows stay unique by address, with the new result
      the only row for its address. */
  lemma UpsertContract(rs: seq<ScanResult>, res: ScanResult)
    ensures var r := Upsert(rs, res);
      && (res.ip !in Ips(rs) ==> r == rs + [res])
      && (res.ip in Ips(rs) ==> |r| == |rs|)
      && res in r
      && Ips(r) == Ips(rs) + {res.ip}
      && |r| <= |rs| + 1
      && (forall j :: 0 <= j < |rs| && rs[j].ip != res.ip ==> r[j] == rs[j])
      && (UniqueIps(rs) ==> UniqueIps(r) && forall x :: x in r && x.ip == res.ip ==> x == res)
  {
    var r := Upsert(rs, res);
    var k := FindIp(rs, res.ip);
    if k.None? {
      assert forall x :: x in rs ==> x.ip != res.ip;
      assert res.ip !in Ips(rs);
      assert forall x :: x in r <==> x in rs || x == res;
    } else {
      var i := k.value;
      assert rs[i] in rs;
      assert forall x :: x in r ==> x in rs || x == res;
      forall y | y in Ips(rs) ensures y in Ips(r) {
        var x :| x in rs && x.ip == y;
        var m :| 0 <= m < |rs| && rs[m] == x;
        if m == i { assert r[m] == res; } else { assert r[m] == x; }
      }
      assert r[i] == res;
    }
  }

  /** An upsert for an address with no row appends the result. */
  lemma UpsertFresh(rs: seq<ScanResult>, res: ScanResult) returns (r: seq<ScanResult>)
    requires res.ip !in Ips(rs)
    ensures r == Upsert(rs, res) == rs + [res]
    ensures Ips(r) == Ips(rs) + {res.ip}
  {
    UpsertContract(rs, res);
    r := rs + [res];
  }

  /** Delivering the same result twice leaves the table as delivering it
      once. */
  lemma UpsertIdempotent(rs: seq<ScanResult>, res: ScanResult)
    ensures Upsert(Upsert(rs, res), res) == Upsert(rs, res)
  {
    var r := Upsert(rs, res);
    match FindIp(rs, res.ip)
    case Some(k) =>
      assert FindIp(r, res.ip) == Some(k) by {
        FindIpUnique(r, res.ip, k);
      }
    case None =>
      FindIpUnique(r, res.ip, |rs|);
  }

  /** The first row for `ip` is the one at `k` when no earlier row is for it. */
  lemma {:induction false} FindIpUnique(rs: seq<ScanResult>, ip: Ipv4, k: nat)
    requires k < |rs| && rs[k].ip == ip
    requires forall j :: 0 <= j < k ==> rs[j].ip != ip
    ensures FindIp(rs, ip) == Some(k)
    decreases k
  {
    if k > 0 {
      FindIpUnique(rs[1..], ip, k - 1);
    }
  }

  /** The reaction to one engine event; commands are ignored. */
  function Reduce(app: App, msg: BridgeMessage): App {
    match msg
    case ScanUpdate(res) => app.(results := Upsert(app.results, res))
    case Progress(p) => app.(progress := p)
    case ScanComplete => SortResults(app.(scanState := Complete, progress := 100))
    case ScanCancelled => app.(scanState := Cancelled)
    case Error(e) => app.(scanState := Idle, error := Some(ErrorText(e)))
    case _ => app
  }

  /** Per event: an update only upserts; progress only sets the progress;
      completion sets the state and 100 and sorts the same results by
      address; cancellation sets only the state; an error returns to idle
      and keeps the error's text, from which the error can be told apart
      from every other; commands change nothing. */
  lemma ReduceContract(app: App, msg: BridgeMessage)
    ensures var r := Reduce(app, msg);
      && (msg.ScanUpdate? ==> r == app.(results := Upsert(app.results, msg.result)))
      && (msg.Progress? ==> r == app.(progress := msg.percent))
      && (msg.ScanComplete? ==>
            && r == app.(scanState := Complete, progress := 100, results := r.results)
            && SortedByIp(r.results) && multiset(r.results) == multiset(app.results))
      && (msg.ScanCancelled? ==> r == app.(scanState := Cancelled))
      && (msg.Error? ==>
            && r == app.(scanState := Idle, error := r.error)
            && r.error.Some?
            && forall e :: r.error == Some(ErrorText(e)) ==> e == msg.error)
      && (msg.StartScan? || msg.StartScanRange? || msg.StopScan? ==> r == app)
  {
    if msg.Error? {
      forall e | Reduce(app, msg).error == Some(ErrorText(e)) ensures e == msg.error {
        ErrorTextInjective(e, msg.error);
      }
    }
  }

  /** Events in order. */
  function ReduceAll(app: App, msgs: seq<BridgeMessage>): App
    decreases |msgs|
  {
    if msgs == [] then app else ReduceAll(Reduce(app, msgs[0]), msgs[1..])
  }

  lemma {:induction false} ReduceAllAppend(app: App, a: seq<BridgeMessage>, b: seq<BridgeMessage>)
    ensures ReduceAll(app, a + b) == ReduceAll(ReduceAll(app, a), b)
    decreases |a|
  {
    if a != [] {
      assert (a + b)[0] == a[0];
      assert (a + b)[1..] == a[1..] + b;
      ReduceAllAppend(Reduce(app, a[0]), a[1..], b);
    } else {
      assert a + b == b;
    }
  }

  /** Folding the update events of results for addresses that have no
      row yet, and are distinct among themselves, appends those results in
      the order they arrive and touches nothing else. */
  lemma {:induction false} FoldUpdates(app: App, rs: seq<ScanResult>)
    requires UniqueIps(app.results + rs)
    ensures ReduceAll(app, Scanner.Updates(rs)) == app.(results := app.results + rs)
    decreases |rs|
  {
    if rs != [] {
      FreshFirst(app.results, rs);
      var mid := FoldFirstUpdate(app, rs);
      FoldUpdates(mid, rs[1..]);
    }
  }

  /** The first update event of the fold appends its result. */
  lemma FoldFirstUpdate(app: App, rs: seq<ScanResult>) returns (mid: App)
    requires rs != [] && rs[0].ip !in Ips(app.results)
    ensures mid == app.(results := app.results + [rs[0]])
    ensures mid.results + rs[1..] == app.results + rs
    ensures ReduceAll(app, Scanner.Updates(rs)) == ReduceAll(mid, Scanner.Updates(rs[1..]))
  {
    var grown := UpsertFresh(app.results, rs[0]);
    mid := app.(results := grown);
    Scanner.UpdatesCons(rs);
    ReduceAllCons(app, ScanUpdate(rs[0]), Scanner.Updates(rs[1..]));
    AppendFirst(app.results, rs);
  }

  /** In a table extended by rows for distinct addresses, the first new
      row's address has no row yet. */
  lemma FreshFirst(table: seq<ScanResult>, rs: seq<ScanResult>)
    requires rs != [] && UniqueIps(table + rs)
    ensures rs[0].ip !in Ips(table)
  {
    var all, n := table + rs, |table|;
    forall x | x in table ensures x.ip != rs[0].ip {
      var i :| 0 <= i < n && table[i] == x;
      assert all[i] == x && all[n] == rs[0];
    }
  }

  lemma AppendFirst(table: seq<ScanResult>, rs: seq<ScanResult>)
    requires rs != []
    ensures table + [rs[0]] + rs[1..] == table + rs
  {
    assert rs == [rs[0]] + rs[1..];
  }

  lemma ReduceAllCons(app: App, msg: BridgeMessage, rest: seq<BridgeMessage>)
    ensures ReduceAll(app, [msg] + rest) == ReduceAll(Reduce(app, msg), rest)
  {
    assert ([msg] + rest)[1..] == rest;
  }

  /** Folding the collection loop's progress events leaves the last one's
      value, and touches nothing else. */
  lemma {:induction false} FoldProgress(app: App, count: nat, total: nat)
    requires 0 < total && count <= total
    ensures ReduceAll(app, Scanner.ProgressEvents(count, total))
      == if count == 0 then app else app.(progress := Scanner.Percent(count, total))
    decreases count
  {
    if count > 0 {
      var last := Progress(Scanner.Percent(count, total));
      assert Scanner.ProgressEvents(count, total) == Scanner.ProgressEvents(count - 1, total) + [last];
      ReduceAllAppend(app, Scanner.ProgressEvents(count - 1, total), [last]);
      FoldProgress(app, count - 1, total);
      ReduceAllOne(ReduceAll(app, Scanner.ProgressEvents(count - 1, total)), last);
    } else {
      assert Scanner.ProgressEvents(count, total) == [];
    }
  }

  lemma ReduceAllSnoc(app: App, msgs: seq<BridgeMessage>, last: BridgeMessage)
    ensures ReduceAll(app, msgs + [last]) == Reduce(ReduceAll(app, msgs), last)
  {
    ReduceAllAppend(app, msgs, [last]);
    ReduceAllOne(ReduceAll(app, msgs), last);
  }

  lemma ReduceAllOne(app: App, msg: BridgeMessage)
    ensures ReduceAll(app, [msg]) == Reduce(app, msg)
  {
    assert [msg][1..] == [];
  }

  /** `SortResults` leaves a table that is already in address order as it
      is. */
  lemma {:induction false} SortSorted(rs: seq<ScanResult>)
    requires SortedByIp(rs)
    ensures SortByIp(rs) == rs
    decreases |rs|
  {
    if rs != [] {
      SortSorted(rs[1..]);
    }
  }

  /** A scan of a valid range, delivered to a front-end whose table was
      cleared by `start_scan`, leaves one row per admitted address, each the
      engine's result for that address. A cancelled scan keeps them in the
      order the targets finished; a completed one has a row for every
      address of the range, sorted by address, with progress 100. */
  lemma ScanIntoApp(app: App, env: Scanner.Env, start: Ipv4, end: Ipv4, cancel: Scanner.Cancel, order: seq<nat>)
    requires start.bits <= end.bits
    requires Scanner.CompletionOrder(order, Scanner.Admissions(end.bits, start.bits, cancel))
    requires app.results == []
    ensures var events := Scanner.Scan(env, start, end, cancel, order);
      var r, lo, hi := ReduceAll(app, events), start.bits, end.bits;
      var done := Scanner.Reported(events);
      && multiset(r.results) == multiset(done)
      && (forall x :: x in r.results ==> x == Scanner.RunTarget(env, x.ip))
      && (Scanner.CancelSeen(cancel, hi + 1) ==>
            r.scanState == Cancelled && r.results == done && UniqueIps(r.results))
      && (!Scanner.CancelSeen(cancel, hi + 1) ==>
            && r.scanState == Complete && r.progress == 100 && SortedByIp(r.results)
            && |r.results| == hi - lo + 1
            && forall a: nat :: lo <= a <= hi ==> a in Scanner.Addresses(r.results))
      && r.error == app.error && r.input == app.input && r.sent == app.sent
  {
    var lo: nat, hi: nat := start.bits, end.bits;
    var events := Scanner.Scan(env, start, end, cancel, order);
    Scanner.ScanReports(env, start, end, cancel, order);
    var before := FoldBeforeTerminal(app, env, start, end, cancel, order);
    ResultsContract(env, order);
    var r := ReduceAll(app, events);
    if Scanner.CancelSeen(cancel, hi + 1) {
      assert Scanner.Terminal(hi, cancel) == ScanCancelled;
      ReduceContract(before, ScanCancelled);
    } else {
      assert Scanner.Terminal(hi, cancel) == ScanComplete;
      ReduceContract(before, ScanComplete);
      CompleteCovers(env, start, end, cancel, order, r.results);
      forall x | x in r.results ensures x == Scanner.RunTarget(env, x.ip) {
        assert x in multiset(r.results);
        assert x in before.results;
      }
    }
  }

  /** Everything a scan sends before its terminal event leaves the
      front-end with the results in the order the targets finished. */
  lemma FoldBeforeTerminal(app: App, env: Scanner.Env, start: Ipv4, end: Ipv4, cancel: Scanner.Cancel, order: seq<nat>)
    returns (before: App)
    requires start.bits <= end.bits
    requires Scanner.CompletionOrder(order, Scanner.Admissions(end.bits, start.bits, cancel))
    requires app.results == []
    ensures forall j :: 0 <= j < |order| ==> order[j] <= U32_MAX
    ensures before.results == Scanner.Results(env, order)
    ensures before == app.(results := before.results, progress := before.progress)
    ensures ReduceAll(app, Scanner.Scan(env, start, end, cancel, order))
      == Reduce(before, Scanner.Terminal(end.bits, cancel))
  {
    var lo: nat, hi: nat := start.bits, end.bits;
    Scanner.ScanBody(env, start, end, cancel, order);
    var k := Scanner.Admitted(hi, lo, cancel);
    var t := Scanner.Terminal(hi, cancel);
    var head := Scanner.UpdateEvents(env, order) + Scanner.ProgressEvents(k, hi - lo + 1);
    before := FoldHead(app, env, order, k, hi - lo + 1);
    ReduceAllSnoc(app, head, t);
  }

  /** The result events followed by the progress events leave the results
      in arrival order and change nothing but the results and progress. */
  lemma FoldHead(app: App, env: Scanner.Env, order: seq<nat>, count: nat, total: nat) returns (before: App)
    requires forall j :: 0 <= j < |order| ==> order[j] <= U32_MAX
    requires forall i, j :: 0 <= i < j < |order| ==> order[i] != order[j]
    requires app.results == [] && 0 < total && count <= total
    ensures before.results == Scanner.Results(env, order)
    ensures before == app.(results := before.results, progress := before.progress)
    ensures ReduceAll(app, Scanner.UpdateEvents(env, order) + Scanner.ProgressEvents(count, total)) == before
  {
    var us, ps := Scanner.UpdateEvents(env, order), Scanner.ProgressEvents(count, total);
    ReduceAllAppend(app, us, ps);
    ResultsContract(env, order);
    assert app.results + Scanner.Results(env, order) == Scanner.Results(env, order);
    FoldUpdates(app, Scanner.Results(env, order));
    var mid := app.(results := Scanner.Results(env, order));
    FoldProgress(mid, count, total);
    before := ReduceAll(mid, ps);
  }

  /** The engine's results for distinct targets are its own, one per
      address. */
  lemma ResultsContract(env: Scanner.Env, order: seq<nat>)
    requires forall j :: 0 <= j < |order| ==> order[j] <= U32_MAX
    requires forall i, j :: 0 <= i < j < |order| ==> order[i] != order[j]
    ensures var done := Scanner.Results(env, order);
      && UniqueIps(done)
      && forall x :: x in done ==> x == Scanner.RunTarget(env, x.ip)
  {
    var done := Scanner.Results(env, order);
    forall x | x in done ensures x == Scanner.RunTarget(env, x.ip) {
      var j :| 0 <= j < |done| && done[j] == x;
      assert done[j] == Scanner.RunTarget(env, Ipv4(order[j]));
    }
  }

  /** When every target was admitted, a table holding the same rows as the
      results has a row for every address of the range. */
  lemma CompleteCovers(env: Scanner.Env, start: Ipv4, end: Ipv4, cancel: Scanner.Cancel, order: seq<nat>, rows: seq<ScanResult>)
    requires start.bits <= end.bits && !Scanner.CancelSeen(cancel, end.bits + 1)
    requires Scanner.CompletionOrder(order, Scanner.Admissions(end.bits, start.bits, cancel))
    requires forall j :: 0 <= j < |order| ==> order[j] <= U32_MAX
    requires multiset(rows) == multiset(Scanner.Results(env, order))
    ensures |rows| == end.bits - start.bits + 1
    ensures forall a: nat :: start.bits <= a <= end.bits ==> a in Scanner.Addresses(rows)
  {
    var lo: nat, hi: nat := start.bits, end.bits;
    var done := Scanner.Results(env, order);
    Scanner.CompletionOrderAdmitted(order, hi, lo, cancel);
    assert |rows| == |multiset(rows)| == |multiset(done)| == |done|;
    forall a: nat | lo <= a <= hi ensures a in Scanner.Addresses(rows) {
      assert a in order;
      var j :| 0 <= j < |order| && order[j] == a;
      assert done[j] in multiset(done);
      assert done[j] in rows;
    }
  }

  /** An inverted range leaves the front-end idle with the engine's range
      error on display. */
  lemma InvertedRangeIntoApp(app: App, env: Scanner.Env, start: Ipv4, end: Ipv4, cancel: Scanner.Cancel, order: seq<nat>)
    requires start.bits > end.bits
    ensures var r := ReduceAll(app, Scanner.Scan(env, start, end, cancel, order));
      r == app.(scanState := Idle, error := Some("Internal Error: Invalid IP Range"))
  {
    assert Scanner.Scan(env, start, end, cancel, order) == [Scanner.INVALID_RANGE];
    assert ErrorText(Internal("Invalid IP Range")) == "Internal Error: Invalid IP Range";
  }
}
