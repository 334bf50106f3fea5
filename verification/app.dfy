/** The terminal front-end's state machine (`tui::app::App`): the input
    line, the result table with its selection and online filter, and the
    key handler. The command channel to the bridge is modelled as the
    sequence of commands queued so far. */
module TuiApp {
  import opened Wrappers
  import opened Ip
  import opened Types
  import opened Seqs

  datatype InputMode = Normal | Editing

  datatype ScanState = Idle | Scanning | Complete | Cancelled

  /** The keys the handler distinguishes; `Other` stands for every key it
      ignores in all modes (arrows left and right, function keys, ...). */
  datatype KeyCode = Char(c: char) | Enter | Backspace | Esc | Tab | Up | Down | Other

  /** The front-end's state. `selected` is the table selection; `sent` are
      the commands queued on the channel to the bridge, oldest first. */
  datatype App = App(
    input: string,
    inputMode: InputMode,
    results: seq<ScanResult>,
    selected: Option<nat>,
    progress: byte,
    scanState: ScanState,
    error: Option<string>,
    showDetail: bool,
    shouldQuit: bool,
    filterOnline: bool,
    sent: seq<BridgeMessage>)

  const INITIAL_INPUT: string := "192.168.1.1-255"

  /** `App::new`: the default range in the input line, normal mode, no
      results, nothing selected, idle. */
  function NewApp(): (app: App)
    ensures app.input == INITIAL_INPUT && app.inputMode == Normal
    ensures app.results == [] && app.selected.None? && app.progress == 0
    ensures app.scanState == Idle && app.error.None?
    ensures !app.showDetail && !app.shouldQuit && !app.filterOnline && app.sent == []
  {
    App(INITIAL_INPUT, Normal, [], None, 0, Idle, None, false, false, false, [])
  }

  // ---------------------------------------------------------------------
  // The result table
  // ---------------------------------------------------------------------

  /** The online results, in their order. */
  function OnlineOnly(rs: seq<ScanResult>): (r: seq<ScanResult>)
    ensures IsSubsequence(r, rs)
    ensures forall x :: x in r ==> x.status == Online
    ensures forall x :: multiset(r)[x] == if x.status == Online then multiset(rs)[x] else 0
    decreases |rs|
  {
    if rs == [] then []
    else
      var rest := OnlineOnly(rs[1..]);
      assert rs == [rs[0]] + rs[1..];
      if rs[0].status == Online then
        assert ([rs[0]] + rest)[1..] == rest;
        [rs[0]] + rest
      else rest
  }

  /** `App::filtered_results`: the rows the table shows. */
  function FilteredResults(app: App): (rows: seq<ScanResult>)
    ensures IsSubsequence(rows, app.results)
    ensures !app.filterOnline ==> rows == app.results
    ensures app.filterOnline ==> forall x :: x in rows <==> x in app.results && x.status == Online
    ensures app.filterOnline ==>
      forall x :: multiset(rows)[x] == if x.status == Online then multiset(app.results)[x] else 0
  {
    if app.filterOnline then
      var rows := OnlineOnly(app.results);
      assert forall x :: x in rows <==> multiset(rows)[x] > 0;
      rows
    else
      SubsequenceRefl(app.results);
      app.results
  }

  lemma {:induction false} SubsequenceRefl<T>(s: seq<T>)
    ensures IsSubsequence(s, s)
    decreases |s|
  {
    if s != [] {
      SubsequenceRefl(s[1..]);
    }
  }

  /** `len().saturating_sub(1)`: the last index of a table of `len` rows,
      or 0 when it is empty. */
  function LastIndex(len: nat): nat {
    if len == 0 then 0 else len - 1
  }

  /** The selection after moving down in a table of `len` rows. */
  function NextIndex(selected: Option<nat>, len: nat): nat {
    match selected
    case None => 0
    case Some(i) => if i >= LastIndex(len) then 0 else i + 1
  }

  /** The selection after moving up in a table of `len` rows. */
  function PrevIndex(selected: Option<nat>, len: nat): nat {
    match selected
    case None => 0
    case Some(i) => if i == 0 then LastIndex(len) else i - 1
  }

  /** `App::next_row`: the selection moves down one row, wrapping from the
      last row (or from a stale selection past it) to the first. In an
      empty table the selection becomes `Some(0)`, which is no row. */
  function NextRow(app: App): (r: App)
    ensures r == app.(selected := r.selected)
    ensures r.selected.Some?
    ensures var len, j := |FilteredResults(app)|, r.selected.value;
      && j <= LastIndex(len)
      && (len > 0 ==> j < len)
      && (len == 0 ==> j == 0)
      && (app.selected.None? ==> j == 0)
      && (app.selected.Some? && app.selected.value < LastIndex(len) ==> j == app.selected.value + 1)
      && (app.selected.Some? && app.selected.value >= LastIndex(len) ==> j == 0)
  {
    app.(selected := Some(NextIndex(app.selected, |FilteredResults(app)|)))
  }

  /** `App::previous_row`: the selection moves up one row, wrapping from
      the first row to the last (to 0 when the table is empty). */
  function PreviousRow(app: App): (r: App)
    ensures r == app.(selected := r.selected)
    ensures r.selected.Some?
    ensures var len, j := |FilteredResults(app)|, r.selected.value;
      && (app.selected.None? ==> j == 0)
      && (app.selected == Some(0) ==> j == LastIndex(len))
      && (app.selected.Some? && app.selected.value > 0 ==> j == app.selected.value - 1)
  {
    app.(selected := Some(PrevIndex(app.selected, |FilteredResults(app)|)))
  }

  /** Within a non-empty table, moving down and moving up undo each other,
      both across the wrap-around and away from it. */
  lemma RowsAreCyclic(app: App, i: nat)
    requires i < |FilteredResults(app)|
    ensures PreviousRow(NextRow(app.(selected := Some(i)))).selected == Some(i)
    ensures NextRow(PreviousRow(app.(selected := Some(i)))).selected == Some(i)
  {
    var a := app.(selected := Some(i));
    assert FilteredResults(a) == FilteredResults(app);
    assert FilteredResults(NextRow(a)) == FilteredResults(app);
    assert FilteredResults(PreviousRow(a)) == FilteredResults(app);
  }

  /** Results ordered by address, ascending. */
  predicate SortedByIp(rs: seq<ScanResult>) {
    forall i, j :: 0 <= i < j < |rs| ==> rs[i].ip.bits <= rs[j].ip.bits
  }

  /** `x` placed before the first element of `rs` whose address is not
      below it. */
  function Insert(x: ScanResult, rs: seq<ScanResult>): (r: seq<ScanResult>)
    requires SortedByIp(rs)
    ensures SortedByIp(r)
    ensures multiset(r) == multiset(rs) + multiset{x}
    decreases |rs|
  {
    if rs == [] || x.ip.bits <= rs[0].ip.bits then
      SortedCons(x, rs);
      [x] + rs
    else
      var rest := Insert(x, rs[1..]);
      assert rs == [rs[0]] + rs[1..];
      forall j | 0 <= j < |rest|
        ensures rs[0].ip.bits <= rest[j].ip.bits
      {
        MultisetMember(rest[j], rest, rs[1..], x);
      }
      SortedCons(rs[0], rest);
      [rs[0]] + rest
  }

  /** A sorted sequence stays sorted under a head no greater than any of
      its elements. */
  lemma SortedCons(h: ScanResult, rs: seq<ScanResult>)
    requires SortedByIp(rs)
    requires forall j :: 0 <= j < |rs| ==> h.ip.bits <= rs[j].ip.bits
    ensures SortedByIp([h] + rs)
  {
    assert forall j :: 1 <= j < |[h] + rs| ==> ([h] + rs)[j] == rs[j - 1];
  }

  lemma MultisetMember<T>(y: T, s: seq<T>, t: seq<T>, x: T)
    requires y in s && multiset(s) == multiset(t) + multiset{x}
    ensures y == x || y in t
  {
    assert y in multiset(s);
  }

  /** Insertion sort by address. */
  function SortByIp(rs: seq<ScanResult>): (r: seq<ScanResult>)
    ensures SortedByIp(r)
    ensures multiset(r) == multiset(rs)
    decreases |rs|
  {
    if rs == [] then []
    else
      assert rs == [rs[0]] + rs[1..];
      Insert(rs[0], SortByIp(rs[1..]))
  }

  /** `App::sort_results`: the same results, ordered by address. */
  function SortResults(app: App): (r: App)
    ensures r == app.(results := r.results)
    ensures SortedByIp(r.results) && multiset(r.results) == multiset(app.results)
  {
    app.(results := SortByIp(app.results))
  }

  // ---------------------------------------------------------------------
  // Commands to the bridge
  // ---------------------------------------------------------------------

  /** `App::start_scan`: clears the table, progress and error, enters the
      scanning state and queues a `StartScan` with the input line. */
  function StartScan(app: App): (r: App)
    ensures r.results == [] && r.progress == 0 && r.scanState == ScanState.Scanning && r.error.None?
    ensures r.sent == app.sent + [BridgeMessage.StartScan(app.input)]
    ensures r == app.(results := [], progress := 0, scanState := ScanState.Scanning, error := None, sent := r.sent)
  {
    app.(results := [], progress := 0, scanState := ScanState.Scanning, error := None,
         sent := app.sent + [BridgeMessage.StartScan(app.input)])
  }

  /** `App::stop_scan`: queues a `StopScan` and changes nothing else. */
  function StopScan(app: App): (r: App)
    ensures r == app.(sent := app.sent + [BridgeMessage.StopScan])
  {
    app.(sent := app.sent + [BridgeMessage.StopScan])
  }

  // ---------------------------------------------------------------------
  // The key handler
  // ---------------------------------------------------------------------

  /** `String::pop`: the input without its last character, if any. */
  function DropLast(s: string): (r: string)
    ensures s == [] ==> r == []
    ensures s != [] ==> r + [s[|s| - 1]] == s
  {
    if s == [] then [] else s[..|s| - 1]
  }

  /** `App::on_key`: the editing line takes the key if it is active, then
      the detail popup, then the table. */
  function OnKey(app: App, code: KeyCode): App {
    if app.inputMode == Editing then
      match code
      case Enter => StartScan(app.(inputMode := Normal))
      case Char(c) => app.(input := app.input + [c])
      case Backspace => app.(input := DropLast(app.input))
      case Esc => app.(inputMode := Normal)
      case _ => app
    else if app.showDetail then
      if code == Esc || code == Char('q') then app.(showDetail := false) else app
    else
      match code
      case Char(c) =>
        if c == 'q' then app.(shouldQuit := true)
        else if c == 'i' || c == 'e' then app.(inputMode := Editing)
        else if c == 's' then StopScan(app)
        else if c == 'j' then NextRow(app)
        else if c == 'k' then PreviousRow(app)
        else app
      case Esc => app.(shouldQuit := true)
      case Down => NextRow(app)
      case Up => PreviousRow(app)
      case Enter => app.(showDetail := true)
      case Tab => app.(filterOnline := !app.filterOnline)
      case _ => app
  }

  /** The table is in charge: neither editing nor showing the popup. */
  predicate InTable(app: App) {
    app.inputMode == Normal && !app.showDetail
  }

  /** While editing, a typed character is appended, and backspace erases
      it again; backspace on an empty line does nothing. */
  lemma TypeThenErase(app: App, c: char)
    requires app.inputMode == Editing
    ensures OnKey(app, Char(c)).input == app.input + [c]
    ensures OnKey(OnKey(app, Char(c)), Backspace) == app
    ensures app.input == [] ==> OnKey(app, Backspace) == app
  {
    assert DropLast(app.input + [c]) == app.input;
  }

  /** While editing, Enter leaves editing and starts a scan of the input
      line; Esc leaves editing and nothing else. */
  lemma EditingEnterAndEsc(app: App)
    requires app.inputMode == Editing
    ensures var r := OnKey(app, Enter);
      && r.inputMode == Normal && r.scanState == ScanState.Scanning
      && r.results == [] && r.progress == 0 && r.error.None?
      && r.sent == app.sent + [BridgeMessage.StartScan(app.input)]
      && r.input == app.input && r.shouldQuit == app.shouldQuit
    ensures OnKey(app, Esc) == app.(inputMode := Normal)
  {
  }

  /** Only Esc or `q` over the table quits, and quitting is never undone. */
  lemma QuitKeys(app: App, code: KeyCode)
    ensures var r := OnKey(app, code);
      && (app.shouldQuit ==> r.shouldQuit)
      && (!app.shouldQuit ==>
            (r.shouldQuit <==> InTable(app) && (code == Esc || code == Char('q'))))
  {
    if InTable(app) {
      TableQuit(app, code);
    }
  }

  /** Over the table, a key quits exactly when it is Esc or `q`. */
  lemma TableQuit(app: App, code: KeyCode)
    requires InTable(app)
    ensures OnKey(app, code).shouldQuit == (app.shouldQuit || code == Esc || code == Char('q'))
  {
    match code
    case Down => MovesKeepQuit(app);
    case Up => MovesKeepQuit(app);
    case Char(c) =>
      if c == 'j' || c == 'k' {
        MovesKeepQuit(app);
      }
    case _ =>
  }

  lemma MovesKeepQuit(app: App)
    ensures NextRow(app).shouldQuit == app.shouldQuit
    ensures PreviousRow(app).shouldQuit == app.shouldQuit
  {
  }

  /** With the popup shown, Esc and `q` only close it and every other key
      does nothing. */
  lemma DetailKeys(app: App, code: KeyCode)
    requires app.inputMode == Normal && app.showDetail
    ensures OnKey(app, code) == if code == Esc || code == Char('q') then app.(showDetail := false) else app
  {
  }

  /** Tab over the table toggles the online filter; twice is no change. */
  lemma TabTwice(app: App)
    requires InTable(app)
    ensures OnKey(app, Tab).filterOnline == !app.filterOnline
    ensures OnKey(OnKey(app, Tab), Tab) == app
  {
  }

  /** Commands reach the bridge only from Enter while editing (a
      `StartScan` with the input line) and from `s` over the table (a
      `StopScan`); every other key queues nothing. */
  lemma KeysSend(app: App, code: KeyCode)
    ensures OnKey(app, code).sent ==
      if app.inputMode == Editing && code == Enter then app.sent + [BridgeMessage.StartScan(app.input)]
      else if InTable(app) && code == Char('s') then app.sent + [BridgeMessage.StopScan]
      else app.sent
  {
    if InTable(app) {
      match code
      case Down => assert NextRow(app).sent == app.sent;
      case Up => assert PreviousRow(app).sent == app.sent;
      case Char(c) =>
        if c == 'j' {
          assert NextRow(app).sent == app.sent;
        } else if c == 'k' {
          assert PreviousRow(app).sent == app.sent;
        }
      case _ =>
    }
  }

  /** Only Enter while editing touches the results, and only to clear them.
      In a non-empty table, moving down always lands on a shown row, and
      moving up does from a selection on a shown row; in an empty one the
      selection becomes `Some(0)`. */
  lemma KeysKeepResults(app: App, code: KeyCode)
    ensures var r := OnKey(app, code);
      && (r.results == app.results || (app.inputMode == Editing && code == Enter && r.results == []))
      && (InTable(app) && (code == Down || code == Char('j')) ==>
            r.selected.Some? && r.selected.value <= LastIndex(|FilteredResults(app)|))
      && (InTable(app) && (code == Up || code == Char('k'))
          && (app.selected.None? || app.selected.value <= LastIndex(|FilteredResults(app)|)) ==>
            r.selected.Some? && r.selected.value <= LastIndex(|FilteredResults(app)|))
  {
    if InTable(app) {
      match code
      case Down => assert NextRow(app).results == app.results;
      case Up => assert PreviousRow(app).results == app.results;
      case Char(c) =>
        if c == 'j' {
          assert NextRow(app).results == app.results;
        } else if c == 'k' {
          assert PreviousRow(app).results == app.results;
        }
      case _ =>
    }
  }
}
