# ragescanner core in Dafny

This project models the core of ragescanner, a host scanner for IPv4 ranges. Each target
is pinged and ARP-resolved. Its name and hardware vendor are looked up, and its
common TCP ports are probed. The model covers the following parts:

- `Scanner`: the scan engine, `Scanner::scan_range`. It covers the range check,
  the admission loop with its cancellation checks, and each target's pipeline
  (ping, then ARP, then name and vendor lookups, then the port phase). It also
  covers the progress events and the terminal event. The order in which
  the admitted targets finish is a parameter, and every target's result is
  sent before the collection loop's first join. That is one interleaving
  the engine can produce: a task sends its result before it ends, and
  nothing is joined until admission is over.
- `Bridge`: the range grammar, `Bridge::parse_range`, and the bridge's command
  loop. Each `StartScan` either launches the engine on the parsed range or
  becomes one `Error` event.
- `Types`: the protocol vocabulary. It has the error type, the status, the
  result record and the messages, plus their `Display` texts.
- `Net`: the `NetworkProvider` trait as an oracle (a record of total functions).
  It holds how the Win32-backed provider classifies what the operating system
  returns (`SendARP` codes, the reverse-lookup echo rule, `IcmpCreateFile`
  failures), the `SafeHandle::new` check, and the little-endian address packing.
  It also has the deterministic `MockNet` provider.
- `TuiApp`: the terminal front-end's state machine, `tui::app::App`. It covers
  the key handler, row navigation, the online filter, sorting and the two
  commands. The command channel is the sequence of commands queued so far.
- `TuiLoop`: how the terminal's main loop reacts to engine events, from
  `bin/tui.rs`. A result is upserted by address, progress is copied, and the
  terminal events and errors move the scan state. An end-to-end lemma feeds a
  whole scan into a freshly started front-end.
- `Float32` models IEEE-754 single-precision rounding (round to nearest, ties
  to even) for the `as f32` conversions, the division and the multiplication
  in the engine's progress computation, and the saturating `as u8`.
- `Text` and `Ip` model the parts of Rust's standard library the parser relies
  on: `str::trim`, `str::split`, integer `Display` and `parse::<u8>`, and
  `Ipv4Addr`'s octets, order, `Display` and `FromStr`.
- `Scenarios` restates the repository's own unit tests as lemmas. These cover
  the parser examples, the mock scan and `MockNet`'s three kinds of host.

An address is held as its 32-bit value. A cancellation token is modelled as
the position at which it becomes set: the admission check of address `i` is
position `i`, and the final check is position `end + 1`. A pipeline task that
dies is a `fault` parameter of the engine's environment, which gives the join
error's text.

## Model

| member | source | states |
|---|---|---|
| Text.Trim | src/bridge.rs:95 | trimming leaves no whitespace at either end and never lengthens the text |
| Text.TrimPadded | src/bridge.rs:103 | trimming whitespace-only padding around trimmed text gives exactly that text back |
| Text.TrimKeeps | src/bridge.rs:95 | trimming never introduces a character, so a segment without a dot still has none |
| Text.Split | src/bridge.rs:90 | splitting yields at least one part, no part contains the separator, and joining the parts restores the text |
| Text.SplitJoin | src/bridge.rs:90 | splitting a join of separator-free parts returns those parts |
| Text.SplitCons | src/bridge.rs:90 | a separator-free prefix followed by the separator becomes the first part |
| Text.ShowNat | src/types.rs:23 | an integer's decimal text is a canonical numeral whose value is the integer |
| Text.ShowDigitsValue | src/types.rs:23 | every canonical numeral is the decimal text of its value (the inverse direction) |
| Text.ShowNatInjective | src/types.rs:23 | distinct integers render differently |
| Text.ParseU8 | src/bridge.rs:113 | `parse::<u8>` only accepts values below 256 |
| Text.ParseU8Show | src/bridge.rs:113 | a rendered byte parses back to itself |
| Ip.FromOctets | src/bridge.rs:115 | `Ipv4Addr::new(a, b, c, d)` has octets `[a, b, c, d]` |
| Ip.FromOctetsOfOctets | src/bridge.rs:114-115 | rebuilding an address from its octets gives the same address |
| Ip.OctetsInjective | src/bridge.rs:114-115 | addresses with the same octets are equal |
| Ip.LessIsLexicographic | src/bridge.rs:105 | the order on addresses is the lexicographic order of their octets |
| Ip.Parse | src/bridge.rs:96 | text the address parser accepts contains a dot |
| Ip.ParseShow | src/bridge.rs:96 | parsing an address's text gives the address back |
| Ip.ShowParse | src/bridge.rs:96 | every accepted text is the rendering of its result, so an address has one text form |
| Ip.ShowInjective | src/bridge.rs:106-109 | distinct addresses render differently, so the error message names the addresses unambiguously |
| Ip.ParseNeedsDot | src/bridge.rs:96-97 | text without a dot is never an address |
| Ip.ShowShape | src/bridge.rs:106-109 | an address renders as digits and dots, starting and ending with a digit |
| Ip.ShowHasNo | src/bridge.rs:106-109 | a rendered address contains no character other than digits and dots, and in particular no `-` |
| Types.NewResultIsBlank | src/types.rs:61-70 | a fresh result is for its address, in progress, and has found nothing |
| Types.ErrorTextInjective | src/types.rs:20-27 | distinct errors display differently, so the front-end's error text identifies the error |
| Types.StatusTextInjective | src/types.rs:38-47 | distinct statuses display differently |
| Types.ErrorStatusText | src/types.rs:44 | an error status displays as `Error: ` followed by the error's own text |
| Net.LeU32 | src/net.rs:79 | `u32::from_le_bytes` puts octet 0 in the low byte and octet 3 in the high byte |
| Net.LeBytesRoundTrip | src/net.rs:79 | packing four bytes and unpacking them gives the same bytes |
| Net.WireAddressIsByteSwapped | src/net.rs:79 | the address passed to `SendARP` and `IcmpSendEcho` is the byte-swapped `u32::from(ip)` |
| Net.SafeHandle | src/net.rs:30-36 | a handle is accepted exactly when it is neither `INVALID_HANDLE_VALUE` nor null, and is otherwise rejected with "Invalid Win32 Handle" |
| Net.Hex2 | src/net.rs:95-103 | `{:02X}` writes two upper-case hex digits that read back as the byte |
| Net.FormatMac | src/net.rs:95-103 | the MAC text is 17 characters long |
| Net.ParseFormatMac | src/net.rs:95-103 | the MAC text names exactly the six buffer bytes it was made from |
| Net.ArpOutcome | src/net.rs:93-119 | ARP yields a MAC exactly when `SendARP` returned 0 with a length of at least 6, and that MAC encodes the buffer's first six bytes. It is an error exactly when the code is not 0, 67 or 1168, and the error carries that code |
| Net.HostnameOutcome | src/net.rs:132-143 | a reverse lookup never fails, and yields a name exactly when the lookup succeeded with something other than the address's own text |
| Net.PingOutcome | src/net.rs:145-172 | a failed `IcmpCreateFile` is a Win32 error with code 0, and an unusable handle is the internal error "Invalid Win32 Handle". Otherwise the host is up exactly when `IcmpSendEcho` counted a reply |
| Net.NetUtilsContract | src/net.rs:77-143 | the production provider never reports a name-lookup error, and any MAC it reports is well-formed |
| Scanner.ProbeStage | src/scanner.rs:104-135 | the probe stage fails exactly when ping or ARP fails, with ping's error taking precedence. A resolved MAC means online whatever ping said. The name is the lookup's answer or none, and a vendor only comes with a MAC |
| Scanner.PortPhase | src/scanner.rs:154-161 | the open ports are the listed ports that answered, in list order, and no others |
| Scanner.PortPhaseCounts | src/scanner.rs:154-161 | each answering port is reported as many times as the list repeats it, and a silent one not at all |
| Scanner.RunTargetIp | src/scanner.rs:100 | a target's result is for that target |
| Scanner.RunTargetContract | src/scanner.rs:98-179 | each result is final, not in progress. It is an error exactly when the task died or ping or ARP failed, and then it carries nothing else. It is online exactly when ping or ARP said so, and only online results list ports |
| Scanner.PingErrorSkipsArp | src/scanner.rs:109-116 | a ping error ends the pipeline before ARP: the result is the blank one with that error, whatever ARP would say |
| Scanner.ArpHitIsOnline | src/scanner.rs:117-122 | a resolved MAC gives an online result with that MAC, its vendor, the name (none if the lookup failed) and the probed ports |
| Scanner.ArpMissKeepsPing | src/scanner.rs:124-134 | when ARP finds nothing, ping's verdict stands and there is no MAC or vendor |
| Scanner.ArpErrorIsSystemError | src/scanner.rs:125-130 | an ARP error is reported as that target's error status, with no ports probed |
| Scanner.TaskFaultIsSystemError | src/scanner.rs:172-178 | a task that dies is still reported, as an internal "Task failed" error |
| Scanner.Percent | src/scanner.rs:186 | progress is at most 100, and is 100 exactly when every target has completed |
| Scanner.PercentMonotone | src/scanner.rs:183-188 | more completions never report less progress |
| Scanner.PercentAsWritten | src/scanner.rs:186 | the progress byte the source computes in `f32` (the counts converted, divided, multiplied by 100, each step rounded, then truncated into a `u8`) never exceeds 100, as the engine's test asks of every progress event |
| Scanner.PercentAsWrittenMonotone | src/scanner.rs:183-188 | in the `f32` computation, more completions never report less progress |
| Scanner.AsWrittenFullAtEnd | src/scanner.rs:183-188 | once every target has completed, the `f32` computation and the integer floor both report exactly 100 |
| Scanner.AsWrittenReadsLow | src/scanner.rs:186 | with 53 of 100 targets completed, the `f32` computation reports 52 where the floor of 53% is 53 |
| Scanner.AsWrittenFullEarly | src/scanner.rs:186 | in a range of 2^25 addresses, the `f32` computation reports 100 after `2^25 - 1` completions, while the integer floor stays below 100 |
| Float32.RoundAt | src/scanner.rs:186 | rounding to a multiple of `2^e` moves a value by at most half of `2^e`, and never below zero |
| Float32.RoundExact | src/scanner.rs:186 | a value with a 24-bit significand is left unchanged by single-precision rounding |
| Float32.FromNat | src/scanner.rs:186 | `n as f32` is never negative, and is positive for a positive count |
| Float32.Div | src/scanner.rs:186 | `f32` division of a non-negative value by a positive one is non-negative |
| Float32.DivSelf | src/scanner.rs:186 | a positive `f32` divided by itself is exactly 1 |
| Float32.Mul | src/scanner.rs:186 | `f32` multiplication of non-negative values is non-negative |
| Float32.AsU8 | src/scanner.rs:186 | `as u8` saturates at 255 and below that truncates toward zero |
| Float32.RoundMonotone | src/scanner.rs:186 | single-precision rounding never reverses the order of two non-negative values |
| Float32.FromNatMonotone | src/scanner.rs:186 | a larger count converts to an `f32` that is at least as large |
| Float32.DivMonotone | src/scanner.rs:186 | `f32` division by the same positive value keeps the order of the dividends |
| Float32.DivAtMostOne | src/scanner.rs:186 | a non-negative `f32` divided by a value at least as large is at most 1 |
| Float32.MulMonotone | src/scanner.rs:186 | `f32` multiplication by the same non-negative value keeps the order |
| Float32.AsU8Monotone | src/scanner.rs:186 | `as u8` keeps the order of non-negative values |
| Scanner.Admissions | src/scanner.rs:70-75 | the admission loop admits consecutive addresses from the start, stopping at the end of the range or at the first check that sees the token |
| Scanner.CompletionOrderAdmitted | src/scanner.rs:70-75 | the targets that finish are exactly the admitted addresses, each once |
| Scanner.TotalAsWritten | src/scanner.rs:64-66 | the engine's `u32` count `end - start + 1` is the size of the range, except for the whole address space, where it wraps to 0 |
| Scanner.WholeSpaceCountWraps | src/scanner.rs:64-75 | for `0.0.0.0-255.255.255.255` the admission loop admits 2^32 addresses while the engine's count of them is 0 |
| Scanner.CompletedAsWritten | src/scanner.rs:183-185 | the collection loop's `u32` counter equals the number of joins until the 2^32-th join, where it wraps to 0 |
| Scanner.LastProgressWraps | src/scanner.rs:183-188 | for `0.0.0.0-255.255.255.255` there are 2^32 joins, and the last one's wrapped counter makes its progress 0 even against a widened count of the range |
| Scanner.Scan | src/scanner.rs:40-197 | an inverted range yields only the range error. A valid range ends with exactly one terminal event, and nothing before it is terminal or an error |
| Scanner.ScanReports | src/scanner.rs:98-188 | a valid range reports the admitted targets' results in the order they finish, and after the `j`-th join the progress of `j` completions of the range's size |
| Scanner.ScanInvertedRange | src/scanner.rs:50-58 | a start above the end sends one "Invalid IP Range" error and nothing else |
| Scanner.ScanCancellation | src/scanner.rs:70-196 | a token set before target `p` admits exactly the targets below `p`. The scan ends cancelled exactly when the final check sees the token, and ends complete only after every target was admitted |
| Scanner.ScanOneUpdatePerTarget | src/scanner.rs:98-179 | whatever order the targets finish in, there is one update per admitted target, carrying that target's own result. The reported addresses are exactly the admitted ones, and none is reported twice |
| Scanner.ResultsOwn | src/scanner.rs:98-179 | the results of distinct targets are each target's own and are for distinct addresses |
| Scanner.ResultsAddresses | src/scanner.rs:70-179 | the results of a completion order are for exactly the admitted addresses |
| Scanner.ScanProgressCounts | src/scanner.rs:183-188 | there is one progress event per admitted target, and the `j`-th reports `j` completions of the range's size |
| Scanner.ProgressAt | src/scanner.rs:183-188 | every progress event comes after all the results, and the one `j` places after them reports `j + 1` completions of the range's size |
| Scanner.ScanProgress | src/scanner.rs:183-188 | progress never exceeds 100 and never decreases, and a completed scan's last progress is exactly 100, for every valid range including the whole address space |
| Bridge.OrderedRange | src/bridge.rs:104-112 | a range is accepted exactly when the end is not below the start. It is never swapped |
| Bridge.WithLastOctet | src/bridge.rs:113-115 | the end keeps the start's first three octets and takes the given last octet |
| Bridge.ParseRange | src/bridge.rs:89-127 | every accepted range is ordered and starts at the parsed first segment |
| Bridge.ParseSegments | src/bridge.rs:95-126 | every accepted range is ordered and starts at the trimmed first segment's address |
| Bridge.ParseSingle | src/bridge.rs:99-101 | a lone address, padded with whitespace or not, is the one-address range |
| Bridge.ParseFull | src/bridge.rs:103-112 | `A-B` with whitespace around either side is `(A, B)` when `B` is not below `A`, and an error otherwise |
| Bridge.WithLastOctetOrder | src/bridge.rs:113-123 | an octet end is accepted exactly when it is at least the start's last octet |
| Bridge.ParseOctet | src/bridge.rs:113-123 | `A-N` is the range from `A` to `A` with its last octet replaced by `N`, accepted exactly when `N` is at least `A`'s last octet |
| Bridge.TwoSegments | src/bridge.rs:90-103 | text with exactly one `-` is read as its two sides |
| Bridge.ExtraSegmentsIgnored | src/bridge.rs:90-103 | anything after a second `-` is ignored |
| Bridge.ParseRangeErrors | src/bridge.rs:95-125 | the start error quotes the trimmed start segment, and the end error quotes the trimmed end segment |
| Bridge.NoDotRejected | src/bridge.rs:95-97 | a first segment without a dot is rejected |
| Bridge.GeneratedRangesParse | src/bridge.rs:174-206 | every range the randomized test generates, whether with a full or an octet end, parses to a well-ordered range starting at the generated start |
| Bridge.GeneratedFullRange | src/bridge.rs:189-191 | a generated full-address end parses to exactly the generated pair |
| Bridge.GeneratedOctetRange | src/bridge.rs:192-194 | a generated octet end parses to exactly the start and the start with that last octet |
| Bridge.GarbageRejected | src/bridge.rs:208-212 | any text of letters `a` to `y` is rejected |
| Bridge.StartAction | src/bridge.rs:67-78 | a `StartScan` launches the engine exactly when its text parses, on the parsed and ordered range. Otherwise it sends one internal error carrying the parser's message |
| Bridge.ActionsContract | src/bridge.rs:66-80 | the command loop reacts once to each `StartScan`, in order, and ignores every other command |
| Bridge.DispatchContract | src/bridge.rs:66-80 | the bridge produces one action per `StartScan` text, in order |
| Bridge.LaunchedScanRuns | src/bridge.rs:68-73 | a range the bridge launches, the whole address space included, never trips the engine's range check: with nothing cancelling it, it reports one result per address of the range and ends with `ScanComplete` |
| TuiApp.NewApp | src/tui/app.rs:35-49 | the app starts idle in normal mode, with the default range, no results, no selection and nothing sent |
| TuiApp.OnlineOnly | src/tui/app.rs:52-56 | the online filter keeps every online result, as often as it occurs and in order, and nothing else |
| TuiApp.FilteredResults | src/tui/app.rs:51-60 | the shown rows are all results when the filter is off, and exactly the online results, in order, when it is on |
| TuiApp.NextRow | src/tui/app.rs:76-88 | moving down selects the next row, wrapping to the first. In a non-empty table it always lands on a shown row; in an empty one it selects `Some(0)`. Nothing else changes |
| TuiApp.PreviousRow | src/tui/app.rs:90-102 | moving up selects the previous row, wrapping from the first row to the last. Nothing else changes |
| TuiApp.RowsAreCyclic | src/tui/app.rs:76-102 | within a non-empty table, moving down and moving up undo each other |
| TuiApp.Insert | src/tui/app.rs:105 | inserting into sorted results keeps them sorted and adds exactly that result |
| TuiApp.SortByIp | src/tui/app.rs:105 | sorting yields results ordered by address that are a permutation of the input |
| TuiApp.SortResults | src/tui/app.rs:104-106 | `sort_results` reorders the results by address and changes nothing else |
| TuiApp.StartScan | src/tui/app.rs:62-70 | starting a scan clears the results, progress and error, enters the scanning state, and queues one `StartScan` with the input line |
| TuiApp.StopScan | src/tui/app.rs:72-74 | stopping queues one `StopScan` and changes nothing else |
| TuiApp.DropLast | src/tui/app.rs:125-127 | backspace removes exactly the last character, and does nothing to an empty line |
| TuiApp.TypeThenErase | src/tui/app.rs:160-186 | while editing, a typed character is appended and backspace removes it again, and backspace on an empty line is a no-op |
| TuiApp.EditingEnterAndEsc | src/tui/app.rs:188-204 | while editing, Enter leaves editing and starts a scan of the input line, and Esc only leaves editing without quitting |
| TuiApp.QuitKeys | src/tui/app.rs:117-147 | only Esc or `q` over the table sets quit, and quitting is never undone |
| TuiApp.DetailKeys | src/tui/app.rs:131-134 | with the popup open, Esc and `q` only close it, and every other key does nothing |
| TuiApp.TabTwice | src/tui/app.rs:222-230 | Tab toggles the online filter, and pressing it twice changes nothing |
| TuiApp.KeysSend | src/tui/app.rs:117-147 | commands are queued only by Enter while editing (`StartScan` with the input) and by `s` over the table (`StopScan`) |
| TuiApp.KeysKeepResults | src/tui/app.rs:117-147 | only Enter while editing touches the results, and only to clear them. In a non-empty table, navigation keeps the selection on a shown row |
| TuiLoop.FindIp | src/bin/tui.rs:46 | the search finds the first result with the address, or reports that there is none |
| TuiLoop.UpsertContract | src/bin/tui.rs:44-52 | an update replaces the row for its address or appends one. The set of addresses gains exactly its address, other rows keep their place, and rows stay unique by address |
| TuiLoop.UpsertIdempotent | src/bin/tui.rs:44-52 | delivering the same result twice leaves the table as delivering it once |
| TuiLoop.FindIpUnique | src/bin/tui.rs:46 | the first row for an address is found at its position |
| TuiLoop.ReduceContract | src/bin/tui.rs:42-65 | covers each event. An update only upserts, and progress only sets the progress. Completion sets the state and 100 and sorts the same results. Cancellation sets only the state. An error returns to idle and shows text that identifies the error. Commands change nothing |
| TuiLoop.ReduceAllAppend | src/bin/tui.rs:33-68 | handling two event batches in turn equals handling their concatenation |
| TuiLoop.UpsertFresh | src/bin/tui.rs:46-51 | an update for an address with no row appends it |
| TuiLoop.FoldUpdates | src/bin/tui.rs:44-52 | the updates of results for distinct addresses that have no row yet append them in arrival order and change nothing else |
| TuiLoop.FoldProgress | src/bin/tui.rs:53 | a run of progress events leaves the last one's value and changes nothing else |
| TuiLoop.SortSorted | src/tui/app.rs:104-106 | sorting results already in address order leaves them unchanged |
| TuiLoop.ScanIntoApp | src/bin/tui.rs:42-65 | a whole scan fed to a freshly started front-end leaves one row per admitted address, each the engine's result. A cancelled scan ends `Cancelled` with the rows in the order the targets finished. A completed one ends `Complete` at 100 with a row for every address of the range, sorted by address |
| TuiLoop.InvertedRangeIntoApp | src/bin/tui.rs:60-63 | an inverted range leaves the front-end idle showing "Internal Error: Invalid IP Range" |
| Scenarios.MockHostOnline | src/net.rs:206-240 | under `MockNet`, 192.168.1.1 is online with its MAC, name and vendor, and port 80 is its only open port |
| Scenarios.MockFailingHost | src/net.rs:207-215 | under `MockNet`, 192.168.1.2 reports the simulated ping failure and nothing else |
| Scenarios.MockSilentHost | src/net.rs:207-231 | under `MockNet`, every other address is offline with nothing found |
| Scenarios.MockSingleHostScan | src/scanner.rs:206-245 | scanning 192.168.1.1 alone gives its online update with port 80, then progress 100, then completion |
| Scenarios.SingleAddressExample | src/bridge.rs:136-142 | "192.168.1.1" parses to the one-address range |
| Scenarios.OctetRangeExample | src/bridge.rs:145-154 | "192.168.1.1-50" parses to 192.168.1.1 to 192.168.1.50 |
| Scenarios.FullRangeExample | src/bridge.rs:157-163 | "10.0.0.1 - 10.0.0.255" parses to that pair |
| Scenarios.WordsRejected | src/bridge.rs:167 | "not-an-ip" is rejected |
| Scenarios.EndNotNumber | src/bridge.rs:168 | "192.168.1.1-abc" is rejected with "Invalid End IP or Octet: 'abc'" |
| Scenarios.EmptyRejected | src/bridge.rs:169 | "" is rejected with "Invalid Start IP: ''" |
| Scenarios.InvertedOctetExample | src/bridge.rs:170 | "192.168.1.10-5" is rejected as inverted |
| Scenarios.InitialInputExample | src/tui/app.rs:37 | the input line's initial text parses to 192.168.1.1 to 192.168.1.255 |

## Left out

- Concurrency is not modelled: the semaphore of 100 permits (src/scanner.rs:67), the `JoinSet`, `spawn_blocking` and the channels. The model fixes one interleaving: every result arrives before the first progress event, since no task is joined until the admission loop ends. The order in which the targets finish is a parameter, so any order is covered. Interleavings where progress events fall between results are not modelled. The per-target properties are stated over the sequence of results and the sequence of progress values, and each of those two sequences is the same under any interleaving.
- The semaphore-closed branch (src/scanner.rs:83-92) is not modelled, because the semaphore is never closed.
- Scanner.Scan: counts with unbounded integers where the source uses `u32`. Both the range count (src/scanner.rs:64-66) and the `completed` counter (src/scanner.rs:183-185) wrap for the whole address space. The differences are listed under Findings and modelled by `Scanner.TotalAsWritten` and `Scanner.CompletedAsWritten`.
- Scanner.Percent: the scan reports the integer floor of `completed * 100 / total`, the value the source's `f32` expression approximates, rather than that expression itself. The two differ as listed under Findings; `Scanner.PercentAsWritten` models the expression.
- The port list `COMMON_PORTS` is a parameter. Its definition is not part of this model, and port labels are not modelled.
- A panic in `scan_port` (src/scanner.rs:157) is not modelled. `scan_port` runs in the outer task, so such a panic would lose that target's `ScanUpdate`, while `join_next` would still count the task toward progress. The `fault` parameter models only a panic in the blocking probe task (src/scanner.rs:172-178).
- Failures to send on a channel are dropped (`let _ =` and `try_send`). The model treats every send as delivered.
- The bridge calls `scan_range(start, end)` without a token (src/bridge.rs:72). It ignores `StopScan` and `StartScanRange`, and runs launched scans concurrently with no guard. Launches are modelled as `Launch` actions, not as interleaved engines.
- Runtime creation failure in `Bridge::new` (src/bridge.rs:41-49) is not modelled.
- The `parts.is_empty()` branch of `parse_range` is unreachable, because splitting always yields a part. It is not modelled.
- Ip.Parse: models the four-field, no-leading-zero dotted-decimal form that `Ipv4Addr::from_str` accepts. Rust's length limits on the text are not modelled.
- TuiApp.SortByIp: proves sortedness and permutation. It does not prove that equal addresses keep their relative order, as the stable `sort_by` does.
- TuiLoop.ScanIntoApp: assumes the table was cleared by `start_scan` and that no other scan's events interleave. A cancelled scan's rows stay in arrival order, because the front-end sorts only on `ScanComplete` (src/bin/tui.rs:54-59).
- TuiLoop.UpsertContract: states uniqueness only for tables that were already unique. A non-unique table has only its first matching row replaced, as `find` does.
- Selections past the end of the table after filtering are left as they are. The table widget clamps them at render time, and rendering is not modelled.
- Rendering, terminal I/O, the event handler thread, logging, the Win32 FFI itself, DNS and the OUI database are out of scope. They appear only as oracle parameters (`Win32Api`).
- `ip.to_string()` comparisons in `resolve_hostname` use the model's `Show`, which is `Ipv4Addr`'s dotted-decimal `Display`.

## Findings

| source | as written | input that shows it | evidently intended | confidence | as-written member | corrected member |
|---|---|---|---|---|---|---|
| src/scanner.rs:186 | `(completed as f32 / total_ips as f32 * 100.0) as u8` rounds twice in single precision and then truncates | 53 of 100 targets completed: 0.53 rounds down to 0.52999997, times 100 gives 52.999996, and the byte is 52 | `floor(completed * 100 / total)`, which is 53 here | medium; not executed | Scanner.PercentAsWritten, Scanner.AsWrittenReadsLow | Scanner.Percent, Scanner.PercentMonotone |
| src/scanner.rs:186 | the same expression, for ranges wider than 2^24 addresses | a range of 2^25 addresses with `2^25 - 1` completed: the count rounds up to 2^25, the quotient is 1.0, and the byte is 100 one completion early | 100 only at the last completion | medium; not executed | Scanner.PercentAsWritten, Scanner.AsWrittenFullEarly | Scanner.Percent |
| src/scanner.rs:64-66 | `end_u32 - start_u32 + 1` in `u32` | "0.0.0.0-255.255.255.255", which the bridge accepts and launches: the count of 2^32 addresses overflows. Builds with overflow checks panic; builds without them count 0 and divide every progress value by zero | a count of 2^32, with progress rising to 100; this also needs the counter of the next row widened | medium; not executed | Scanner.TotalAsWritten, Scanner.WholeSpaceCountWraps | Scanner.Scan, Scanner.ScanProgress |
| src/scanner.rs:183-185 | `let mut completed: u32 = 0;` and `completed += 1` once per join | "0.0.0.0-255.255.255.255": the 2^32-th join overflows the counter. Builds with overflow checks panic; builds without them wrap it to 0, so the last progress is 0 even with the range count widened | a counter of 2^32 at the last join, with progress 100 | medium; not executed | Scanner.CompletedAsWritten, Scanner.LastProgressWraps | Scanner.Scan, Scanner.ScanProgress |
