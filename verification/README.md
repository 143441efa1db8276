# unison-fsmonitor: the monitor's core in Dafny

`unison-fsmonitor` is the file-system monitor that Unison starts on macOS.
Unison writes commands to the monitor's standard input, one per line:
`VERSION`, `START`, `DIR`, `LINK`, `DONE`, `WAIT`, `CHANGES`, `RESET`, `QUIT`
and `DEBUG`. The monitor answers on standard output:

- `VERSION 1`, `OK` and `DONE`;
- `CHANGES <replica>` when a waiting replica has pending changes;
- `RECURSIVE <path>` for each pending change;
- `ERROR <message>` before it shuts down.

Each replica is a watched root directory plus a set of sub-paths under it.
A handler goroutine per replica turns file-system events into pending
changes.

This project models, as immutable data and pure functions:

- **The string set** of `internal/pkg/set`: `string_set.dfy`, module
  `StringSet`. A set is a sequence without repeats. Its order plays the part
  of Go's unspecified map order, so `StringSlice` is an ordinary function.
- **The line framing** of `sendrecv.go`: `send_recv.dfy`, module `SendRecv`.
  It covers building and reading a line, percent-encoding every argument,
  and the fatal `SendErr`.
- **Event-to-change matching and recording**, the body of `eventHandler` in
  `events.go`: `events.dfy`, module `Events`.
- **The protocol state machine** of `runner.go`: `runner.dfy`, module
  `Runner`. It covers the version handshake, the command loop of `Run`, the
  DIR/LINK loop of `startReplicaMonitor`, and event batches interleaved
  between commands.
- **The monitor's state**, the fields of `UnisonFSMonitor`:
  `monitor_state.dfy`, module `MonitorState`. It also holds the invariant the
  commands and handlers keep.

Some Go library functions are written out in Dafny because the core depends
on them:

- `strings.Split`, `strings.Join`, `strings.TrimSpace`, `sort.Strings` and
  `strconv.Itoa`, in `strings.dfy`;
- `url.PathEscape` and `url.PathUnescape`, following section 2 of RFC 3986,
  in `escaping.dfy`;
- `filepath.Clean`, `filepath.Join` and `filepath.Rel` on Unix paths, in
  `file_paths.dfy`.

Paths are modelled as a rooted flag plus a list of cleaned elements, with
`Clean(s) == Render(Parse(s))`. `Rel` on cleaned paths climbs one `..` for
each element of the base past the common prefix, then descends along the
rest of the target.

Concurrency becomes interleaving. `Runner.Replay` applies a sequence of
stimuli to one state record. Each stimulus is either the main loop reading
one line, or one handler handling one batch of events. `SendErr` is a
terminal transition, because `main` exits the process as soon as it gets the
shutdown signal.

## Model

| member | source | states |
|---|---|---|
| `StringSet.New` | internal/pkg/set/functions.go:9-16 | A new set holds exactly the distinct arguments, and its size is their number. No arguments give an empty set, and duplicates collapse. |
| `StringSet.NewSizes` | internal/pkg/set/functions_test.go:15-19 | `New()` has size 0, `New("a","b","c","d")` has size 4, and `New("a","a","b")` has size 2. |
| `StringSet.Put` | internal/pkg/set/methods.go:11 | Storing one key makes it a member and keeps all other members. |
| `StringSet.Add` | internal/pkg/set/methods.go:4-14 | The members afterwards are the old members plus the arguments. With no arguments the set comes back unchanged. |
| `StringSet.AddPresentKeepsSize` | internal/pkg/set/methods_test.go:27-30 | Adding a member that is already present leaves the size unchanged. |
| `StringSet.Delete` | internal/pkg/set/methods.go:24 | Deleting a key removes exactly that key. |
| `StringSet.Remove` | internal/pkg/set/methods.go:17-27 | The members afterwards are the old members minus the arguments. With no arguments the set comes back unchanged. |
| `StringSet.RemoveAbsentKeepsSize` | internal/pkg/set/methods_test.go:74-77 | Removing an absent element leaves the size unchanged. |
| `StringSet.RemoveAbsentIsIdentity` | internal/pkg/set/methods.go:17-27 | Removing an absent element gives back the very same set. |
| `StringSet.RemovePresentShrinks` | internal/pkg/set/methods_test.go:53-64 | Removing a member lowers the size by one, and the element is absent afterwards. |
| `StringSet.AllMembers` | internal/pkg/set/methods.go:37-45 | The early-exit loop answers true exactly when every given element is a member. |
| `StringSet.Has` | internal/pkg/set/methods.go:29-46 | True exactly when at least one element is given and all given elements are members. With no elements it is false. |
| `StringSet.Size` | internal/pkg/set/methods.go:49-55 | The number of distinct members. |
| `StringSet.DistinctCardinality` | internal/pkg/set/methods.go:51 | A list without repeats has as many distinct members as entries, so counting the map counts the members. |
| `StringSet.Clear` | internal/pkg/set/methods.go:58-62 | Afterwards there are no members and the size is 0. |
| `StringSet.ClearForgetsAll` | internal/pkg/set/methods_test.go:120-129 | After `Clear`, `Has` of any element is false. |
| `StringSet.StringSlice` | internal/pkg/set/methods.go:65-75 | Every member appears exactly once: same members, no repeats, and length equal to `Size`. |
| `Strings.Split` | internal/pkg/app/unison-fsmonitor/sendrecv.go:57 | Splitting yields at least one piece, and no piece contains the separator, so zero tokens cannot happen. |
| `Strings.SplitJoin` | internal/pkg/app/unison-fsmonitor/sendrecv.go:57 | Splitting a line joined from separator-free pieces gives the pieces back. |
| `Strings.JoinSplit` | internal/pkg/app/unison-fsmonitor/sendrecv.go:28 | Joining the pieces of a split gives the string back. |
| `Strings.TrimSpace` | internal/pkg/app/unison-fsmonitor/sendrecv.go:57 | The result is the input with exactly its leading and trailing white space removed: a slice of the input with only white space before and after it, which neither starts nor ends with white space. A string without white space is kept whole. |
| `Strings.TrimLine` | internal/pkg/app/unison-fsmonitor/sendrecv.go:48-57 | Trimming a read line removes its newline and nothing else when the body has no white space at its ends. |
| `Strings.LessEqTotal` | internal/pkg/app/unison-fsmonitor/runner.go:122 | Go's byte-wise string order is total. |
| `Strings.LessEqTransitive` | internal/pkg/app/unison-fsmonitor/runner.go:122 | The order is transitive. |
| `Strings.LessEqAntisymmetric` | internal/pkg/app/unison-fsmonitor/runner.go:122 | The order is antisymmetric. |
| `Strings.SortStrings` | internal/pkg/app/unison-fsmonitor/runner.go:121-122 | The result is in ascending byte order and is a permutation of the input. |
| `Strings.SortedDistinctIsStrict` | internal/pkg/app/unison-fsmonitor/runner.go:121-122 | In a sorted list, different entries are strictly ascending. |
| `Strings.NatDigitsValue` | internal/pkg/app/unison-fsmonitor/sendrecv.go:35-37 | The decimal digits that `Itoa` writes read back as the number. |
| `Escaping.EscapeChar` | internal/pkg/app/unison-fsmonitor/sendrecv.go:26 | A byte is kept exactly when a path segment may carry it. Otherwise it becomes a three-character `%XX` escape. No output character is white space. |
| `Escaping.PathEscape` | internal/pkg/app/unison-fsmonitor/sendrecv.go:26 | The escaped argument is empty only when the argument is, is never shorter, and contains no space or newline, so it stays one token of the line. |
| `Escaping.PathUnescape` | internal/pkg/app/unison-fsmonitor/sendrecv.go:66-70 | Text without `%` decodes to itself. A failure names the offending `%` sequence of at most three characters. |
| `Escaping.UnescapeEscape` | internal/pkg/app/unison-fsmonitor/sendrecv.go:26 | Unescaping what `PathEscape` wrote gives back the argument. |
| `Escaping.UnescapeOne` | internal/pkg/app/unison-fsmonitor/sendrecv.go:66-70 | Decoding works one encoded byte at a time: an escaped byte in front of a rest decodes to that byte in front of the rest's decoding, and it fails exactly when the rest fails. |
| `Escaping.EscapeConcat` | internal/pkg/app/unison-fsmonitor/sendrecv.go:26 | Escaping works byte by byte, so it distributes over concatenation. |
| `Escaping.EscapeKept` | internal/pkg/app/unison-fsmonitor/sendrecv.go:26 | A word made only of characters a segment may carry is written unchanged. |
| `Strings.Itoa` | internal/pkg/app/unison-fsmonitor/sendrecv.go:36 | The decimal text of an integer: digits only, reading back as the number, with a leading `-` for a negative one. `Strings.NatDigitsValue` is its partner. |
| `SendRecv.EscapeAll` | internal/pkg/app/unison-fsmonitor/sendrecv.go:23-27 | The command is followed by the escape of each argument, in order. |
| `SendRecv.SendErr` | internal/pkg/app/unison-fsmonitor/sendrecv.go:15-19 | Exactly one line is added: an `ERROR` line whose argument is the message. The monitor is shutting down afterwards, and nothing else changes. |
| `SendRecv.OkLine` | internal/pkg/app/unison-fsmonitor/sendrecv.go:39-41 | `sendOk` writes exactly `OK` and a newline. |
| `SendRecv.DoneLine` | internal/pkg/app/unison-fsmonitor/sendrecv.go:43-45 | `sendDone` writes exactly `DONE` and a newline. |
| `SendRecv.VersionLine` | internal/pkg/app/unison-fsmonitor/sendrecv.go:35-37 | `sendVersion(1)` writes exactly `VERSION 1` and a newline. |
| `SendRecv.FormatCmd` | internal/pkg/app/unison-fsmonitor/sendrecv.go:22-32 | A command line ends in a newline. `SendRecv.ReceiveFormatted` reads it back as the same command. |
| `SendRecv.SendCmd` | internal/pkg/app/unison-fsmonitor/sendrecv.go:22-33 | Exactly one line, the formatted command, is appended to the output. Nothing else changes. |
| `SendRecv.FormatCmdShape` | internal/pkg/app/unison-fsmonitor/sendrecv.go:22-32 | A sent line ends in a newline and holds no other newline. |
| `SendRecv.ReadLine` | internal/pkg/app/unison-fsmonitor/sendrecv.go:48-52 | The line is the input up to and including the first newline. The line and the rest make up the input. There is no line when no newline is left. |
| `SendRecv.UnescapeAll` | internal/pkg/app/unison-fsmonitor/sendrecv.go:64-72 | All tokens decode or the whole decoding fails. On success there is one argument per token, each the token's decoding. |
| `SendRecv.ReceiveCmd` | internal/pkg/app/unison-fsmonitor/sendrecv.go:47-75 | Reading fails exactly when no newline is left. A successful read consumes at least one character. |
| `SendRecv.ReceiveCmdParses` | internal/pkg/app/unison-fsmonitor/sendrecv.go:47-75 | For a line that was read: decoding succeeds exactly when every token after the first decodes. The command is the first token of the trimmed line. The arguments are the decodings of the other tokens, one each, in order. The rest of the input is what follows the line. |
| `SendRecv.EmptyLine` | internal/pkg/app/unison-fsmonitor/sendrecv.go:57-62 | An empty line reads as the command `""` with no arguments. |
| `SendRecv.ReceiveFormatted` | internal/pkg/app/unison-fsmonitor/sendrecv.go:22-75 | A line built by `sendCmd` reads back as the same command and arguments, and the rest of the input is left. This needs a command word without white space and a non-empty last argument. |
| `SendRecv.CheckSingleArgument` | internal/pkg/app/unison-fsmonitor/sendrecv.go:77-83 | The monitor is unchanged exactly when one argument is given. Otherwise it writes one more line and shuts down. |
| `SendRecv.ErrorReadsBack` | internal/pkg/app/unison-fsmonitor/sendrecv.go:15-19 | The ERROR line reads back as one ERROR command whose single argument is the whole message, spaces included. |
| `FilePaths.Push` | internal/pkg/app/unison-fsmonitor/events.go:61 | Clean's rule for one element keeps a path clean. |
| `FilePaths.PushAll` | internal/pkg/app/unison-fsmonitor/events.go:61 | Clean's rules for a list of elements keep a path clean. |
| `FilePaths.Parse` | internal/pkg/app/unison-fsmonitor/events.go:61 | Reading a path gives a clean path, rooted exactly when the string starts with `/`. |
| `FilePaths.Clean` | internal/pkg/app/unison-fsmonitor/events.go:61-62 | A cleaned path is never empty, reads as the same path as the input, and is absolute exactly when the input is. `FilePaths.CleanIdempotent` is its partner. |
| `FilePaths.Join` | internal/pkg/app/unison-fsmonitor/events.go:61-70 | Joining is empty exactly when both parts are empty. `FilePaths.JoinSubPath` and `FilePaths.JoinRendered` state what it builds. |
| `FilePaths.Rel` | internal/pkg/app/unison-fsmonitor/events.go:62 | An absolute and a relative path have no relative path. A result is itself relative and already clean. `FilePaths.RelBelow` states its value below the base. |
| `FilePaths.ParseRender` | internal/pkg/app/unison-fsmonitor/events.go:61-62 | Writing a clean path and reading it back gives the same path. |
| `FilePaths.CleanIdempotent` | internal/pkg/app/unison-fsmonitor/events.go:61 | Cleaning a cleaned path changes nothing. |
| `FilePaths.CommonPrefix` | internal/pkg/app/unison-fsmonitor/events.go:62 | The length of the longest common prefix: the prefixes agree, and the next elements differ. |
| `FilePaths.RelPath` | internal/pkg/app/unison-fsmonitor/events.go:62 | A relative path is always relative and clean. A rooted path relative to an unrooted one, or the reverse, is an error. |
| `FilePaths.RelBelow` | internal/pkg/app/unison-fsmonitor/events.go:62 | A path below a base is, relative to that base, its remaining elements. |
| `FilePaths.MatchedWithin` | internal/pkg/app/unison-fsmonitor/events.go:61-62 | An event inside root/sub-path is, relative to the root, the sub-path followed by the event relative to root/sub-path. |
| `FilePaths.MatchedParentOfRoot` | internal/pkg/app/unison-fsmonitor/events.go:62-66 | An event at the parent of the root is `..` relative to the root. |
| `FilePaths.JoinSubPath` | internal/pkg/app/unison-fsmonitor/events.go:61 | Joining a root and a sub-path that stays below it appends the sub-path's elements. |
| `FilePaths.JoinRendered` | internal/pkg/app/unison-fsmonitor/events.go:70 | Joining a sub-path and a relative path cleans the concatenation of their elements. |
| `FilePaths.EscapeTests` | internal/pkg/app/unison-fsmonitor/events.go:66 | On a relative path, the `../` prefix test and the `..` equality test are tests of its first element. |
| `FilePaths.MatchedPathIsRelativeToRoot` | internal/pkg/app/unison-fsmonitor/events.go:61-70 | Suppose a sub-path passes the `../` test. Then the sub-path joined with the event path relative to root/sub-path is the event path relative to the root. |
| `FilePaths.StrictTestIsContainment` | internal/pkg/app/unison-fsmonitor/events.go:61-68 | Rel succeeds with neither `..` nor a `../` prefix exactly when the event path lies within root/sub-path. |
| `Events.ClaimMeaning` | internal/pkg/app/unison-fsmonitor/events.go:61-70 | For an absolute root and event and a sub-path below the root: a claimed change is always the event relative to the root. With the corrected test, a sub-path claims the event exactly when the event lies within root/sub-path. |
| `Events.MatchAsWritten` | internal/pkg/app/unison-fsmonitor/events.go:59-76 | As written, no change is found exactly when no registered sub-path claims the event. A found change is one a registered sub-path claims. `Events.AsWrittenRecordsParent` shows what it lets through. |
| `Events.Match` | internal/pkg/app/unison-fsmonitor/events.go:59-76 | With the corrected test, no change is found exactly when no registered sub-path claims the event. A found change is one a registered sub-path claims. `Events.MatchIsContainment` states it by containment. |
| `Events.FirstMatch` | internal/pkg/app/unison-fsmonitor/events.go:59-73 | No change is found exactly when no sub-path claims the event. Otherwise the change comes from a claiming sub-path with no claiming sub-path before it. |
| `Events.FirstMatchFinds` | internal/pkg/app/unison-fsmonitor/events.go:59-76 | When a sub-path claims an event exactly where some test holds, a change is found exactly when some sub-path passes the test. |
| `Events.MatchIsRelativeToRoot` | internal/pkg/app/unison-fsmonitor/events.go:59-73 | Whichever sub-path matched, the recorded change is the event path relative to the root. |
| `Events.MatchOrderIndependent` | internal/pkg/app/unison-fsmonitor/events.go:60 | Two orders of the same sub-paths find the same change, so the unspecified order of `StringSlice` does not matter. |
| `Events.ClaimIsContainment` | internal/pkg/app/unison-fsmonitor/events.go:61-68 | With the corrected test, a sub-path claims an event exactly when the event lies within root/sub-path. |
| `Events.MatchIsContainment` | internal/pkg/app/unison-fsmonitor/events.go:59-76 | With the corrected test, an event records a change exactly when it lies within some registered sub-path. That change is the event relative to the root. |
| `Events.AsWrittenRecordsParent` | internal/pkg/app/unison-fsmonitor/events.go:66-68 | With the test as written, an event at the parent of the root is claimed by the sub-path `""` and records `..`. The corrected test ignores it. |
| `Events.AddChange` | internal/pkg/app/unison-fsmonitor/events.go:78-85 | The change joins the replica's pending changes, and the set is created when missing. No other replica's entry moves. |
| `Events.Notify` | internal/pkg/app/unison-fsmonitor/events.go:86-91 | `CHANGES r` is sent and r marked reported exactly when r waits and is not yet reported. |
| `Events.Record` | internal/pkg/app/unison-fsmonitor/events.go:78-91 | A recorded change adds to r's pending changes, with at most one notice under the same condition. Only the change map, the reported set and the output move. |
| `Events.HandleEventEffect` | internal/pkg/app/unison-fsmonitor/events.go:59-91 | One event adds the change it finds, if any, to r's pending changes. Every other replica's entry stays. One `CHANGES r` is written exactly when a change is found and r waits unreported. |
| `Events.HandleEvents` | internal/pkg/app/unison-fsmonitor/events.go:54-92 | A batch moves only the change map, the reported set and the output: roots, paths, waits and the running replicas stay. |
| `Events.HandleEventsPending` | internal/pkg/app/unison-fsmonitor/events.go:54-85 | After a batch, r's pending changes are the old ones plus every change found among its events, and nothing else. |
| `Events.HandleEventsOthers` | internal/pkg/app/unison-fsmonitor/events.go:78-85 | A batch for r leaves every other replica's pending changes as they were. r gets an entry exactly when it had one or a change was found. |
| `Events.HandleEventsNotifyOnce` | internal/pkg/app/unison-fsmonitor/events.go:86-91 | A batch sends at most one `CHANGES r`. It does so only when r waited unreported and a change was found, and r is then reported. |
| `Events.HandleEventsNotifiesWaiter` | internal/pkg/app/unison-fsmonitor/events.go:86-90 | When r waits unreported and the batch finds a change, exactly one `CHANGES r` is sent and r becomes reported. |
| `Events.EventBatchEffect` | internal/pkg/app/unison-fsmonitor/events.go:28-98 | For a running replica of a consistent monitor, the handler's lookups never fail, so the monitor does not shut down. r's pending changes grow by every change found, other replicas' changes stay, and at most one `CHANGES r` is written, only when r waited unreported and a change was found. |
| `Events.HandleEventsInv` | internal/pkg/app/unison-fsmonitor/events.go:54-92 | Handling a batch for an active replica keeps the state invariant. |
| `Events.EventBatchInv` | internal/pkg/app/unison-fsmonitor/events.go:46-98 | Every event batch keeps the state invariant. |
| `MonitorState.InitialInv` | internal/pkg/app/unison-fsmonitor/runner.go:18-34 | The freshly built monitor satisfies the invariant, is in the main loop, is not shutting down and has written nothing. |
| `Runner.SendErrFails` | internal/pkg/app/unison-fsmonitor/sendrecv.go:15-19 | After `SendErr` the monitor has stopped, and its last line starts with `ERROR `. |
| `Runner.ClearWaiting` | internal/pkg/app/unison-fsmonitor/runner.go:72-76 | Afterwards no replica waits, and nothing else changes. |
| `Runner.StartReplica` | internal/pkg/app/unison-fsmonitor/runner.go:159-199 | See the details below this table. |
| `Runner.StartReplicaPaths` | internal/pkg/app/unison-fsmonitor/runner.go:170-197 | START adds the sub-path to the replica's paths, which start empty the first time, and leaves every other replica's paths alone. |
| `Runner.Register` | internal/pkg/app/unison-fsmonitor/runner.go:166-192 | An active replica is left as it is. A new one gets its root, an empty path set, activity and an end channel. |
| `Runner.AddPath` | internal/pkg/app/unison-fsmonitor/runner.go:194-197 | The sub-path joins the replica's path set, when there is one. Nothing else changes. |
| `Runner.Collect` | internal/pkg/app/unison-fsmonitor/runner.go:212-223 | DIR only writes `OK`, DONE only returns to the main loop, and LINK and every other command are fatal. |
| `Runner.Wait` | internal/pkg/app/unison-fsmonitor/runner.go:99-113 | See the details below this table. |
| `Runner.ChangeList` | internal/pkg/app/unison-fsmonitor/runner.go:115-123 | The listed changes are the replica's pending changes, each once, in ascending byte order. |
| `Runner.SendRecursive` | internal/pkg/app/unison-fsmonitor/runner.go:125-127 | One `RECURSIVE` line per listed path, in order. Nothing else changes. |
| `Runner.Changes` | internal/pkg/app/unison-fsmonitor/runner.go:114-131 | See the details below this table. |
| `Runner.Reset` | internal/pkg/app/unison-fsmonitor/runner.go:132-145 | See the details below this table. |
| `Runner.Start` | internal/pkg/app/unison-fsmonitor/runner.go:83-98 | Two arguments start the replica with the sub-path `""`, three with the given sub-path. Any other number is fatal. |
| `Runner.Dispatch` | internal/pkg/app/unison-fsmonitor/runner.go:72-155 | After any main-loop command other than WAIT, no replica waits. A command that shuts down leaves an ERROR line last, and earlier output is kept. START with other than two or three arguments is fatal, and so is any command outside DEBUG, START, WAIT, CHANGES, RESET and QUIT. |
| `Runner.StartDefaultsSubPath` | internal/pkg/app/unison-fsmonitor/runner.go:83-98 | START with only a replica and a root enters collection for the replica and adds the sub-path `""` to its paths. |
| `Runner.Execute` | internal/pkg/app/unison-fsmonitor/runner.go:78-155 | A command that shuts the monitor down leaves an ERROR line last, and earlier output is kept. This holds in either loop. |
| `Runner.Unreadable` | internal/pkg/app/unison-fsmonitor/runner.go:67-76 | A line that cannot be read or decoded stops the monitor with an ERROR line last. |
| `Runner.Step` | internal/pkg/app/unison-fsmonitor/runner.go:61-70 | See the details below this table. |
| `Runner.Handshake` | internal/pkg/app/unison-fsmonitor/runner.go:230-246 | See the details below this table. |
| `Runner.Loop` | internal/pkg/app/unison-fsmonitor/runner.go:61-156 | The loop always ends with the monitor stopped. When it starts running, the last line it writes is an ERROR, since running out of input is fatal too. |
| `Runner.Session` | internal/pkg/app/unison-fsmonitor/runner.go:51-65 | Any session writes `VERSION 1` first and ends stopped on an ERROR line. |
| `Runner.LoopKeepsOutput` | internal/pkg/app/unison-fsmonitor/sendrecv.go:32 | Output is only ever appended to. |
| `Runner.StartInv` | internal/pkg/app/unison-fsmonitor/runner.go:166-197 | START keeps the state invariant. |
| `Runner.WaitInv` | internal/pkg/app/unison-fsmonitor/runner.go:99-113 | WAIT keeps the state invariant. |
| `Runner.ChangesInv` | internal/pkg/app/unison-fsmonitor/runner.go:114-131 | CHANGES keeps the state invariant. |
| `Runner.ResetInv` | internal/pkg/app/unison-fsmonitor/runner.go:132-145 | RESET keeps the state invariant. |
| `Runner.DispatchInv` | internal/pkg/app/unison-fsmonitor/runner.go:78-155 | Every main-loop command keeps the state invariant. |
| `Runner.StepInv` | internal/pkg/app/unison-fsmonitor/runner.go:61-76 | Every step of either loop keeps the state invariant. |
| `Runner.HandshakeInv` | internal/pkg/app/unison-fsmonitor/runner.go:230-246 | The handshake keeps the state invariant. |
| `Runner.Replay` | internal/pkg/app/unison-fsmonitor/runner.go:191 | Interleaving reads with handler batches never gives back input already read. |
| `Runner.ReplayInv` | internal/pkg/app/unison-fsmonitor/runner.go:191 | The state invariant holds however reads and event batches interleave. |
| `Runner.SessionInv` | internal/pkg/app/unison-fsmonitor/runner.go:51-65 | From the initial monitor, the invariant holds after the handshake and after every interleaving that follows. |
| `Runner.StepFormatted` | internal/pkg/app/unison-fsmonitor/sendrecv.go:47-75 | A step on a line built by `sendCmd` runs exactly that command and leaves the rest of the input. |
| `Runner.HandshakeAccepts` | internal/pkg/app/unison-fsmonitor/runner.go:230-248 | After `VERSION v` from Unison, the monitor keeps `v` and has written only `VERSION 1`. |
| `Runner.QuitOnlyCancelsWaits` | internal/pkg/app/unison-fsmonitor/runner.go:146-150 | QUIT does not stop the loop: it only cancels the waits. |
| `Runner.DebugOnlySetsFlag` | internal/pkg/app/unison-fsmonitor/runner.go:79-82 | DEBUG only switches on debugging and cancels the waits. |
| `Runner.WaitKeepsOtherWaits` | internal/pkg/app/unison-fsmonitor/runner.go:72-76 | WAIT alone keeps the other replicas waiting, and adds its own replica. |
| `Runner.WaitResends` | internal/pkg/app/unison-fsmonitor/runner.go:108-113 | A second WAIT while changes are pending sends `CHANGES r` again. |
| `Runner.WaitThenChange` | internal/pkg/app/unison-fsmonitor/events.go:86-91 | Suppose a replica waits with nothing pending. The first batch that finds a change sends exactly one `CHANGES r`. |
| `Runner.RestartKeepsRoot` | internal/pkg/app/unison-fsmonitor/runner.go:166-197 | A second START of an active replica keeps its first root and only adds the sub-path. |
| `Runner.ChangesDrains` | internal/pkg/app/unison-fsmonitor/integration_test.go:54-56 | A CHANGES right after another lists nothing for any replica, only `DONE`. |
| `Runner.ResetThenWaitFails` | internal/pkg/app/unison-fsmonitor/runner.go:103-105 | After RESET, WAIT on the replica is fatal with `Unknown replica`. |
| `Runner.ResetTwiceBlocks` | internal/pkg/app/unison-fsmonitor/runner.go:136-137 | As written, the first RESET of a running replica completes and a second one blocks. |
| `Runner.ResetIdempotent` | internal/pkg/app/unison-fsmonitor/runner.go:132-145 | The corrected RESET is idempotent: a second RESET changes nothing and does not fail. |

Details of the longer rows:

- `Runner.StartReplica`:
  - START ends in DIR/LINK collection for the replica, with one `OK` line written.
  - An active replica keeps its root, handler and end channel.
  - A new replica gets the given root, activity and an end channel.
  - Only a new replica adds a key to the path map; `Runner.StartReplicaPaths` states what the sets hold.
- `Runner.Wait`:
  - Wrong arity or an unknown replica is fatal.
  - Otherwise the replica joins the waiting set.
  - When changes are pending, exactly one `CHANGES r` is written and r is marked reported. No reported check is made.
- `Runner.Changes`:
  - The reply is the `RECURSIVE` lines of the sorted pending changes, then `DONE`.
  - Afterwards no replica has pending changes and none is reported.
  - Wrong arity is fatal.
- `Runner.Reset` (corrected):
  - A replica never started is fatal, with the message Go's format produces.
  - Otherwise r leaves active, waiting, reported and pending.
  - Other replicas' changes stay, and roots, paths and end channels stay.
- `Runner.Step`:
  - Once shutting down, nothing is read.
  - A step that does not shut down consumes input.
  - A step that shuts down leaves an ERROR line last.
- `Runner.Handshake`:
  - The handshake writes `VERSION 1` first.
  - It succeeds exactly when the reply reads as `VERSION` with one argument. It then keeps that argument and writes nothing more.
  - Otherwise it stops on an ERROR line.

## Left out

- Goroutines, `sync.Map`, the set's RWMutex, the `select` between the events and end channels, and the buffered `ShutdownChannel` are not modelled. Each command and each event batch is one atomic step over one state record (`Runner.Replay`).
- The native watch (fsevents stream creation, `Start`, latency, channel sizes) is not modelled. Event batches are inputs of `Runner.Replay`.
- Logging and debug output (logging.go, `fsm.debug`, `fsm.warn`) write only to standard error, so they are left out. DEBUG only sets the flag.
- The process plumbing of cmd/unison-fsmonitor/main.go is left out: `New` with its options, the standard streams and `os.Exit`.
- Go keeps running the current case after `SendErr`; the model stops at the ERROR line, because main exits on the shutdown signal. Some examples of what Go does:
  - A START with the wrong number of arguments still calls `startReplicaMonitor`, with the replica name left over from an earlier command, and writes `OK` after the ERROR line.
  - WAIT, CHANGES and RESET without arguments index `args[0]` and panic. With two or more arguments they go on with the first one.
- `Runner.Handshake` does not model `strconv.ParseFloat`. The version is kept as the string Unison sent, so a version that is not a number is accepted, where Go fails with `Unable to parse version`. The warning for a version other than `1` goes to standard error and is left out.
- `Runner.Handshake` uses the read error's text as the ERROR message unchanged. Go passes that text to `Sprintf` as a format string, which rewrites any `%` verb in it, such as the quoted `%` sequence of a decoding error.
- `Runner.Step` discards the rest of the input after a read or decode failure, because the monitor stops reading there.
- `SendRecv.ReadLine`: a last line without a newline is a read failure. Go's `ReadString` returns the partial line together with `io.EOF`, and the monitor discards it too.
- `Strings.TrimSpace` trims ASCII white space only. Go also trims multi-byte Unicode spaces such as U+00A0, which one-char-per-byte strings cannot represent.
- `Escaping.PathEscape`: a char above 0xFF, which no byte of a Go string can be, is kept unchanged.
- `SendRecv.QuoteChar`: `strconv.Quote` keeps printable multi-byte UTF-8 sequences as they are, while the model escapes every byte from 0x80 up as `\x..`. This only affects the text of decoding errors.
- `Events.MatchOrderIndependent` is proved for sub-paths that are relative and do not climb above the root (`IsSubPath`), which is what Unison sends. Sub-paths with `..` are not covered.
- `FilePaths.RelPath` covers Unix paths only: the separator is `/` and there are no volume names.
- `Events.EventBatch` leaves out the handler's `Unable to find event stream` check (events.go:22-26). The stream is stored before the handler starts, and a handler whose replica is no longer active has returned.
- Handler goroutines may still write `CHANGES` lines after an ERROR line until the process exits. The model's event batches do nothing once the monitor is shutting down.

## Behaviour worth knowing

The model follows the code in each of these.

- CHANGES clears the pending changes of every replica and the whole reported set, not just the named replica's (runner.go:129-130). `Runner.ChangesDrains` states it. The repository's integration test expects this: its second CHANGES, for another replica, is meant to list nothing (integration_test.go:76-78).
- WAIT sends `CHANGES r` whenever changes are pending, without looking at the reported set (runner.go:108-113). A second WAIT sends it again (`Runner.WaitResends`).
- QUIT's `break` leaves only the `switch`, not the loop (runner.go:146-150). The monitor keeps reading until input runs out (`Runner.QuitOnlyCancelsWaits`).
- Every command other than WAIT clears the waiting set but not the reported set (runner.go:72-76). So a replica can be reported without waiting, and the state invariant does not relate the two.

## Findings

| source | as written | input that shows it | evidently intended | confidence | as-written member | corrected member |
|---|---|---|---|---|---|---|
| internal/pkg/app/unison-fsmonitor/events.go:66-68 | Only a `../` prefix rejects a sub-path. A relative path of exactly `..` passes, so an event at the parent of root/sub-path records a change such as `..`. | Root `/r/x`, sub-path `""`, event path `/r`: `Rel("/r/x", "/r")` is `..`, and the change `..` is recorded for the replica. | Only events within root/sub-path record a change, and the change is the event relative to the root. | medium; not executed | `Events.AsWrittenRecordsParent` | `Events.MatchIsContainment` |
| internal/pkg/app/unison-fsmonitor/runner.go:136-137 | RESET sends on the replica's unbuffered end channel, which outlives the handler. A second RESET of the same replica has no receiver and blocks the command loop forever. | `START r /d`, `DONE`, `RESET r`, `RESET r` | The end signal never blocks. A RESET of a replica whose handler has ended only clears its state. | high; not executed | `Runner.ResetTwiceBlocks` | `Runner.ResetIdempotent` |

The rest of the model uses the corrected versions: `Events.Match` with the
test that also refuses `..`, and `Runner.Reset`. `Events.MatchAsWritten`
and `Runner.ResetAsWritten` keep the code as written.
