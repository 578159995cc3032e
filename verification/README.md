# The weft Apple-VZ driver: a Dafny model

The driver starts virtual machines on macOS. A plugin process keeps one directory per VM and forks a
`vz-vm-run` process for each; that process builds a device plan from the directory, runs the VM, tails
its console for marks the guest prints, and appends timing events to a log it shares with its parent.
This project models the parts of it that carry state, branching or arithmetic, and proves what they
are relied on for.

| module | what it is |
|---|---|
| `ConsoleMarks`, `ConsoleParser`, `Lines`, `Utf8` | the mark format, and the hand-written search and split loops that read it |
| `ConsoleWatcher`, `WatcherProgress`, `WatcherExit` | the polling tailer over real arrays and slices, that it reads all there is, and its timed exit |
| `Json`, `TimingLog`, `SharedLog`, `GuestMarks` | the event record, its JSON form, many writers of one file, and the way from console line to log line |
| `AnsiEscapes`, `EscapeCuts`, `EscapeRejoins`, `Subsequences` | the escape-stripping regular expression with its backtracking order, a scanner for it; what cutting the text first, or stripping it twice, changes |
| `ConsolePane`, `PieceDecoding`, `DecodedStripping` | the console window: its offset, the decoding of what it reads piece by piece, and what is on screen |
| `VmLifecycle`, `Hypervisor`, `LifecycleFiles`, `Decimal` | StartVM, its wait goroutine, StopVM and DeleteVM, interleaved over directories and generations; each call alone; and that the two agree |
| `MicroVmRun`, `Reboot` | the threads of `vz-vm-run` and its shutdown; the Reboot button |
| `FileSystem`, `Identity`, `BackingFiles`, `DriverCalls` | files and symbolic links; the identity files; the disks' backing files; runs of the driver's own calls |
| `Provision`, `DevicePlan`, `ProvisionedPlan` | laying out a VM directory, building a plan from one, and the agreement of the two |

## How the model is built

- Code that changes things step by step is a method with loops or a class with the same fields, proved
  against a function of the inputs or of the old state; the theorems are about that function. Code in
  which several goroutines or processes take turns is a step system: a state, the atomic steps, and
  theorems over every sequence of steps. One thread's `select`, a channel of capacity one, or the three
  actions of the wait goroutine are separate steps there.
- A byte is written as the character with its code. Nothing needs codes to stay below 256, so every
  theorem holds for all byte strings.
- The clock, the kernel and Virtualization.framework are parameters: which open, write or framework
  call succeeds, how many bytes a read returns, what the time is. A framework call succeeds or fails;
  what a failed image creation or a copy that breaks off leaves behind is a parameter too.
- `uint64` and `int64` products wrap where the code's do (`DevicePlan.Memory`, `BackingFiles.SizeBytes`).

## What is assumed

- Console: `console.log` only grows at its end while it is being read. That a sleep lasts at least as
  long as asked is assumed only in `WatcherExit` and in `Reboot.HardStopInTime`.
- Shared log: an `O_APPEND` write of one record happens whole or not at all.
- Lifecycle: a directory is started only when its `vm.pid` is absent and no StartVM is under way there
  (builtin/hypervisor.go:148-151), and deleted only when `vm.pid` is absent; writing and removing
  `vm.pid` succeed (the rule `PidFileAbsent`); the kernel reuses a pid only after its process was reaped;
  and the driver process outlives its wait goroutines. A driver that exits leaves its VMs running
  (builtin/vmrun.go:9, 79-80) and their `vm.pid` behind for good.
- Run: VM state transitions begin with `Start`, and any sequence of them may come. What depends on the
  VM stopping is stated from the moment a Stopped transition was received and its send made.
- Files: the identity and pid files of a directory are not themselves symbolic links
  (`Identity.NoLinks`); a write is all or nothing; `os.Remove` of an existing file succeeds where its
  error is ignored.
- Provisioning: the VM directory starts out empty, and the sources and the links they lead through lie
  outside it.

## What the code does not promise

Each of these is stated by a lemma, with the condition under which the code does meet the property.

- Text that is not valid UTF-8 does not survive the log (`TimingLog.EventRoundTrip`: if and only if).
- A mark printed after noise that itself contains the prefix is not the one found
  (`ConsoleMarks.PrefixFoundWherePrinted`: if and only if).
- A disk of 2^33 GiB or more, or memory of 2^34 GiB or more, does not get the size asked for
  (`BackingFiles.SizeIsExact`, `DevicePlan.MemoryIsExact`: if and only if); at 2^34 GiB AttachDisk asks
  for an empty image (`BackingFiles.HugeDiskIsEmpty`).
- Deleting a directory as soon as its child is reaped is too early (`VmLifecycle.ReapedIsTooWeak`):
  deleting keeps the lifecycle invariant if and only if `vm.pid` is absent
  (`VmLifecycle.DeleteNeedsAbsentPidFile`).
- A StopVM that is overtaken by the reuse of its pid signals a stranger
  (`VmLifecycle.ReusedPidIsSignalled`): that is possible, now or with the next VM started, if and only
  if the child whose pid it read has been reaped (`VmLifecycle.StopIsSafeUntilReaped`).
- A StartVM whose write of `vm.pid` fails leaves a VM that can be started twice
  (`VmLifecycle.FailedWriteHidesChild`): the caller's rule allows that if and only if the write failed
  (`VmLifecycle.SecondStartNeedsFailedWrite`).
- A control sequence or a character cut by two polls stays on the screen in pieces
  (`ConsolePane.CutSequenceIsShown`): over valid UTF-8 the screen is right if and only if no poll has
  split a character and none has torn a sequence (`ConsolePane.ScreenShowsStrippedLog`). What has been
  read so far tells whether the next poll can go wrong: exactly when a sequence is pending
  (`ConsolePane.NextPollIsSafe`, `ConsolePane.NextPollCanSpoil`, `EscapeCuts.CleanIsNotPending`).
- Stripping is not idempotent (`EscapeRejoins.StripIsNotIdempotent`): stripping twice changes something
  if and only if the first pass brings the parts of a new sequence together
  (`EscapeRejoins.StrippingTwice`).
- A source that is found only by following as many links as the kernel allows is provisioned as a link
  that the builder cannot open (`ProvisionedPlan.ProvisionThenBuild`: if and only if;
  `ProvisionedPlan.LastLinkIsTooMany` gives such sources for every limit).
- A retried AttachDisk takes whatever a failed one left for the disk
  (`BackingFiles.RetryKeepsWhatWasLeft`).

Where comments and code disagree the model follows the code. The comment at builtin/vmrun.go:272 says
that lines which do not start with the prefix are ignored; the code looks for it anywhere in the line
(line 282). The comment at builtin/vmrun.go:212 says that the watcher returns when the console file
disappears; the code retries until more than 30 s have been idle (lines 223-228).

## Model

| member | source | states |
|---|---|---|
| `ConsoleParser.IndexNL` | builtin/vmrun.go:259-266 | the loop returns the first newline's index, or -1 exactly when there is none |
| `ConsoleParser.IndexByteStr` | builtin/vmrun.go:344-351 | the loop returns the first index of the byte, or -1 exactly when it is absent |
| `ConsoleParser.IndexSubstr` | builtin/vmrun.go:307-323 | the nested loops return the leftmost occurrence, or -1 if there is none or the pattern is empty |
| `ConsoleMarks.FirstOccurrence` | builtin/vmrun.go:307-323 | an index found is an occurrence and no smaller one is; -1 means no occurrence anywhere |
| `ConsoleParser.RuneIsBlank` | builtin/vmrun.go:328-337 | a decoded rune is a blank exactly when the byte there is, and a longer or invalid rune hides no blank byte |
| `ConsoleParser.SplitFields` | builtin/vmrun.go:325-342 | the rune-wise loop returns the byte-wise fields for every byte string, valid UTF-8 or not |
| `ConsoleMarks.FieldsOfLayout` | builtin/vmrun.go:325-342 | a string laid out as blank-separated words splits into exactly those words |
| `ConsoleMarks.EveryStringIsALayout` | builtin/vmrun.go:325-342 | every byte string has such a layout, so the fields of every string are its maximal blank-free runs |
| `ConsoleMarks.FieldsAreUnspaced` | builtin/vmrun.go:325-342 | no field is empty or holds a space or tab, and the fields put together are the string without them |
| `ConsoleParser.CollectPairs` | builtin/vmrun.go:292-301 | for any fields the map has exactly the keys of those that are a non-empty key, '=' and a value, with the value of the last; other fields leave no trace |
| `ConsoleMarks.MetaOfItems` | builtin/vmrun.go:292-301 | for printed pairs that map is the one in which the last pair of each key wins |
| `ConsoleMarks.LastWinsIsLast` | builtin/vmrun.go:292-301 | the value kept for a key is that of its last pair |
| `ConsoleMarks.LastWinsKeys` | builtin/vmrun.go:292-301 | no key is kept that was not printed |
| `ConsoleMarks.MetaOfIs` | builtin/vmrun.go:292-301 | key by key, which fields count and whose value is kept, for any fields |
| `ConsoleMarks.ParseAnyMark` | builtin/vmrun.go:276-303 | what is read from any line with the prefix: no mark if only blanks follow, else first word and the pairs among the others, a map exactly if there are others |
| `ConsoleMarks.EveryLineIsPrinted` | builtin/vmrun.go:276-303 | every line is of that form or lacks the prefix, and then is no mark |
| `ConsoleMarks.PrintedText` | builtin/vmrun.go:277-281 | the prefix and the carriage return as they stand in a line |
| `ConsoleParser.ParseFields` | builtin/vmrun.go:286-302 | no field means no mark; the first is the stage; a map exists only when a field follows |
| `ConsoleParser.ParseNCLMark` | builtin/vmrun.go:276-303 | on a slice of a shared array, the loops compute the mark the specification reads from those bytes |
| `ConsoleMarks.NoEarlierOccurrence` | builtin/vmrun.go:281-283 | printing the prefix after noise creates no occurrence that starts inside the noise |
| `ConsoleMarks.PrefixFoundWherePrinted` | builtin/vmrun.go:281-283 | the leftmost prefix found is the printed one if and only if the noise contains none |
| `ConsoleMarks.ParsePrintedMark` | builtin/vmrun.go:276-351 | print/parse round trip: any stage and pairs, any blanks, any prefix-free noise, optional trailing CR, last value wins |
| `ConsoleMarks.ValidLineGivesValidMark` | builtin/vmrun.go:276-303 | a line of valid UTF-8 yields a stage, keys and values of valid UTF-8 |
| `Lines.SplitResumes` | builtin/vmrun.go:236-243 | splitting a+b into lines needs of a only its complete lines and its unterminated tail |
| `Lines.SplitOfCons` | builtin/vmrun.go:238-244 | taking a line off the front of a chunk leaves the other lines and the tail as they were |
| `Lines.UnlinesOfComplete` | builtin/vmrun.go:238-243 | the complete lines and the tail put together again are the text: splitting loses nothing |
| `Lines.CompleteOfUnlines` | cmd/weft-driver-vz/main_darwin.go:116 | newline-free lines joined with newlines split back into exactly those lines |
| `ConsoleMarks.MarksResume` | builtin/vmrun.go:236-247 | the marks of a+b are those of a followed by those of a's tail plus b |
| `ConsoleWatcher.MarksOfFirstLine` | builtin/vmrun.go:237-247 | a chunk's marks are the first line's, if any, then those of the rest |
| `ConsoleWatcher.Read` | builtin/vmrun.go:230-231 | the bytes at the offset land in the reused buffer: no more than given or 64 KiB, and fewer only at the end of the file |
| `ConsoleWatcher.Append` | builtin/vmrun.go:236 | append in place or into a new array: the bytes of the old slice stay, the new slice is old bytes plus those read |
| `ConsoleWatcher.RecordLines` | builtin/vmrun.go:237-248 | the inner loop records the marks of the chunk's complete lines in order and carries over exactly the unterminated tail |
| `ConsoleWatcher.TakePiece` | builtin/vmrun.go:236-248 | with the carry-over of what was seen, one piece records exactly the marks it completes |
| `ConsoleWatcher.TakeTurn` | builtin/vmrun.go:230-248 | one turn on an open file: with the reused buffer and the carry-over, events and tail are again those of the bytes read so far |
| `ConsoleWatcher.WatchOnce` | builtin/vmrun.go:221-253 | one turn of the outer loop: offset, idle clock and exit move as the control step says, and events and tail stay those of the bytes read |
| `ConsoleWatcher.WatchConsoleForMarks` | builtin/vmrun.go:215-254 | for every append-only log and every cutting into reads, the events are the marks of the complete lines in the consumed prefix and the carry-over is its unterminated tail; offset and exit follow the control run |
| `WatcherExit.IdleAccount` | builtin/vmrun.go:216-253 | a running watcher has had at most 1500 quiet turns since the last byte, and its turns are bounded by the bytes read |
| `WatcherExit.QuitsOnFiniteLog` | builtin/vmrun.go:216-253 | over a log of at most n bytes it has stopped within 1501*(n+1)+1 turns |
| `WatcherExit.QuitsAfterLastByte` | builtin/vmrun.go:249-253 | it has stopped within 1501 turns after the turn that read the last byte |
| `WatcherExit.IdleAfterGrowth` | builtin/vmrun.go:233-235 | the idle clock is never set back before a turn that read a byte |
| `WatcherExit.NeverQuitsEarly` | builtin/vmrun.go:216-253 | it stops only in a turn that read nothing, more than 30 s after the start and after every turn that read a byte |
| `WatcherProgress.TurnReads` | builtin/vmrun.go:230-251 | a turn on an open file reads on whenever a byte is given, and all there is up to 64 KiB if that much is given |
| `WatcherProgress.SettledTurnsRead` | builtin/vmrun.go:221-253 | each of the last polls of a log that has stopped growing brings the offset 64 KiB on or to the end, and the watcher does not stop before |
| `WatcherProgress.EveryMarkIsFound` | builtin/vmrun.go:215-254 | a watcher still running when the log stops growing consumes all of it, so that its events are the marks of all lines |
| `Utf8.DecodeOfEncode` | builtin/vmrun.go:328 | decoding a rune's UTF-8 form gives the rune back, whatever bytes follow |
| `Utf8.EncodeOfDecode` | builtin/vmrun.go:328 | a valid rune's code point encodes to exactly the bytes it was decoded from |
| `Utf8.SanitizeFixesOnlyValid` | cmd/weft-driver-vz/main_darwin.go:112 | replacing invalid bytes changes a string if and only if it is not valid UTF-8 |
| `Utf8.ValidSplitsAtAscii` | builtin/vmrun.go:286-299 | cutting before an ASCII byte keeps validity, both ways |
| `Json.StringRoundTrip` | cmd/weft-driver-vz/main_darwin.go:112 | a quoted and escaped string reads back as itself with invalid bytes replaced, and the text after it is untouched |
| `Json.ValueRoundTrip` | cmd/weft-driver-vz/main_darwin.go:112 | rendering any value and reading it back gives the value and exactly the text that followed |
| `Json.MembersRoundTrip` | cmd/weft-driver-vz/main_darwin.go:112 | the same for the members of an object, in order |
| `Json.RenderIsPrintable` | cmd/weft-driver-vz/main_darwin.go:112-116 | rendered JSON contains no control character, so no newline, and no HTML character |
| `Json.PlainTextUnescaped` | cmd/weft-driver-vz/main_darwin.go:112 | plain ASCII text is written as it is |
| `TimingLog.First` | cmd/weft-driver-vz/main_darwin.go:98 | the map key written first is the least in byte order, and there is exactly one |
| `TimingLog.LexLeIs` | cmd/weft-driver-vz/main_darwin.go:98 | the order of map keys is byte order: a beginning comes first, else the smaller byte where they differ |
| `TimingLog.MetaIsAscending` | cmd/weft-driver-vz/main_darwin.go:98 | map keys are written in strictly ascending byte order |
| `TimingLog.DecodedForm` | cmd/weft-driver-vz/main_darwin.go:95-112 | what any record reads back as: its strings sanitized, its time exact, a missing map empty |
| `TimingLog.EventRoundTrip` | cmd/weft-driver-vz/main_darwin.go:95-112 | a record reads back unchanged if and only if its name, keys and values are valid UTF-8; nil and empty maps coincide |
| `TimingLog.RecordIsOneLine` | cmd/weft-driver-vz/main_darwin.go:112-116 | an encoded record never contains a newline |
| `TimingLog.RecordText` | cmd/weft-driver-vz/main_darwin.go:95-112 | the text of a record: its keys in order, and no meta member for an empty map |
| `TimingLog.NoMoreLines` | cmd/weft-driver-vz/main_darwin.go:122 | a part of a record completes no line and only lengthens the unfinished one |
| `TimingLog.TimingsFile.RecordTimingEvent` | cmd/weft-driver-vz/main_darwin.go:107-124 | empty arguments or a failing open leave the file alone; a whole write adds exactly one complete line; one that breaks off only an unfinished one |
| `SharedLog.LogIsWholeRecords` | cmd/weft-driver-vz/main_darwin.go:107-124 | for any interleaving of any writers the file is whole records in write order: none torn, none joined |
| `SharedLog.StoryStep` | cmd/weft-driver-vz/main_darwin.go:107-124 | a step drops at most one call, and only from the writer that lost it or named no kind |
| `SharedLog.OwnOrderKept` | cmd/weft-driver-vz/main_darwin.go:107-124 | each writer's records keep its call order; the file is a merge, complete for every writer that lost none itself |
| `SharedLog.PerformCall` | cmd/weft-driver-vz/main_darwin.go:107-124 | one call of recordTimingEvent does to the file what the writer's interleaved steps do |
| `GuestMarks.MarkOfLine` | builtin/vmrun.go:234-247 | the mark of a line inside a log comes right after the marks of the lines before it |
| `GuestMarks.GuestMarkFidelity` | builtin/vmrun.go:234-303 | a printed mark on a valid UTF-8 line is the event at its place, and its record decodes to guest.<stage> with the same pairs |
| `GuestMarks.WrittenSoFar` | cmd/weft-driver-vz/main_darwin.go:107-124 | at any moment the records of a writer that lost none are its first calls in order, whatever others lost; all of them once it has finished |
| `GuestMarks.CallIsALine` | cmd/weft-driver-vz/main_darwin.go:107-124 | every call such a writer has made by now is a whole line of the file, with some time stamp |
| `GuestMarks.GuestMarkReachesTheFile` | cmd/weft-driver-vz/main_darwin.go:107-124 | console line to shared file: however the log was cut into reads, once the watcher has read past the line and written that far, some line of timings.jsonl decodes to that stage and those pairs, whatever the others wrote or lost |
| `AnsiEscapes.CsiEnds` | builtin/consoletab.m:91 | the backtracking paths of the CSI alternative reduce to the one longest run of parameters and intermediates |
| `AnsiEscapes.OscEnds` | builtin/consoletab.m:91 | the OSC alternative matches up to the first BEL or ESC backslash and nothing else |
| `AnsiEscapes.ScannerIsRegex` | builtin/consoletab.m:91 | the scanner finds exactly the first match of the regular expression with ordered alternatives and greedy stars |
| `AnsiEscapes.EndsShift` | builtin/consoletab.m:91 | what precedes a position has no say in the matches that begin there |
| `AnsiEscapes.StripIsReplaceAll` | builtin/consoletab.m:83-97 | the scanner that only looks ahead strips exactly what replacing every match of the expression by nothing removes |
| `AnsiEscapes.ControlRecognised` | builtin/consoletab.m:80-97 | a well-formed control sequence is recognised whole, whatever follows it |
| `AnsiEscapes.FormsByCode` | builtin/consoletab.m:80-91 | the well-formed sequences by the codes of ECMA-48 |
| `AnsiEscapes.OnlyControlsFound` | builtin/consoletab.m:91 | what is found is a well-formed sequence or the bare introducer of an OSC without an end, nothing else |
| `AnsiEscapes.TokensStripped` | builtin/consoletab.m:83-97 | well-formed text and sequences at the front are stripped on their own, whatever follows |
| `AnsiEscapes.StripRecoversText` | builtin/consoletab.m:83-97 | from any mix of text and well-formed sequences exactly the text is recovered |
| `AnsiEscapes.StripIsSubsequence` | builtin/consoletab.m:96 | on every input the output is a subsequence of the input |
| `AnsiEscapes.StripIsIdentity` | builtin/consoletab.m:96 | the output equals the input if and only if no sequence begins anywhere in it |
| `EscapeRejoins.OnlyUnrecognisedStays` | builtin/consoletab.m:96 | an ESC is left after stripping if and only if the scan meets one at which no sequence begins |
| `EscapeRejoins.EscapeCompletes` | builtin/consoletab.m:91 | a sequence begins at an ESC if and only if the characters after it run a small automaton to completion |
| `EscapeRejoins.RejoinsIsCompletes` | builtin/consoletab.m:91-96 | running that automaton over the text outside the recognised sequences is running it over the stripped text |
| `EscapeRejoins.StrippingTwice` | builtin/consoletab.m:83-97 | stripping twice equals stripping once if and only if no left-over ESC is completed by the characters that are left |
| `EscapeRejoins.RecognisedIsStable` | builtin/consoletab.m:83-97 | if every ESC begins a sequence, none is left and stripping is stable |
| `EscapeRejoins.StripIsNotIdempotent` | builtin/consoletab.m:96 | a string on which stripping twice differs from stripping once |
| `EscapeCuts.FrontIsDecided` | builtin/consoletab.m:91 | a sequence at the front of a+b is the one of a alone, or a is an unfinished sequence that ends in b |
| `EscapeCuts.TornApart` | builtin/consoletab.m:91-96 | what a torn sequence leaves of each half, and the one case in which that is nothing |
| `EscapeCuts.CutLeaves` | builtin/consoletab.m:91-96 | stripping two parts apart adds one stretch to what stripping them together leaves, empty if and only if no sequence is torn |
| `EscapeCuts.CutShows` | builtin/consoletab.m:91-96 | the two are equal if and only if no sequence is torn, and otherwise apart is strictly longer |
| `EscapeCuts.CutsShow` | builtin/consoletab.m:91-96 | the same for any number of cuts |
| `EscapeCuts.OnlyPendingIsTorn` | builtin/consoletab.m:91 | only a text whose scan meets an unfinished sequence can be torn by what follows |
| `EscapeCuts.PendingCanBeTorn` | builtin/consoletab.m:91 | every such text is torn by some single ASCII character, which is given |
| `EscapeCuts.CleanIsNotPending` | builtin/consoletab.m:91-96 | cutting after a text is harmless whatever follows if and only if nothing in it is pending |
| `EscapeCuts.TokensAreNotPending` | builtin/consoletab.m:80-97 | whole text and sequences leave nothing pending |
| `PieceDecoding.RunesJoin` | builtin/consoletab.m:159 | two valid pieces decode to the parts of what they decode to together |
| `PieceDecoding.StepsOfCut` | builtin/consoletab.m:159 | a cut of valid text costs no extra decoding step if and only if it splits no character |
| `PieceDecoding.PiecesDecode` | builtin/consoletab.m:159-163 | pieces of valid text, each decoded as UTF-8 or else Latin-1, give its text if and only if every piece is valid |
| `PieceDecoding.SomePieceGoesOn` | builtin/consoletab.m:159-163 | if not every piece of valid text is valid, some piece begins with a continuation byte |
| `ConsolePane.ConsoleTab.PollConsole` | builtin/consoletab.m:149-179 | one poll advances the offset by what was read and appends what the piece shows, or changes nothing |
| `ConsolePane.EveryByteReadOnce` | builtin/consoletab.m:149-156 | over any run on an append-only log every byte up to the offset is read once, in order, and nothing seen is left out |
| `DecodedStripping.SameSequence` | builtin/consoletab.m:91-96 | the sequence found at the front of valid UTF-8 is the one found in its decoded text: none ends inside a character |
| `DecodedStripping.StripCommutes` | builtin/consoletab.m:159-164 | stripping valid UTF-8 and decoding what is left is decoding and stripping |
| `ConsolePane.SplitCharacterShows` | builtin/consoletab.m:159-164 | where a cut splits a character of valid text the pieces show strictly more than the whole would |
| `ConsolePane.ScreenShowsStrippedLog` | builtin/consoletab.m:149-179 | while the log is valid UTF-8 the screen shows the stripped log if and only if no poll has split a character and none has torn a sequence |
| `ConsolePane.ScreenShowsStrippedPieces` | builtin/consoletab.m:149-179 | for all logs the screen is the stripped text of the decoded pieces if and only if no cut tears a sequence of it |
| `ConsolePane.NextPollIsSafe` | builtin/consoletab.m:149-179 | after a log with nothing pending no next poll can spoil the screen, whatever valid text it reads |
| `ConsolePane.NextPollCanSpoil` | builtin/consoletab.m:149-179 | after a log with something pending one more byte does |
| `ConsolePane.CutSequenceIsShown` | builtin/consoletab.m:149-179 | two polls that cut a sequence leave both halves on screen |
| `Decimal.AtoiOfItoa` | builtin/hypervisor.go:222 | a printed pid reads back as itself; a number beyond 64 bits is refused |
| `Decimal.LeadingDigit` | builtin/hypervisor.go:177 | decimal notation: a leading digit counts as many times ten as digits follow |
| `Decimal.AtoiAccepts` | builtin/hypervisor.go:222 | an optional sign and digits are read as that number if it fits 64 bits |
| `Decimal.AtoiRefuses` | builtin/hypervisor.go:222 | nothing else is read |
| `Decimal.TrimTakesBlanks` | builtin/hypervisor.go:222 | blanks around a word are exactly what is trimmed |
| `VmLifecycle.RunKeeps` | builtin/hypervisor.go:155-253 | the lifecycle invariant holds in every reachable state: any directories, generations and interleavings |
| `VmLifecycle.UnreapedChildHasItsPidFile` | builtin/hypervisor.go:169-187 | at most one unreaped child per directory, and once its pid write is done vm.pid holds its pid until it is reaped |
| `VmLifecycle.RemovalIsOwn` | builtin/hypervisor.go:179-181 | a wait goroutine's removal deletes its own generation's vm.pid, never a successor's or another directory's |
| `VmLifecycle.ExitReportedOnceAfterCleanup` | builtin/hypervisor.go:179-185 | OnVMExit runs at most once per child, only after reaping and removal |
| `VmLifecycle.PidFileParses` | builtin/hypervisor.go:215-225 | any vm.pid that exists parses to the pid of the latest child of that directory |
| `VmLifecycle.StopReadsLatest` | builtin/hypervisor.go:210-225 | in every reachable state a StopVM that finds vm.pid gets the pid of the directory's latest child |
| `VmLifecycle.CallerMayAct` | builtin/hypervisor.go:148-253 | exactly when a start and a deletion are possible under the caller's rule, and that a deletion then finds no vm.pid |
| `VmLifecycle.EveryExitCanBeReported` | builtin/hypervisor.go:155-187 | from every reachable state every child can go on to be recorded, reaped, cleaned up after and reported |
| `LifecycleFiles.Perform` | builtin/hypervisor.go:155-253 | StartVM's write, the wait goroutine's removal, StopVM's reading and DeleteVM do to and see of vm.pid what the interleaved steps say |
| `VmLifecycle.StopReachesItsOwnChild` | builtin/hypervisor.go:210-236 | the pid StopVM read is that of the directory's latest child; while it is unreaped the signal reaches it alone |
| `VmLifecycle.StopIsSafeUntilReaped` | builtin/hypervisor.go:210-236 | the child is unreaped if and only if the signal can hit no stranger: neither one that has the pid nor one an unused directory could next be started with |
| `VmLifecycle.DeleteNeedsAbsentPidFile` | builtin/hypervisor.go:248-253 | in every state of the invariant deleting a directory keeps it if and only if vm.pid is absent |
| `VmLifecycle.SecondStartNeedsFailedWrite` | builtin/hypervisor.go:148-177 | in every state of the invariant, once StartVM has gone on, the caller's rule allows a second start of the directory if and only if the write of vm.pid failed, with the first child still unreaped |
| `VmLifecycle.FailedWriteHidesChild` | builtin/hypervisor.go:148-177 | every run that has forked a child can go on, after a failing write of vm.pid, to two unreaped children in one directory |
| `VmLifecycle.ReapedIsTooWeak` | builtin/hypervisor.go:179-181 | deleting when the child is merely reaped lets an old removal orphan a running successor |
| `VmLifecycle.ReusedPidIsSignalled` | builtin/hypervisor.go:226-234 | a run in which a pid reused after reaping makes StopVM signal another VM's child |
| `Hypervisor.StartVM` | builtin/hypervisor.go:155-187 | which failures return an error and that only a fork writes vm.pid, a failing write being ignored |
| `Hypervisor.StopVM` | builtin/hypervisor.go:210-236 | nobody and no error exactly for an absent file; a pid exactly if the trimmed text is that number; else an error |
| `Hypervisor.WaitForExit` | builtin/hypervisor.go:179-185 | vm.pid is removed, nothing else changes, and OnVMExit is called once if there is one |
| `Hypervisor.DeleteVM` | builtin/hypervisor.go:248-253 | success exactly when everything in the directory could go; what stays is what the kernel would not let go; nothing outside changes; an empty name is refused |
| `Hypervisor.StopFindsStarted` | builtin/hypervisor.go:172-222 | what StartVM wrote, even through links, is the pid StopVM finds; after removal it finds nobody |
| `Hypervisor.OtherDirectoriesUntouched` | builtin/hypervisor.go:172-177 | writing one VM's pid does not change what is found at another's |
| `MicroVmRun.RunKeeps` | builtin/vmrun.go:73-184 | the run invariant holds after every step of every thread, with the process killed at any moment |
| `MicroVmRun.EventOrder` | builtin/vmrun.go:73-184 | main-thread events are a prefix of a legal word, complete on return; microvm_exited follows Stopped; the parent's record is last |
| `MicroVmRun.NoLostWakeup` | builtin/vmrun.go:115-178 | once Stopped is recorded and not just about to be sent, main is never stuck and needs at most four more steps, signal or not |
| `MicroVmRun.StoppedIsSent` | builtin/vmrun.go:126-137 | in every run each recorded Stopped has been sent, but for one that the logger is about to send, and nothing else has |
| `MicroVmRun.TransitionsAreRecorded` | builtin/vmrun.go:125-129 | in every run the recorded states are the VM's transitions, each once and in order, short of those the logger has still to record |
| `MicroVmRun.SignalAsksGuestToStop` | builtin/vmrun.go:169-175 | in every run main asks the guest to stop exactly once if it took a signal, before the second receive, and never otherwise |
| `MicroVmRun.MainWaitsOnlyToReceive` | builtin/vmrun.go:73-184 | main can go on except in the select with nothing to receive and in the second receive without a token |
| `MicroVmRun.EveryLegalWordHappens` | builtin/vmrun.go:73-184 | each legal word of main-thread events is written by some complete run |
| `MicroVmRun.SignalledVmCanExit` | builtin/vmrun.go:169-176 | there is a run that takes the signal, asks the guest to stop and exits |
| `MicroVmRun.WorldMayAct` | builtin/vmrun.go:120-168 | when a kill, a signal, a state transition and a guest mark are possible, and all that each does |
| `MicroVmRun.ParentCanReport` | builtin/hypervisor.go:179-185 | whenever the process is gone the parent can reap, clean up and report, as the last record |
| `MicroVmRun.LoggerNeverBlocks` | builtin/vmrun.go:126-137 | of the select's send and default exactly one is open, by whether the channel is empty or full, and after either it holds a token |
| `Reboot.GoVMReboot` | builtin/consoletab.go:56-84 | one RequestStop; hard stop if and only if 30 s passed unstopped; Start if and only if Stopped was seen afterwards |
| `Reboot.HardStopInTime` | builtin/consoletab.go:66-75 | a guest that does not stop is forced within 152 looks and not before the deadline |
| `FileSystem.WrittenIsFound` | builtin/hypervisor.go:177 | what was written through any links is found there |
| `FileSystem.AddKeepsFound` | builtin/hypervisor.go:98-99 | creating a file where there was none changes nothing that could be found |
| `FileSystem.OutsideUnaffected` | cmd/weft-driver-vz/provision_darwin.go:107-136 | changes inside a directory do not affect paths whose links stay outside it |
| `Identity.EnsurePart` | builtin/hypervisor.go:98-128 | one identity file: kept if found, created if missing, given up on any other failure |
| `Identity.CreateVM` | builtin/hypervisor.go:89-130 | the three files in order up to the first failure; an empty UUID or failing mkdir touches nothing |
| `Identity.CreatedKeeps` | builtin/hypervisor.go:89-130 | whatever fails, no file that exists changes, and success leaves all three present |
| `Identity.CreatedExactly` | builtin/hypervisor.go:89-130 | success exactly when nothing fails that has to be made; which parts are made before the first failure, each with its own new contents; nothing else |
| `Identity.StepKeepsIdentity` | builtin/hypervisor.go:89-299 | each kind of operation keeps every identity file that exists |
| `Identity.IdentityIsStable` | builtin/hypervisor.go:89-299 | over any run of creations, builds, starts, exits and attachments an identity file is never rewritten or removed |
| `DriverCalls.Perform` | builtin/hypervisor.go:89-299 | each of the driver's methods on one VM does to the files what its operation in the identity model says |
| `DriverCalls.PerformAll` | builtin/hypervisor.go:89-299 | any calls of the methods themselves, failing or not, in any order, leave every existing identity file as it was |
| `DevicePlan.AttachPrimary` | builtin/vmrun.go:487-527 | disk.img writable, else boot.iso read-only, else no primary disk |
| `DevicePlan.AttachDataDisks` | builtin/vmrun.go:539-550 | the data disks of the configuration are appended in order, all or an error |
| `DevicePlan.AttachStorage` | builtin/vmrun.go:487-566 | primary, data disks, seed, in that order with those read-only flags, if and only if all attach |
| `DevicePlan.StorageBegins` | builtin/vmrun.go:481-527 | the storage of any directory begins with disk.img, writable, if found, else boot.iso, read-only, if found, else with the data disks |
| `DevicePlan.StorageGoesOn` | builtin/vmrun.go:539-566 | then exactly the data disks, writable and in order, and cloud-init.iso, read-only, if found |
| `DevicePlan.BootIs` | builtin/vmrun.go:410-467 | the boot loader of any directory in full: kernel, command line, initrd, or EFI with its store |
| `DevicePlan.AttachShares` | builtin/vmrun.go:639-662 | shares in order; an entry without a tag or a path is an error |
| `DevicePlan.ReadMac` | builtin/vmrun.go:575-583 | the network device gets the address of mac.txt if it can be read and used, and none otherwise |
| `DevicePlan.MachineSize` | builtin/vmrun.go:585-592 | two processors and 2 GiB unless config.json says more than zero; the product wraps |
| `DevicePlan.ChooseBoot` | builtin/vmrun.go:412-467 | kernel with command line and optional initrd, falling back to EFI, whose store is created only where there is none and stays if the boot loader then fails |
| `DevicePlan.BuildVZConfigFromDir` | builtin/vmrun.go:383-697 | success exactly when all parts can be had; boot, identity, disks, address, size and shares are the directory's; the only file changed is a missing EFI store |
| `DevicePlan.BuildIsRepeatable` | builtin/vmrun.go:383-697 | a second build of a directory finds the same configuration, boot loader, disks, identity and address, even if the first failed; and nothing more to create if the first had its EFI store opened |
| `DevicePlan.MemoryIsExact` | builtin/vmrun.go:590-592 | the uint64 product is exact if and only if the amount is below 2^34 GiB |
| `Provision.PlaceArtefact` | cmd/weft-driver-vz/provision_darwin.go:107-136 | exactly when a symlink, a clone or the byte copy it falls back on succeeds, what the destination then is, and that nothing else changes even when a copy breaks off |
| `Provision.PlaceDataDisks` | cmd/weft-driver-vz/provision_darwin.go:53-60 | succeeds exactly when every disk can be placed; disk i is data-i.img and the names are returned in order |
| `Provision.PlaceArtefacts` | cmd/weft-driver-vz/provision_darwin.go:47-65 | the artefacts in order, if and only if each can be placed |
| `Provision.Provision` | cmd/weft-driver-vz/provision_darwin.go:40-92 | the whole command succeeds exactly when nothing fails, and then leaves exactly the specified layout |
| `Provision.ProvisionRenewsIdentity` | cmd/weft-driver-vz/provision_darwin.go:66-88 | whatever the directory held before, a successful provision leaves newly made identity files and its own configuration |
| `ProvisionedPlan.DataNamesDiffer` | cmd/weft-driver-vz/provision_darwin.go:55 | generated disk names are injective |
| `ProvisionedPlan.DiskNodesAre` | cmd/weft-driver-vz/provision_darwin.go:54-60 | every data disk stands for its own source: none is clobbered by another |
| `ProvisionedPlan.ProvisionedLaid` | cmd/weft-driver-vz/provision_darwin.go:44-88 | in a fresh directory provision succeeds for all sources that it finds and leaves exactly the expected files and nothing else |
| `ProvisionedPlan.OpensAsSource` | cmd/weft-driver-vz/provision_darwin.go:116-120 | a copy opens as its source; a link does if and only if the source is found with one link fewer, and otherwise fails |
| `ProvisionedPlan.ArtefactsOpenAsSources` | cmd/weft-driver-vz/provision_darwin.go:47-65 | every placed artefact opens as its source's contents, unless its new link is one too many; nothing outside changes |
| `ProvisionedPlan.ProvisionedStorage` | builtin/vmrun.go:487-566 | the builder's disks are those asked for if and only if image and seed open; it succeeds if and only if the data disks open and the framework is willing |
| `ProvisionedPlan.ProvisionThenBuild` | cmd/weft-driver-vz/provision_darwin.go:44-88 | building attaches exactly image, data disks in flag order and the seed iff given, if and only if every source opens through its link and the framework is willing; size, EFI boot and identity as provisioned |
| `ProvisionedPlan.LastLinkIsTooMany` | cmd/weft-driver-vz/provision_darwin.go:107-120 | for every limit on links there are arguments that provision accepts and whose image the builder cannot open |
| `ProvisionedPlan.OwnFilesFound` | builtin/vmrun.go:410-412 | the builder reads back the configuration written, finds no kernel, and the identity CreateVM made |
| `BackingFiles.AttachDisk` | builtin/hypervisor.go:275-299 | the guard order of AttachDisk: when it succeeds, and that it changes the tree only where nothing was found, also when the framework fails half-way |
| `BackingFiles.DetachDisk` | builtin/hypervisor.go:314-322 | on success the path is gone and nothing else changed; failure, exactly for an empty name or a removal that fails, changes nothing |
| `BackingFiles.SizeIsExact` | builtin/hypervisor.go:294 | the wrapping int64 product is exact if and only if the size is below 2^33 GiB |
| `BackingFiles.HugeDiskIsEmpty` | builtin/hypervisor.go:294 | at 2^34 GiB the product wraps to zero bytes |
| `BackingFiles.BackingIsPreserved` | builtin/hypervisor.go:275-322 | over any run on any paths, a file changes only by a detachment of that path |
| `BackingFiles.DetachThenAttachIsNew` | builtin/hypervisor.go:275-322 | after any run a successful detachment removes just that path, and attaching it again starts from a new image |
| `BackingFiles.AttachCreatesExactly` | builtin/hypervisor.go:282-298 | the first attachment of a missing path makes exactly SizeGiB * 2^30 bytes iff below 2^33 GiB; attaching again changes nothing |
## Left out

- Virtualization.framework objects and `cfg.Validate`: each call only succeeds or fails. The NAT network
  device, and the entropy, vsock, serial and graphics devices are not in the plan; `graphics` only
  records that they were asked for.
- The AppKit window, tabs and toolbar, and `openConsoleTerminal`: user interface.
- builtin/network.go, builtin/image.go, builtin/volume.go, AttachNIC, DetachNIC, the host information and
  `ValidatePCIPassthrough`: stubs and one-branch facts.
- cobra flags, NATS and plugin serving, and the making of the child's command line: plumbing.
- The truncation of `console.log` before a run, and a log that is replaced or shortened while it is
  being read.
- Files' permissions, directories as nodes, symbolic links to directories, and relative paths.
- A `config.json` that decodes only in part: it counts as one without any field, and as a record that
  both the builder and `readMicroVMFlag` see alike. Its `image` field is not read by this driver.
- The order of records in `timings.jsonl` by time stamp: the stamp is taken before the write.
- SharedLog.LogIsWholeRecords: a write that breaks off, which `TimingLog.TimingsFile.RecordTimingEvent`
  does model, is outside the interleaved system, where a write happens whole or is lost.
- Overlapping reboots, and Stop or Start calls on the VM by others than the reboot goroutine beyond what
  its looks at the state show.
- Two StartVM calls at once on one directory, and what provisioning a directory that is not empty keeps of
  it, but for the identity files (`Provision.ProvisionRenewsIdentity`).
- A time reading is one number on one clock; wall-clock adjustments are not modelled.
- Decimal.TrimSpace: trims the six ASCII blanks only, not the wider Unicode ones, which a pid file written
  by the driver never holds.
- Json.ParseValue: reads the compact form the encoder writes, without white space between tokens, and
  numbers that are integers; arrays, literals and fractions do not occur in the record.
- PieceDecoding.Decoded: code points rather than UTF-16 code units, and no treatment of a byte-order mark;
  neither is told apart by the regular expression's classes.
- Hypervisor.StartVM: the wait goroutine it launches is `Hypervisor.WaitForExit` and, interleaved with
  everything else, the steps Reap, Remove and Notify of `VmLifecycle`.
- DevicePlan.BuildVZConfigFromDir: the devices named above are missing from the plan.
- MicroVmRun.NoLostWakeup: speaks of enabled steps and of their number, not of the scheduler's fairness,
  and not of a VM that ends in an error state without ever being Stopped.
- MicroVmRun.EventOrder: after a failed configuration, when no goroutine was launched, the model still
  allows the logger and the VM to act until the process is gone; that only adds behaviours.
