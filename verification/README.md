# mfarm, verified models

A Dafny model of the parts of the mfarm device farm whose correctness is hardest to see by reading: the
parsers that face uploaded files and foreign text, the protocols that run across awaits, transactions and
crashes, and the in-memory bookkeeping that has to agree with what happened. `dafny verify dfyconfig.toml`
checks all of it; there is no executable part.

Sources are TypeScript and JavaScript. A loop or an object that changes in place is a method or a class,
proved against a specification function; a protocol is a machine whose steps are the code between two
awaits, or one database transaction; properties are lemmas over every input or every run.

## The modules

| module | models |
|---|---|
| `Zip` | central directory and entry extraction of `apk.ts`, with an archive encoder |
| `StringPools`, `Manifests` | Android string pools behind their memo, and binary XML manifests, each with an encoder |
| `ManifestFields` | what a manifest says, field by field: which record decides, and what its type makes of it |
| `Resources`, `ResourceTables` | the resource table walk, and an encoder for tables with what they say |
| `Unicode`, `Bytes`, `Chunks`, `Wrappers` | UTF-16 strings, UTF-8 (RFC 3629), `Buffer` reads that may throw, chunk heads, Option and Result |
| `UiTree` | the regular-expression walk of `parseUiTree`, with a printer of hierarchies |
| `UiFields` | what an element of a hierarchy carries, field by field, and when it is dropped |
| `AutomationPaths`, `TunnelRules` | percent-encoded device paths and their tunnel form; host allow rules |
| `XPathLiterals`, `LiveInput` | selector quoting, and the modifier and pointer tracking, of `live.js` |
| `Mcp`, `RunCommand` | the device-holding CLI commands as machines over signals, answers and exits |
| `AppStore` | the content-addressed store as file-system steps with failures and crashes |
| `UserCodes`, `Pairings` | device-code pairing and single-use enrollment over two tables |
| `Subscribers` | the live-event registry: aliased sets held by closures |
| `Metrics`, `Exposition` | metric families against their event log, and the text of a sample line |
| `RunCost`, `FlakeHistory` | what a run cost, and the history strip of a failing test |
| `AutomationOffer` | when a device is offered for WebDriver |

## Where the code and its own words part

The model follows the code. These are the places where a comment or a test promises more; each has a lemma.

- `apps/api/src/apk.ts:132-133` says the last end-of-directory signature is the real one. An archive comment
  that carries a later signature is read instead: `Zip.CommentHidesDirectory` makes any archive read as empty.
  The round trip therefore has the absence of a later signature as its one condition;
  `Zip.ScanFindsEndRecord` shows that condition to be exact for the scan.
- `apps/api/src/metrics.ts:74-75` calls NUL a separator no label value can contain. Nothing prevents it;
  `Metrics.ConfusableExactly` says exactly which tuples then share a series with another.
- `apps/api/src/pairing.ts:130-133` retries on a code collision. The retry runs inside the transaction the
  collision has already failed, so it cannot succeed: `Pairings.StartExactly`.
- `apps/api/src/pairing.ts:116-117` says the sweep takes pending rows only. It takes every uncollected row past
  its time, approved ones too: `Pairings.StartSweepsExactly`. Until such a sweep an approved pairing stays
  collectable, `Pairings.ApprovedStaysCollectable`.
- `apps/api/src/pairing.ts:69-72` keeps unknown characters so that they fail the length check. A sharp s
  becomes two letters of the alphabet, `UserCodes.SharpSBecomesTwo`, and a long s names another code without
  any change of length, `UserCodes.LongSNamesAnother`. The promise holds for exactly the inputs typed in
  ASCII: `UserCodes.NothingIsDroppedExactly`.
- `apps/api/src/appstore.ts:135-139` returns the name of a blob found on disk, which a concurrent `remove` can
  have taken away by then: `AppStore.ReturnedBlobMayBeGone`. `AppStore.ReturnedBlobIsThereExactly` says when
  it is still there.
- `apps/api/src/executionEvents.ts:75-80` drops the run's map entry when its own set is empty, so a handle
  called twice can drop a newer set: `Subscribers.SecondCallDrops`, and `Subscribers.SecondCallExactly` for
  when it does not.
- `apps/cli/src/mcp.ts:195-198` promises to give the device back before the process goes. A session still being
  allocated is not active yet, and the process exits while the hub goes on to grant it:
  `Mcp.ExitDuringAllocation`; a session being deleted is not active any more, and the process exits with the
  deletion in flight: `Mcp.ExitDuringDelete`; or a second session is opened while the first is being deleted,
  `Mcp.ExitHoldingOne`. `Mcp.EndHoldsExactly` says when an exit, or a crash, has passed every session to
  `deleteSession`, and when every deletion has succeeded.
- `apps/cli/src/mcp.ts:181-192` serves until the input closes and then releases. A line that is the JSON value
  null ends the process first, also as the last line: `Mcp.NullLineIsFatal`, with what that leaves held.
- `apps/api/public/live.js:543-547` forgets the modifiers when the channel is closed, which leaves the device
  holding them: `LiveInput.BlurKeeps` gives the exact condition, `LiveInput.ModifiersAgreeExactly` that for runs. A pointer lifted on a closed channel
  (`apps/api/public/live.js:440-442`, `506-509`) stays down on the device: `LiveInput.LiftIsLost`, with
  `LiveInput.TouchesAgreeExactly` for when page and device agree.

## Model

| member | source | states |
|---|---|---|
| Zip.ScanBackwards | apps/api/src/apk.ts:134-140 | The backwards loop finds the last signature that leaves room for a record, or none. |
| Zip.WalkRecords | apps/api/src/apk.ts:150-169 | The offset loop collects exactly the entries of the directory, in order, or throws what a read past the end or a wrong signature throws. |
| Zip.ReadCentralDirectory | apps/api/src/apk.ts:128-171 | The whole method, for every file: the entry list or the fault of the specification. |
| Zip.ScanFindsEndRecord | apps/api/src/apk.ts:131-141 | The scan finds the archive's own end record if and only if its comment holds no later signature. |
| Zip.DirectoryInverse | apps/api/src/apk.ts:128-171 | Reading back an encoded archive gives exactly its members, any number, any name, extra and comment lengths (APPNOTE 4.3.12, 4.3.16). |
| Zip.CommentHidesDirectory | apps/api/src/apk.ts:132-141 | Any archive whose comment ends in an empty end record of its own reads as empty. |
| Zip.DirectoryExactly | apps/api/src/apk.ts:128-171 | Any file at all: the records of the directory that its last end record in the last 65557 bytes points at; the parse error without such a record, if the directory runs past the end, or at a record without its signature. |
| Zip.ExtractExactly | apps/api/src/apk.ts:206-235 | Any file and any listing: bytes exactly if the first entry of the name has them in the file, behind a signed local header and within the ceiling; null exactly if no entry has the name. |
| Zip.ExtractInverse | apps/api/src/apk.ts:206-235 | Extraction by name gives the first such member's exact bytes, whatever the local header's own lengths; it is refused exactly above the size ceiling or for an unknown or failing compression. |
| StringPools.StringPool.Get | apps/api/src/apk.ts:313-325 | Every memoised answer is the uncached one, after any sequence of lookups; only in-range indices are remembered. |
| StringPools.EntryInverse | apps/api/src/apk.ts:293-311 | Decoding undoes encoding for both encodings, across one-unit and two-unit lengths. |
| StringPools.PoolInverse | apps/api/src/apk.ts:280-327 | Looking up an index of an encoded pool lying anywhere in a buffer gives that string; any other index gives null. |
| Unicode.DecodeOneInverse | apps/api/src/apk.ts:304-304 | One step of the replacing UTF-8 decoder undoes the encoding of one scalar, whatever follows. |
| Unicode.DecodeOneIsStrict | apps/api/src/apk.ts:304-304 | Whatever one step takes for a scalar is its encoding: nothing overlong, no surrogate, nothing past U+10FFFF (RFC 3629 section 3). |
| Unicode.DecodeInverse | apps/api/src/apk.ts:304-304 | UTF-8 decoding undoes encoding on every well-formed string (RFC 3629 section 3). |
| Resources.ReadEntryValue | apps/api/src/apk.ts:454-468 | A table entry's text: a plain, non-blank string value inside the chunk, else null. |
| Resources.InspectExactly | apps/api/src/apk.ts:420-467 | A chunk of any buffer says this text, as the default's exactly if its configuration fits and is all zeros behind its size, if its offset for the entry leads to a plain entry with that non-blank string; and when reading it faults. |
| Resources.FindEntryInPackage | apps/api/src/apk.ts:401-451 | The loop over one package terminates on every buffer and equals the choice over its chunk list. |
| Resources.ChooseAnswers | apps/api/src/apk.ts:401-451 | The first default-configuration string wherever it appears, otherwise the first translation, otherwise null; a faulty chunk throws unless a default came before it. |
| Resources.ResolveStringResource | apps/api/src/apk.ts:359-390 | The outer loop, for every buffer and id, equals its specification over the table's chunks, faults included. |
| ResourceTables.TypeInverse | apps/api/src/apk.ts:417-445 | Inspecting an encoded type chunk finds the wanted entry's text, as the default's or as a translation's, or nothing. |
| ResourceTables.TableInverse | apps/api/src/apk.ts:359-451 | Resolving an id in an encoded table never faults and gives the answer of the first matching package after the first string pool that has one. |
| Manifests.ReadAttributes | apps/api/src/apk.ts:542-571 | The attribute loop reads start, stride and count from the file and stops at the first record past the buffer. |
| Manifests.ReadResourceMap | apps/api/src/apk.ts:508-511 | The resource map fill loop. |
| Manifests.ParseManifest | apps/api/src/apk.ts:485-540 | The forward pass over the chunks, for every buffer, equals its specification, faults included. |
| Manifests.RecordsInverse | apps/api/src/apk.ts:550-570 | Attribute records read back wherever they start and however long the file says they are. |
| Manifests.ManifestInverse | apps/api/src/apk.ts:485-571 | Parsing an encoded document visits its elements in order with their attributes, each under the last string pool and resource map before it, for any chunks in any order, either string encoding, any declared lengths, and any bytes at the end that start no whole chunk. |
| ManifestFields.ManifestMeans | apps/api/src/apk.ts:485-636 | What an encoded document gives, field by field: package, version code and version name from the first manifest element, the first SDK level and the first label after it, and the last label reference before a label; for each the first record of that name decides, else the first with the resource id, and an integer, a string, a reference or raw text each gives what its type says. Without a manifest or a valid package name it fails. |
| ManifestFields.PackageNameIsSegments | packages/protocol/src/protocol.ts:472-476 | A package name is two segments of word characters or more, joined by dots, the first from a letter, 255 characters at most. |
| ManifestFields.DecimalMeans | apps/api/src/apk.ts:615-615 | An integer is shown as the decimal numeral of its value. |
| Manifests.VisitExtends | apps/api/src/apk.ts:517-534 | An element never changes a package or version already read, and the SDK level and label only while they are missing. |
| Manifests.ParsedNameIsValid | apps/api/src/apk.ts:577-594 | Whatever the bytes, a parse that succeeds carries a valid Android package name. |
| UiTree.ReadAttributes | packages/protocol/src/protocol.ts:1228-1231 | The attribute loop fills the record of decoded attributes; a later duplicate wins; an impossible code point throws. |
| UiTree.ParseUiTree | packages/protocol/src/protocol.ts:1224-1271 | The tag loop, for every text and every max, equals the specification. |
| UiTree.TagAtIsGrammar | packages/protocol/src/protocol.ts:1226-1226 | The scanner for the tag expression finds a match exactly when the expression's grammar has one, and then its name, end and lazy body. |
| UiTree.DecodeInverse | packages/protocol/src/protocol.ts:1209-1215 | Decoding undoes any mix of raw text, named, decimal and hexadecimal references in a single pass (XML 1.0 sections 4.1 and 4.6). |
| UiTree.AttrsInverse | packages/protocol/src/protocol.ts:1227-1229 | Printed attributes read back in order, with any white space between and behind them. |
| UiTree.ParsedIsSound | packages/protocol/src/protocol.ts:1228-1268 | Whatever text is parsed: every element comes from a tag that has area, is not hidden and says or does something; indices are dense from 0, never more than max. |
| UiTree.HierarchyInverse | packages/protocol/src/protocol.ts:1224-1271 | Parsing a printed hierarchy, with any text that starts no element around and inside its elements, considers exactly its elements, in document order, values decoded, and numbers the kept ones densely from 0, never more than max. |
| UiFields.BoundsRead | packages/protocol/src/protocol.ts:1234-1238 | Bounds are read exactly where four integers are written as `[left,top][right,bottom]`; then left and top are x and y, and the differences width and height. |
| UiFields.KeptExactly | packages/protocol/src/protocol.ts:1233-1268 | An element is kept, with every field as its platform's own attributes say, or dropped, for want of area, as hidden, or because it says and does nothing; never both. |
| UiFields.ParsedMeans | packages/protocol/src/protocol.ts:1224-1271 | Whatever text is parsed: every element of the answer carries in every field what the attributes of one of its tags say. |
| UiFields.HierarchyMeans | packages/protocol/src/protocol.ts:1224-1271 | Parsing a printed hierarchy shows exactly the elements that are not dropped, in document order, as many as max allows, with every field as their attributes say. |
| AutomationPaths.ComponentInverse | packages/protocol/src/protocol.ts:499-501 | Percent-decoding undoes percent-encoding on every well-formed string (RFC 3986 section 2.1). |
| AutomationPaths.AsciiWritten | packages/protocol/src/protocol.ts:499-501 | Which ASCII characters stand for themselves, and how any other is written. |
| AutomationPaths.PathInverse | packages/protocol/src/protocol.ts:499-526 | A path exists for exactly the well-formed ids; followed by any remainder, empty or from a slash, it parses to that id and remainder; only the empty id does not come back. |
| AutomationPaths.DecodesExactly | packages/protocol/src/protocol.ts:509-526 | A component decodes exactly if each unit is itself or a percent sign that starts the escaped UTF-8 form of one scalar, digits in either case, and then to these. |
| AutomationPaths.ParsedIsPath | packages/protocol/src/protocol.ts:509-526 | A path parses exactly if it is `/automation/`, a non-empty encoded id without a slash, and a remainder that is empty or starts with one; and then to that id and remainder. |
| AutomationPaths.TunnelledExactly | packages/protocol/src/protocol.ts:770-779 | A tunnelled address is the scheme and an automation path, and nothing else is one. |
| AutomationPaths.TunnelInverse | packages/protocol/src/protocol.ts:763-779 | Stripping the tunnel scheme from the endpoint with any remainder gives the direct form's path. |
| TunnelRules.SuffixIsLabels | packages/protocol/src/protocol.ts:954-962 | The string-suffix test is the rule on labels: a whole-label suffix, the bare domain included. |
| TunnelRules.RuleIsMeaning | packages/protocol/src/protocol.ts:950-964 | One rule permits a host and port exactly when its label pattern and its port do. |
| TunnelRules.AllowsIsMeaning | packages/protocol/src/protocol.ts:948-965 | The list permits exactly what some rule means. |
| TunnelRules.CaseInsensitive | packages/protocol/src/protocol.ts:949-952 | Hosts and rules that lower-case alike get the same answer, whatever lower-casing does. |
| TunnelRules.AsciiCaseInsensitive | packages/protocol/src/protocol.ts:949-952 | ASCII hosts and rules that differ in the case of their letters get the same answer. |
| TunnelRules.Monotone | packages/protocol/src/protocol.ts:948-965 | Adding, reordering or repeating rules never takes a permission away. |
| XPathLiterals.LiteralValue | apps/api/public/live.js:769-770 | Evaluated as XPath 1.0 (sections 3.7 and 4.2), the literal's value is the input string, for every string. |
| LiveInput.Keyboard.SendKey | apps/api/public/live.js:532-533 | One message makes the device hold, or let go of, that modifier and changes no other. |
| LiveInput.Keyboard.ReleaseMods | apps/api/public/live.js:543-548 | Blur: a release per held modifier if the channel is open; both sets empty. |
| LiveInput.Keyboard.HandleKey | apps/api/public/live.js:551-599 | The keydown and keyup handler: new sets and messages as specified, nothing on a closed channel. |
| LiveInput.KeySendsExactly | apps/api/public/live.js:551-599 | What one key event sends and leaves held: an ordinary keydown first presses the left key of each flagged family of which none is held, in order; its keyup then lets go of what was pressed. |
| LiveInput.FlagsAreDown | apps/api/public/live.js:578-591 | When an ordinary keydown goes out, every modifier family its flags name is down on the device. |
| LiveInput.KeyKeeps | apps/api/public/live.js:551-599 | A key event keeps the device's modifiers equal to the page's, and the synthesised ones among them. |
| LiveInput.BlurKeeps | apps/api/public/live.js:543-549 | After a blur the page holds nothing; the device agrees exactly when the channel was open or nothing was held. |
| LiveInput.ModifiersAgreeExactly | apps/api/public/live.js:529-599 | Over every run, channel changes included, the device holds exactly the modifiers the page believes held if and only if each is held, or not, as it was when the page last told the device about it. |
| LiveInput.DeviceAgrees | apps/api/public/live.js:529-599 | Over every event sequence in which no blur is lost to a closed channel, the modifiers folded from the sent messages are the page's. |
| LiveInput.HeldAreDistinct | apps/api/public/live.js:529-599 | Over every run no modifier is held twice, so that a blur lets go of each once. |
| LiveInput.PageNeverOverclaims | apps/api/public/live.js:529-599 | Whatever the channel does, the device holds everything the page believes held. |
| LiveInput.OpenIsNeverBlind | apps/api/public/live.js:529-599 | A channel that stays open loses no blur. |
| LiveInput.Pointers.Send | apps/api/public/live.js:440-452 | The device learns about one finger on an open channel, and nothing on a closed one. |
| LiveInput.Pointers.PointerDown | apps/api/public/live.js:478-502 | A press is tracked, and sent if the channel is open, except in inspect mode. |
| LiveInput.Pointers.PointerMove | apps/api/public/live.js:503-505 | A move is sent only for a tracked pointer, on an open channel. |
| LiveInput.Pointers.PointerUp | apps/api/public/live.js:506-510 | A lift is forgotten once, only for a tracked pointer, and sent if the channel is open. |
| LiveInput.TouchKeeps | apps/api/public/live.js:440-510 | One event keeps device and page in agreement exactly when the channel is open or no finger is put down or lifted. |
| LiveInput.TouchesAgreeExactly | apps/api/public/live.js:440-510 | Over every run, channel changes included, the device holds exactly the tracked pointers if and only if each is tracked, or not, as it was when the channel last carried something about it. |
| LiveInput.TouchesAgree | apps/api/public/live.js:440-510 | If no finger is put down or lifted on a closed channel they agree throughout, and the device is never told to lift a finger that is up. |
| LiveInput.OpenIsNeverDeaf | apps/api/public/live.js:440-510 | A channel that stays open loses no press and no lift. |
| LiveInput.LiftIsLost | apps/api/public/live.js:440-442 | The run in which a finger lifted after the channel closed stays down on the device. |
| Mcp.StepKeeps | apps/cli/src/mcp.ts:181-221 | Each step between two awaits keeps the one-device, release and answer invariants. |
| Mcp.OneDeviceAtATime | apps/cli/src/mcp.ts:355-396 | In every interleaving at most one session is being allocated, none while one is active, and the active one is never overwritten. |
| Mcp.CallsWaitExactly | apps/cli/src/mcp.ts:223-366 | After every run, a start_session goes to the hub exactly if no session is open and no other start_session is being refused for its arguments, allocated or described; the other calls wait on the open session, if there is one, and only end_session closes it. |
| Mcp.JobsMoveExactly | apps/cli/src/mcp.ts:204-396 | Over every run, a pending request moves only by what it waits for itself, and only one whose answer is decided leaves. |
| Mcp.SignalsExactly | apps/cli/src/mcp.ts:195-198 | The first signal of its kind gives the open session back and lets the process live until that deletion has ended; with no session open, or a second time, it ends the process and gives nothing back. |
| Mcp.NeverStuck | apps/cli/src/mcp.ts:181-221 | After every run that neither ended nor read a null line, each pending request can still be answered, each deletion in flight can still end, and `serve` can still return. |
| Mcp.ReturnReleasesAll | apps/cli/src/mcp.ts:181-193 | When `serve` returns, every session the hub handed out was passed to deleteSession exactly once, and nothing else was; each deletion has succeeded or failed, or a signal handler still waits for it. |
| Mcp.ReturnAnswersAll | apps/cli/src/mcp.ts:204-221 | When `serve` returns, each request has exactly one response and each notification none (JSON-RPC 2.0 sections 4.1 and 5). |
| Mcp.EndHoldsExactly | apps/cli/src/mcp.ts:195-198 | A process that exits on a signal or crashes has passed every session to deleteSession, whatever the hub still answers, if and only if none was active and none being allocated; every deletion has succeeded if and only if, further, none was in flight and none had failed. |
| Mcp.ExitDuringAllocation | apps/cli/src/mcp.ts:368-391 | The run in which a signal comes during an allocation, the process exits, and the hub grants a session nobody deletes. |
| Mcp.ExitDuringDelete | apps/cli/src/mcp.ts:441-446 | The run in which a signal comes while end_session waits, and the process exits before the deletion has been answered. |
| Mcp.ExitHoldingOne | apps/cli/src/mcp.ts:196-198 | The run in which the process waits for one session's deletion, opens another meanwhile, and exits holding it. |
| Mcp.ExitMayHoldOne | apps/cli/src/mcp.ts:355-396 | At no time is more than one session that the hub handed out not passed to deleteSession. |
| Mcp.NullLineIsFatal | apps/cli/src/mcp.ts:184-212 | After a line that is the JSON value null, wherever the input ends, the process ends by crashing only and no deletion succeeds any more; the crash leaves nothing held if and only if all was given back when the line was read and no line of the same turn has started an allocation. |
| RunCommand.ReleasedOnEveryExit | apps/cli/src/run.ts:111-248 | After a session exists, every schedule of signals, answers, child events and internal errors calls deleteSession at most once, and once by the time the process ends. |
| RunCommand.ExitCodeIgnoresRelease | apps/cli/src/run.ts:272-307 | The exit code is the same however the DELETE ends. |
| RunCommand.DecidedAtRelease | apps/cli/src/run.ts:129-145 | Once the release has begun, only an internal error can still change the exit code. |
| RunCommand.ChildCodeIsVerbatim | apps/cli/src/run.ts:393-409 | An uninterrupted child's own code comes back verbatim. |
| RunCommand.ChildIsStartedExactly | apps/cli/src/run.ts:183-210 | Over every run, the child is started exactly if the session was not queued, or a poll found its device ready before any signal. |
| RunCommand.OutcomeExactly | apps/cli/src/run.ts:201-248 | Every run that ended without an internal error: the child's own code or 128 plus its signal, 130 if a signal had come before; 1 if the hub or the start failed; 75 exactly if the wait was over first; otherwise 130, and a signal came. |
| RunCommand.FatalOutcome | apps/cli/src/run.ts:165-169 | A run with an internal error ends with 1. |
| RunCommand.SleepsExactly | apps/cli/src/run.ts:318-358 | A sleep lasts from the last answer for half a second, doubling with each poll to five, cut at the deadline. |
| RunCommand.SignalsExactly | apps/cli/src/run.ts:126-164 | What each signal is answered with, before and during the release; waiting for the hub can be given up only after a signal during it; a release that was not given up reports its end. |
| RunCommand.SignalWakes | apps/cli/src/run.ts:172-176 | A signal ends a sleeping wait at once, and the hub is not asked again. |
| RunCommand.SomethingIsAwaited | apps/cli/src/run.ts:196-234 | No schedule is stuck before the end, and whatever the hub or the child answers is taken. |
| RunCommand.WaitIsHonoured | apps/cli/src/run.ts:309-360 | Giving up is never early and never after a child was started; sleeps end by the deadline and double from half a second to five. |
| AppStore.StepKeeps | apps/api/src/appstore.ts:77-171 | Each file-system step, failure or crash keeps the store's invariant. |
| AppStore.FilesAreAddressed | apps/api/src/appstore.ts:77-146 | Under any interleaving of puts, removes, failures and crashes every file at a digest's path hashes to it and is within the limit it was created under. |
| AppStore.ResultsDescribeUpload | apps/api/src/appstore.ts:105-146 | A put that returned names digest and size of exactly the bytes it accepted, within its limit. |
| AppStore.TempFilesAreCleaned | apps/api/src/appstore.ts:101-146 | A put that ended leaves its temp file if and only if the operation that would have removed it failed, however late the file opened. |
| AppStore.NoFaultNoLeak | apps/api/src/appstore.ts:82-146 | Without crashes and failures every temp file belongs to a put still running. |
| AppStore.OutcomeExactly | apps/api/src/appstore.ts:77-146 | Over every run, an ended put was too large exactly if the chunks sent to it add up to more than its limit; otherwise it threw exactly if something of its own failed or nothing was sent; otherwise it returned the digest and size of what was sent. |
| AppStore.PutsAreNeverStuck | apps/api/src/appstore.ts:77-146 | Over every run, exactly the events a put waits for can come next, with both outcomes of each file operation, and there is one until it has ended. |
| AppStore.ReturnedBlobIsThereExactly | apps/api/src/appstore.ts:135-146 | From a put's stat on, its blob is there exactly if it was there or a rename brought it, and no successful removal of the digest was left without a later rename to it; for a put that returned, having found or created its blob, only the removals matter. |
| AppStore.FinalAfterRun | apps/api/src/appstore.ts:143-171 | Over any run a digest's file is there at the end exactly if it was there or came, and was not left removed. |
| AppStore.ReturnedBlobMayBeGone | apps/api/src/appstore.ts:135-139 | For any content, a run in which a put returns the name of a blob that is no longer there. |
| UserCodes.CodeShapedExactly | apps/api/src/pairing.ts:40-80 | A code is eight symbols of the thirty-symbol alphabet. |
| UserCodes.DisplayedIsAccepted | apps/api/src/pairing.ts:74-83 | Normalising the displayed form of a code gives the code. |
| UserCodes.SeparatorsAreIgnored | apps/api/src/pairing.ts:74-76 | White space and dashes anywhere make no difference. |
| UserCodes.NothingIsDropped | apps/api/src/pairing.ts:69-80 | The typed ASCII characters, separators aside, are the normal form's in order: a misread one cannot vanish. |
| UserCodes.NothingIsDroppedExactly | apps/api/src/pairing.ts:69-80 | Of the inputs taken for a code, exactly those typed in ASCII have the code's eight characters in order. |
| UserCodes.SharpSBecomesTwo | apps/api/src/pairing.ts:69-80 | Beyond ASCII a seven-character input can be code shaped. |
| UserCodes.LongSNamesAnother | apps/api/src/pairing.ts:69-80 | Beyond ASCII eight typed characters can name another code. |
| Pairings.StartExactly | apps/api/src/pairing.ts:119-160 | A start succeeds exactly when its first code and its device code are free after the sweep; the retries never help; a failed start changes nothing. |
| Pairings.StartSweepsExactly | apps/api/src/pairing.ts:124-127 | A start deletes exactly the uncollected pairings past their expiry, approved or not. |
| Pairings.ApprovalMatchesLookup | apps/api/src/pairing.ts:177-256 | An approval takes exactly the codes a lookup shows as pending, and shows as approved after; otherwise it changes nothing. |
| Pairings.ApprovedIsCollectable | apps/api/src/pairing.ts:278-333 | A poll mints a token exactly for an approved, uncollected pairing, at any time, in the approver's org. |
| Pairings.ApprovedKeeps | apps/api/src/pairing.ts:304-314 | An approved pairing stays as it is through every run without its own poll and without a start after its expiry. |
| Pairings.ApprovedStaysCollectable | apps/api/src/pairing.ts:278-333 | After any such run, at any instant, expired or not, its agent's poll gets a token in the approver's org unless the token's prefix is taken. |
| Pairings.RunKeeps | apps/api/src/pairing.ts:119-333 | Unique columns stay unique, nothing is collected unapproved, and the rows agree with what happened, over every run. |
| Pairings.OncePerRun | apps/api/src/pairing.ts:263-333 | Over every run a pairing is approved at most once and mints at most one enrollment, and an enrollment is used at most once. |
| Pairings.MintsFollowTheApproval | apps/api/src/pairing.ts:206-333 | Every mint comes after its pairing's only approval and is in that approver's org. |
| Pairings.RedeemedByOneHost | apps/api/src/enrollment.ts:92-144 | An enrollment is redeemed by at most one host. |
| Pairings.TokenWorksOnce | apps/api/src/enrollment.ts:109-144 | A minted token registers a host within the hour, in its org, and then no host at any instant a second time; later it is refused. |
| Pairings.RegisterExactly | apps/api/src/enrollment.ts:109-144 | A registration is accepted exactly if the whole text presented is the token of an enrollment that is not revoked, not used and not expired, and then uses it for that host; a refusal changes nothing. |
| Pairings.RedeemedWasMinted | apps/api/src/enrollment.ts:38-144 | Over every run, whoever was let in presented the very text that was minted before, within its lifetime, and no revocation of it succeeded in between. |
| Pairings.CreatedTokenWorks | apps/api/src/enrollment.ts:38-52 | A token is created exactly if its prefix is free, and lets a host in for as many hours as were asked for. |
| Pairings.RevokeExactly | apps/api/src/enrollment.ts:81-90 | A revocation succeeds exactly for an unrevoked enrollment of that org and prefix, and touches nothing else. |
| Pairings.PairingLives | apps/api/src/pairing.ts:119-333 | From its start, through every run without its approval and without a start past its expiry, a pairing is pending for the agent and the admin, and can be approved, for exactly ten minutes; then it is expired for both. Once approved, the poll gets its token in that admin's org. |
| Pairings.CollectedIsFinal | apps/api/src/pairing.ts:183-293 | A collected pairing is spent for its agent, and shown as collected to an admin, after every run. |
| Pairings.StrangersAreUnknown | apps/api/src/pairing.ts:177-292 | Exactly the codes and devices that are no row's, or too short, are unknown, and change nothing. |
| Subscribers.Registry.Subscribe | apps/api/src/executionEvents.ts:66-81 | Refused exactly at the two caps and then without effect; otherwise the run's own or a new Set gains the listener. |
| Subscribers.Registry.Unsubscribe | apps/api/src/executionEvents.ts:75-80 | One closure call, over the aliased heap: its Set loses the listener, the map entry goes if that Set is empty. |
| Subscribers.Registry.Publish | apps/api/src/executionEvents.ts:88-96 | The loop calls the run's Set in order. |
| Subscribers.FullExactly | apps/api/src/executionEvents.ts:46-70 | A subscription is refused at twenty listeners of its run, or for a new run at five hundred. |
| Subscribers.SubscribeExactly | apps/api/src/executionEvents.ts:66-74 | Subscribing keeps the registry sound exactly when the function is not live for the run already. |
| Subscribers.UnsubscribeKeeps | apps/api/src/executionEvents.ts:75-80 | A handle's first call keeps it sound and leaves no empty Set. |
| Subscribers.SecondCallExactly | apps/api/src/executionEvents.ts:75-80 | A second call is harmless, and then does nothing at all, exactly when the run's live handles share its Set and none stands for its function. |
| Subscribers.SecondCallDrops | apps/api/src/executionEvents.ts:75-80 | A reachable state in which a second call drops a newer watcher. |
| Subscribers.RunKeeps | apps/api/src/executionEvents.ts:46-81 | Over every disciplined run both caps hold, no empty Set stays, and every live handle's Set is the registered one. |
| Subscribers.PublishReaches | apps/api/src/executionEvents.ts:88-96 | An event reaches exactly the run's live listeners, each once. |
| Metrics.ConfusableExactly | apps/api/src/metrics.ts:74-98 | A label tuple shares its key with another exactly when there are two labels or more and a value contains NUL. |
| Metrics.NulFreeIsAlone | apps/api/src/metrics.ts:96-98 | A tuple of NUL-free values, or of one value, shares its key with no other. |
| Metrics.Table.Slot | apps/api/src/metrics.ts:96-109 | A label set gets its cell unless the cap refuses it, and then the drop count rises by one. |
| Metrics.Table.Clear | apps/api/src/metrics.ts:117-119 | A reset empties the table and keeps the drop count. |
| Metrics.Table.Publish | apps/api/src/metrics.ts:121-134 | Rendering gives an untouched unlabelled metric its zero and changes nothing else. |
| Metrics.Counter.Inc | apps/api/src/metrics.ts:150-153 | An increment changes its own series only. |
| Metrics.Histogram.Observe | apps/api/src/metrics.ts:195-204 | The bucket loop counts the observation in every bucket at or above it, the sum and the count. |
| Metrics.RunTidy | apps/api/src/metrics.ts:70-119 | Table and insertion order agree, keys are distinct and their values' keys, and the cap holds, after every log. |
| Metrics.SeriesAreTheirUpdates | apps/api/src/metrics.ts:96-119 | Each present series is the fold of all its updates since the last reset, never a part of them. |
| Metrics.UpdatesAreTakenExactly | apps/api/src/metrics.ts:96-113 | After every log, an update gets its series exactly if its key has one already or the family has fewer than two thousand; otherwise it is dropped and counted. A new series has one value per label name, empty where none was given. |
| Metrics.DroppedIsRefused | apps/api/src/metrics.ts:101-113 | The drop count grows by exactly the updates whose key has no series. |
| Metrics.FullStaysFull | apps/api/src/metrics.ts:101-113 | A full family keeps its keys until the next reset: refused label sets stay refused. |
| Metrics.CounterIsSum | apps/api/src/metrics.ts:145-153 | A counter's series is the sum of its increments since the last reset. |
| Metrics.GaugeIsLast | apps/api/src/metrics.ts:160-168 | A gauge's series is the last value set. |
| Metrics.HistogramCounts | apps/api/src/metrics.ts:179-222 | Buckets count observations at or below their bounds, are monotone and at most the count, which is the `+Inf` bucket. |
| Metrics.LinesAreCumulative | apps/api/src/metrics.ts:206-221 | Each rendered bucket line carries the number of observations its bound covers, never less than the line before; the last is `+Inf` with the count. |
| Metrics.SortBounds | apps/api/src/metrics.ts:185-185 | The bounds in ascending order, none lost. |
| Metrics.UnlabelledIsPublished | apps/api/src/metrics.ts:121-134 | An unlabelled metric renders one series, touched or not. |
| Metrics.Registry.Register | apps/api/src/metrics.ts:227-233 | Registering a taken name throws and changes nothing; names stay distinct. |
| Exposition.PassesAreOne | apps/api/src/metrics.ts:40-44 | The three replacement passes escape each unit once. |
| Exposition.QuoteFirstExactly | apps/api/src/metrics.ts:40-44 | Escaping the quote first would be right for exactly the values without a quote. |
| Exposition.EscapeInverse | apps/api/src/metrics.ts:42-44 | Reading an escaped value back gives the value and stops at its closing quote. |
| Exposition.NoRawNewline | apps/api/src/metrics.ts:42-50 | Neither a label value nor a help text breaks its line. |
| Exposition.SampleInverse | apps/api/src/metrics.ts:52-59 | A rendered sample line reads back as its name, label pairs and value text. |
| Exposition.LabelsAreInjective | apps/api/src/metrics.ts:52-59 | Distinct value tuples of one metric render differently. |
| RunCost.TotalSeconds | apps/api/src/runs.ts:202-203 | The sum of the clamped hold times. |
| RunCost.AttributeRunCost | apps/api/src/runs.ts:196-260 | The accumulating loop: minutes, rounded cost, highest rate and note; no cost exactly when nothing is priced and no default rate exists. |
| RunCost.TimeIsConserved | apps/api/src/runs.ts:202-223 | Priced, enrolled, removed and unrated seconds add up to the total. |
| RunCost.OrderIsIrrelevant | apps/api/src/runs.ts:205-223 | Minutes, cost before rounding and each part are the same for every order of the holds. |
| RunCost.CostIsWithinHostRates | apps/api/src/runs.ts:172-182 | If no host that is priced is held beyond its devices times a window, the unrounded cost is at most what the hosts cost in that window. |
| RunCost.ChargeIsWithinHostRates | apps/api/src/runs.ts:172-258 | Under the same condition the charged, rounded cost is not negative and at most what the hosts cost plus half a hundredth. |
| RunCost.KindExactly | apps/api/src/runs.ts:212-217 | A hold is the organisation's own, removed, unrated or priced by what is known of its host. |
| RunCost.OwnMachinesAreFree | apps/api/src/runs.ts:189-214 | Leaving out the time on machines the organisation enrolled changes the cost by nothing and the time by exactly that. |
| RunCost.FullHostCostsItsRate | apps/api/src/runs.ts:174-179 | All devices of a host, held for some hours, cost what the host costs in them. |
| RunCost.MinutesAreNearest | apps/api/src/runs.ts:203-228 | Minutes are the seconds to the nearest minute, halves up. |
| RunCost.NoteExactly | apps/api/src/runs.ts:232-254 | Which note is given, and each part left out, once, with its minutes. |
| RunCost.NoteIsHonest | apps/api/src/runs.ts:227-255 | The note names every reason for which at least a minute went unpriced. |
| FlakeHistory.GroupByName | apps/api/src/runs.ts:294-299 | The grouping loop: each test name to its rows in order. |
| FlakeHistory.ShapeHistory | apps/api/src/runs.ts:293-319 | One history per test name. |
| FlakeHistory.HistoryIsNewest | apps/api/src/runs.ts:283-307 | At most twenty runs, ordered; the current run is among them whenever it reported the test, at the cost of the oldest only. |
| FlakeHistory.StripIsKept | apps/api/src/runs.ts:308-316 | The strip is those runs oldest first, each dot its run's outcome under its external id. |
| AutomationOffer.Offer.ServerReports | workers/agent/src/automation-offer.ts:48-53 | A server report keeps the offer's state in step with the reports and the applied log in step with the changes of the answer. |
| AutomationOffer.Offer.DeviceReports | workers/agent/src/automation-offer.ts:56-61 | The same for the device's own report. |
| AutomationOffer.Offer.Settle | workers/agent/src/automation-offer.ts:71-74 | The callback is called exactly when the answer changed, with the new answer. |
| AutomationOffer.ToldIsOffered | workers/agent/src/automation-offer.ts:37-75 | In every reachable state what an agent was told last is what is offered, and it was never told the same twice in a row. |
| AutomationOffer.ChangesEndInAnswer | workers/agent/src/automation-offer.ts:64-74 | The changes of the answer end in the answer, start with a URL and never repeat. |
| AutomationOffer.OfferedExactly | workers/agent/src/automation-offer.ts:48-66 | A device is offered at a URL exactly if the last report on its server gave that URL and the device's own last report gave no reason against it. |
| AutomationOffer.OthersUntouched | workers/agent/src/automation-offer.ts:48-74 | Reports about one device decide nothing for another. |
| AutomationOffer.ReportersCommute | workers/agent/src/automation-offer.ts:1-14 | The answer does not depend on which reporter spoke first. |

## Left out

- Parsing: inflate is a parameter of `Zip.ExtractEntry`; `Number(text)` is a parameter of `UiTree` and `Manifests`, and so is subtraction of numbers in `UiTree`; file handles are whole byte sequences; error texts are one value per error class.
- Text: `toLowerCase` is any function in `TunnelRules`; `toUpperCase` is any function of one UTF-16 unit in `UserCodes`, fixed on ASCII, so letters beyond the basic plane are not upper-cased.
- UiTree: printed hierarchies have no comment or character data that contains a tag of its own.
- Resources: encoded tables place the entries of a type in order and each once; the walk itself is specified on every buffer.
- Not modelled from `apk.ts`: `nativeAbisOf`, `abiMismatchReason` and the assembly in `readApkMetadata`, which swallows every resource fault.
- Not modelled from `protocol.ts`: `negotiate`, `formatUiTree`, `uiElementCenter` and the frame validators.
- Mcp: the moment of the crash after a null line is any moment before something arrives from outside; what the hub does with a deletion whose answer the process did not live to see is open. Left out are a process killed outright, arguments, element lists, tap coordinates and answer texts; JSON-RPC batches and requests with a null id. The server is a machine over its steps, not a class, because a method cannot be interleaved at its awaits.
- RunCommand: the signals sent to the child and the kill timer, the queue position lines and the `--json` summary.
- AppStore: bytes on disk after a power failure, directory synchronisation and disk-full behaviour other than as a failed operation; sha256 is injective.
- LiveInput: key codes are modifiers or other; coordinates, WebRTC, statistics and the inspector are left out.
- Pairings: Postgres is two tables and atomic transactions, sha256 is injective and tokens are any text; hosts, audit columns, host descriptions and the cascade from a deleted org are left out. The lookup that explains a failed approval is a transaction of its own, so `Pairings.ApprovalMatchesLookup` speaks of both at the same state.
- Subscribers: what a listener does when called, including subscribing or unsubscribing from within, is left out; so is the database write before a publish.
- Metrics: values are reals, so NaN, infinities, number texts and rounding beyond 2^53 are left out. A series' state is a value in the table, not an object handed out by `slot`. The `le` label and the collectors that fill the gauges are left out.
- RunCost: reals for seconds and rates; the note is a value, not its English text.
- FlakeHistory: times and run names are left out; the map's iteration order is not modelled.
- AutomationOffer: `phoneBlocker` is a three-way choice whose result is the reason passed to `blockedBy`.
- Not modelled at all: the SQL functions behind allocation, promotion, resets and metering, HTTP routes, sockets, process spawning and the user interface.
