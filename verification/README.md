# Verified model of weftgrid

weftgrid is a desktop terminal workspace: a Rust core (`src-tauri/src`), a TypeScript user interface (`src`) and a
script injected into browser panes (`inject`). This project models the parts of it that carry real logic and proves what
they are for. Nothing here is compiled into the application.

| files | what they model |
|---|---|
| `Options`, `Ascii`, `Bytes` | optional values, lower case and octets, shared by the other files |
| `FirstPrimes`, `Fips180`, `Sha256`, `Sha256Example`, `WeftTrust`, `WeftLaws` | the dependency-free SHA-256 against FIPS 180-4, and the trust fingerprint of project commands |
| `SplitTree`, `SplitTreeSerialize`, `SplitTreeHeap`, `FocusNav`, `FocusLayout` | the pane tree, its persisted form, the clone and the reader on the heap, its geometry and directional focus |
| `CssPath`, `PathParts`, `Snapshot`, `DocumentOrder` | the CSS path printed for a page element, selector resolution, and the table of ephemeral refs |
| `OscScanner`, `OscNotification`, `OscLaws` | the resumable scanner of terminal escape sequences, and the notifications it carries |
| the files named `Redaction…`, `Redactor`, `RedactorLaws` | the log redactor: three passes and what they guarantee together |
| `Coalescer`, `CoalescerHub`, `PtyReader`, `PtyManager`, `Backpressure` | terminal output from the blocking read to the sink, and flow control |
| `Socks`, `SocksLaws`, `SocksBroker` | the SOCKS5 handshake (RFC 1928) and one connection of the broker |
| `SshReconnect`, `Recovery` | reconnect supervision, backoff, the recovery gate and the debugging-socket reconnect |
| `Chords`, `ChordLaws`, `Keybindings`, `ConfigState` | chord normal form, the keybinding registry, and the state that keeps it equal to its overrides |

Conventions. An object that the code updates in place is a class whose methods are proved against a specification function;
pure code is functions and lemmas. SHA words are `bv32`, octets are `byte`, and text is `seq<byte>` or a `string` whose
characters stand for single bytes. Dividers, rectangles and delays are `real`. Each operation under one lock is one step, and
concurrency is the arbitrary interleaving of steps. Two operations are more than one step: a read samples the clock before it
takes the lock (`src-tauri/src/pty/coalescer.rs:162-163`), so the samples of a pane need not be in the order of its steps and
`TickDelivers` allows for any skew between them; and `spawn` locks the hub, the pool and the pane map one after the other, so
what its first step does to a live pane is stated for every interleaving in `RegistrationCutsOff` and `CutOffLosesTheRest`.
Calls on objects outside the model (sinks, hooks, sockets) are recorded in order in a field of the caller.

A result about a whole operation is only as good as the small functions it is stated with. So each operation has, beside its
invariants, results that say what comes out for what goes in without those functions, in characters, octets, coordinates
or counts: the files named `…Laws`, `Sha256Example`, `FocusLayout`, `PathParts` and `DocumentOrder` hold most of them.

Where the code differs from what it says about itself, the model follows the code:

- `onWritten` and `onFlushed` do not commute, because the counter is clamped at 0 (`src/terminal/backpressure.ts:41`, `:68`);
  see `CounterIsExactExactlyWhen` and `FlushBeforeWriteStaysPaused`.
- Redacting redacted text can change it once more; see `HeaderAsValueIsNotSettled`, `RedactIsIdempotentExactlyWhen` and
  `RedactSettlesInTwo`. The name inside a header marker that a key swallowed is left as `authorization>`.
- A path cut to six parts can match another element (`inject/dom-walk.ts:178`); see `CapIsHarmlessExactlyWhen`.
- A fatal reconnect error is undone by the next drop (`src-tauri/src/ssh/reconnect.rs:118`); see `FatalIsUndoneExactlyWhen`.
- A refused spawn for a live pane removes that pane's hub entry (`src-tauri/src/pty/mod.rs:145-153`); the contract of
  `PtyManager.Spawn` says that it leaves the hub alone exactly when the pane had no entry. A spawn that starts overwrites the
  entry of a pane whose reader has ended but whose last bytes are not flushed; see `RegistrationCutsOff` and
  `CutOffLosesTheRest` for what either costs.
- A keybinding change whose save fails stays live (`src-tauri/src/config/state.rs:150-160`) and is gone after a restart; see
  `FailedSaveIsLost`, and `RestartKeepsBindingsExactlyWhen` for when a restart gives the same bindings.
- The fingerprint joins its fields with NULs and does not escape them (`src-tauri/src/config/weft_trust.rs:130-138`): two
  different commands can share one when the path starts with a NUL or holds two in a row; see `UnsafePathCollides` and
  `PathIsUnmistakableExactlyWhenSafe`.

## Model

| member | source | states |
|---|---|---|
| StreamingSha256.StreamDigestIsSha256 | src-tauri/src/config/weft_trust.rs:189-206 | below 2^61 octets what the hasher returns is the FIPS 180-4 SHA-256 digest; the 64-bit bit counter does not wrap |
| StreamingSha256.Sha256.Update | src-tauri/src/config/weft_trust.rs:179-187 | any cut of a message into calls reaches the same state: the hash of all whole blocks, fewer than 64 octets kept |
| StreamingSha256.Sha256.Finalize | src-tauri/src/config/weft_trust.rs:189-206 | the digest depends on the concatenation of everything fed, padded as section 5.1.1 says |
| StreamingSha256.Sha256.AppendPadding | src-tauri/src/config/weft_trust.rs:190-195 | the padding loop adds the least number of zero octets that leaves room for the length |
| StreamingSha256.Sha256.Process | src-tauri/src/config/weft_trust.rs:208-257 | the three in-place loops over the schedule, the working array and the state are the compression function of section 6.2.2 |
| StreamingSha256.Sha256.RunRound | src-tauri/src/config/weft_trust.rs:235-252 | shifting the eight slots in place is one round on the eight working variables |
| StreamingSha256.ScheduleOrder | src-tauri/src/config/weft_trust.rs:226-231 | the order in which the schedule words are summed does not matter |
| StreamingSha256.WrappedBitLength | src-tauri/src/config/weft_trust.rs:180-190 | multiplying the wrapped octet counter by 8 gives the wrapped bit length |
| FirstPrimes.RowsAreThePrimes | src-tauri/src/config/weft_trust.rs:209-220 | the numbers the constants are derived from are the primes up to 311, all of them, in order: the first sixty-four |
| Fips180.RoundConstantsAreCubeRoots | src-tauri/src/config/weft_trust.rs:209-220 | every constant of the round table is the first 32 fractional bits of the cube root of its prime |
| Fips180.InitialValueIsSquareRoots | src-tauri/src/config/weft_trust.rs:170-173 | the initial state is the first 32 fractional bits of the square roots of the first eight primes |
| Fips180.RotationIsCircularShift | src-tauri/src/config/weft_trust.rs:226-243 | rotation built from two shifts moves every bit as the standard's ROTR does |
| Fips180.HashBlocksAppend | src-tauri/src/config/weft_trust.rs:182-186 | hashing can stop and go on at any block boundary |
| Fips180.BlocksAreChained | src-tauri/src/config/weft_trust.rs:233-256 | every block is worked from the hash value it finds, not from the initial one |
| Fips180.WordRoundTrip | src-tauri/src/config/weft_trust.rs:222-224 | every word is read back from its four octets, the most significant first |
| Bytes.BigEndianFour | src-tauri/src/config/weft_trust.rs:201-204 | the four octets of a word, each at its weight |
| Fips180.ChChooses | src-tauri/src/config/weft_trust.rs:236 | where `x` has a one the choice is the bit of `y`, elsewhere that of `z` |
| Fips180.MajIsMajority | src-tauri/src/config/weft_trust.rs:243 | wherever two of the three words agree, so does the majority |
| Fips180.SigmaBits | src-tauri/src/config/weft_trust.rs:226-242 | every bit of the four sigmas is the parity of three bits of the argument at the standard's distances |
| Sha256Example.DigestOfAbc | src-tauri/src/config/weft_trust.rs:278-286 | the hasher's digest of "abc", through all sixty-four rounds, is the published one |
| WeftCommands.PercentDecodes | src-tauri/src/config/weft_config.rs:142-152 | the id slug has a left inverse, so different names give different ids |
| WeftCommands.Percent | src-tauri/src/config/weft_config.rs:142-152 | the appending loop computes the slug, which decodes to the name |
| WeftLaws.SlugOf | src-tauri/src/config/weft_config.rs:142-152 | letters and digits stay, every other octet becomes a percent sign and two upper-case hexadecimal digits |
| WeftLaws.AcceptedExactlyWhen | src-tauri/src/config/weft_config.rs:60-76 | a command is accepted exactly with a name and one of a line and a workspace, the line not blank; which error is reported otherwise |
| WeftCommands.PreimageIsInjective | src-tauri/src/config/weft_trust.rs:125-140 | over validated commands and paths that neither start with a NUL nor hold two in a row, equal hashed text means equal name, command, workspace and path, and conversely |
| WeftCommands.UnsafePathCollides | src-tauri/src/config/weft_trust.rs:130-138 | every other path, for every command, gives the same hashed text as a different command on some path of the first kind |
| WeftCommands.PathIsUnmistakableExactlyWhenSafe | src-tauri/src/config/weft_trust.rs:125-140 | so a path tells every command apart from all others exactly when it does not start with a NUL and holds no two in a row |
| WeftTrust.HexIsInjective | src-tauri/src/config/weft_trust.rs:151-157 | the hexadecimal fingerprint determines the digest |
| WeftTrust.Fingerprint | src-tauri/src/config/weft_trust.rs:125-140 | the seven updates of the hasher give the hexadecimal digest of the joined text |
| WeftLaws.FingerprintHashes | src-tauri/src/config/weft_trust.rs:125-140 | the hashed text of either kind of command, in its order and with its separators |
| WeftLaws.HexOf | src-tauri/src/config/weft_trust.rs:151-157 | two lower-case hexadecimal digits for every octet |
| WeftTrust.TrustStore.WithDir | src-tauri/src/config/weft_trust.rs:57-69 | a store on disk starts with exactly the fingerprints listed in a well-formed file, or with none |
| WeftTrust.TrustStore.Grant | src-tauri/src/config/weft_trust.rs:100-120 | after any run of grants the store holds what was loaded and the fingerprints of the granted pairs, nothing else; the file lists the same when it can be written, and stays otherwise |
| WeftTrust.TrustStore.IsTrusted | src-tauri/src/config/weft_trust.rs:106-109 | trusted exactly when the fingerprint was loaded or is that of some granted pair |
| WeftTrust.TrustStore.Decide | src-tauri/src/config/weft_trust.rs:72-97 | unconfirmed exactly when the command does not insist on asking and is global or its fingerprint was loaded or granted |
| WeftTrust.TrustedIsExactlyGranted | src-tauri/src/config/weft_trust.rs:123-140 | barring a hash collision, on paths that tell commands apart, a command is trusted exactly when that same name, command, workspace and path were granted |
| SplitTree.CollectPanesIsExact | src/panes/split-tree.ts:186-194 | the listing names every leaf path, no other path, and none twice |
| SplitTree.CollectInOrder | src/panes/split-tree.ts:186-194 | of two listed paths the one that takes `first` where they part comes first |
| SplitTree.ClampIsNearest | src/lib/model/index.ts:30-36 | a clamped divider is the legal one nearest to what was asked for |
| SplitTree.GetNode | src/panes/split-tree.ts:71-80 | the cursor loop finds the node at a path and nothing where the path runs past a leaf |
| SplitTree.MapAtReplaces | src/panes/split-tree.ts:83-96 | the node at the path is replaced, the panes before and after it stay, and the errors are exactly past-a-leaf or the edit's own |
| SplitTree.MapAtFrame | src/panes/split-tree.ts:83-96 | nothing outside the path changes; splits along it keep orientation and divider |
| SplitTree.SplitLeafInserts | src/panes/split-tree.ts:110-125 | splitting works exactly on leaves, puts a split with the asked orientation and the clamped divider there, and the new panes next to the old one, on the chosen side, in order |
| SplitTree.CloseUndoesSplit | src/panes/split-tree.ts:110-150 | closing the leaf just added restores the tree |
| SplitTree.ClosePaneRemoves | src/panes/split-tree.ts:132-150 | closing removes exactly the panes of the addressed subtree and keeps the order of the others |
| SplitTree.CloseKeepsTheRest | src/panes/split-tree.ts:132-150 | the sibling takes the parent's place, and off the path to it no pane, orientation or divider changes |
| SplitTree.ResizeSetsDivider | src/panes/split-tree.ts:153-164 | resizing works exactly on splits, sets the clamped divider there and keeps every leaf and its path |
| SplitTree.EqualizeEvens | src/panes/split-tree.ts:167-177 | every divider becomes one half; leaves and paths stay |
| SplitTreeSerialize.RoundTrip | src/panes/split-tree-serialize.ts:37-83 | reading back what was written gives the tree with every divider clamped |
| SplitTreeHeap.CloneNode | src/panes/split-tree-serialize.ts:50-65 | the clone is a new tree, no two of its nodes or lists are shared with one another or with anything older, and it is the input with its dividers clamped |
| SplitTreeHeap.ReadNode | src/panes/split-tree-serialize.ts:71-121 | reading builds a new tree in the same way, accepts and rejects exactly as the specified reader, and leaves its input alone |
| SplitTreeSerialize.DeserializeIsExact | src/panes/split-tree-serialize.ts:46-121 | a value is accepted as a tree exactly when it describes it and its dividers are legal; what is accepted is a fixpoint |
| SplitTreeSerialize.RejectionPointsAtFault | src/panes/split-tree-serialize.ts:71-121 | an error names a path whose own value, read alone, is rejected for the same reason |
| SplitTreeSerialize.InfiniteDividersAreCut | src/panes/split-tree-serialize.ts:108-121 | an infinite divider is read as the bound on its side |
| FocusNav.UnitSquareIsTiled | src/panes/focus-nav.ts:40-71 | every point of the unit square lies in exactly one leaf rectangle |
| FocusNav.LeavesAreDisjoint | src/panes/focus-nav.ts:40-71 | two different leaf rectangles do not overlap on both axes |
| FocusNav.AreaIsConserved | src/panes/focus-nav.ts:40-71 | the leaf areas sum to the area of the whole |
| FocusNav.LeavesAreNotThin | src/panes/focus-nav.ts:40-71 | with legal dividers a leaf n splits down keeps at least 0.1^n of each side and stays inside |
| FocusNav.RectsFollowPanes | src/panes/focus-nav.ts:40-71 | the rectangles carry the paths of the pane listing, in its order |
| FocusLayout.DividerCuts | src/panes/focus-nav.ts:50-71 | the panes of any split fill a rectangle that it cuts at its divider, across x when horizontal and across y when vertical, the first child before the cut and the second behind |
| FocusLayout.ChildrenLieApart | src/panes/focus-nav.ts:50-71 | so the panes of its two children lie side by side on that axis |
| FocusLayout.CandidateExactlyWhen | src/panes/focus-nav.ts:78-91 | a pane may get the focus exactly when it lies beyond the edge, up to a billionth, and some line in the direction meets both panes |
| FocusLayout.DistanceIsBetweenCentres | src/panes/focus-nav.ts:73-76 | nearness is the squared distance of the centres |
| FocusLayout.TwoPanes | src/panes/focus-nav.ts:97-122 | in a workspace of two panes right or down leads from the first to the second, left or up back, and every other move stays |
| FocusNav.FocusInDirection | src/panes/focus-nav.ts:97-122 | the answer is a pane in the asked direction at minimal centre distance, the first of equals, or none when there is no candidate |
| FocusNav.CandidateExists | src/panes/focus-nav.ts:78-122 | a pane that does not touch the workspace's edge on a side has a candidate there, for any slack |
| FocusNav.StuckExactlyAtEdge | src/panes/focus-nav.ts:97-122 | as long as the pane is at least as wide as the slack, there is no answer exactly when it touches that edge |
| FocusNav.SlackIsHarmlessToDepthNine | src/panes/focus-nav.ts:83-89 | the 1e-9 slack never matters for trees up to nine splits deep and does beyond |
| CssPaths.ComputeCssPath | inject/dom-walk.ts:153-181 | the upward loop computes the specified path, with or without a cap |
| CssPaths.PrintedPositionCounts | inject/dom-walk.ts:168-174 | the printed position is the one `:nth-of-type` counts |
| PathParts.PathDescribesAncestors | inject/dom-walk.ts:153-181 | at any cap the parts of a path describe the element and its ancestors one by one, with a position exactly where siblings share the tag, and it ends at the first ancestor with an id, at the root, or at the cap |
| CssPaths.PathMatchesItsElement | inject/dom-walk.ts:153-181 | with any cap an element matches its own path |
| CssPaths.UnambiguousExactlyWhen | inject/dom-walk.ts:153-181 | every uncapped path matches only its own element exactly when ids are unique and the root has an id or its tag occurs only there |
| CssPaths.FindRoundTrip | inject/dom-actions.ts:153-169 | on such a document resolving the uncapped path of an element finds that element |
| DocumentOrder.QuerySelectorFindsFirst | inject/dom-actions.ts:153-161 | of all matches the one found is the first in document order |
| CssPaths.CapKeepsInnermost | inject/dom-walk.ts:178 | a cap keeps the innermost parts of the full path |
| CssPaths.ShortPathsResolve | inject/dom-walk.ts:238 | a path that fits under the cap resolves to its element |
| CssPaths.CapIsHarmlessExactlyWhen | inject/dom-walk.ts:178 | a cap leaves all paths of up to n parts unambiguous exactly when n does not exceed it |
| Snapshots.TokenIsInjective | inject/dom-walk.ts:258 | refs with different numbers are different texts |
| Snapshots.TokenReads | inject/dom-walk.ts:258 | a ref is an `e` and its number in decimal |
| Snapshots.ListFrom | inject/dom-walk.ts:244-251 | the recursive walk lists the elements it reaches in document order, each selector once |
| DocumentOrder.ReachedExactly | inject/dom-walk.ts:244-251 | the walk reaches exactly the descendants down to the depth limit, with their depths |
| DocumentOrder.ReachedInOrder | inject/dom-walk.ts:244-251 | in document order, so none of them twice |
| DocumentOrder.ListedExactly | inject/dom-walk.ts:224-251 | the entries are exactly the first eligible elements of each six-part path, in document order |
| Snapshots.ListingIsFaithful | inject/dom-walk.ts:224-251 | entries have distinct selectors, each that of an eligible reached element, and every eligible element's selector is listed |
| Snapshots.RefTable.Snapshot | inject/snapshot.ts:79-82 | a snapshot starts the refs anew and gives the n-th entry the n-th ref |
| Snapshots.RefTable.Find | inject/snapshot.ts:97-106 | a find adds one fresh ref for the uncapped path of the first match, or changes nothing |
| Snapshots.RefTable.Resolve | inject/snapshot.ts:63-74 | a known ref, with or without its mark, resolves through the table, any other text as a selector |
| Snapshots.SnapshotRefsResolve | inject/snapshot.ts:63-82 | on a good document the ref of a listed element at most six parts deep resolves to that element |
| OscScanning.OscScanner.Push | src-tauri/src/notify/scanner.rs:70-109 | the loop is the transition function run over the bytes; the pending body stays bounded |
| OscScanning.RunStaysBounded | src-tauri/src/notify/scanner.rs:111-129 | over every stream the body has at most 8192 bytes, none of them ESC or BEL, and is empty outside a sequence |
| OscScanning.ChunkingIsInvisible | src-tauri/src/notify/scanner.rs:63-109 | however a stream is cut, the final state and the emitted sequences are the same |
| OscScanning.ScannerFollowsGrammar | src-tauri/src/notify/scanner.rs:70-142 | on any parse of a stream the scanner emits exactly the terminated frames with a number and a semicolon, in order |
| OscScanning.EmissionsAreTheFrames | src-tauri/src/notify/scanner.rs:70-142 | every stream has a parse, so in any chunking what comes out is exactly the frames of its parse |
| OscLaws.SequenceScans | src-tauri/src/notify/scanner.rs:70-129 | ESC, `]`, a body without ESC or BEL, and BEL or ESC and a backslash come through exactly when the body has at most 8192 bytes |
| OscLaws.BodyParsesExactlyWhen | src-tauri/src/notify/scanner.rs:131-142 | a body is a decimal number below 65536, a semicolon, and the data, which may hold more semicolons |
| OscNotifications.Osc9RoundTrip | src-tauri/src/notify/osc.rs:62-67 | a built OSC 9 sequence inside any stream, in any chunks, gives its body back unless it is empty, and disturbs nothing |
| OscNotifications.Osc777RoundTrip | src-tauri/src/notify/osc.rs:70-84 | a built OSC 777 sequence gives back title and body exactly when the title has no semicolon |
| OscNotifications.Osc99RoundTrip | src-tauri/src/notify/osc.rs:88-110 | a built OSC 99 sequence fills exactly the chosen field |
| OscLaws.Osc777Shows | src-tauri/src/notify/osc.rs:70-84 | the title runs to the first semicolon, or is all of the text when there is none |
| OscLaws.Osc99Shows | src-tauri/src/notify/osc.rs:88-110 | the payload is shown in the field named by the last `p=` of the metadata, in the body for any other name |
| OscLaws.Osc99ShowsBody | src-tauri/src/notify/osc.rs:88-110 | and in the body when nothing is named |
| OscNotifications.SelectField | src-tauri/src/notify/osc.rs:90-97 | the loop over the metadata ends with the last `p` value, or the body |
| Redactor.RedactText | src-tauri/src/reliability/redaction.rs:45-49 | the three loops compute the specified redaction, cut only between UTF-8 characters, and give UTF-8 for UTF-8 |
| RedactorLaws.EncodedTextIsWhole | src-tauri/src/reliability/redaction.rs:246-258 | every text of Unicode scalar values is one they accept |
| RedactorLaws.HeaderLineGoes | src-tauri/src/reliability/redaction.rs:45-49 | a header alone in a text leaves nothing but its marker after all three passes |
| RedactorLaws.CredentialAsValueGoes | src-tauri/src/reliability/redaction.rs:45-49 | because headers go before keys, a bearer credential as the value of a key leaves both markers and no token |
| Redactor.RedactPemBlocks | src-tauri/src/reliability/redaction.rs:55-96 | the search loop computes the specified first pass |
| Redactor.RedactAuthorization | src-tauri/src/reliability/redaction.rs:101-131 | the loop computes the specified header pass |
| Redactor.RedactKeyValues | src-tauri/src/reliability/redaction.rs:135-161 | the loop computes the specified assignment pass |
| RedactionLaws.HeaderGoes | src-tauri/src/reliability/redaction.rs:101-115 | an authorization word in any case, its separators and its value up to a line end, quote, comma or closing brace, blanks included, become the marker |
| RedactionLaws.CredentialGoes | src-tauri/src/reliability/redaction.rs:116-124 | so do a bearer word, its blanks and the next token |
| RedactionLaws.AssignmentGoes | src-tauri/src/reliability/redaction.rs:135-161 | each sensitive key in any case keeps its spelling, and its separators and value become the marker with its name |
| RedactionLaws.JsonMemberGoes | src-tauri/src/reliability/redaction.rs:135-161 | the same for a quoted key and value |
| RedactionLaws.AppliesExactlyWhen | src-tauri/src/reliability/redaction.rs:163-221 | a keyword rule applies exactly where a word starts and one of these stands |
| RedactionLaws.OthersStay | src-tauri/src/reliability/redaction.rs:101-161 | every other character is copied |
| RedactionLaws.KeyBlockGoes | src-tauri/src/reliability/redaction.rs:55-96 | a private-key block goes, from its begin line through its first end line |
| RedactionLaws.OpenKeyBlockGoes | src-tauri/src/reliability/redaction.rs:84-90 | one without an end line takes the rest of the text with it |
| RedactionLaws.OtherBlockStays | src-tauri/src/reliability/redaction.rs:62-73 | a begin line of anything else stays |
| RedactionPem.PemPassReplacesBlocks | src-tauri/src/reliability/redaction.rs:55-96 | the output is the input with each private-key block, through its end line or to the end, replaced by one marker and the rest kept |
| RedactionNoKey.PemPassLeavesNoKey | src-tauri/src/reliability/redaction.rs:55-96 | after the first pass no begin anchor is followed on its line by the words of a private key |
| Redactor.NoPrivateKeyIsAnnounced | src-tauri/src/reliability/redaction.rs:45-96 | nor in the final output: the later passes cannot bring one back |
| RedactionSettles.PassIsIdempotent | src-tauri/src/reliability/redaction.rs:101-161 | each keyword pass leaves its own output alone |
| Redactor.AssignedKeysAreMarked | src-tauri/src/reliability/redaction.rs:135-161 | in the output every sensitive key at a word start with a real separator is followed exactly by its marker |
| Redactor.AuthorizationIsMarked | src-tauri/src/reliability/redaction.rs:101-115 | in the output every authorization word starts its full marker, or is the name closing a marker, and its value ends there |
| Redactor.BearerIsMarked | src-tauri/src/reliability/redaction.rs:116-124 | in the output every bearer word before a blank starts its full marker |
| Redactor.OnlyMarkersRemain | src-tauri/src/reliability/redaction.rs:45-49 | whatever either rule still finds at any position is a marker or the name inside one |
| Redactor.RedactSettlesInTwo | src-tauri/src/reliability/redaction.rs:45-49 | redacting a third time changes nothing, for every text |
| RedactionScan.ScanAgrees | src-tauri/src/reliability/redaction.rs:101-161 | one scan of a text with both keyword rules tells what the two passes would drop |
| RedactionScan.PemBringsNoHeader | src-tauri/src/reliability/redaction.rs:55-96 | removing key blocks brings no authorization word |
| Redactor.RedactIsIdempotentExactlyWhen | src-tauri/src/reliability/redaction.rs:45-49 | a second time changes nothing exactly when, in one scan of the text without its key blocks, no authorization word starts inside the value of an assignment |
| Redactor.NoHeaderIsSettled | src-tauri/src/reliability/redaction.rs:45-49 | a text without an authorization word is settled by one redaction |
| Redactor.HeaderAsValueIsNotSettled | src-tauri/src/reliability/redaction.rs:45-49 | a header marker given as the value of `token=` is a text that a second redaction changes |
| Coalescing.Coalescer.Push | src-tauri/src/pty/coalescer.rs:53-58 | a read is appended; the first byte of a batch records the time |
| Coalescing.Coalescer.IsFlushDue | src-tauri/src/pty/coalescer.rs:66-75 | due exactly when something is held and the cap is reached or the window has passed |
| Coalescing.NothingIsLost | src-tauri/src/pty/coalescer.rs:52-158 | over every interleaving batches sent followed by held bytes are the bytes read, in order; a finished pane has sent all of them |
| Coalescing.NoBatchIsEmpty | src-tauri/src/pty/coalescer.rs:144-147 | no batch is empty |
| Coalescing.ClosedComesLast | src-tauri/src/pty/coalescer.rs:148-155 | the sink is told of the end at most once, as its last call, after the end was read and every byte was sent |
| Coalescing.TickDelivers | src-tauri/src/pty/coalescer.rs:64-82 | when the clock samples of reads are at most a skew out of order, a tick at any time has delivered every byte read a window and a skew ago or earlier |
| Coalescing.BatchesAreDue | src-tauri/src/pty/coalescer.rs:66-82 | a batch leaves only on a tick, whole, and only when large enough or old enough |
| Coalescing.TickSendsExactlyWhen | src-tauri/src/pty/coalescer.rs:64-82 | a tick sends all that is held exactly when it reaches the size cap or is a window old |
| Coalescing.TickFinishesExactlyWhen | src-tauri/src/pty/coalescer.rs:148-155 | a tick finishes a pane and says so exactly when the reader has ended and nothing stays behind |
| Coalescing.EndIsTold | src-tauri/src/pty/coalescer.rs:138-157 | once the reader has ended and a window has passed since its last read, the next tick delivers all of it and says so |
| Coalescing.HeldStaysSmall | src-tauri/src/pty/coalescer.rs:64-82 | so over every run less than the size cap is held after a tick |
| CoalescerHubs.CoalescerHub.FlushDue | src-tauri/src/pty/coalescer.rs:138-157 | in any order of visits every pane takes exactly one tick, finished panes go, and the count is that of batches sent |
| CoalescerHubs.CoalescerHub.OnData | src-tauri/src/pty/coalescer.rs:161-166 | data reaches its own pane only, and is dropped when that pane is gone |
| CoalescerHubs.PaneRunsAlone | src-tauri/src/pty/coalescer.rs:118-173 | from its registration on a pane and its sink see exactly the run of that pane alone |
| CoalescerHubs.SinkGetsWhatWasRead | src-tauri/src/pty/coalescer.rs:118-173 | so in any run of the registry the bytes a pane's sink got, and those still held, are the bytes read from its terminal, in order; the pane is gone exactly when its sink was told of the end, last of all and after the reader's end |
| CoalescerHubs.EndReachesSink | src-tauri/src/pty/coalescer.rs:118-173 | once the reader has ended and a window has passed since its last read, the next flush delivers everything and tells the sink |
| CoalescerHubs.UnownedSinkIsSilent | src-tauri/src/pty/coalescer.rs:132-134 | a sink whose pane is gone is never called again |
| CoalescerHubs.StepKeepsOwnSinks | src-tauri/src/pty/coalescer.rs:119-129 | every step keeps the sinks of different panes apart |
| PtyReaders.ReaderPool.TryAdmit | src-tauri/src/pty/reader.rs:80-88 | admitted exactly below the cap and without a reader already; the count mirrors the set |
| PtyReaders.ReaderPool.Release | src-tauri/src/pty/reader.rs:90-94 | the slot of that pane, and no other, is freed |
| PtyReaders.ReadLoop | src-tauri/src/pty/reader.rs:125-150 | the loop passes on every chunk, retries interruptions and reports the end once, then stops |
| PtyReaders.PipelineConserves | src-tauri/src/pty/reader.rs:125-150 | from the terminal to the sink, however ticks fall between reads, nothing is lost, repeated or reordered |
| PtyReaders.PauseStopsReading | src-tauri/src/pty/reader.rs:131-142 | while the flag stays set at most the read under way is delivered, at most 65536 bytes |
| PtyReaders.PauseBoundIsReached | src-tauri/src/pty/reader.rs:43 | and that bound is reached |
| PtyManagers.PtyManager.Spawn | src-tauri/src/pty/mod.rs:103-168 | what a started, refused or failed spawn does to the pane map, the pool and the hub; a refusal leaves the hub as it was exactly when the pane had no entry |
| PtyManagers.PtyManager.Kill | src-tauri/src/pty/mod.rs:199-210 | the pane and its hub entry go; its reader keeps its slot |
| PtyManagers.PtyManager.SetPause | src-tauri/src/pty/mod.rs:222-227 | the flag of a known pane, and of no other, is set |
| PtyManagers.RegistrationCutsOff | src-tauri/src/pty/mod.rs:145-153 | registering a pane that still has an entry silences its old sink for good, whatever other threads do next and in whatever order, whether the spawn is refused or starts |
| PtyManagers.CutOffLosesTheRest | src-tauri/src/pty/mod.rs:145-153 | and that sink never gets the bytes still held, nor the end: what it heard and what was held then are together what was read from the terminal |
| Backpressure.BackpressureController.OnWritten | src/terminal/backpressure.ts:58-64 | the fields and the hooks called follow the flow model over everything reported so far |
| Backpressure.BackpressureController.OnFlushed | src/terminal/backpressure.ts:67-73 | the same for a flush |
| Backpressure.HooksAlternate | src/terminal/backpressure.ts:58-73 | over every run pause and resume strictly alternate and the flag tells the last one |
| Backpressure.PausedExactlyWhen | src/terminal/backpressure.ts:58-73 | over every run the reader is paused exactly when some write reached the high mark and no flush has reached the low mark since |
| Backpressure.HooksTellChanges | src/terminal/backpressure.ts:58-73 | a hook is called exactly when that changes |
| Backpressure.CounterIsLargestBacklog | src/terminal/backpressure.ts:58-73 | over every run the counter is the largest backlog that any last stretch of the events leaves |
| Backpressure.PauseIsWorthItsDistance | src/terminal/backpressure.ts:58-73 | between a pause and its resume at least the distance of the marks is flushed |
| Backpressure.MarksHold | src/terminal/backpressure.ts:58-73 | unpaused means below the high mark, paused above the low one, and nothing outstanding means unpaused |
| Backpressure.ResumeNeedsFlushes | src/terminal/backpressure.ts:66-73 | a pause ends only after everything above the low mark has been flushed |
| Backpressure.CounterIsExactExactlyWhen | src/terminal/backpressure.ts:41-73 | the counter is what was written and not flushed exactly when no flush was reported ahead of its write; it is never too low |
| Backpressure.DrainedMeansRunning | src/terminal/backpressure.ts:66-73 | once everything is drawn, in order, the reader is not paused |
| Backpressure.FlushBeforeWriteStaysPaused | src/terminal/backpressure.ts:41 | with flush and write swapped the reader stays paused although nothing is outstanding |
| Socks.RequestRoundTrip | src-tauri/src/ssh/socks.rs:134-177 | every IPv4, IPv6 and 1 to 255 octet UTF-8 domain request is read back unchanged and what follows is left for the tunnel |
| Socks.AcceptedIsEncoded | src-tauri/src/ssh/socks.rs:134-177 | nothing else is accepted: an accepted input is the encoding of its target followed by the rest |
| Socks.MoreInputChangesNothing | src-tauri/src/ssh/socks.rs:134-177 | an answer once found does not change with more input, so packet boundaries do not matter |
| Socks.EofMeansIncomplete | src-tauri/src/ssh/socks.rs:134-177 | an input reported as cut short can be completed to one that is decided with nothing left over |
| Socks.GreetingRoundTrip | src-tauri/src/ssh/socks.rs:105-115 | a greeting is read back with its methods |
| SocksLaws.HostOnTheWire | src-tauri/src/ssh/socks.rs:134-177 | the octets of a request for a host and what they are read as |
| SocksLaws.Ip4OnTheWire | src-tauri/src/ssh/socks.rs:134-177 | the same for an IPv4 address |
| SocksLaws.Ip6OnTheWire | src-tauri/src/ssh/socks.rs:134-177 | the same for an IPv6 address |
| SocksLaws.Utf8ExactlyWhen | src-tauri/src/ssh/socks.rs:167-172 | a host is taken for UTF-8 exactly when it encodes some text of Unicode scalar values (RFC 3629, section 3) |
| SocksBroker.NegotiateAuth | src-tauri/src/ssh/socks.rs:105-128 | consumes exactly the greeting and sends one method reply, or none when the greeting is malformed; a write that fails part way ends it |
| SocksBroker.ReadConnectRequest | src-tauri/src/ssh/socks.rs:134-177 | the octet-by-octet reader decides as specified, consumes exactly the request and sends nothing |
| SocksBroker.HandleConnection | src-tauri/src/ssh/socks_broker.rs:131-148 | what the client, the opener and the tunnel get from one connection, wherever the client stops sending or stops taking octets; the octets written are in order |
| SocksBroker.PipeTarget | src-tauri/src/ssh/socks_broker.rs:151-175 | the reply precedes every tunnel octet, nothing is copied unless the whole reply was taken, and a refused tunnel gets a refusal and nothing else |
| SocksBroker.RepliesComeInOrder | src-tauri/src/ssh/socks_broker.rs:131-175 | octet by octet, any client hears at most one method reply, then at most one ten-octet reply, then tunnel octets only after the success reply; success is told exactly when a tunnel was opened |
| SocksBroker.ClientIsConnected | src-tauri/src/ssh/socks_broker.rs:131-175 | a well-behaved client's target is asked for unchanged, its payload reaches the tunnel whole and the answer reaches it |
| SocksBroker.MethodIsChosenExactlyWhenOffered | src-tauri/src/ssh/socks.rs:117-127 | the second octet heard accepts exactly when the one method is offered; otherwise the refusal is all that is heard and nothing is asked for |
| SocksBroker.RepliesAreExact | src-tauri/src/ssh/socks.rs:179-212 | the ten octets of every reply; the fourth octet heard tells exactly which of another command, another address type, a complete request with or without a tunnel, or anything else the client sent; the opener is asked exactly for a complete request |
| SocksBroker.AskedIsWhatWasSent | src-tauri/src/ssh/socks_broker.rs:128-160 | whatever the opener is asked for stood encoded in the client's own octets, and what enters the tunnel stood right behind it |
| SshReconnect.BackoffDoubles | src-tauri/src/ssh/reconnect.rs:64-71 | waits double up to the ceiling and the shift cap; the overflow check cannot be observed |
| SshReconnect.BackoffGrows | src-tauri/src/ssh/reconnect.rs:64-71 | waits never shrink and never exceed the ceiling |
| SshReconnect.ReconnectSupervisor.RecordDrop | src-tauri/src/ssh/reconnect.rs:107-146 | the k-th failure since the last connect is answered with the k-th wait exactly while k is within the budget |
| SshReconnect.ReconnectSupervisor.RecordAttemptFailed | src-tauri/src/ssh/reconnect.rs:113-146 | the same for a failed attempt |
| SshReconnect.RunCountsFailures | src-tauri/src/ssh/reconnect.rs:97-146 | over every run the counter is the number of failures since the last connect |
| SshReconnect.StatusIs | src-tauri/src/ssh/reconnect.rs:97-146 | over every run the last event and the failures in a row tell the status, its numbers and its words |
| SshReconnect.FatalIsUndoneExactlyWhen | src-tauri/src/ssh/reconnect.rs:118-146 | a drop after a fatal error reconnects exactly when attempts are left |
| SshReconnect.Supervise | src-tauri/src/ssh/session.rs:146-198 | over any number of drops and any results of connecting, the nested loops give the specified outages, publish the specified statuses and swap the broker to each new session, in that order; they end failed exactly when the last outage was given up |
| SshReconnect.WhatIsToldIsTrue | src-tauri/src/ssh/session.rs:146-198 | attempts are published numbered from 1 with their waits, `Connected` only right after the broker was swapped to a session that connected, and failure only as the last act, with the budget spent |
| SshReconnect.EveryOutageIsBounded | src-tauri/src/ssh/session.rs:158-197 | in every outage at most the allowed connects are made, each after its own wait, the waits never shrinking |
| SshReconnect.GivesUpExactlyWhen | src-tauri/src/ssh/session.rs:158-197 | the supervisor gives up exactly when, in an outage it gets to, as many connects in a row fail as the policy allows, none allowed included |
| BackoffSchedules.DelayGrows | src-tauri/src/reliability/recovery/backoff.rs:38-47 | delays never shrink and never exceed the ceiling |
| BackoffSchedules.DelayIsExponential | src-tauri/src/reliability/recovery/backoff.rs:38-47 | the first delay is the base, each next one is longer by the factor until the ceiling is met, and from index 1024 on they stay |
| BackoffSchedules.ExponentCapShowsExactlyWhen | src-tauri/src/reliability/recovery/backoff.rs:41 | the cap on the exponent changes a delay exactly when it still grows there and has not met the ceiling |
| RecoveryGuards.RecoveryGuard.OnFailure | src-tauri/src/reliability/recovery.rs:101-115 | every decision is the one its whole past calls for: duplicate, give up, or the next attempt with its delay |
| RecoveryGuards.RecoveryGuard.CooldownElapsed | src-tauri/src/reliability/recovery.rs:136-143 | the budget is reset exactly after a long enough calm |
| RecoveryGuards.DecisionsAreDue | src-tauri/src/reliability/recovery.rs:101-143 | every decision told from the log alone: duplicate while a recovery is under way, else numbered by the attempts since the last reset, with its delay, or giving up when they use up the budget |
| RecoveryGuards.BudgetHoldsBetween | src-tauri/src/reliability/recovery.rs:101-143 | never more recoveries between two resets than the budget allows |
| RecoveryGuards.RecoveriesAreSeparated | src-tauri/src/reliability/recovery.rs:101-130 | between two recoveries there is a mark |
| RecoveryGuards.WaitsGrowWithinBudget | src-tauri/src/reliability/recovery.rs:101-115 | within one budget attempts are numbered upwards and their delays never shrink |
| CdpReconnect.RunReconnect | src-tauri/src/reliability/cdp_reconnect.rs:93-115 | the first attempt within the budget that works, every attempt waited for by its own delay, none beyond |
| Chords.NormalizeChord | src-tauri/src/config/keybindings.rs:54-82 | the token loop and the sort compute the normal form |
| ChordLaws.NormalFormIs | src-tauri/src/config/keybindings.rs:54-82 | the normal form of any pieces: control, alt, shift and meta in this order under all their names, then the keys as they came, in lower case, without blanks and blank pieces |
| Chords.NormalizeIsIdempotent | src-tauri/src/config/keybindings.rs:54-82 | normalizing twice is normalizing once |
| Chords.SameChordExactlyWhen | src-tauri/src/config/keybindings.rs:52-82 | two chords have one normal form exactly when they have the same modifiers, in any order and number, and the same keys in order |
| Chords.EmptyExactlyWhenNoTokens | src-tauri/src/config/keybindings.rs:100-106 | exactly the chords without tokens unbind |
| Keybindings.SetIsRebuild | src-tauri/src/config/keybindings.rs:101-145 | changing one binding is rebuilding the registry with one more override |
| Keybindings.ChordsAreNormal | src-tauri/src/config/keybindings.rs:99-112 | every chord of a registry is in normal form |
| ChordLaws.DefaultBindingsAre | src-tauri/src/config/keybindings.rs:23-50 | the registry starts with exactly these bindings, each in normal form as it is written |
| ChordLaws.DefaultsHaveNoConflicts | src-tauri/src/config/keybindings.rs:23-50 | no two of them share a chord |
| Keybindings.KeybindingRegistry.FromOverrides | src-tauri/src/config/keybindings.rs:101-112 | the loop over the overrides binds or unbinds each overridden action on its own |
| Keybindings.KeybindingRegistry.ActionForChord | src-tauri/src/config/keybindings.rs:121-127 | the least action bound to the chord in whatever form it is given, or none |
| Keybindings.KeybindingRegistry.List | src-tauri/src/config/keybindings.rs:130-135 | all bindings, once, by action |
| ChordLaws.BeforeAsInDictionary | src-tauri/src/config/keybindings.rs:130-135 | actions are ordered as in a dictionary, by octets |
| Keybindings.KeybindingRegistry.DetectConflicts | src-tauri/src/config/keybindings.rs:148-169 | exactly the pairs of actions sharing a chord, each unordered pair once |
| ConfigStates.ConfigState.SetConfig | src-tauri/src/config/state.rs:64-70 | the state takes the specified step: replacing the configuration rebuilds the registry, and a failed save changes nothing |
| ConfigStates.ConfigState.KeybindingSet | src-tauri/src/config/state.rs:150-160 | the state takes the specified step: one binding changes in place, the overrides with it, and a failed save leaves the disk behind; the conflicts returned are exact |
| ConfigStates.RegistryIsRebuilt | src-tauri/src/config/state.rs:37-70 | after every run the live registry equals one rebuilt from the stored overrides |
| ConfigStates.ReplacingForgets | src-tauri/src/config/state.rs:64-70 | after a saved replacement nothing of the past is left, after a failed one all of it |
| ConfigStates.BindingAddsOne | src-tauri/src/config/state.rs:150-160 | a binding adds one override, to the live configuration and, when the save works, to the one on disk |
| ConfigStates.LiveIsSavedAndUnsaved | src-tauri/src/config/state.rs:64-160 | over every run, failed saves included, the live configuration is the one on disk with the bindings set since the last working save on top |
| ConfigStates.RestartKeepsBindingsExactlyWhen | src-tauri/src/config/state.rs:37-160 | a restart gives the live bindings exactly when every binding set since the last working save is what the disk says anyway |
| ConfigStates.FailedSaveIsLost | src-tauri/src/config/state.rs:150-160 | one unbinding whose save fails is undone by a restart |

## Left out

- Tauri commands, windows, web views, real terminals, sockets, SSH, cookies, databases and files: foreign calls, which are parameters or steps here.
- Rendering, accessibility attributes, tabs, the sidebar, badges and the find bar: user interface.
- Page visibility, accessible names, inner text and CSS escaping: browser semantics; ids, tags and eligibility are opaque here, and a text that is no ref becomes a selector through a parameter.
- Fuzzy scoring, overlay bounds, configuration migration, exit classification, notification bookkeeping, cookie deduplication, log retention and length-prefixed framing: they would only add easy members.
- JSON text: values are modelled after parsing; the text of a workspace builder is taken as given, non-empty and free of NUL.
- Floating-point rounding, Unicode white space and case folding, and lossy decoding of bytes that are not UTF-8.
- Hash collisions: stated as a premise on the two texts where it matters.
- The accept loop of the broker and the loopback check on binding: one thread per connection and one test.
- Sinks and hooks: their calls are recorded, not what they do.
- Overflow of the 32-bit attempt counters after four thousand million failures, and of the 64-bit generation.
- StreamingSha256.StreamDigestIsSha256: holds below 2^61 octets, where the 64-bit bit counter does not wrap; that is also the limit of FIPS 180-4.
- SshReconnect.Supervise: is observed up to a number of drops and of connects; the liveness poll has no time.
- PtyManagers.PtyManager.Spawn: is one step, although the hub, the pool and the pane map are locked one after the other; what other threads can do after its first lock is in RegistrationCutsOff.
- SocksBroker.PipeTarget: says what each direction carries, up to where either end or an error stops it, not when octets of one direction pass those of the other.
- Chords.NormalizeChord: the library sort of the at most four modifiers is written as collecting them in order.
- `eventToChord` in the user interface orders modifiers differently from the registry; the two are not related here.
