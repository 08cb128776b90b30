# Supercli: verified models

Dafny models of the parts of Supercli whose correctness is a matter of state, order and
crashes, with the properties that have to hold on every input and every run. Check it all
with `dafny verify dfyconfig.toml`.

## What is modelled

**The attach client.** `supercli-attach` follows a session's append-only output journal
while the session Host grows it and trims its front. The Host publishes a retention floor
and only then punches holes below it.

- `VtScanner` is the ten-state escape scanner. It doubles as the model of a terminal's
  parser; control sequences and control strings are those of sections 5.4 and 5.6 of
  ECMA-48.
- `VtTokens` is what it recognises, as a grammar of tokens that does not mention its states.
- `ReplayAlignment` picks a safe replay start with it.
- `HostJournal` is the Host: a state machine of create, append, flush, publish, punch and
  failed punch. The journal is the truth everything else is compared with.
- `HoledWindow` is the same choice when part of the window was deallocated before it was
  read, or the scan begins in the middle of a sequence.
- `TornReads` runs the Host into the two ways that can go wrong.
- `TailReader` reads the journal from disk. An arbitrary batch of Host steps (`schedule`)
  runs before every single access, so each contract speaks of every interleaving.
- `TerminalReset` is the reset and the mode preamble, read back by an interpreting terminal.
- `AttachClient` is the client: replay, live stream, failure, fallback to disk, rebase.
- `FocusFilter`, `MuteFilter`, `Utf8Framing` and `StdinPump` are the input side: three
  streaming transducers with held-back state, each compared with a specification of the
  whole input. Well-formed UTF-8 is section 4 of RFC 3629.

**Smaller cores.** `SwapInstall` (crash-safe directory swap), `GrantShard` and
`GrantQuarantine` (grant migrations), `LicenseClosure` (dependency closure by worklist),
`ReviewChain` (hash chain), `Slug` and `Workspaces` (workspace homes), `Redaction`
(secret removal). `Bytes`, `Decimal`, `Json` and `Wrappers` are shared vocabulary.

## Properties that fail, and exactly when

- The comment on the alignment promises never to start inside a character. The code does:
  `ReplayAlignment.WideEscapeIsSplit` is an input, and
  `ReplayAlignment.AlignedStartSplitsCharacter` is the exact condition on the window.
- The comment on the Host's floor promises the same of the floor. It too can fall inside a
  character (`HostJournal.FloorSplitsWideEscape`); `HostJournal.FloorSplitsCharacter` is the
  exact condition on the bytes between the old floor and the wanted one.
- One might expect the output of focus removal to hold no focus event. It is one pass, so
  it can (`FocusFilter.OutputMayHoldFocusEvent`), exactly when the input holds an event in
  pieces (`FocusFilter.OutputHoldsEventIff`). The documentation promises only that exact
  events are dropped, and that holds (`FocusFilter.ExactlyEventsRemoved`).
- The same comment promises never to start inside an escape sequence. A lookback that
  begins inside a long string does (`ReplayAlignment.LongStringIsSplit`). A window settles
  the parser whatever came before it exactly when it holds a CAN, a SUB, or a byte other
  than ESC, an odd run of ESCs and a backslash (`ReplayAlignment.WindowResynchronisesIff`).
- A tail can pass the recheck and be misaligned: when its window was torn by a punch
  (`TornReads.TornReadMisaligns`), or, with every hole read as zero, when the new floor was
  forced inside a control string (`TornReads.ForcedReadMisaligns`). What was read before the
  floor is safe, whatever follows, exactly when it does not leave the scan directly after an
  ESC or inside an OSC string at the floor (`HoledWindow.ReadsSafelyIff`).
- Quarantining empties a caller's approvals even when the caller's quarantine entry is not
  a list, and then keeps the grant nowhere (`GrantQuarantine.GrantLostToMalformedEntry`);
  `GrantQuarantine.GrantsKeptIff` says exactly when nothing is lost.
- A damaged `grants.json` is replaced unread (`GrantShard.DamagedGrantsCanBeLost`).
  `GrantShard.GrantsSurviveIff` says exactly when what it held survives, and
  `GrantShard.SurvivalIsCertainIff` when that is certain from what can be seen beforehand.

## Model

| member | source | states |
|---|---|---|
| `VtScanner.ScanAppend` | crates/supercli-attach/src/lib.rs:440-536 | Scanning is incremental: a concatenation leads where its parts lead one after the other |
| `VtScanner.TransparentCutScan` | crates/supercli-attach/src/lib.rs:447-467 | In Ground, or in a state that restarts on ESC with an ESC next, a parser cannot be told from one that starts in Ground |
| `VtScanner.CancelForgets` | crates/supercli-attach/src/lib.rs:442-446 | After a CAN or SUB any two starting states have become the same state |
| `VtScanner.ResetsIff` | crates/supercli-attach/src/lib.rs:440-536 | All ten states agree after a byte string if and only if it holds a CAN, a SUB, or a byte other than ESC, an odd run of ESCs and a backslash |
| `ReplayAlignment.AlignTailStartInWindow` | crates/supercli-attach/src/lib.rs:431-539 | The loop returns the greatest safe cut of the window, clamped to the wanted start |
| `ReplayAlignment.LastCutIsGreatest` | crates/supercli-attach/src/lib.rs:438-538 | The cut the scan remembers is a cut and no later position of the window is one |
| `ReplayAlignment.AlignedStartResynchronises` | crates/supercli-attach/src/lib.rs:431-539 | For every window and every continuation, Ground at the chosen start ends where Ground at the window's first non-continuation byte ends; the start lies between scan start and wanted start |
| `ReplayAlignment.ResetInWindowResynchronises` | crates/supercli-attach/src/lib.rs:431-539 | With such a reset in the window the chosen start agrees with any state at the scan start |
| `ReplayAlignment.WindowResynchronisesIff` | crates/supercli-attach/src/lib.rs:428-539 | The chosen start agrees with every parser state before the window if and only if the window holds a reset |
| `ReplayAlignment.LongStringIsSplit` | crates/supercli-attach/src/lib.rs:428-430 | A DCS string longer than the lookback, holding a line end: the tail starts inside the string |
| `ReplayAlignment.CancelInWindowResynchronises` | crates/supercli-attach/src/lib.rs:442-446 | In particular a CAN or SUB in the window makes any state at the scan start agree |
| `ReplayAlignment.AlignedStartSplitsCharacter` | crates/supercli-attach/src/lib.rs:428-539 | In a well-formed journal the start splits a character if and only if the window holds only continuation bytes and the wanted start is inside a character, or an ESC that opens a sequence is followed by a non-ASCII byte and then by no ESC, line end, CAN or SUB |
| `ReplayAlignment.AlignedStartKeepsCharacters` | crates/supercli-attach/src/lib.rs:428-539 | With no ESC before a non-ASCII byte and a window that holds a character start, the start never splits a character |
| `ReplayAlignment.WideEscapeIsSplit` | crates/supercli-attach/src/lib.rs:476-479 | A three-byte well-formed journal whose aligned start is inside a character |
| `ReplayAlignment.TailStartResynchronises` | crates/supercli-attach/src/lib.rs:545-573 | From the bounded lookback, Ground at the tail start agrees with reading the whole epoch, if the parser is known where the scan begins: a transparent floor, Ground, or a reset in the window |
| `VtTokens.ReadingScans` | crates/supercli-attach/src/lib.rs:440-536 | However a byte string is read as tokens and at most one unfinished token, the scanner's state is that of the unfinished one, and Ground if there is none |
| `VtTokens.ReadIsReading` | crates/supercli-attach/src/lib.rs:440-536 | Every byte string can be read so |
| `VtTokens.GroundIffWholeTokens` | crates/supercli-attach/src/lib.rs:440-536 | The scanner is in Ground if and only if the bytes are a whole number of tokens |
| `VtTokens.CutIffBoundary` | crates/supercli-attach/src/lib.rs:440-536 | An offset is a cut if and only if it is a token boundary that is the first, follows anything but a plain byte other than line end, CAN and SUB, or precedes an ESC |
| `VtTokens.AlignedStartIsBoundary` | crates/supercli-attach/src/lib.rs:428-539 | The chosen start is the greatest such boundary, so it never lies inside a control sequence or string of the window |
| `HoledWindow.FollowsPastFloor` | crates/supercli-attach/src/lib.rs:438-536 | From any harmless guess at or before a transparent floor, the scan past that floor cuts only where the true parser may be cut |
| `HoledWindow.StartPastFloorResynchronises` | crates/supercli-attach/src/lib.rs:629-646 | A start at or past a transparent floor within the window agrees with reading that floor's whole epoch, whatever the parser was where the scan began and whatever the holes held, if at the floor, or at some point before it that is past the first true byte and the beginning of the epoch, the scan is not directly after an ESC or inside an OSC string |
| `HoledWindow.GuessSafeIff` | crates/supercli-attach/src/lib.rs:438-536 | A scan state at a floor is safe, for every continuation and every cut, if and only if it is not Escape, Osc or OscEscape |
| `HoledWindow.ReadsSafelyIff` | crates/supercli-attach/src/lib.rs:431-539 | What a window holds before a floor never gives a misaligned start past it, whatever follows and however much of that is in the window, if and only if it does not leave the scan in one of those states at the floor |
| `HoledWindow.ZerosAreHarmless` | crates/supercli-attach/src/lib.rs:629-646 | Holes read as zeros leave the scan in Ground at the window's first true byte |
| `HoledWindow.TornWindowMisaligns` | crates/supercli-attach/src/lib.rs:629-646 | A journal, a transparent floor and a torn window whose start lies past the floor and inside a DCS string |
| `TornReads.TornReadMisaligns` | crates/supercli-attach/src/lib.rs:603-647 | A run of the Host and an accepted read of a torn window whose replay disagrees with the journal |
| `TornReads.ForcedReadMisaligns` | crates/supercli-attach/src/lib.rs:603-647 | A run of the Host that forces a floor inside a DCS string, and an accepted read with every hole read as zero whose replay disagrees with the journal from its beginning and from its new epoch |
| `Utf8Framing.CheckMeaning` | crates/supercli-attach/src/lib.rs:661-673 | What the UTF-8 check reports: well-formed throughout; or well-formed up to a point where no character can begin; or up to a proper prefix of a character |
| `Utf8Framing.FirstUnitIsChar` | crates/supercli-attach/src/lib.rs:661-673 | A character is taken from the front exactly when the RFC 3629 grammar has one there |
| `Utf8Framing.IncompleteIsPrefix` | crates/supercli-attach/src/lib.rs:669-671 | Bytes are held back exactly when more bytes could still make them a character |
| `Utf8Framing.BadIsMaximalPart` | crates/supercli-attach/src/lib.rs:669-681 | Bytes are dropped as ill-formed if and only if no character stands or begins there, and as many as the longest part that could have become one, or one |
| `Utf8Framing.SplitKeepsAscii` | crates/supercli-attach/src/lib.rs:661-684 | Every ASCII byte of the input is in the text, in order, whatever ill-formed bytes surround it |
| `Utf8Framing.SplitAfterCutShort` | crates/supercli-attach/src/lib.rs:661-684 | A held beginning of a character followed by an ASCII byte is dropped and the byte is kept |
| `Utf8Framing.SplitIsKeep` | crates/supercli-attach/src/lib.rs:661-684 | The recursive splitter computes the byte-by-byte keeping of whole characters |
| `Utf8Framing.SplitSound` | crates/supercli-attach/src/lib.rs:653-684 | The text is well-formed and an in-order subsequence of the input; what is held is empty or a proper prefix of one character, at most three bytes |
| `Utf8Framing.SplitKeepsWellFormed` | crates/supercli-attach/src/lib.rs:661-684 | Well-formed input is relayed whole and nothing is held |
| `Utf8Framing.SplitStreams` | crates/supercli-attach/src/main.rs:1086-1087 | Carrying the held part into the next call gives the text and the held part of one call on everything |
| `Utf8Framing.BoundaryIffNotContinuation` | crates/supercli-attach/src/lib.rs:410-412 | In well-formed text an offset is between characters exactly when it is the end or its byte is no continuation byte |
| `TerminalReset.RestoreSequence` | crates/supercli-attach/src/lib.rs:336-348 | The loops build the alternate-screen switch, then a set sequence per set mode, then a reset sequence per reset mode |
| `TerminalReset.FeedModeSequence` | crates/supercli-attach/src/lib.rs:336-348 | A terminal that reads a mode sequence sets or resets exactly that mode and is back in Ground |
| `TerminalReset.ResetFeeds` | crates/supercli-attach/src/main.rs:61-64 | From any parser state the replay reset leads to Ground with default modes |
| `TerminalReset.RebaseRestoresModes` | crates/supercli-attach/src/main.rs:921-931 | Reset and preamble leave any terminal in Ground with the default modes, plus the listed set modes, minus the listed reset modes |
| `TerminalReset.RebaseReadsReplayFromGround` | crates/supercli-attach/src/main.rs:921-931 | After reset and preamble, from any state and for any mode list, the replay is parsed from Ground |
| `HostJournal.UnforcedFloorTransparent` | crates/supercli-core/src/session_host.rs:2707-2860 | A floor the Host chooses without force can be cut at without a parser noticing, at every later offset |
| `HostJournal.FloorCutIsGreatest` | crates/supercli-core/src/session_host.rs:2720-2826 | The floor scan remembers the greatest offset where something ended, an ESC opens, or a byte that continues no character stands in Ground |
| `HostJournal.FloorSplitsCharacter` | crates/supercli-core/src/session_host.rs:2702-2860 | In a well-formed journal the floor splits a character if and only if the old floor was inside one and only continuation bytes follow up to the wanted floor, or an ESC that opens a sequence is followed by a non-ASCII byte and then only continuation bytes up to there |
| `HostJournal.FloorSplitsWideEscape` | crates/supercli-core/src/session_host.rs:2769-2772 | A three-byte well-formed journal whose floor is inside a character |
| `HostJournal.ForcedFloorKeepsCharacters` | crates/supercli-core/src/session_host.rs:2707-2860 | A floor forced inside a long control string never splits a character of well-formed output |
| `HostJournal.ApplyKeepsHoles` | crates/supercli-core/src/session_host.rs:1913-1980 | Every Host step keeps holes below the published floor and only grows file and journal, a failed punch and its rollback included |
| `HostJournal.ApplyKeepsFloors` | crates/supercli-core/src/session_host.rs:1913-1980 | Every Host step keeps the writer's floor and the published floor transparent |
| `HostJournal.RunKeepsOk` | crates/supercli-core/src/session_host.rs:1834-2010 | Both invariants over every run of Host steps, from a fresh Host or one that starts at a nonzero offset |
| `HostJournal.ReplacementHostOk` | crates/supercli-core/src/session_host.rs:1835-1871 | A replacement Host, whose file is a gap up to the floor it publishes, is a legal start |
| `TailReader.SharedJournal.RetainedFrom` | crates/supercli-attach/src/lib.rs:575-585 | The floor read is the published one clamped to the length seen; a missing, malformed or foreign sidecar reads as zero |
| `TailReader.SharedJournal.ReadAt` | crates/supercli-attach/src/lib.rs:625-631 | A read finds the journal's bytes wherever nothing is punched, and anything elsewhere |
| `TailReader.AlignReplayTailStartFrom` | crates/supercli-attach/src/lib.rs:545-573 | The start is the floor, or the alignment of the window actually read, between floor and wanted start |
| `TailReader.ReadAndRecheck` | crates/supercli-attach/src/lib.rs:625-637 | Data whose start is not below the floor read afterwards is the journal's own, whatever was punched in between |
| `TailReader.TryReadTail` | crates/supercli-attach/src/lib.rs:615-646 | One attempt yields an accepted tail or nothing; it passes when the Host is quiet |
| `TailReader.ReadReplayTail` | crates/supercli-attach/src/lib.rs:603-647 | In every interleaving: true journal bytes ending at the returned offset, or an empty tail; offset not below the length on entry; at most retries + 1 attempts, exactly that many when it gives up, one when the Host is quiet; the replay begins at a floor the Host had published meanwhile or holds at least the bytes asked for, and at most the lookback more; with a quiet Host it ends at the file's end and the floor is the published one |
| `TailReader.RecheckedIsTrue` | crates/supercli-attach/src/lib.rs:632-637 | Publishing before punching is what makes the recheck sufficient |
| `TailReader.FloorStaysTransparent` | crates/supercli-attach/src/lib.rs:575-585 | A floor once read stays a transparent point of the journal as it grows |
| `AttachClient.TerminalReadsShownSlice` | crates/supercli-attach/src/main.rs:921-931 | After a tail rebase, a terminal in any prior state parses exactly the shown slice from Ground |
| `AttachClient.AcceptedIsAligned` | crates/supercli-attach/src/lib.rs:603-647 | An accepted read whose window was whole when it was read starts where the true bytes say, whatever was punched later |
| `AttachClient.WellBasedNearFloor` | crates/supercli-attach/src/lib.rs:550-556 | No assumption about the parser is needed when the bounded lookback reaches the floor and nothing above the floor was punched when it was read |
| `AttachClient.WellBasedAfterTrim` | crates/supercli-attach/src/lib.rs:629-646 | Nor when the Host trimmed into the window meanwhile, the holes were read as zeros, and the new floor was not forced past the window's first true byte |
| `AttachClient.CaughtUpResynchronises` | crates/supercli-attach/src/lib.rs:629-646 | When the floor found at the recheck lies in the window and the scan was harmless before it, parsing the replay from Ground equals parsing that floor's whole epoch |
| `AttachClient.WellBasedResynchronises` | crates/supercli-attach/src/lib.rs:603-647 | Parsing the replay from Ground equals parsing its whole epoch |
| `AttachClient.TerminalFollowsJournal` | crates/supercli-attach/src/main.rs:908-977 | The rebase theorem: at the rebase and at every later offset the terminal is where the journal itself would have put it |
| `AttachClient.Client.Rebase` | crates/supercli-attach/src/main.rs:921-931 | Writes reset, preamble and tail; afterwards exactly that tail's slice is shown and the offset is its end, not below the file length on entry; the preamble is for the modes listed at that moment; the slice is as long as asked for up to floor and lookback |
| `AttachClient.Client.Attach` | crates/supercli-attach/src/main.rs:219-250 | A snapshot is written with no preamble and followed from its offset; without one, a tail with the preamble, as long as asked for up to floor and lookback |
| `AttachClient.Client.StreamFails` | crates/supercli-attach/src/main.rs:465-471 | Records the failure and wakes the main loop without moving the offset |
| `AttachClient.Client.OnFrame` | crates/supercli-attach/src/main.rs:455-503 | A frame is shown whole if and only if it begins at the offset shown and is written; otherwise nothing is written and the stream fails |
| `AttachClient.Client.OnWake` | crates/supercli-attach/src/main.rs:358-371 | The handoff takes exactly the offset the stream reached |
| `AttachClient.Client.PumpNewOutput` | crates/supercli-attach/src/main.rs:908-977 | One pass shows nothing, the journal's next bytes, or a fresh tail after a reset; resets only if the published floor passed the offset during the pass, and shows bytes without one only if it has not; never steps back; advances whenever the file held more |
| `AttachClient.Client.ReadNext` | crates/supercli-attach/src/main.rs:916-968 | Length, floor, read and floor again give the journal's next bytes, not empty when the file held more, unless the floor has passed the offset |
| `AttachClient.Client.ReadRechecked` | crates/supercli-attach/src/main.rs:945-968 | Bytes are used only if the floor read afterwards has not passed them, and then they are the journal's |
| `AttachClient.Client.Handle` | crates/supercli-attach/src/main.rs:358-396 | Every event keeps the invariant; delivered frames and possible pumps advance the offset, failures and wakes do what they promise; only the journal's next bytes are written unless the floor passes the offset during a pump |
| `AttachClient.Client.TerminalAgrees` | crates/supercli-attach/src/main.rs:908-977 | In any reachable client state with a well-based rebase, the terminal's parser agrees with the journal |
| `AttachClient.Client.Follow` | crates/supercli-attach/src/main.rs:358-396 | Over every interleaving of Host and client events: since the last reset, one contiguous journal slice ending at the offset, no gap, no repeat, no punched byte, offset never back, parser in step; as long as the published floor does not pass the offset there is no reset and exactly the journal's next bytes are written |
| `AttachClient.Session` | crates/supercli-attach/src/main.rs:215-396 | From a fresh or replacement Host: construct, attach with or without a snapshot, follow any events; the slice and the parser are as `Follow` says |
| `FocusFilter.FocusEventFilter.Filter` | crates/supercli-attach/src/lib.rs:737-778 | The loop computes the state machine's output and state for the chunk |
| `FocusFilter.FocusEventFilter.Flush` | crates/supercli-attach/src/lib.rs:782-790 | Releases exactly the held prefix and returns to ground |
| `FocusFilter.FilterAllAppend` | crates/supercli-attach/src/lib.rs:737-778 | Filtering is incremental over concatenation |
| `FocusFilter.FilterRemovesFocusEvents` | crates/supercli-attach/src/lib.rs:699-778 | Output plus held prefix is the whole input with its focus events removed |
| `FocusFilter.ChunksDoNotShow` | crates/supercli-attach/src/lib.rs:699-707 | How the input is cut into chunks makes no difference |
| `FocusFilter.EventsDisjoint` | crates/supercli-attach/src/lib.rs:699-703 | Occurrences of focus events never overlap |
| `FocusFilter.ExactlyEventsRemoved` | crates/supercli-attach/src/lib.rs:699-703 | The bytes removed are exactly those covered by some contiguous occurrence in the input |
| `FocusFilter.OutputMayHoldFocusEvent` | crates/supercli-attach/src/lib.rs:737-778 | An input whose filtered output is itself a focus event |
| `FocusFilter.OutputHoldsEventIff` | crates/supercli-attach/src/lib.rs:737-778 | The output holds a focus event if and only if the input has its three bytes in order, kept apart by whole focus events only |
| `FocusFilter.FilteredHoldsEventIff` | crates/supercli-attach/src/lib.rs:737-778 | The same of what the filter has let out so far, whatever prefix it still holds |
| `FocusFilter.PassesAreStretches` | crates/supercli-attach/src/main.rs:1052-1069 | A run with forwarding flips, timeouts and end of input removes the events of each uninterrupted stretch |
| `FocusFilter.FocusStageErasesOnlyEvents` | crates/supercli-attach/src/main.rs:1008-1069 | Over any such run the input is emitted in order with only disjoint contiguous events removed; at most two bytes held, none after a flip, a timeout or the end of input |
| `FocusFilter.LastPassDecides` | crates/supercli-attach/src/main.rs:1052-1069 | After a pass that forwards, times out or ends input nothing is held |
| `MuteFilter.Filter.Mute` | crates/supercli-attach/src/lib.rs:851-908 | The loop computes the state machine's output and state for the chunk |
| `MuteFilter.MuteAllAppend` | crates/supercli-attach/src/lib.rs:851-908 | Muting is incremental over concatenation, so chunking does not matter |
| `MuteFilter.MuteErasesTokens` | crates/supercli-attach/src/lib.rs:851-908 | On any list of tokens of the grammar exactly the plain bytes come out and the filter ends in ground |
| `MuteFilter.MuteReadsTokens` | crates/supercli-attach/src/lib.rs:851-908 | Every input is whole tokens and at most one unfinished one; the output is the tokens' plain bytes |
| `MuteFilter.UnfinishedIsPrefix` | crates/supercli-attach/src/lib.rs:872-900 | Outside ground what was swallowed last is a proper beginning of a token |
| `MuteFilter.GroundIffWholeTokens` | crates/supercli-attach/src/lib.rs:843-848 | The filter is in ground exactly when the input is a whole number of tokens |
| `MuteFilter.NeverEmitsEscape` | crates/supercli-attach/src/lib.rs:851-908 | No output ever holds an ESC |
| `StdinPump.StdinPump.OnTurn` | crates/supercli-attach/src/main.rs:1052-1087 | One turn of the loop is focus stage, mute stage, framing, in that order, on the pump's state |
| `StdinPump.StdinPump.Relay` | crates/supercli-attach/src/main.rs:1004-1108 | A run of turns ends in the state the turns compose to |
| `StdinPump.RelayedIsFramed` | crates/supercli-attach/src/main.rs:1086-1087 | Framing turn by turn relays what framing everything the filters let through would |
| `StdinPump.FedIsFocusOutput` | crates/supercli-attach/src/main.rs:1052-1084 | With the window closed the focus stage's output reaches framing unchanged and the mute stage stays in ground |
| `StdinPump.PumpMutesArrivals` | crates/supercli-attach/src/main.rs:1076-1084 | The pump's mute state and what it feeds to framing are those of the mute stage on the chunks the focus stage hands it |
| `StdinPump.RelayedIsKeptStretches` | crates/supercli-attach/src/main.rs:1004-1108 | At any moment outside the mute window, for any mixture of flips, timeouts and end of input, the text is UTF-8 keeping of what the focus stage let out, and that with the held prefix is the stretches' focus removal |
| `StdinPump.RelayedAfterClose` | crates/supercli-attach/src/main.rs:1052-1087 | After a flip, a timeout or the end of input nothing is held and the text is UTF-8 keeping of the stretches' focus removal |
| `StdinPump.RelayedDependsOnlyOnInput` | crates/supercli-attach/src/main.rs:1004-1108 | At any moment of a run of plain reads the relayed bytes are UTF-8 keeping of the filter's output for the whole input so far, however it was chunked, and that with the held prefix is its focus removal |
| `StdinPump.RelayedAtEndOfInput` | crates/supercli-attach/src/main.rs:1004-1108 | At the end of input the relayed bytes are UTF-8 keeping of focus removal of the whole input |
| `StdinPump.UnfilteredIsFed` | crates/supercli-attach/src/main.rs:1068 | Without the focus filter and outside the window the text is UTF-8 keeping of the bytes read |
| `StdinPump.PumpMutingIsRead` | crates/supercli-attach/src/main.rs:1076-1084 | In any run the pump's mute state is that of reading all bytes it handed to the filter |
| `StdinPump.SequencesAreSwallowedWhole` | crates/supercli-attach/src/main.rs:1071-1084 | Apart from a timed-out lone Escape, a turn of the pump passes its chunk unmuted if and only if the window is closed and a whole number of tokens has been swallowed, so a sequence is swallowed through its terminator |
| `StdinPump.PumpMutesPrefix` | crates/supercli-attach/src/main.rs:1004-1108 | Without timed-out lone Escapes the chunks of the focus stage fall in two: the tokens of the first k, beyond which no turn is in the window and which end with a token, are erased; the rest is untouched; the text is UTF-8 keeping of both |
| `StdinPump.LoneEscapeIsRelayed` | crates/supercli-attach/src/main.rs:1076-1084 | After any run a timed-out lone Escape is relayed at once, inside the mute window and inside a swallowed sequence too, and leaves the mute filter as it was |
| `SwapInstall.SwapInstall` | crates/supercli-cli/src/connectors_cli.rs:1144-1165 | For every failing step and crash point: the old tree is whole at destination or backup, or the new tree is in place; success is the staged tree with the old install's config file, if it had one, and otherwise the staged tree; an error leaves the destination unless the restore failed; nothing else is touched; it succeeds when nothing fails |
| `SwapInstall.ReplaceExisting` | crates/supercli-cli/src/connectors_cli.rs:1154-1164 | The same from the point where an install is known to exist |
| `GrantShard.KeysToMigrate` | crates/supercli-cli/src/migrate_cli.rs:393-398 | The grant keys present in the state, in the listed order |
| `GrantShard.MoveGrants` | crates/supercli-cli/src/migrate_cli.rs:424-442 | The state loses every grant key; the grants gain those they lacked, their own entries winning |
| `GrantShard.Store.StepGrantShard` | crates/supercli-cli/src/migrate_cli.rs:347-478 | Only three pairs of documents can be on disk afterwards, the middle one only after an error or crash; every early return leaves both files; it migrates when nothing fails |
| `GrantShard.CrashConverges` | crates/supercli-cli/src/migrate_cli.rs:444-472 | A crash between the renames and a rerun give the documents of one clean run |
| `GrantShard.RerunsConverge` | crates/supercli-cli/src/migrate_cli.rs:343-478 | So does any number of runs cut short anywhere, and every grant keeps its meaning throughout |
| `GrantShard.Store.RunUntilDone` | crates/supercli-cli/src/migrate_cli.rs:347-478 | Runs of the step that fail or die anywhere, then one that goes through, leave what one clean run would have, with every grant's meaning kept |
| `GrantShard.ShardTwice` | crates/supercli-cli/src/migrate_cli.rs:343-346 | A further run changes nothing |
| `GrantShard.NoGrantIsEverMissing` | crates/supercli-cli/src/migrate_cli.rs:424-472 | Before, between and after the renames each grant key is in one of the files with the same meaning, the grants file winning |
| `GrantShard.OtherKeysStay` | crates/supercli-cli/src/migrate_cli.rs:424-442 | Keys that are no grants stay in their file unchanged |
| `GrantShard.GrantsSurviveIff` | crates/supercli-cli/src/migrate_cli.rs:400-443 | Every held grant survives with its value if and only if there is nothing to migrate, the grants file was not damaged, or the state has each held grant under a grant key with the same value |
| `GrantShard.SurvivalIsCertainIff` | crates/supercli-cli/src/migrate_cli.rs:400-443 | A parsed or absent grants file always survives; a damaged one survives whatever it held if and only if there is nothing to migrate |
| `GrantShard.DamagedGrantsCanBeLost` | crates/supercli-cli/src/migrate_cli.rs:417-422 | A damaged grants file whose grant is gone after the migration |
| `GrantQuarantine.QuarantineGrants` | crates/supercli-cli/src/migrate_cli.rs:158-206 | Collect, clean, then quarantine computes the edit `Quarantine` |
| `GrantQuarantine.CollectMoves` | crates/supercli-cli/src/migrate_cli.rs:167-182 | Every caller with bare strings is named once with exactly those strings, and its list is cleaned |
| `GrantQuarantine.EnlistAll` | crates/supercli-cli/src/migrate_cli.rs:195-201 | Appends the tools not listed yet and counts the distinct ones |
| `GrantQuarantine.EnlistHolds` | crates/supercli-cli/src/migrate_cli.rs:195-201 | The longer list holds what it held and the tools, and nothing else |
| `GrantQuarantine.RefusedIff` | crates/supercli-cli/src/migrate_cli.rs:186-191 | The edit is refused if and only if there is a grant to move and the quarantine is no object |
| `GrantQuarantine.KeptInOrder` | crates/supercli-cli/src/migrate_cli.rs:180 | What a cleaned list keeps is exactly its non-string entries in their order |
| `GrantQuarantine.QuarantineClearsApprovals` | crates/supercli-cli/src/migrate_cli.rs:158-206 | No array-valued list keeps a bare string; nothing else in any list and no other key of the document changes |
| `GrantQuarantine.QuarantineConserves` | crates/supercli-cli/src/migrate_cli.rs:186-204 | The quarantine gains exactly the removed grants of callers whose entry is a list or absent; the count is the number of pairs new to it |
| `GrantQuarantine.QuarantineKeepsEntries` | crates/supercli-cli/src/migrate_cli.rs:192-203 | Existing quarantine lists stay as a prefix; entries that are no lists stay as they are |
| `GrantQuarantine.GrantsKeptIff` | crates/supercli-cli/src/migrate_cli.rs:192-203 | No grant is lost if and only if every caller that loses one has a quarantine entry that is a list or absent |
| `GrantQuarantine.GrantLostToMalformedEntry` | crates/supercli-cli/src/migrate_cli.rs:192-203 | A document whose grant ends up in neither place |
| `GrantQuarantine.QuarantineTwice` | crates/supercli-cli/src/migrate_cli.rs:156-206 | A second application is the identity and counts nothing |
| `LicenseClosure.RuntimeDependencyId` | crates/license-notices/src/main.rs:195-218 | An error exactly for a missing pkg, missing kinds or no kinds; the id exactly when some kind is normal |
| `LicenseClosure.NullKindIsRuntime` | crates/license-notices/src/main.rs:210-217 | Of the kinds cargo writes, null makes a dependency normal; names such as dev and build do not; none at all is an error |
| `LicenseClosure.PackageFromJson` | crates/license-notices/src/main.rs:171-193 | Succeeds exactly with the four required strings; each field is the document's, an optional one present exactly when it is a string |
| `LicenseClosure.RuntimeDependencies` | crates/license-notices/src/main.rs:286-295 | Succeeds if and only if every dependency is well-formed, with exactly the ids of the normal ones |
| `LicenseClosure.BuildGraph` | crates/license-notices/src/main.rs:283-297 | Succeeds if and only if every node is well-formed; its edges are exactly the metadata's runtime edges, the last node of an id speaking for it |
| `LicenseClosure.ByIdFindsLast` | crates/license-notices/src/main.rs:266-269 | Looking up an id finds the last package with it, if there is one |
| `LicenseClosure.MatchesOf` | crates/license-notices/src/main.rs:301-306 | Exactly the positions of workspace members with the name, in order |
| `LicenseClosure.SelectRoots` | crates/license-notices/src/main.rs:299-322 | Succeeds if and only if every name has exactly one member; the roots are exactly those; each error names a name with none or with several |
| `LicenseClosure.ClosedHoldsPath` | crates/license-notices/src/main.rs:324-341 | A set with the roots that follows every edge holds whatever a path reaches |
| `LicenseClosure.Worklist` | crates/license-notices/src/main.rs:324-341 | Succeeds if and only if everything reachable is known; visits exactly the reachable ids; collects exactly the keys of the non-workspace ones; earlier entries undisturbed; ends on cyclic graphs |
| `LicenseClosure.CollectMetadata` | crates/license-notices/src/main.rs:258-344 | The same from the metadata document: succeeds if and only if it is well-formed, the names resolve and all linked packages are known |
| `ReviewChain.VerifyChain` | scripts/e2e-scenario-helpers.py:338-367 | Accepts exactly the chained files with their number of entries; otherwise stops at the first line that breaks the chain and says how |
| `ReviewChain.FilePrefixChained` | scripts/e2e-scenario-helpers.py:349-365 | Every prefix of an accepted file is accepted |
| `ReviewChain.PrefixChained` | scripts/e2e-scenario-helpers.py:349-365 | Every prefix of a chained log is chained |
| `ReviewChain.SameHeadSameLog` | scripts/e2e-scenario-helpers.py:339-344 | Two chained logs with one head hash are equal, or exhibit a digest collision or a digest equal to "genesis" |
| `ReviewChain.HeadHashDeterminesLog` | scripts/e2e-scenario-helpers.py:339-344 | With an injective digest that never yields "genesis", head hashes are equal if and only if the logs are |
| `Slug.Slugify` | crates/supercli-cli/src/workspaces.rs:119-139 | The loop with its dash flag joins the words of the name with dashes, or yields "workspace" |
| `Slug.WordsAreRuns` | crates/supercli-cli/src/workspaces.rs:116-118 | A name is its words between gaps of other characters, inner gaps not empty, so words are the maximal alphanumeric runs |
| `Slug.SlugShape` | crates/supercli-cli/src/workspaces.rs:116-118 | Not empty; letters and digits with single dashes strictly between them |
| `Slug.SlugTwice` | crates/supercli-cli/src/workspaces.rs:119-139 | A slug is its own slug |
| `Slug.CandidatesDiffer` | crates/supercli-cli/src/workspaces.rs:149-157 | The base and its numbered forms are pairwise different |
| `Workspaces.FindMeaning` | crates/supercli-cli/src/workspaces.rs:189-200 | None, one or an error according to how many positions match the reference |
| `Workspaces.SelectInOrder` | crates/supercli-cli/src/workspaces.rs:249 | Retaining keeps exactly the records that satisfy the test, in their order |
| `Workspaces.RetainIsWithout` | crates/supercli-cli/src/workspaces.rs:249 | What is retained is the records with another id, each in its place among them, and no other |
| `Workspaces.SlugOfHome` | crates/supercli-cli/src/workspaces.rs:99-105 | A minted home's basename is the slug it was minted from |
| `Workspaces.HomeIsTrimmed` | crates/supercli-cli/src/workspaces.rs:107-114 | Trimming slashes leaves a candidate's home alone, so comparing it with the trimmed homes is exact |
| `Workspaces.UniqueSlug` | crates/supercli-cli/src/workspaces.rs:141-159 | The search ends and returns the first candidate whose home is neither registered nor on disk |
| `Workspaces.Registry.Create` | crates/supercli-cli/src/workspaces.rs:161-185 | Succeeds exactly with a name and no failing write; then appends one record with the first free home to what was loaded, a damaged registry loading as empty; a failure leaves the registry |
| `Workspaces.Registry.Remove` | crates/supercli-cli/src/workspaces.rs:246-252 | The one record that answers to the reference is returned; exactly the records with its id are gone, the others stand in their order, version and other fields are kept, and so is every home on disk; errors leave the registry |
| `Workspaces.Registry.Run` | crates/supercli-cli/src/workspaces.rs:161-252 | Over any run of creates and removes, with the registry file changed arbitrarily and directories appearing in between, no two records ever minted share a home, removed ones included |
| `Redaction.RedactValue` | crates/supercli-cli/src/doctor_cli.rs:350-368 | The traversal computes `Redact` on documents of any depth |
| `Redaction.RedactsAlikeIffSameButSecrets` | crates/supercli-cli/src/doctor_cli.rs:344-368 | Two documents redact to the same document if and only if they differ only in values under secret keys |
| `Redaction.RedactKeepsTheRest` | crates/supercli-cli/src/doctor_cli.rs:344-368 | The redacted document differs from the original only under secret keys |
| `Redaction.RedactedIsClean` | crates/supercli-cli/src/doctor_cli.rs:330-368 | Every value under a secret key, at any depth, is the placeholder |
| `Redaction.SecretIffHoldsWord` | crates/supercli-cli/src/doctor_cli.rs:330-347 | A key is secret if and only if its lowercase form is one of eleven words with anything before and after |
| `Redaction.WordIsRedacted` | crates/supercli-cli/src/doctor_cli.rs:344-358 | The value under such a key is the placeholder |
| `Redaction.RedactTwice` | crates/supercli-cli/src/doctor_cli.rs:344-368 | Redacting twice is redacting once |

## Left out

- Sockets, poll, kqueue and inotify, termios, signals, threads and clocks: a frame, a wake, a timeout and "inside the mute window" are events that may happen at any point.
- A client sees one Host. That Host may itself replace another and start at a nonzero offset, but a replacement while a client is attached is not modelled, nor is compaction of exited journals.
- Reads of existing files succeed. An I/O error that makes a reader take floor zero, and an error return from the tail reader, are not modelled.
- A failed punch leaves the bytes as they were.
- A write to standard output happens whole or not at all.
- Stream frames carry the journal bytes they claim; with that the saturating start of a chunk is exact.
- A snapshot is an opaque screen for the journal up to its offset. After a snapshot the contiguity result holds; the parser result is about tail rebases.
- The parser result needs a well-based rebase (`AttachClient.WellBased`): the parser known where the scan began and no hole in the window when it was read, or a floor at the recheck that lies in the window with a scan that was harmless before it. A replay given up after the last retry is empty and carries no such promise.
- HostJournal.UnforcedFloorTransparent: the Host's boundary scan is a function of the journal's bytes; its chunked file reads are not modelled.
- The session-ended banner, the final liveness check, window size and attach timing: output and timing only.
- 64-bit offsets, 16-bit mode numbers and the 32-bit slug counter are unbounded numbers here.
- `from_utf8`, JSON, TOML and SHA-256 are libraries. The first is modelled from its documented results, a JSON value is a datatype, and the digest of an entry is a function whose assumptions are stated where they are used.
- Unicode lowercasing and trimming are parameters, in Redaction and in Workspaces.
- SwapInstall.SwapInstall: takes the backup path as a third name different from both. Connector names have no dot (crates/supercli-connector/src/manifest.rs:149-156), so replacing the extension always yields one. Directory trees are copied, renamed and removed as values; permissions and links are not modelled.
- Redaction.RedactValue and GrantQuarantine.QuarantineGrants return the new document; that the original edits it in place is not captured.
- GrantQuarantine.QuarantineGrants: the locking and atomic rewrite around the edit are not modelled; a refused edit leaves the file.
- LicenseClosure.CollectMetadata: starts from the parsed document; starting cargo is not modelled. Of several linked packages with one stable key, which one is collected is not fixed.
- Workspaces.Registry.Run: nobody deletes a home directory, as the code itself never does. Two spellings of one directory count as different paths. Writers take turns.
- The other command-line verbs, the scheduler, connectors beyond the swap, token and approval code, the apps and the build scripts: dispatch, I/O or easy facts.
