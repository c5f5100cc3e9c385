# loxguard, modelled and proved

loxguard runs guarded functions on small controllers, keeps the last sixteen events as evidence
and exports them as text. This project models the core-only build (no companion library) of its
three connected cores in Dafny and proves what they keep over whole runs.

| part | modules |
|---|---|
| words, C strings, `snprintf` | `Text`, `Bits` |
| percent codec, strict numbers, event lines | `PercentCodec`, `Decimal`, `EventLine`, `EventBuffers` |
| evidence log, its export and import | `Blackbox`, `LogExport`, `LogImport`, `LogRoundTrip` |
| slot tables: block states and failure streaks | `SlotTable`, `BlockStates`, `FailureStreaks` |
| the guard runtime and one run | `GuardWorld`, `GuardRun`, `RunTrace`, `RunHealth` |
| whole histories of runs | `Turns`, `Quarantine`, `Interleaving`, `BlockHistory`, `GlobalCodes`, `EvidenceChain` |
| arena and spans under wrapping arithmetic | `Arena`, `Spans` |

Code that works by steps (encoder, parser, exporter, importer, log, tables, arena, `loxguard_run`)
is a method or a class whose contract equates its result or new state with a specification
function; the theorems are lemmas about those functions. A guarded function is any sequence of
bounds reports with a return code; the clock and the answer of the persistence adapter are
parameters. Texts are NUL-free strings whose characters stand for bytes, buffers are arrays, and
`size_t` and `uintptr_t` have 64 bits, as has `long`.

## The main results

* **Export and import.** Importing a complete export gives back exactly the exported events if
  and only if each of them is exportable (`ImportAfterExportIsIdentity`, and through one buffer
  `ExportThenImport`), where exportable means a known kind, texts that are not empty and encode in
  63 bytes, and a line of at most 159 bytes. Of an export cut anywhere exactly the lines that fit
  whole arrive, and what comes of the torn one is known to the byte: nothing, or the event with a
  last number that was never logged (`ImportOfCutExport`). What guarded runs log arrives whole if
  and only if the stored part of each block's name encodes in 63 bytes (`EvidenceArrives`).
* **Lines.** Every printed line and the grammar of the accepted ones are spelled out word by
  word, down to digits and escapes (`LineIs`, `EncodesExactly`, `ParserAcceptsExactlyTheGrammar`);
  the line of an event survives exactly when the event is exportable, and what comes of a line
  cut at any byte is stated exactly (`RoundTripExactly`, `CutLineExactly`).
* **Quarantine.** A failing block with a name of at most 63 bytes is called at most
  `max_failures` times in any stretch of runs with up to 2^32 failures, and the bound is reached
  (`QuarantineBound`, `BoundIsReached`); from a streak t on it stays refused for exactly 2^32 - t
  runs (`QuarantineLastsExactly`).
* **Tables.** The block states refine a map over any history of names of at most 63 bytes
  (`AdapterRefinesMap`). Over any runs of any blocks, a block reads the health and watchdog codes
  of its own last run if it got a slot, and zeros if not; which blocks get one is decided by the
  names alone if all have at most 63 bytes, and otherwise also by how many incidents the runs of
  longer names had (`HealthTellsTheLastRun`, `HealthOfTheFirstEight`, `RunsUse`). The failure streaks, as written,
  are a memory of one block (`OneEntryMemory`).
* **Runs.** Trace, report, log, health codes and duration of a run agree (`ReportTellsTheTrace`,
  `LogAfterRun`, `HealthTellsTheReport`, `DurationIsElapsed`).
* **Arena and spans.** Allocation and copy succeed exactly when unbounded arithmetic says they
  fit (`AllocationIsExact`, `Spans.SpanMemcpy`).

## Where the code differs from its documentation

The code is followed; each point has a lemma with the exact condition under which the promise
holds.

* `docs/FORMAT_EXPORTS.md:18-28` promises reversible lines. They are so exactly for exportable
  events (`RoundTripExactly`): not for empty texts, texts that encode in more than 63 bytes, or
  lines of more than 159 bytes, of which 69 bytes of encoded text can make one
  (`SixtyNineCanBeCut`).
* A cut line is not always noticed. The exporter cuts each line at 159 bytes and the whole text at
  the end of the buffer (`src/loxguard_format.c:336-361`), and the importer accepts a line that
  still has a digit of its last number: an event comes back whose `aux` has lost its last digits
  and which was never logged. `CutLineExactly`, `ImportOfExport` and `ImportOfCutExport` say
  exactly when and with which number, `LostByteForgesAnEvent` shows it for a single lost byte.
* `docs/API_STABILITY.md:114-117` promises strict parsers. An accepted number is digits only
  exactly if it begins with a digit (`StrictExactlyWhenDigitFirst`): it may begin with white space,
  and behind that a sign passes the screen and wraps (`BlankDefeatsSignScreen`).
* `src/loxguard.c:64-90` is meant to keep a streak for each block, but takes a used slot for a
  free one. Its count is the meant one under the condition of
  `MeantExactlyWhenNothingWasForgotten`; a run of any other block lifts a quarantine, so that a
  block is only ever refused right after a run of its own (`AnotherBlockLiftsQuarantine`,
  `RefusedOnlyInARow`); the overflow record is never reached. With the missing test added the
  blocks are kept apart (`RepairedTableKeepsBlocksApart`).
* Quarantine bounds the calls of a failing block exactly if its name has at most 63 bytes
  (`QuarantineExactlyForShortNames`).
* A refused run counts as a failure too. A refused block is refused again exactly unless its
  32-bit streak was full (`RefusedAgainExactly`).
* A name of more than 63 bytes never matches the slot it was cut to. A code reads back exactly if
  the name has at most 63 bytes and some slot matches it or is free (`ReadAfterWriteExactly`,
  `FailureVisibleExactlyWhenKept`), and since a longer name opens another slot with every lookup,
  two runs of one such block can leave all others without (`LongNamesExhaustTheTable`).
* `src/loxguard_adapters.c:26-27` calls the global codes the maximum over the blocks. They are the
  codes of the block looked up last. When the watchdog code is the maximum after the adapter has
  observed an event, and when after a run of any block, kept by the table or not, is decided by
  kinds, names and codes known before (`AggregateAfterEvent`, `AggregateAfterRun`,
  `AggregateForgetsTheWorst`).

## Model

| member | source | states |
|---|---|---|
| PercentCodec.EncodeKvValue | src/loxguard_format.c:22-51 | for any buffer: the encoding of the longest prefix whose escapes all fit, a terminator, and nothing else touched |
| PercentCodec.EncodesExactly | src/loxguard_format.c:37-49 | the encoding of every text, character by character: the comma, LF, CR, '=' and '%' become %2C, %0A, %0D, %3D and %25, and every other character stays |
| PercentCodec.FiveEscapes | docs/API_STABILITY.md:100-108 | a text without these five characters is its own encoding |
| PercentCodec.DecodeKvValue | src/loxguard_format.c:53-85 | fails exactly for an empty buffer or a kept triplet that names NUL; otherwise the buffer holds the decoded text as a C string; on a refusal, what came before the triplet; the rest of the buffer is untouched |
| PercentCodec.ReadingIsUnique | src/loxguard_format.c:67-82 | every text is read in one way as complete triplets and single characters |
| PercentCodec.DecodesExactly | src/loxguard_format.c:53-85 | a text decodes to s exactly if its kept units stand for s, and is refused exactly if one of them names NUL |
| PercentCodec.DecodesTriplet | src/loxguard_format.c:15-82 | a percent sign with two hex digits of either case decodes to the byte they name, and to a refusal for NUL |
| PercentCodec.DecodesCharacter | src/loxguard_format.c:67-82 | every other character decodes to itself, until the room or the text ends |
| PercentCodec.KeptIsLargest | src/loxguard_format.c:37-49 | a prefix fits the room exactly when it is no longer than the one the encoder keeps |
| PercentCodec.HexRoundTrip | src/loxguard_format.c:15-47 | the two hex digits of a reserved byte are upper case and read back as that byte |
| PercentCodec.EncodeIsClean | src/loxguard_format.c:39-47 | every '%' of an encoding starts a complete upper-case triplet of a reserved byte |
| PercentCodec.CleanHasNoSeparator | docs/API_STABILITY.md:100-108 | no comma, CR, LF or '=' survives encoding |
| PercentCodec.DecodeEncode | docs/FORMAT_EXPORTS.md:18-28 | decoding an encoding gives the text back, cut only by the decoder's buffer |
| PercentCodec.BoundedRoundTrip | src/loxguard_format.c:22-85 | through one buffer size what comes back is exactly the longest prefix that was kept |
| PercentCodec.KeptWhole | docs/FORMAT_EXPORTS.md:30-35 | a text passes a buffer whole if and only if its encoding fits |
| PercentCodec.EncodeBoundedIdempotent | src/loxguard_format.c:22-51 | encoding what an earlier cut left changes nothing any more |
| Decimal.DecIsDigits | src/loxguard_format.c:224-234 | a printed number is digits and reads back as itself |
| Decimal.DecLength | src/loxguard_format.c:224-234 | a number prints in k digits exactly when it is below the k-th power of ten |
| Decimal.FrontOfNumber | src/loxguard_format.c:237-245 | a printed number without its last j digits reads as its quotient by the j-th power of ten, so as a smaller number |
| Decimal.UIntAccepts | src/loxguard_format.c:144-160 | an unsigned field has value n exactly when it is white space, a sign only after white space, and digits in range, a minus wrapping |
| Decimal.IntAccepts | src/loxguard_format.c:184-203 | the same for the signed field, with the range of `int` |
| Decimal.StrictExactlyWhenDigitFirst | docs/API_STABILITY.md:114-117 | a field accepted by the unsigned or the signed parser is digits only if and only if it starts with a digit |
| Decimal.BlankDefeatsSignScreen | src/loxguard_format.c:148-194 | "-1" is refused by both parsers but " -1" is read as 2^64 - 1, or as -1 |
| Decimal.SixBlanks | src/loxguard_format.c:144-160 | a number behind one character that is no digit is accepted exactly if that is one of the six blanks |
| Decimal.PrintedDigits | src/loxguard_format.c:224-234 | every number is printed digit by digit from the tens, with a minus if it is below zero |
| Decimal.ParseDec | src/loxguard_format.c:162-203 | what was printed is parsed back by all three strict parsers, in their ranges |
| Decimal.NumberLimits | src/loxguard_format.c:162-203 | the three parsers accept up to 2^31 - 1, 2^32 - 1 and 2^64 - 1 and refuse the next number |
| EventLine.SplitJoin | src/loxguard_format.c:95-122 | tokens without commas come back from their joined line |
| EventLine.JoinSplit | src/loxguard_format.c:95-122 | a line is the join of its tokens, none of which holds a comma |
| EventLine.LineIs | src/loxguard_format.c:205-246 | the line of every event, word by word: kind, block, reason, index, limit and aux, in this order and each with its own value; and the line of no event |
| EventLine.ParserAcceptsExactlyTheGrammar | src/loxguard_format.c:394-511 | a line means an event if and only if it is the six words `kind=`, `,block=`, `,reason=`, `,index=`, `,limit=` and `,aux=` with a value behind each, none empty or with a comma: numbers of at most 31 characters spelled by space, sign and digits with a value in range, a known kind, and texts whose first 63 units name no NUL and stand for the event's texts |
| EventLine.ParsedEventShape | src/loxguard_format.c:394-511 | an accepted line yields a known kind and NUL-free texts of 1 to 63 bytes |
| EventLine.ParseFormatted | src/loxguard_format.c:205-246 | formatting then parsing delivers exactly what the 64-byte value buffers carried |
| EventLine.CutLineExactly | src/loxguard_format.c:237-245 | of a line that lost its last bytes nothing is accepted if all digits of its last number are gone, or the event could not be read anyway; otherwise the event with what the value buffers carried and the number without the lost digits |
| EventLine.CutLineDiffers | src/loxguard_format.c:237-245 | so a line cut anywhere never parses back to its event |
| EventLine.RoundTripExactly | docs/FORMAT_EXPORTS.md:18-28 | an event survives its line in a given room if and only if its kind is known, its texts are not empty and encode in 63 bytes, and the line fits |
| EventLine.ShortTextsFit | src/loxguard_format.c:336-337 | with at most 68 bytes of encoded text every line of a known kind fits 159 bytes |
| EventLine.SixtyNineCanBeCut | src/loxguard_format.c:336-337 | 68 is the best bound: some lines with 69 bytes need 160 |
| EventLine.OnePassNormalises | src/loxguard_format.c:205-511 | parsing a formatted line and formatting again gives the same line, even when texts were shortened |
| EventLine.LineLacks | src/loxguard_format.c:205-246 | a formatted line holds no line break and no NUL |
| EventBuffers.FormatEventCsv | src/loxguard_format.c:205-246 | for any buffer: the longest prefix of the event's line that fits, terminated, and its length returned |
| EventBuffers.TokenNext | src/loxguard_format.c:95-122 | the next token of the line, the cursor behind it and whether a comma ended it; fails only at the end |
| EventBuffers.NextValue | src/loxguard_format.c:95-142 | the value under the key in the token at the cursor, or none |
| EventBuffers.ReadEventParts | src/loxguard_format.c:412-498 | reading part after part succeeds exactly when the whole line parses, with the same numbers and texts |
| EventBuffers.ParseEventCsvLine | src/loxguard_format.c:394-511 | accepts what the grammar accepts, delivers that event, and leaves the snapshot untouched when it refuses |
| EventBuffers.HeaderIs | src/loxguard_format.c:364-377 | a header line is exactly the six field names, up to the end of the text or of the line |
| Blackbox.EvidenceLog.constructor | src/loxguard.c:335-343 | a fresh log is valid and empty |
| Blackbox.EvidenceLog.ShiftDown | src/loxguard.c:367-369 | the three overlapping moves drop the oldest event with both its texts |
| Blackbox.EvidenceLog.Store | src/loxguard.c:345-380 | clamps a corrupted count, drops the oldest of a full log, appends the event with texts cut to 63 bytes, and leaves every event pointing at its own rows |
| Blackbox.EvidenceLog.RepairPointers | src/loxguard.c:376-379 | whatever the pointers were, every event then reads its own rows |
| Blackbox.LogIsLastOfHistory | src/loxguard.c:345-380 | after any stores the log is the last sixteen events of its whole history, each with its texts cut to 63 bytes and all else as it was |
| LogExport.ExportCsvBuffer | src/loxguard_format.c:293-362 | for any buffer: the longest prefix of the ideal export of the last events that fits, terminated, its length returned, the log unchanged |
| LogExport.ExportIs | src/loxguard_format.c:293-358 | the export of every log: the heading if wanted, then the lines of the events cut to 159 bytes with a line feed between two |
| LogExport.ExportLines | src/loxguard_format.c:329-358 | the loop with its early break writes what fits of all lines joined |
| LogExport.Append | src/loxguard_format.c:342-350 | the inner copy loop, cut at the end of the buffer, appends what fits of a line |
| LogExport.WrittenAll | src/loxguard_format.c:334-358 | a line feed after each line but the last makes the joined lines |
| LogImport.ImportCsvBuffer | src/loxguard_format.c:513-558 | whatever the log held before, it ends with the last sixteen events of the text, and the number of all of them is returned |
| LogImport.RecordsOfText | src/loxguard_format.c:521-558 | a line ends at LF, at CR, at both or at the end of the text; what it adds comes before what the rest adds, and an empty line adds nothing |
| LogImport.ImportLine | src/loxguard_format.c:535-549 | a line is cut to 159 bytes and stored if it is no header and parses |
| LogImport.FindLineEnd | src/loxguard_format.c:526-533 | the end of the line at the cursor |
| LogRoundTrip.RecordIs | src/loxguard_format.c:535-549 | a line adds what the parser makes of its first 159 bytes; the header test never decides |
| LogRoundTrip.ImportOfExport | src/loxguard_format.c:293-558 | importing a complete export delivers, in order, what comes of each event when its line is cut to 159 bytes, with or without header |
| LogRoundTrip.ImportAfterExportIsIdentity | src/loxguard_format.c:293-558 | export then import is the identity on the last m events, and returns their number, if and only if all of them are exportable |
| LogRoundTrip.ImportOfCutExport | src/loxguard_format.c:293-558 | an export cut by a small buffer imports as the lines that fit whole, no fewer and no more, and of the torn line what comes of its bytes that were written: nothing, or an event never logged as soon as a digit of its last number was |
| LogRoundTrip.LostByteForgesAnEvent | src/loxguard_format.c:342-361 | without its last byte the export of an event with a last number of two digits or more imports as that event with a tenth of the number |
| LogRoundTrip.ExportedBuffer | src/loxguard_format.c:360-361 | the buffer read as a C string is the ideal export or what fits of it |
| LogRoundTrip.ExportThenImport | src/loxguard_format.c:293-558 | export into any buffer and import into any log, be it the same: what the buffer holds arrives, and with room for all the newest events arrive as they were, with their number, if and only if each is exportable |
| LogRoundTrip.HeaderPartHasNoRecord | src/loxguard_format.c:364-377 | no part of the header line imports as an event |
| SlotTable.HashKey | src/loxguard_adapters.c:77-86 | the loop computes the 32-bit FNV-1a hash of the name |
| SlotTable.KeyIs | src/loxguard_adapters.c:70-75 | a missing or empty name stands for the block "global", every other for itself |
| SlotTable.HashIs | src/loxguard_adapters.c:77-86 | the hash of the empty name is 2166136261, and each further byte is xored in before a multiplication by 16777619 |
| SlotTable.HashFilterExactly | src/loxguard_adapters.c:88-96 | a slot is found by its stored name exactly if that name was not cut, or cut without a change of hash |
| SlotTable.LookupRepeatsExactly | src/loxguard_adapters.c:98-140 | in any table a lookup that ends at a slot ends there again if and only if the name has at most 63 bytes; one that does not has found a full table and changed nothing; no other slot is touched |
| BlockStates.AdapterRefinesMap | src/loxguard_adapters.c:98-140 | over any history of lookups and writes with names of at most 63 bytes, the first eight names read what their own writes made, and all others zero |
| BlockStates.ReadsInHistory | src/loxguard_adapters.c:602-605 | a read inside a history is a lookup that may open a slot, and changes no name's own value |
| BlockStates.BlockStateTable.StateGet | src/loxguard_adapters.c:98-140 | the one-pass search is the lookup, and takes over and zeroes the overflow record in a full table |
| BlockStates.BlockStateTable.Refresh | src/loxguard_adapters.c:142-164 | the global codes become those of the active block |
| BlockStates.BlockStateTable.HealthSetForBlock | src/loxguard_adapters.c:576-579 | sets the block's health code and refreshes the global codes |
| BlockStates.BlockStateTable.WatchdogObserve | src/loxguard_adapters.c:417-462 | sets the watchdog code for the kind, or leaves it, and refreshes the global codes |
| BlockStates.BlockStateTable.HealthGetForBlock | src/loxguard_adapters.c:602-605 | reads the block's health through a lookup, which may open a slot |
| BlockStates.BlockStateTable.WatchdogGetForBlock | src/loxguard_adapters.c:469-472 | reads the block's watchdog code through a lookup |
| BlockStates.BlockStateTable.HealthGet | src/loxguard_adapters.c:597-600 | answers the refreshed global health code |
| BlockStates.ReadAfterWriteExactly | src/loxguard_adapters.c:98-140 | in any state a written code reads back if and only if the name has at most 63 bytes and some slot matches it or is free; no other name reads anything else than before, a hash collision with a cut name apart |
| BlockStates.ReadUnkept | src/loxguard_adapters.c:115-127 | in any state any other name reads zero whatever was just written |
| BlockStates.AggregateAfterEvent | src/loxguard_adapters.c:417-462 | once the adapter has observed an event, the global watchdog code is the promised maximum always if the event writes 2, if it writes 1 exactly when no other record reads 2, if 0 exactly when all others read 0, and if nothing exactly when no other is worse; the overflow record included |
| BlockStates.AggregateForgetsTheWorst | src/loxguard_adapters.c:142-164 | a healthy block after a failing one makes the global code 0 while the failing block still reads 2 |
| FailureStreaks.StreakTable.ForBlock | src/loxguard.c:64-90 | a match is found, otherwise slot 0 is taken over and zeroed, whether or not it was in use |
| SlotTable.RemembersExactly | src/loxguard.c:54-62 | a stored name of at most 63 bytes answers for itself only; a longer one not even for itself |
| FailureStreaks.OneEntryMemory | src/loxguard.c:64-90 | over every run slots 1 to 7 stay unused and slot 0 holds the block seen last with its recent failures modulo 2^32 |
| FailureStreaks.MeantExactlyWhenNothingWasForgotten | src/loxguard.c:64-90 | for any history that count is the block's own outstanding failures if and only if it had an OK since its newest stretch began, or the stretch began with what was outstanding, which for names of at most 63 bytes is nothing |
| FailureStreaks.TakingTurnsForgets | src/loxguard.c:64-90 | two blocks taking turns lose a failure |
| FailureStreaks.RepairedTableKeepsBlocksApart | src/loxguard_adapters.c:104-113 | with the `in_use` test of the other table each of the first eight blocks keeps its own failures |
| GuardWorld.Globals.Account | src/loxguard.c:134-169 | one event's effect on watchdog, streak and health codes |
| GuardWorld.Globals.EmitEvent | src/loxguard.c:104-172 | the whole new state of streaks, block states and log, and what the context tracks |
| GuardWorld.Recovery.Invoke | src/loxguard.c:425-429 | the callback hears the event and the action once if it is installed |
| GuardWorld.PlayedLog | src/loxguard.c:104-172 | after any emissions the log is the last sixteen events ever logged |
| GuardWorld.PlayedStreaks | src/loxguard.c:104-172 | the streak table is driven by the emissions alone |
| GuardRun.FinalizeReport | src/loxguard.c:464-497 | after a return of 0 an OK report; otherwise the tracked reason, for the kinds 1 to 5 the results bounds, arena, timeout, memory fault and unsupported and for all others an error, the input dropped for the eight failures only; and one notice for each code that is not OK |
| GuardRun.EmitBounds | src/loxguard.c:399-404 | a bounds report by the guarded function emits and tracks one event |
| GuardRun.Judge | src/loxguard.c:588-598 | timeout whatever was returned, else OK, else an error unless the function reported something |
| GuardRun.Refuse | src/loxguard.c:554-568 | a refused run emits QUARANTINED and COMPLETED and calls nothing |
| GuardRun.CallAndJudge | src/loxguard.c:586-606 | the function's reports, the verdict and COMPLETED, in that order |
| GuardRun.Run | src/loxguard.c:513-608 | the whole new state, the report, whether the function was called, and exactly one notice unless the run was OK; without configuration, log or function nothing changes |
| Quarantine.RefusedExactly | src/loxguard.c:553-554 | a run is refused if and only if the name has at most 63 bytes, a limit is set and the streak has reached it |
| Quarantine.SightingsStreak | src/loxguard.c:104-172 | a block's own events drive its streak as a counter of its own |
| Quarantine.FailingRun | src/loxguard.c:513-608 | a failing run raises the streak by its failures, at least one, modulo 2^32 |
| Quarantine.OkRun | src/loxguard.c:144-146 | a run that ends OK leaves the streak at zero |
| Quarantine.QuarantineBound | src/loxguard.c:513-608 | over any stretch of failing runs the calls are bounded by the counts below the limit that the failures pass through: by the limit for up to 2^32 failures, and by what is left of it until the streak wraps |
| Quarantine.BoundIsReached | src/loxguard.c:513-608 | the bound is exact, wraps included: runs that fail once each are called at exactly those counts |
| Quarantine.RefusedAgainExactly | src/loxguard.c:152-158 | a refused block is refused again if and only if its streak was not 2^32 - 1 |
| Quarantine.QuarantineLastsExactly | src/loxguard.c:553-568 | from a streak t at the limit on, the next n runs are all refused if and only if n is at most 2^32 - t |
| Quarantine.LongNamesAreAlwaysCalled | src/loxguard.c:61-86 | a block with a name of more than 63 bytes is called in every run |
| Quarantine.QuarantineExactlyForShortNames | src/loxguard.c:553-568 | over more failing runs than the limit, with up to 2^32 failures, calls are bounded by it if and only if the name has at most 63 bytes |
| Interleaving.AnotherBlockLiftsQuarantine | src/loxguard.c:64-90 | after any run of any other block no run is refused |
| Interleaving.RefusedOnlyInARow | src/loxguard.c:513-608 | over all runs of any blocks a block is refused only right after a run of its own |
| RunHealth.BlocksAfterKept | src/loxguard.c:134-169 | after every emission of a block the table can keep, health is 5 or 4 for a streak of at least 5 or 3, else the kind's code, else unchanged; nothing else in the table changes |
| RunHealth.EmittedCodes | src/loxguard.c:134-169 | after every emission of a block the table can keep: its streak, health and watchdog code in numbers for every kind, which the global codes then show, and no other name reads anything else |
| RunHealth.HealthTellsTheReport | src/loxguard.c:142-169 | in any state in which the table can keep the block, after its run health is 5 or 4 on a streak of at least 5 or 3, else 0, 2 or 3 for a report of OK, a timeout or another failure, with the watchdog code 0, 1 or 2; both are 0 if and only if the report is OK, and no other name reads anything else |
| RunHealth.FailureVisibleExactlyWhenKept | src/loxguard_adapters.c:98-140 | in any state the failure of a run can be read back if and only if the block's name has at most 63 bytes and some slot matches it or is free |
| BlockHistory.AfterLong | src/loxguard_adapters.c:98-140 | a run of a block with a longer name takes two slots for each of its events and one for COMPLETED, as long as there are any free |
| BlockHistory.LongNamesExhaustTheTable | src/loxguard_adapters.c:98-140 | after any runs of such a block another name can be kept if and only if it had a slot before, or more slots were free than the runs made lookups, at least five each |
| BlockHistory.RunsUse | src/loxguard_adapters.c:98-140 | after any runs of any blocks, which names have a slot and how many slots are left follows from the names run and, for names of more than 63 bytes, the number of their runs' incidents |
| BlockHistory.AfterOther | src/loxguard_adapters.c:98-140 | in a table without a free slot below a used one, a run changes what no other name reads, colliding cut names included |
| BlockHistory.HealthTellsTheLastRun | src/loxguard.c:142-169 | after any runs of any blocks, from any table without a free slot below a used one, a block that was run reads the health and watchdog codes that report and streak of its own last run call for, or zeros if it has no slot; one that was not run reads what it read before |
| BlockHistory.HealthOfTheFirstEight | src/loxguard.c:142-169 | from an empty table and with names of at most 63 bytes, the first eight names run read the codes of their own last runs, and all others zeros |
| GlobalCodes.AggregateAfterRun | src/loxguard_adapters.c:142-164 | after every run: for a kept block the global watchdog code is the maximum always for a failure but a timeout, after a timeout exactly if no other record reads 2, after an OK exactly if all others read 0; for a block without a slot it is 0, and the maximum exactly if no slot in use had a code, and for a name of more than 63 bytes also the first incident was OK or found at most the two slots ENTERED takes, and an overflow record out of reach had no code |
| GlobalCodes.RunsStayInRange | src/loxguard_adapters.c:417-462 | over all runs the watchdog codes stay 0, 1 or 2 |
| RunTrace.TraceShape | src/loxguard.c:551-606 | the whole trace of every run, event by event with kinds, texts and numbers: ENTERED, the function's bounds events or the one QUARANTINED error, at most one verdict, COMPLETED with the duration |
| RunTrace.ReportTellsTheTrace | src/loxguard.c:464-608 | OK exactly when OK comes right before COMPLETED; OK, timeout, bounds and error each exactly for its cause; unless OK the input is dropped and the reason is that of the event before COMPLETED, whose persistence is reported |
| RunTrace.NoticeTellsTheTrace | src/loxguard.c:464-497 | the recovery callback hears of the event right before COMPLETED, once, exactly if one is installed and the report is not OK |
| RunTrace.LogAfterRun | src/loxguard.c:513-608 | a run leaves in the log the last sixteen of what was there and its whole trace |
| RunTrace.RunPlaysItsTrace | src/loxguard.c:513-608 | for a name of at most 63 bytes the state after a run is that of its trace alone |
| RunTrace.DurationIsElapsed | src/loxguard.c:588-589 | across clock wrap the duration is the elapsed time if and only if that is below 2^32 |
| EvidenceChain.RunAdds | src/loxguard.c:513-608 | every event a run leaves in the log is exportable if and only if the stored part of its block's name encodes in 63 bytes |
| EvidenceChain.EvidenceArrives | src/loxguard_format.c:293-558 | after any runs from an empty log, export then import gives back the newest events if and only if each of their names, as stored, encodes in 63 bytes: so if all names do, and not if the last does not |
| EvidenceChain.EvidenceOfOneBlock | src/loxguard_format.c:293-558 | for one block it does if and only if its name does |
| Bits.PowerOfTwoTest | src/loxguard.c:293 | `a & (a - 1)` is 0 exactly for powers of two |
| Bits.RoundUpOrZero | src/loxguard.c:302 | the masked sum is the next multiple, or 0 when that is no word |
| Arena.SafeAdd | src/loxguard.c:92-102 | the sum if and only if it is a word |
| Arena.CheckedMul | include/loxguard.h:168-177 | the product if and only if it is a word: the quotient test is exact |
| Arena.AlignedAddress | src/loxguard.c:301-303 | the computed address is the mathematically rounded one, or 0 when that wraps |
| Arena.AllocationIsExact | src/loxguard.c:286-316 | for every arena and request an allocation exists if and only if some aligned offset holds it, is the lowest of them, and wastes less than one alignment |
| Arena.UnalignedFits | src/loxguard.c:286-316 | at alignment 1 a size is granted if and only if the arena has memory, its next address is a word and the size is left |
| Arena.Region.constructor | src/loxguard.c:277-284 | a fresh arena uses nothing |
| Arena.Region.Alloc | src/loxguard.c:286-316 | grants the exact allocation, or leaves the arena as it was |
| Arena.Region.AllocArray | include/loxguard.h:179-186 | refused when the true product is no word, otherwise an allocation of that many bytes |
| Arena.Region.Reset | src/loxguard.c:318-322 | nothing is used, region unchanged |
| Arena.Region.Remaining | src/loxguard.c:328-333 | exactly the sizes up to the answer can still be allocated at alignment 1 |
| Arena.StepKeepsLaid | src/loxguard.c:286-322 | every operation keeps the granted blocks ordered, apart, aligned and inside, with `used` at the end of the last |
| Arena.FreshRunsStayLaid | src/loxguard.c:277-333 | the same after any operations on a fresh arena |
| Spans.SpanMemcpy | src/loxguard.c:252-275 | each status exactly for its cause, success if and only if both ranges fit as unbounded integers; copies the source as it was even when spans overlap, and changes nothing else, and nothing at all on an error |

## Left out

- Companion-library branches: the circuit breaker always allows in this build, so BREAKER_OPEN cannot occur and is not modelled.
- Persistence, event logging and the bus: only the persistence adapter's answer is kept, as a parameter of each event.
- Shell, ports, backends, RTOS bridge, demos and benches: forwarding and straight-line repeats of the run pattern.
- Report lines (`lox_report_format_kv`, `lox_report_parse_kv_ex`): the shape of the event codec again.
- `lox_blackbox_export_csv_lines`, `lox_blackbox_last_event_format_csv` and `lox_event_parse_csv_line`: wrappers that format or parse the same lines.
- Single-byte span reads and writes and `lox_checked_output_write_u8`: one bounds test each.
- Recovery and watchdog resets and the debug snapshots: they only clear or list the tables.
- Null tests of pointers no modelled caller passes as null; a null line, log, configuration, function, event text, span or buffer of length 0 is modelled.
- Nested runs, guarded functions that write to `last_event` themselves, and recovery callbacks that call the library.
- Stored events whose texts point into the log itself: the shift would move them away first, and callers must not pass them.
- Text rows as raw bytes: a row of the log is modelled as the C string in it, and text pointers as row numbers.
- The flags word of a span: two booleans, read and write.
- The input, output and scratch memory of a run: handed through to the guarded function and not looked at.
- The exporter's skip of an event that formats to an empty line: a line is never empty, so the branch is dead.
- The failure-streak overflow record: dead code, as slot 0 is always taken before it is reached.
