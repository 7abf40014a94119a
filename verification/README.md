# Verified model of the jpr mod

This project models the parts of the mod that are easy to get wrong: the inline hooker with its two
instruction relocators, the JSON configuration reader and printer, the key-injection machine, the pattern scanner and the
random source. Each part has a specification made of functions on values, theorems about that specification, and
imperative classes and methods, written the way the source is, proved against it.

`dafny verify dfyconfig.toml` checks everything.

## How the pieces fit

**Inline hooker** (`Bytes`, `X86Decoder`, `X86Format`, `Arm64`, `Arch`, `Memory`, `Trampoline`, `InlineHook`,
`HookLifecycle`, `HookDangling`, `InlineHooker`, `HookTheorems`). Memory is a map from addresses to bytes; an address that is not in the map
is not mapped. An instruction is two things to the theorems: its *shape* (its bytes with the PC-relative field blanked) and
the absolute address its operand denotes. What a shape does to a machine state is an arbitrary function, so the theorem about
the trampoline is about relocation and not about a CPU. An `Arch` is a record of decode, relocate and jump functions with the
laws they must obey; both instruction sets are proved lawful, and everything after that is proved once for any lawful `Arch`.
The x86-64 decoder is compared with an independent description of the instruction format (Intel SDM volume 2, section 2.1),
which says byte by byte which fields an instruction has and uses none of the decoder's functions: the decoder accepts exactly
the well-formed field sequences and describes them exactly. Which opcodes take a ModRM byte, an immediate or a distance is
stated there as sets of opcodes, and the decoder's tables are proved to agree; no claim is made that either agrees with the
manual. The aarch64 classifiers are compared with instruction words assembled from their fields (`Arm64Encoding`).

**JSON** (`JsonSyntax`, `JsonReader`, `JsonMeaning`, `JsonPrinter`, `JsonLayout`, `JsonParser`, `JsonWriter`, `JsonObject`). `JsonSyntax` is the dialect as
a grammar: syntax trees that keep every comment, escape and digit, the text of a tree, and the value of a tree. Text functions
take the text that follows, so no associativity is ever needed. `JsonReader` is the parser on the text still to be read, with
all error cases and offsets, and is proved to be exactly that grammar. `JsonPrinter` is the layout the printer chooses.
`JsonMeaning` and `JsonLayout` say about raw text, without the grammar's functions, what is read from it and what a dump looks
like: numbers by place value, strings by their escapes and UTF-8, containers by the texts they are made of, lines by their
blanks.
`JsonParser` and `JsonWriter` are the source's classes, with its loops.

**Key injection** (`Keyboard`, `KeyDelivery`, `JumpReset`, `JumpTiming`, `JumpBatches`, `JumpCollapse`, `KeyMachine`,
`TickSource`). A run is
any sequence of steps: hits, the parts of a tick, settings read again, stop, the backend coming alive. Random picks and clock
readings are given by the environment; a run is legal when picks stay in their ranges and the clock never goes back. `Log` is
everything ever queued: what was handed over, then what is pending. `KeyMachine` holds the classes; `TickSource` the two
questions about threads.

**Scanner and random source** (`PatternSyntax`, `Scanner`, `Random`).

## What turned out false, and exactly when

* Removing hooks oldest first does not always restore memory: with two hooks on one target it restores exactly when the target
  already was the jump the first hook wrote (`HookTheorems.SameTargetTwice`); in general exactly when at every address the last
  hook covering it had saved the original byte (`HookLifecycle.RemoveAllExact`). Disjoint targets suffice
  (`HookLifecycle.RemoveAllRestores`).
* The rule that a trampoline is unmapped only once the original bytes are back (`src/inline_hook.cpp:187-202`) does not keep
  every hook safe when targets overlap: afterwards a hook's target is not its original bytes and its trampoline is gone exactly
  when its bytes were put back and a later write that landed left another byte over them (`HookDangling.DanglesExactly`). Two
  hooks on one target do this unless the target already was the first jump (`HookTheorems.SameTargetTwice`). With disjoint
  targets no hook dangles, whichever writes land (`HookLifecycle.RemoveAllNeverDangles`).
* The comment at `src/tick.cpp:106-108` says a press and its release never reach the game in one batch. Over any run they come
  together exactly when some step releases the held key while its press has not been handed over
  (`JumpCollapse.RunCollapsesExactly`, and `JumpCollapse.StepCollapsesExactly` for each step). The steps that can are: a hit that
  cancels the sequence (`HitCollapsesExactly`); settings that change the inject mode, disable the module or change the key
  (`ConfiguredCollapsesExactly`); stopping (`StopCollapsesExactly`); and the sequence's own release, when it comes before any
  flush that handed the press over, as while injection is not ready (`ActCollapsesExactly`). The comment holds in every run
  pumped from the game thread with injection ready (`JumpBatches.GameThreadNeverCollapses`), and in runs pumped from the timer
  with injection ready as long as no hit cancels, no settings are read again and the mod is not stopped
  (`JumpBatches.TimerSendsOneByOne`). `JumpCollapse.TimerCancelCollapses` is a run of the timer in which it fails.
* Rolls are spaced by the cooldown in runs in which reading settings aborts no sequence (`JumpTiming.RollsAreSpaced`). With the
  cooldown range fixed and cancelling off, a hit can roll within the shortest cooldown of the last roll exactly when that roll's
  sequence was aborted since, by settings that disabled the module or changed its key, and the module is enabled
  (`JumpTiming.EarlyRollExactly`). Switching the module off and on again is enough (`JumpTiming.OffAndOnReopens`).
* Two flushers at once deliver in the order of the queue exactly when no batch is delivered while one taken earlier is still
  carried (`TickSource.OrderKeptExactly`).
* A stop that comes between the timer loop's two flag reads (`src/tick.cpp:40-51`) does not prevent the pump that follows
  (`TickSource.StopBetweenReadsStillPumps`); it is the last one (`TickSource.AtMostOnePumpAfterStop`).
* The search agrees with matching at every address exactly when the pattern's first byte is concrete
  (`Scanner.FirstByteMustBeConcrete`), which the parser insists on.
* The header comment of `src/inline_hook_aarch64.cpp:5` says a literal load is turned into an absolute load; the code
  (`src/inline_hook_aarch64.cpp:116-130`) re-bases its displacement, and so does the model.

## Model

| member | source | states |
|---|---|---|
| X86Format.DecodeExact | src/inline_hook_x86_64.cpp:138-248 | a byte sequence decodes to an instruction if and only if it is the serialization of a well-formed record of prefixes, REX, opcode, ModRM, SIB, displacement and immediate with that description; the fields and their sizes are stated on the bytes themselves |
| X86Format.DecodeSound | src/inline_hook_x86_64.cpp:138-248 | gives the fields of every accepted instruction: they serialize back to exactly its bytes |
| X86Format.DecodeComplete | src/inline_hook_x86_64.cpp:138-248 | every well-formed instruction at the front of any code is accepted with its own description |
| X86Format.FormsAgree | src/inline_hook_x86_64.cpp:53-248 | for every record, the format stated byte by byte, opcodes by the fields they take, agrees with the decoder's tables and field sizes |
| X86Tables.FillAlu | src/inline_hook_x86_64.cpp:53-60 | the loop over the eight ALU groups leaves the primary table equal to the opcode map on 00 to 3F and untouched elsewhere |
| X86Decoder.Decoder.BuildTables | src/inline_hook_x86_64.cpp:47-134 | both tables are filled once, to the opcode maps the decoder's specification uses |
| X86Decoder.Decoder.DecodeAt | src/inline_hook_x86_64.cpp:138-248 | the table-driven loop over prefixes, REX, opcode and ModRM computes the specified decoding of any code it is given |
| X86Relocation.DecodeLocal | src/inline_hook_x86_64.cpp:142-247 | decoding depends on the bytes before the displacement only; a RIP-relative instruction has offset + 4 + immediate == length; an accepted non-branch has length 1 to 16 |
| X86Relocation.RelocateExact | src/inline_hook_x86_64.cpp:265-284 | relocation succeeds iff the re-based displacement fits 32 bits; then the operand keeps its absolute address, only the displacement field differs, the result decodes alike whatever follows, and relocating back restores it |
| X86Relocation.ShapeAndOperandDecide | src/inline_hook_x86_64.cpp:265-284 | an instruction's shape and absolute operand determine all its bytes, so nothing of it escapes the theorems about them |
| Bytes.Int32Means | src/inline_hook_x86_64.cpp:270-272 | a displacement is the two's complement number of its four bytes, least significant first |
| Bytes.EightBytes | src/inline_hook_x86_64.cpp:261-262 | a jump's target is spelled by its eight bytes, least significant first |
| X86Relocation.JumpReadsBack | src/inline_hook_x86_64.cpp:252-263 | the written jump decodes as an indirect jump through the eight bytes after it, and they read back as the target |
| Arm64Word.AdrIsNothingElse | src/inline_hook_aarch64.cpp:28-42 | the classifiers are exclusive: ADR and ADRP words are no literal loads and no immediate branches |
| Arm64Word.SetAdrReadsBack | src/inline_hook_aarch64.cpp:44-57 | writing any signed 21-bit offset reads back as that offset and keeps the word's class and its other fields |
| Arm64Word.SetLdrReadsBack | src/inline_hook_aarch64.cpp:119-127 | the same for the 19-bit word offset of a literal load |
| Arm64Encoding.BranchesExactly | src/inline_hook_aarch64.cpp:32-42 | a word counts as a branch iff it is assembled from the fields of a B, BL, B.cond, CBZ, CBNZ, TBZ or TBNZ |
| Arm64Encoding.PcRelativeExactly | src/inline_hook_aarch64.cpp:28-30 | a word counts as PC-relative iff it is assembled from the fields of an ADR, ADRP or literal load |
| Arm64Encoding.EncodedIsRead | src/inline_hook_aarch64.cpp:28-49 | an assembled ADR, ADRP or literal load is told from the other two and from branches, and its signed offset is read as it was assembled |
| Arm64.DecodeExactly | src/inline_hook_aarch64.cpp:61-70 | decoding refuses no word and reports a branch, or a PC-relative operand, for exactly those words |
| Arm64.OperandExactly | src/inline_hook_aarch64.cpp:92-119 | the operand of an assembled instruction is its address plus the offset, or its page plus the page count |
| Arm64.RelocateEncoded | src/inline_hook_aarch64.cpp:85-130 | an assembled instruction relocates to the one assembled with the same target counted from the new place, or is refused iff that distance does not fit |
| Arm64.OthersAreCopied | src/inline_hook_aarch64.cpp:132-133 | every other word is copied |
| Arm64.ShapeAndOperandDecide | src/inline_hook_aarch64.cpp:85-134 | a word's shape and absolute operand determine the word |
| Arm64.RelocateWordExact | src/inline_hook_aarch64.cpp:85-134 | a word relocates iff its page, byte or literal distance is representable from the new place; then class, absolute operand and all other fields are kept, and relocating back restores the word |
| Arm64.RelocateExact | src/inline_hook_aarch64.cpp:61-134 | the same on bytes, with decoding unchanged whatever follows |
| Arm64.JumpReadsBack | src/inline_hook_aarch64.cpp:74-83 | the first word of the jump is the 64-bit literal load into x17 of the literal two words on, the second has the fields of a branch to x17, and the literal reads back as the target |
| X86Arch.Lawful | src/inline_hook_x86_64.cpp:138-284 | x86-64 obeys the laws the hooker relies on: local decoding, exact relocation, a jump that fetches its own target |
| Aarch64Arch.Lawful | src/inline_hook_aarch64.cpp:61-134 | aarch64 obeys the same laws |
| Trampoline.MeasureIsMeasured | src/inline_hook.cpp:87-105 | measuring yields whole instructions that cover at least the jump, each fetched where the previous one ends, none of them a relative branch |
| Trampoline.MeasureExactly | src/inline_hook.cpp:87-105 | measuring yields instructions iff they are fetched one after the other at the target, none is a relative branch, and they are the fewest that cover the jump |
| Trampoline.RelocateAllKeeps | src/inline_hook.cpp:115-123 | relocating a sequence keeps, instruction by instruction, the decoding, the shape and the absolute operand |
| InlineHook.TrampolinePreservesMeaning | src/inline_hook.cpp:87-124 | running the displaced instructions from the trampoline and following its jump ends in the same state at the same place as running them in the unpatched target, for any effect of the instructions |
| InlineHook.TargetReachesReplacement | src/inline_hook.cpp:139-158 | the patched target jumps to the replacement |
| HookTheorems.InstallSucceedsExactly | src/inline_hook.cpp:78-166 | install() succeeds iff neither address is null, the displaced instructions exist and can all be moved to the block given, a way to write is open, and the write takes or the jump is already there |
| HookTheorems.InstalledHookWorks | src/inline_hook.cpp:78-175 | after one successful install the target reaches the replacement, and running from the trampoline the n measured instructions, which make up exactly the recorded bytes and cover the jump, does what the target did; nothing else in memory changed |
| HookTheorems.ManyHooksWork | src/inline_hook.cpp:78-175 | after any number of installs on disjoint targets, in the memory they all left, every target reaches its replacement and every trampoline does what its target did before any hook |
| HookLifecycle.RemoveInvertsInstall | src/inline_hook.cpp:177-202 | removing a hook right after installing it is the identity on memory, the trampoline included |
| HookLifecycle.RemoveAllExact | src/inline_hook.cpp:177-202 | oldest first, as the source does, memory is restored iff at every address the last hook covering it had saved the original byte |
| HookLifecycle.RemoveAllRestores | src/inline_hook.cpp:177-202 | with disjoint targets and every write taking, removing all hooks is the identity on memory |
| HookLifecycle.HookedTwiceIsNotRestored | src/inline_hook.cpp:184-202 | why disjointness is needed: a second hook on a changed byte is not undone oldest first, and is newest first |
| HookTheorems.SameTargetTwice | src/inline_hook.cpp:78-202 | hooking one target twice is undone, and the first hook left safe, iff the target already was the first hook's jump |
| HookLifecycle.RemoveAllNeverDangles | src/inline_hook.cpp:187-202 | with disjoint targets, whichever writes land, after removal every hook either has its original bytes back or its trampoline still mapped |
| HookDangling.DanglesExactly | src/inline_hook.cpp:184-202 | for any targets, overlapping ones included, a hook is left with neither iff its bytes were put back and some later write that lands left another byte over them |
| InlineHooker.MeasureTarget | src/inline_hook.cpp:87-105 | the measuring loop returns the specified instructions or refuses on the same inputs |
| InlineHooker.FillBlock | src/inline_hook.cpp:107-124 | the relocating loop writes the trampoline into the fresh block, or unmaps it and leaves memory as it was |
| InlineHooker.BuildTrampoline | src/inline_hook.cpp:84-124 | measuring, allocating and filling together: the specified plan, and memory either with exactly the trampoline added or unchanged |
| InlineHooker.Hooker.Install | src/inline_hook.cpp:78-175 | the transaction: on success exactly the specified memory, record and trampoline pointer; on failure memory, records and the caller's pointer are untouched |
| InlineHooker.Hooker.RemoveAll | src/inline_hook.cpp:177-206 | the restoring loop computes the specified removal and forgets every record |
| JsonReader.AcceptedExactly | src/json.cpp:41-298 | a text is read as a document iff it is that document's text, so the parser accepts exactly the grammar and is unambiguous |
| JsonReader.DocumentSound | src/json.cpp:41-298 | whatever is accepted is the text of a grammatical document |
| JsonReader.DocumentReadsBack | src/json.cpp:41-298 | every grammatical document's text is accepted, with comments, escapes and trailing commas |
| JsonReader.SkipReadsBack | src/json.cpp:70-88 | skipping takes a whole gap of spaces and comments and nothing after it |
| JsonReader.SkipIsSound | src/json.cpp:70-88 | what is skipped is a gap, at most followed by a comment the end of the text cuts short |
| JsonReader.CharsReadBack | src/json.cpp:209-256 | every spelling of a string is read as the characters and escapes it spells |
| JsonReader.NumeralReadsBack | src/json.cpp:271-298 | every number token is read to its end, whatever token may follow it |
| JsonReader.LayoutMeansNothing | src/json.cpp:70-207 | documents that differ only in gaps and trailing commas have the same value |
| JsonMeaning.NumbersMean | src/json.cpp:271-298 | sign, digits, point, digits and exponent denote the integer all the digits spell by place value, scaled by ten to the exponent less the digits after the point |
| JsonMeaning.WordsMean | src/json.cpp:90-129 | true, false and null are read as those values |
| JsonMeaning.StringsMean | src/json.cpp:209-269 | a quoted text is what its characters and escapes stand for: named escapes their control characters, a \u escape in either case of digits the UTF-8 bytes that decode to its code point |
| JsonMeaning.ArraysMean | src/json.cpp:175-207 | brackets around complete texts with commas between them, and perhaps after them, are the array of what the texts denote |
| JsonMeaning.ObjectsMean | src/json.cpp:131-173 | braces around key, colon and value texts are the object of those members in order |
| JsonMeaning.SpaceMeansNothing | src/json.cpp:71-88 | a blank, tab, carriage return or newline in front changes nothing but error offsets |
| JsonMeaning.LineCommentMeansNothing | src/json.cpp:76-78 | nor does a comment from two slashes to the end of the line |
| JsonMeaning.BlockCommentMeansNothing | src/json.cpp:79-83 | nor does a comment from slash and star to the first star and slash |
| JsonMeaning.NothingElseStarts | src/json.cpp:71-129 | any other first character but those of a value is refused at offset 0 |
| JsonMeaning.EmptyRefused | src/json.cpp:98-100 | an empty text is refused at offset 0 |
| JsonMeaning.WordRefused | src/json.cpp:90-127 | a text that starts like a word and is none is refused as such at its start |
| JsonMeaning.StringsRefused | src/json.cpp:209-256 | after any beginning of a string: its missing end, a lone backslash, an unknown escape, a short \u escape and a wrong digit are each refused as such, at the offset reached |
| JsonMeaning.TrailingRefused | src/json.cpp:45-52 | anything after a complete value is refused where it starts |
| JsonMeaning.ArrayRefused | src/json.cpp:190-204 | what follows an element and is neither comma nor bracket is refused where it stands |
| JsonMeaning.KeyRefused | src/json.cpp:141-147 | what follows a brace and is neither a quote nor the closing brace is refused where it stands |
| JsonMeaning.ColonRefused | src/json.cpp:148-153 | what follows a key and is no colon is refused where it stands |
| JsonPrinter.DumpReadsBack | src/json.cpp:301-414 | parsing any dump, at any indent, gives the value back with each number replaced by what its printed form denotes |
| JsonPrinter.RoundTrip | src/json.cpp:301-414 | for values whose numbers are whole and below 10^15 parsing undoes dumping exactly, duplicate keys and arbitrary bytes included |
| JsonPrinter.RoundTripEdited | src/json.cpp:70-207 | and still does after comments, spacing or trailing commas are put into the dump |
| JsonPrinter.TreeOk | src/json.cpp:301-391 | every layout, indented, inline or compact, is grammatical |
| JsonPrinter.EscapedReadsBack | src/json.cpp:324-345 | the escapes printed for a string denote that string |
| JsonPrinter.WholeReadsBack | src/json.cpp:315-316 | the decimal digits of a whole number denote it |
| JsonLayout.DumpIsIndented | src/json.cpp:301-391 | every line of an indented dump starts with exactly indent blanks for each bracket open around it |
| JsonLayout.OneLineExactly | src/json.cpp:348-389 | the compact form is one line; in the indented form a value is on one line iff it is no container, empty, or an array of at most four numbers and booleans |
| JsonLayout.ArrayWritten | src/json.cpp:348-371 | an array's elements are written one level deeper, a line each with commas between, or with a comma and a blank between when it is short |
| JsonLayout.ObjectWritten | src/json.cpp:372-389 | an object's members are written one level deeper, a line each with commas between: name, colon, a blank unless compact, value |
| JsonLayout.DumpWritten | src/json.cpp:408-414 | a dump is the value's text at depth 0, with a final newline unless compact |
| JsonLayout.NumbersWritten | src/json.cpp:312-320 | a whole number under 10^15 in magnitude is its sign and decimal digits without leading zeros, any other is left to the general format |
| JsonLayout.CharactersWritten | src/json.cpp:324-345 | named escapes are used exactly for the quote, the backslash and five control characters, four hexadecimal digits for the others below 32, and nothing else is escaped |
| JsonParser.Parser.Skip | src/json.cpp:71-88 | the nested skipping loops stop exactly where the specified gap ends |
| JsonParser.Parser.ParseString | src/json.cpp:209-256 | the character loop yields the string's value and the cursor after it, or the specified error at the specified offset |
| JsonParser.Parser.ParseHex | src/json.cpp:237-249 | the four-digit loop computes the code point or fails right after the first wrong digit |
| JsonParser.Parser.ParseNumber | src/json.cpp:271-298 | the cursor stops after the longest number token and the value is that token's |
| JsonParser.Parser.ParseValue | src/json.cpp:98-129 | dispatch on the first character yields the specified value or error |
| JsonParser.Parser.ParseMembers | src/json.cpp:140-172 | the object loop collects exactly the members, in order, or reports the specified error |
| JsonParser.Parser.ParseItems | src/json.cpp:184-206 | the array loop collects exactly the items, or reports the specified error |
| JsonParser.Parse | src/json.cpp:395-406 | parse() returns the specified value and no error, or null and the first error with its offset |
| JsonWriter.Writer.DumpString | src/json.cpp:324-345 | the escaping loop appends the text of the escaped string and nothing else |
| JsonWriter.Writer.DumpItems | src/json.cpp:348-371 | the array loop, inline or indented, appends exactly the layout's text |
| JsonWriter.Writer.DumpEntries | src/json.cpp:372-389 | the object loop appends exactly the layout's text |
| JsonWriter.Dump | src/json.cpp:408-414 | dump() returns the text of the layout, with a final newline unless compact |
| JsonObject.Holder.Find | src/json.cpp:11-19 | find() returns the first member of that name, or nothing |
| JsonObject.Holder.Set | src/json.cpp:21-33 | set() makes find() return the new value, changes no other lookup, keeps member order and every other member, and appends a new name at the end |
| Keyboard.QueueLogs | src/keyboard.cpp:57-69 | a request joins the history exactly when the key is in range and in the other state |
| Keyboard.QueueKeeps | src/keyboard.cpp:57-69 | per key, the history strictly alternates starting with down, and its last entry is what is held |
| Keyboard.FlushMoves | src/keyboard.cpp:218-228 | a flush hands over all that is pending, in order, with nothing lost or repeated; it does nothing while injection is not ready |
| Keyboard.ReleaseAllReleases | src/keyboard.cpp:293-305 | after releaseAll nothing is held, and nothing is pending if injection is ready |
| Keyboard.SetInjectModeKeeps | src/keyboard.cpp:93-99 | a mode change releases everything first; setting the current mode changes nothing |
| KeyDelivery.DeliverShows | src/keyboard.cpp:253-283 | delivering a batch keeps the state array and the event queue, each where the mode feeds it, showing what was handed over |
| KeyDelivery.GameSeesWhatIsHeld | src/keyboard.cpp:253-283 | with nothing pending, a state is 1 iff the mode is not events-only and the key is held, the event queue replays to the held set unless the mode is states-only, and it alternates |
| KeyDelivery.SetInjectModeFaithful | src/keyboard.cpp:93-99 | this survives mode changes, because both views are all-up at a switch |
| KeyDelivery.ModifiersAreCurrent | src/keyboard.cpp:274-281 | each modern event's modifier fields say which modifiers are down once its own transition counts, and are 0 in events-only mode |
| KeyDelivery.EventsCarryBatch | src/keyboard.cpp:253-283 | a batch adds one event per transition, in order, of the layout the game has and with its controller id, or none in states-only mode, and takes none away |
| KeyDelivery.CollapsesExactly | src/keyboard.cpp:57-69 | a request makes the pending batch hold a press and its release iff it releases a key whose press is still pending |
| JumpReset.NoStuckKey | src/modules/auto_jump_reset.cpp:77-201 | in every run a key is down only while an active sequence on it holds it; an idle or disabled module holds none, and an active one is enabled, on the configured key, with presses left |
| JumpReset.NothingIsLost | src/keyboard.cpp:57-69 | over every run what was queued stays in the history, in order; more is only added after it |
| JumpReset.ConfiguredSafe | src/modules/auto_jump_reset.cpp:77-85 | reading the settings again releases a key whose sequence it aborts, whatever changed |
| JumpTiming.ReactionTakes | src/modules/auto_jump_reset.cpp:121-165 | a reaction of n presses in which no hit cancels makes exactly n downs and n ups and ends between every delay at its shortest and every delay at its longest plus 2n tick gaps; until then that sequence is underway and within the bound |
| JumpTiming.SequenceTiming | src/modules/auto_jump_reset.cpp:136-165 | the induction over runs behind it: unless a hit cancels, the sequence is within its bounds at every step, or one step ends it in time with the cooldown armed |
| JumpTiming.OverdueHasEnded | src/modules/auto_jump_reset.cpp:139-142 | a tick later than the bound that reaches the module finds the sequence over, whatever cancel_on_new_hit says |
| JumpTiming.RollsAreSpaced | src/modules/auto_jump_reset.cpp:101-119 | with the cooldown range fixed and cancelling off, over runs that abort no sequence, chance rolls, passed or failed, are at least the shortest cooldown apart, whatever the hits and the other settings read |
| JumpTiming.EarlyRollExactly | src/modules/auto_jump_reset.cpp:77-119 | over all such runs, a hit can roll within the shortest cooldown of the last roll iff that roll's sequence was aborted since, the module is enabled and the time has not passed |
| JumpTiming.ReloadReopensExactly | src/modules/auto_jump_reset.cpp:77-85 | reading settings while a sequence runs lets a hit roll iff they abort it and leave the module enabled |
| JumpTiming.OffAndOnReopens | src/modules/auto_jump_reset.cpp:79-84 | switching the module off and on during a sequence lets a hit roll that could not, with nothing else changed |
| JumpTiming.WindowHoldsFew | src/modules/auto_jump_reset.cpp:113-116 | so over such a run any window of length T holds at most 1 + T / cooldown.min of its rolls |
| JumpTiming.FailedRollArms | src/modules/auto_jump_reset.cpp:113-119 | a failed roll arms the cooldown between its shortest and its longest from the roll on, and leaves a running sequence and the keyboard alone |
| JumpTiming.IdleRollsExactly | src/modules/auto_jump_reset.cpp:87-108 | from an idle state on, over any run until the next roll, a hit rolls iff the module is enabled and the cooldown armed is over |
| JumpTiming.FailedRollExactly | src/modules/auto_jump_reset.cpp:101-119 | so after a failed roll no hit rolls before the shortest cooldown, and while enabled every hit does after the longest |
| JumpTiming.EndedSequenceExactly | src/modules/auto_jump_reset.cpp:163-164 | and the same after the last release of a sequence |
| JumpTiming.AutoFiresExactly | src/modules/auto_jump_reset.cpp:176-180 | over any run a visit makes a timed hit iff the setting is on and its time has passed since the last one |
| JumpTiming.TriggerFiresExactly | src/modules/auto_jump_reset.cpp:182-189 | over any run the trigger key makes a hit iff it is down and was up when last polled |
| JumpBatches.GameThreadNeverCollapses | src/tick.cpp:100-117 | pumped from the game thread with injection ready, no batch ever holds a press and its release, through hits, cancels, reloads, zero delays and stop |
| JumpBatches.TimerSendsOneByOne | src/tick.cpp:100-117 | pumped from the timer with injection ready and no hit that cancels, no settings read again and no stop, every batch is a single transition |
| JumpCollapse.HitCollapsesExactly | src/modules/auto_jump_reset.cpp:121-130 | a hit puts a press and its release together iff it rolls, passes and finds the held key's press still pending |
| JumpCollapse.ConfiguredCollapsesExactly | src/modules/auto_jump_reset.cpp:77-85 | reading settings does iff that press is pending and they change the inject mode, disable the module or change the key |
| JumpCollapse.ActCollapsesExactly | src/modules/auto_jump_reset.cpp:139-156 | the module's visit does iff it is due to release a key whose press is still pending |
| JumpCollapse.StopCollapsesExactly | src/tick.cpp:84-91 | stopping does iff the held key's press is still pending, ready or not |
| JumpCollapse.StepCollapsesExactly | src/tick.cpp:93-120 | of all steps of the machine exactly these do |
| JumpCollapse.RunCollapsesExactly | src/tick.cpp:106-108 | over every run, on any backend and pumped from anywhere, a press and its release come together iff some step releases the key while its press waits |
| JumpCollapse.TimerCancelCollapses | src/tick.cpp:93-117 | a legal run of hits and timer pumps, from any idle ready state with cancelling on, hands a press and its release over in one batch |
| JumpBatches.GameNeverSeesStuckKey | src/keyboard.cpp:253-305 | over every run on the direct backend, with nothing pending, the game sees a key down only in the hold phase of a sequence on it, in every mode |
| KeyMachine.KeyQueue.Queue | src/keyboard.cpp:57-69 | in place, the held array flips and the queue grows by one transition exactly when the key is in range and in the other state; nothing else changes |
| KeyMachine.KeyQueue.Flush | src/keyboard.cpp:218-291 | the delivery loop leaves the state array, the event queue, the batch history and the emptied queue that Keyboard.Flush gives, in every mode, layout and backend |
| KeyMachine.KeyQueue.ReleaseAll | src/keyboard.cpp:293-305 | collecting the held keys, releasing them in order and flushing give Keyboard.ReleaseAll of the old state |
| KeyMachine.AutoJumpReset.OnConfigured | src/modules/auto_jump_reset.cpp:77-85 | after switching the mode, a running sequence is aborted exactly when the module was just disabled or its key changed, with its key released |
| KeyMachine.AutoJumpReset.Configure | src/module.cpp:47-82 | enable and disable are detected from the settings before and after, and passed on |
| KeyMachine.AutoJumpReset.OnLocalPlayerHurt | src/modules/auto_jump_reset.cpp:87-134 | a hit is ignored, arms the cooldown, or starts a sequence after releasing the one it cancels; every field and the keyboard are accounted for |
| KeyMachine.AutoJumpReset.OnTick | src/modules/auto_jump_reset.cpp:136-190 | a tick polls for synthetic hits, then waits, presses, releases or ends the sequence; every field and the keyboard are accounted for |
| KeyMachine.Ticker.Pump | src/tick.cpp:93-120 | a pump is exactly the run of steps the theorems are about: settings (at most every 500 ms), flush, polls, the module's visit, and a second flush on the game thread only |
| KeyMachine.FreshIsSafe | src/keyboard.cpp:41-53 | newly made objects satisfy what the run theorems ask of a start |
| TickSource.AtMostOneMorePump | src/tick.cpp:37-59 | once the game thread has taken over for good, the timer completes at most the pump it is in the middle of |
| TickSource.AtMostOnePumpAfterStop | src/tick.cpp:37-59 | once told to stop, the timer completes at most one pump, the one it is in or is about to decide on after its first flag read |
| TickSource.StopBetweenReadsStillPumps | src/tick.cpp:40-51 | and that one can happen: a stop between the two flag reads does not prevent it |
| TickSource.StoppedTimerFinishes | src/tick.cpp:84-91 | a stopped timer thread is gone after at most four of its steps, so joining it returns |
| TickSource.OneFlusherKeepsOrder | src/keyboard.cpp:218-233 | with one flusher at a time transitions are delivered in the order they were queued, none lost and none twice |
| TickSource.OrderKeptExactly | src/keyboard.cpp:218-233 | with two flushers, whatever they do, transitions are delivered in the order they were queued iff no batch is delivered while one taken earlier is still carried |
| TickSource.TwoFlushersReorder | src/keyboard.cpp:222-233 | overtaking can deliver a release before its press and leave the key down |
| PatternSyntax.AcceptedExactly | src/sigscan.cpp:27-109 | a text is accepted with a pattern iff it spells that pattern in some mixture of the accepted spellings and the pattern starts concrete and has four concrete bytes |
| PatternSyntax.PatternRoundTrip | src/sigscan.cpp:27-109 | every such pattern can be written down and read back |
| PatternSyntax.PatternsMean | src/sigscan.cpp:14-76 | digit pairs in either case are their bytes, one or two question marks are a wildcard, and blanks and hexadecimal prefixes are skipped, in any mixture |
| PatternSyntax.CaseMeansNothing | src/sigscan.cpp:14-22 | texts that differ in the case of their digits read alike |
| PatternSyntax.CharactersRefused | src/sigscan.cpp:63-82 | after any beginning: a character that starts nothing, a digit at the end, and a digit before something that is none are refused for those reasons |
| PatternSyntax.PatternsRefused | src/sigscan.cpp:84-106 | a text without cells, with a wildcard first, or with fewer than four bytes is refused for that reason |
| Scanner.ParsePattern | src/sigscan.cpp:27-109 | the parsing loop fills the pattern's byte and wildcard vectors with the specified cells, or refuses for the specified reason |
| Scanner.FindFrom | src/sigscan.cpp:114-139 | the search that jumps to the first byte returns the first match at or after its start, or none |
| Scanner.MatchesAreAll | src/sigscan.cpp:143-169 | the list the scanner is measured against holds exactly the matching addresses |
| Scanner.MatchesIncrease | src/sigscan.cpp:143-169 | in increasing order, so overlapping matches are included once |
| Scanner.Scan | src/sigscan.cpp:143-155 | scan() returns the k-th match, or none iff there are fewer than k + 1 |
| Scanner.CountMatches | src/sigscan.cpp:157-169 | countMatches() is the number of matches, capped at the limit |
| Scanner.FirstByteMustBeConcrete | src/sigscan.cpp:118-134 | the search agrees with the pattern on every image iff the first byte is concrete |
| Random.NextIsBijective | src/random.cpp:56-64 | a generator step is a bijection of the state with an explicit inverse, and only zero leads to zero |
| Random.SeededIsAlive | src/random.cpp:41-54 | seeding never leaves the zero state |
| Random.ReplacementIsNeverUsed | src/random.cpp:41-54 | no seed gives the zero state, so the replacement for it is never needed |
| Random.FirstDraws | src/random.cpp:41-64 | the state after seeding with 0 and its first three draws |
| Random.OutputIsBijective | src/random.cpp:57-63 | whichever word of the state is known, each result is given by exactly one value of the other |
| Random.NeverDies | src/random.cpp:41-64 | after any seeding and any number of draws the state is not zero |
| Random.Generator.Draw | src/random.cpp:56-64 | a draw updates both words by the specified step and keeps the state alive |
| Random.ExactlyFlat | src/random.cpp:77-89 | the limit is a multiple of the span, every result comes of exactly limit / span accepted draws, and at most span of the 2^64 draws are rejected |
| Random.Uniform | src/random.cpp:77-89 | the loop takes the first accepted draw and maps it into the range; a degenerate range gives its minimum without a draw |
| Random.Pick | src/random.cpp:99-120 | a pick is always a value the range allows, whatever the bell curve gives |

## Left out

- Memory protection, page rounding, cache flushing and symbol lookup: foreign calls. A write takes fully or not at all, a new block is fresh, and reading memory that is not mapped counts as a refusal instead of a crash.
- What displaced instructions do: arbitrary, so an indirect call that pushes its own return address, or code that reads or jumps into the patched bytes, is outside the meaning theorem.
- Addresses of 2^63 and above and 64-bit overflow of address arithmetic in the relocators.
- Agreement of the x86-64 opcode tables with the Intel manual: the theorems are about the tables as they are.
- Rounding of numbers to doubles, infinities, negative zero, and the text of `%.10g`: numbers are exact, and the general number format is a parameter that prints some number token.
- Recursion depth of the parser and the printer, and integer overflow of `indent * depth`.
- The parser's loops are split into more methods than the source has (`ParseMembers`, `ParseMember`, `ParseSeparator`, `ParseEscape` and so on), in the same order and with the same tests.
- Binding of settings, key names, the reference file, logging, status output and all file access: the settings arrive as one value.
- The probability of a chance roll and the shape of the bell curve: a roll passes or fails freely, and a pick is any value of its range.
- The GameActivity backend after a batch is handed over: it may drop keys it cannot map. Test capture is left out.
- Writes to the game's key state by anyone else; the debug trigger key's state is an input.
- Overflow of millisecond times.
- Locks and real scheduling: steps are atomic, except where TickSource splits the timer loop and the flush.
- Termination of the rejection loop with a generator that never gives an accepted word: Random.Uniform is given the words to come, one of which is accepted.
- The link between the generator and the sampler: `uniform` and `pick` take the words to come as an argument and not from the generator object.
- ELF header walking, signature files, the 32-bit fallback and the module registry.
