# A verified model of the L.B. Stanza runtime

This project models the parts of the L.B. Stanza runtime, its bytecode interpreter and its support libraries that hold
state machines, encodings and search structures, and proves what they are for. Each module follows one source file or
one component of it:

- **SHA-256** (`Sha256Spec`, `Sha256`, `Sha256Constants`, `Sha256Example`): the chunk-by-chunk hash of `core/sha256.c`
  against the definition of FIPS 180-4. `calc_chunk` works on the fields of a class, the schedule window and the eight
  working variables are arrays overwritten in place. The two tables are proved to be what the standard says of them,
  roots of the first primes, and the digest of the standard's example is the published one.
- **UTF-8, UTF-16 and UTF-32** (`Unicode`, `ConvertUtf`, `UtfLoops`, `UtfTexts`, `UtfResume`, `UtfLenient`,
  `Keyboard`): the six converters of `ConvertUTF.cpp` as loops over a target array, each equal to a function `Run` that
  takes one character at a time; texts, round trips, resumption, legality and what becomes of sources that are no texts
  are proved about that function against the Unicode Standard (section 3.9, Table 3-7). `Keyboard` is
  the byte-at-a-time reader of `linenoise.cpp` on top of them.
- **JSON of the debug adapter** (`JsonText`, `JsonLayout`, `JsonRoundTrip`, `JsonBuilder`, `JsonParser`,
  `JsonAdapter`): the builder with its comma bits in a 64-bit word, the parser that decodes strings inside its input
  buffer, and the round trip. `JsonLayout` says which texts stand for a value, in any layout, and that the parser
  takes exactly these; `JsonAdapter` has the check of received requests on top of it.
- **The bytecode interpreter** (`VmStack`, `VmCalls`, `VmLoop`): frames, calls, tail calls, coroutine switches and the
  stack extension protocol as a state machine over whole runs, and the dispatch loop that carries it out. Which words
  a turn reads and writes is stated and proved; the results of instructions, the branches taken and the functions and
  stacks named are arbitrary functions of the locals read.
  `WordBits` and `MarkBits` are the heap's mark bitset.
- **Dispatch** (`Dispatch`, `PerfectHash`, `DagEncoder`): multi-argument dispatch by tries of perfect hash tables, the
  generator of these tables in `compiler/hash.stanza`, and the encoding of a dispatch dag as the array of ints that the
  interpreter walks, from the dag to the solution found.
- **The threaded reader** (`ThreadedReader`): both threads of `core/threadedreader.c` as interleaved atomic steps.
- **Table generators** (`SignatureMerge`, `IndexedStrings`): the merging of instruction signatures and the string table
  that shares suffixes.
- **Small state machines**: breakpoint bytes (`Safepoints`, `SafepointsAdapter`), child processes (`ChildProcesses`),
  the best-fit allocator (`FixedAllocator`) and the kill ring (`KillRing`).

Every loop and every object that the source updates in place is a method or a class proved against a function on
values; what the source promises is proved about these functions, for every input, every run or every reachable state.

Assumptions, where the source relies on code outside it:

- Interpreter: the stack extender returns with at least the room requested; a foreign call returns on the stack it was
  called on; the creator of a stack leaves the exit code at its base; indirect calls reach functions; ENTER_STACK names
  a stack that was never entered and YIELD one that was, neither of them the system stack; slots and pushes fit the
  frame size that FNENTRY declares, and return sites pop what the call pushed. Registers are not part of the model.
- Threaded reader: the stream is finite and each read of it returns; memory is sequentially consistent, and the
  mutex is initialised before the new thread's first step (the code creates the thread first).
- Mark bitset: the memory map gives regions inside the address space, page-aligned for the heap; the bitset is
  512-aligned, as the source checks.
- Dispatch: `argtype` is a parameter, a function from argument position to type id. A dag entry refers only to entries
  for later arguments, as `compiler/dispatch-dag.stanza` (642-672) builds them; entries for later arguments get smaller
  numbers there, so the offsets of generated tables do not increase along references. `>>` on a Stanza Int shifts zeros
  in (`core/core.stanza`, 2992-2995), as the interpreter's `dhash` does on `uint32_t`.
- Breakpoints: no two entries of the table share an address, all bytes start as NOP, and the lock makes each operation
  atomic. The file that a path names is a parameter.
- Child processes: a pid is used again only after its last holder was reaped, and every child is registered before
  SIGCHLD is unblocked. The status macros are those of glibc.
- Signatures: `regIndexOf` and `regKindOf` are parameters; rows and operands are distinct objects; flag names are not
  array indices, so they keep insertion order.
- Integers that only count memory (lengths, capacities, offsets) are unbounded; words, bit stacks, hashes, line numbers
  and pointer arithmetic that wrap are modelled with their width.

Where the code falls short of what one would expect of it, the model keeps the code and says exactly when:

- `isLegalUTF8` accepts ED and F4 with a second byte below 80 (`UtfTexts.QuirkIsIllFormed`), which does no harm to the
  values decoded (`UtfTexts.LegalValueIsScalar`).
- An object parsed from JSON lists its fields newest first, keeps the last of repeated keys, and loses integers from
  2^63-1 on to doubles (`JsonRoundTrip.StoredIsMirror`, `JsonRoundTrip.ComesBack`).
- The builder's assertion limits nesting to 64 (`JsonBuilder.FitsExactly`).
- `compact` depends on the order of rows: a settled table has a merge left in another order exactly when some row takes
  in an earlier one, because of their modes or of their registers (`SignatureMerge.OrderMatters`,
  `SignatureMerge.SettledInAnyOrder`).
- The string table stores the empty string although every string ends in it (`IndexedStrings.StoredShareNoSuffix`).
- While all safepoints are enabled a setBreakpoints request turns its file's off: a byte is NOP exactly when such a
  request came since the flag was turned on (`Safepoints.RunIsExact`).
- A status that changes after the handler came to a child stays unreported until the next signal
  (`ChildProcesses.HandlerLeavesNoNews`).
- A second `index()` stores the needed strings once more (`IndexedStrings.IndexedString.Index`).
- An empty kill lets the next kill join an entry that is not the one in turn (`KillRing.KillIsYankedNext`), and a NUL
  cuts a joined text off (`KillRing.KillJoinsFront`).

## Model

| member | source | states |
|---|---|---|
| Sha256Spec.ZeroCountIsSmallest | core/sha256.c:92-111 | the zero padding is the least that leaves the message 8 bytes short of a block (FIPS 180-4, section 5.1.1) |
| Sha256Spec.PaddedLength | core/sha256.c:60-114 | the padded message is ceil((len + 9) / 64) blocks long |
| Sha256.TailSplits | core/sha256.c:60-114 | how one bit, zeros and length fall over the chunk boundary, for every remaining length |
| Sha256.BufferState.constructor | core/sha256.c:50-57 | a fresh state still has the whole padded message to deliver |
| Sha256.BufferState.CalcChunk | core/sha256.c:60-114 | delivers the next 64 bytes of the padded message and keeps the rest, and says no exactly when nothing is left |
| Sha256.BufferState.Pad | core/sha256.c:75-113 | fills the chunk behind the message with the padding due, whatever was delivered before |
| Sha256.StoreBitLength | core/sha256.c:101-107 | the shifted-out bytes are the big-endian 64-bit bit length, without overflow of `len * 8` |
| Sha256.RightRotRotates | core/sha256.c:41-48 | the two-shift form is rotation for all ten counts in use |
| Sha256.SigmasAgree | core/sha256.c:184-191 | the inline s0, s1 of schedule and round are the four sigma functions of FIPS 180-4 |
| Sha256.NextWord | core/sha256.c:182-186 | the schedule recurrence in the operand order of the code |
| Sha256.WordFromWindow | core/sha256.c:182-186 | the word computed from the 16-word window is word 16i+j of the 64-word schedule |
| Sha256.NextScheduleWord | core/sha256.c:178-187 | overwriting slot j keeps the window equal to the last 16 words of the schedule |
| Sha256.DoRound | core/sha256.c:188-202 | shifting the eight words in place is one round on the working variables a to h |
| Sha256.DoRow | core/sha256.c:176-204 | a row of 16 rounds advances the specification by 16 rounds |
| Sha256.CompressChunk | core/sha256.c:147-209 | one chunk updates the hash as section 6.2.2 of FIPS 180-4 does |
| Sha256.Advance | core/sha256.c:146-209 | the loop invariant over a chunk: chunks hashed so far plus what is left make up the padded message |
| Sha256.CalcSha256 | core/sha256.c:124-219 | the digest is that of FIPS 180-4 for every message below 2^64 bits, the range of that standard; above it the length is taken modulo 2^64; the chunks delivered concatenate to the padded message and are ceil((len + 9) / 64) many |
| Sha256Constants.NextPrime | core/sha256.c:20-31 | a number that follows a prime with none of the primes in between is the next prime, counted from the first |
| Sha256Constants.AllRoundConstants | core/sha256.c:20-31 | for each of the 64 rounds there is the t-th prime p and an r with r^3 <= p 2^96 < (r+1)^3 of which the constant is the low 32 bits (FIPS 180-4, section 4.2.2) |
| Sha256Constants.AllInitialWords | core/sha256.c:135-139 | the same of the eight initial words with r^2 <= p 2^64 < (r+1)^2 (FIPS 180-4, section 5.3.3) |
| Sha256Example.DigestOfAbc | core/sha256.c:124-219 | the digest of the three bytes abc is the published one, through padding, schedule and all rounds |
| Unicode.WellFormedCharIsEncoded | runtime/linenoise-ng/ConvertUTF.cpp:286-319 | Table 3-7 admits only encodings of scalar values |
| Unicode.EncodedIsWellFormed | runtime/linenoise-ng/ConvertUTF.cpp:286-319 | and all of them, also in sequence |
| Unicode.DecodesEncoded | runtime/linenoise-ng/ConvertUTF.cpp:186-192 | decoding inverts encoding for every scalar value |
| UtfLoops.IsLegalUTF8 | runtime/linenoise-ng/ConvertUTF.cpp:296-319 | accepts exactly the sequences of Table 3-7 and the quirk: lead ED or F4 with a second byte below 80 |
| UtfLoops.ReadChar | runtime/linenoise-ng/ConvertUTF.cpp:357-365 | the fall-through reading switch computes the value of the bytes, the offset taken off |
| UtfLoops.WriteChar | runtime/linenoise-ng/ConvertUTF.cpp:270-276 | the backwards writing switch stores the bytes of the character and nothing else |
| UtfLoops.ConvertUTF32toUTF16 | runtime/linenoise-ng/ConvertUTF.cpp:62-107 | the loop writes, reads and returns exactly what `Run` says, for all input, room and flags; the rest of the target is untouched |
| UtfLoops.ConvertUTF16toUTF32 | runtime/linenoise-ng/ConvertUTF.cpp:111-161 | delivers exactly `Run`, with the source pointer backed up before a pair that is cut off or illegal |
| UtfLoops.ConvertUTF16toUTF8 | runtime/linenoise-ng/ConvertUTF.cpp:215-281 | delivers exactly `Run`: pairs joined, bytes written backwards, both pointers backed up when the target is full |
| UtfLoops.ConvertUTF8toUTF16 | runtime/linenoise-ng/ConvertUTF.cpp:337-406 | delivers exactly `Run`: length and legality checked first, values above FFFF split into a pair or not written at all |
| UtfLoops.ConvertUTF32toUTF8 | runtime/linenoise-ng/ConvertUTF.cpp:410-459 | delivers exactly `Run`: an illegal value is noted in the result, replaced, and conversion goes on |
| UtfLoops.ConvertUTF8toUTF32 | runtime/linenoise-ng/ConvertUTF.cpp:463-521 | delivers exactly `Run`: every legal sequence gives one value, an illegal one stops before it |
| UtfTexts.ConvertsText | runtime/linenoise-ng/ConvertUTF.cpp:62-521 | each converter, in either mode, maps the encoding of any text to the encoding of the same text |
| UtfTexts.RoundTrip | runtime/linenoise-ng/ConvertUTF.cpp:62-521 | converting there and back is the identity, for all six converters |
| UtfTexts.RoundTrip32Through8 | runtime/linenoise-ng/ConvertUTF.cpp:410-521 | UTF-32 to UTF-8 to UTF-32 is the identity on every sequence of scalar values |
| UtfTexts.RoundTrip8Through16 | runtime/linenoise-ng/ConvertUTF.cpp:215-406 | UTF-8 to UTF-16 to UTF-8 is the identity on every well-formed UTF-8 |
| UtfTexts.Triangle | runtime/linenoise-ng/ConvertUTF.cpp:337-521 | UTF-8 to UTF-16 equals UTF-8 to UTF-32 to UTF-16 |
| UtfTexts.LegalValueIsScalar | runtime/linenoise-ng/ConvertUTF.cpp:296-319 | whatever passes the legality check decodes to a scalar value, the quirk included |
| UtfTexts.QuirkIsIllFormed | runtime/linenoise-ng/ConvertUTF.cpp:296-319 | ED 00 80 and F4 7F 80 BF pass the check though Table 3-7 excludes them |
| UtfTexts.DecodersIgnoreFlags | runtime/linenoise-ng/ConvertUTF.cpp:371-402 | on any bytes strict and lenient mode agree: the decoders' surrogate and over-range branches are dead |
| UtfTexts.DecoderWritesScalars | runtime/linenoise-ng/ConvertUTF.cpp:463-521 | whatever the bytes, the UTF-32 decoder writes only scalar values |
| UtfTexts.AcceptsOnlyTexts | runtime/linenoise-ng/ConvertUTF.cpp:62-281 | strict conversion from UTF-16 or UTF-32 succeeds only on encodings of texts |
| UtfTexts.Accepts8ExactlyLegal | runtime/linenoise-ng/ConvertUTF.cpp:337-521 | conversion from UTF-8 succeeds exactly on sequences of legal characters |
| UtfLenient.StopsAtFirstIllegal | runtime/linenoise-ng/ConvertUTF.cpp:62-521 | strict conversion of a text with something illegal behind it stops in front of that, with the whole text converted and the code for an illegal source |
| UtfLenient.StopsWhereCutShort | runtime/linenoise-ng/ConvertUTF.cpp:62-521 | in either mode a source that ends within a character is exhausted in front of it, with all before it converted |
| UtfLenient.LenientRepairs | runtime/linenoise-ng/ConvertUTF.cpp:62-107 | lenient UTF-32 to UTF-16 takes any source and gives the UTF-16 of the text with U+FFFD for each unit that is no scalar value |
| UtfLenient.LenientKeepsSurrogates | runtime/linenoise-ng/ConvertUTF.cpp:410-459 | lenient UTF-32 to UTF-8 encodes surrogates like other values, puts U+FFFD for units out of range and reports exactly whether there was one |
| UtfLenient.LenientPassesSurrogates | runtime/linenoise-ng/ConvertUTF.cpp:111-281 | lenient conversion from UTF-16 joins pairs and passes every surrogate on that is in none |
| UtfLenient.StrictDropsOutOfRange | runtime/linenoise-ng/ConvertUTF.cpp:62-107 | strict UTF-32 to UTF-16 leaves units out of range out, goes on to the end and reports exactly whether there was one |
| UtfLenient.StrictReplacesOutOfRange | runtime/linenoise-ng/ConvertUTF.cpp:410-459 | strict UTF-32 to UTF-8 does with such units what lenient conversion does |
| UtfResume.TargetCut | runtime/linenoise-ng/ConvertUTF.cpp:62-521 | stopping for lack of target at any capacity and continuing gives the units, the position and the exact result code of one call, on any input; a good end of the second call hides an illegal value exactly when the first noted one |
| UtfResume.SourceCut | runtime/linenoise-ng/ConvertUTF.cpp:62-521 | cutting the source at any unit and continuing from the returned pointers gives what one call gives, the result code exactly, as for the target |
| UtfResume.NotedIsReported | runtime/linenoise-ng/ConvertUTF.cpp:410-459 | a call that ends well noted no illegal value |
| UtfResume.EnoughRoom | runtime/linenoise-ng/ConvertUTF.cpp:62-521 | a call that did not run out of target does not depend on the room |
| UtfResume.Progress | runtime/linenoise-ng/ConvertUTF.cpp:62-521 | with room for one character a call that runs out of target has read something |
| UtfResume.PiecesAreWhole | runtime/linenoise-ng/ConvertUTF.cpp:62-521 | repeating calls with targets of any sizes from 4 up ends and gives the one call's output; the last code is that call's, unless all ends well and an illegal value was noted on the way |
| Keyboard.CopyString8to32 | runtime/linenoise-ng/linenoise.cpp:138-157 | converts up to the terminator, counts the characters and terminates them when there is room |
| Keyboard.Decoder.ReadUnicodeCharacter | runtime/linenoise-ng/linenoise.cpp:1364-1396 | the byte loop over its static buffer returns what the abstract reader does and leaves the same bytes pending |
| Keyboard.PrefixOfChar | runtime/linenoise-ng/linenoise.cpp:1378-1390 | no proper prefix of a character is taken for one, the whole is |
| Keyboard.FinishesChar | runtime/linenoise-ng/linenoise.cpp:1364-1396 | however many bytes are pending, the character is returned at its last byte |
| Keyboard.ReadsText | runtime/linenoise-ng/linenoise.cpp:1364-1396 | fed the UTF-8 of any text, successive calls return its characters |
| Keyboard.WaitsForMore | runtime/linenoise-ng/linenoise.cpp:1364-1396 | a call that meets the end of the input inside a character returns 0 and keeps the bytes so far |
| Keyboard.GoesOn | runtime/linenoise-ng/linenoise.cpp:1364-1396 | on any bytes, input that comes in two parts is read like the whole |
| Keyboard.BackInStep | runtime/linenoise-ng/linenoise.cpp:1364-1396 | whatever was pending and whatever bytes come, the next ASCII byte is returned by some call with nothing pending behind it |
| JsonBuilder.PushKeepsTheStack | debug/debug-adapter.c:723-726 | a push through the 64-bit shift keeps the stack of booleans exactly when the assertion before it holds |
| JsonBuilder.FitsExactly | debug/debug-adapter.c:718-729 | the assertion never fails for a tree exactly when it nests at most 64 deep |
| JsonBuilder.JSBuilder.constructor | debug/debug-adapter.c:701-708 | an empty buffer and one level without an entry |
| JsonBuilder.JSBuilder.SetNext | debug/debug-adapter.c:718-722 | answers whether the level had an entry and marks it, on the stack that the word stands for |
| JsonBuilder.JSBuilder.Indent | debug/debug-adapter.c:829-832 | one more level, no entry in it yet |
| JsonBuilder.JSBuilder.Unindent | debug/debug-adapter.c:833-837 | back to the level below with its own comma state |
| JsonBuilder.JSBuilder.EnsureCapacity | debug/debug-adapter.c:731-745 | doubling keeps what was written |
| JsonBuilder.JSBuilder.AppendEscaped | debug/debug-adapter.c:787-819 | copying runs of plain characters gives the escape of each character in turn |
| JsonBuilder.JSBuilder.Next | debug/debug-adapter.c:846-850 | a comma unless it is the level's first entry, a new line and the indentation |
| JsonBuilder.JSBuilder.WriteField | debug/debug-adapter.c:852-882 | separator, name, colon and value |
| JsonBuilder.JSBuilder.StructureBegin | debug/debug-adapter.c:883-886 | the brace and a new level |
| JsonBuilder.JSBuilder.StructureEnd | debug/debug-adapter.c:887-891 | the level is dropped, the brace stands on its own line |
| JsonBuilder.JSBuilder.WriteValue | debug/debug-adapter.c:762-920 | appends the text of the tree and leaves the stack of levels as it was |
| JsonRoundTrip.ReadsEscape | debug/debug-adapter.c:618-642 | a written string is read back exactly when its characters are read without `\u`, else the parser refuses |
| JsonRoundTrip.EscapeDenotes | debug/debug-adapter.c:787-819 | what the builder writes for any string stands for it by section 7 of RFC 8259, the four hex digits of control characters included |
| JsonRoundTrip.LayoutExample | debug/debug-adapter.c:838-891 | a nested tree as written: two spaces a level, an entry a line, the closing brace on its own |
| JsonLayout.ReadsLayout | debug/debug-adapter.c:604-692 | every spelling of a value, with any gaps of space, tab, LF, CR, VT or FF between its tokens, plain or escaped characters, signs, fractions and exponents, is read as that value, before any text that does not continue a number |
| JsonLayout.ParsedIsSpelled | debug/debug-adapter.c:604-692 | whatever text the parser takes is a spelling of its result |
| JsonLayout.ParsesExactlySpellings | debug/debug-adapter.c:604-692 | so it takes a text, with a value and a rest, exactly when the text is a gap, a spelling of the value and that rest |
| JsonLayout.ReadsNumber | debug/debug-adapter.c:669-689 | a number in any spelling: an integer when it is a sign and digits within the range of strtoll, else the token of a double |
| JsonLayout.ReadsPieces | debug/debug-adapter.c:618-642 | plain characters and the eight escapes, `\/` among them, in any mixture give the string they stand for |
| JsonLayout.ReadsName | debug/debug-adapter.c:647-657 | a plain key is read back |
| JsonRoundTrip.DecimalValue | debug/debug-adapter.c:762-766 | the decimal digits of a number denote it |
| JsonRoundTrip.ReadsDecimal | debug/debug-adapter.c:669-689 | a written number is read back up to where strtoll saturates |
| JsonRoundTrip.TextIsLayout | debug/debug-adapter.c:762-920 | what the builder writes for a tree is one of the spellings of its stored form, at any indentation |
| JsonRoundTrip.ReadsText | debug/debug-adapter.c:604-692 | every writable tree is read back as stored, at any indentation, before any text that does not continue a number: a corollary of the two |
| JsonRoundTrip.StoredIsMirror | debug/debug-adapter.c:482-495 | a tree is stored as its mirror image exactly when its keys are distinct and its integers below 2^63-1 |
| JsonRoundTrip.MirrorTwice | debug/debug-adapter.c:482-495 | reversing the fields of all objects undoes itself |
| JsonRoundTrip.ComesBack | debug/debug-adapter.c:604-920 | printing then parsing gives the tree back, up to field order, exactly when it is exact |
| JsonRoundTrip.FindsLastWritten | debug/debug-adapter.c:477-495 | with repeated keys the field found is the one written last |
| JsonParser.JSParser.constructor | debug/debug-adapter.c:558-565 | the parser starts on the terminated buffer |
| JsonParser.JSParser.ParseString | debug/debug-adapter.c:618-642 | decoding in place never overtakes the reading pointer: the string is the specification's, unread input is untouched |
| JsonParser.JSParser.ParseName | debug/debug-adapter.c:647-653 | a key is terminated in place at its closing quote, and unread input is untouched |
| JsonParser.JSParser.ParseNumber | debug/debug-adapter.c:669-689 | an integer is taken when all was read by strtoll, else the value is a double, kept as its token |
| JsonParser.JSParser.ParseValue | debug/debug-adapter.c:604-692 | equals the specification parser on every input and touches nothing it has not read; both stop at a failed nested value, where the source goes on with its error noted, so that a request is refused all the same |
| JsonParser.JSParser.ParseItems | debug/debug-adapter.c:661-668 | the array loop equals the specification, the items read so far kept while later ones are decoded; a failed element ends it |
| JsonParser.JSParser.ParseFields | debug/debug-adapter.c:643-660 | the object loop equals the specification, repeated keys replacing the value in place; a failed value ends it |
| JsonParser.JSParser.ParseField | debug/debug-adapter.c:647-657 | key, colon and value equal the specification; a failed value fails the field |
| JsonAdapter.PrintThenParse | debug/debug-adapter.c:604-920 | a fresh builder followed by the in-place parser returns the tree, unchanged up to field order exactly when it is exact |
| JsonAdapter.FindsLastMember | debug/debug-adapter.c:477-495 | in any layout the field found is the last member with the name |
| JsonAdapter.RequestsExactly | debug/debug-adapter.c:3280-3302 | a text is taken for a request with a command exactly when it is one object in some layout, alone but for gaps, whose last type is the string request and whose last command is that string |
| JsonAdapter.GetStringField | debug/debug-adapter.c:510-513 | the string of that field, or nothing when it is missing or no string |
| JsonAdapter.ParseRequest | debug/debug-adapter.c:3280-3302 | the in-place parser and the checks behind it decide exactly this, for every buffer |
| VmStack.StepKeepsInv | compiler/cvm.c:970-1120 | every frame opcode keeps the machine's invariant, stack extension and coroutine switches included |
| VmStack.TouchesInBounds | compiler/cvm.c:593-1120 | every word of a frame that a turn reads or writes, the slots that name callees included, and both words of a pushed header lie on their stack |
| VmStack.StepWrites | compiler/cvm.c:970-1120 | a word that a turn changes is one of those it is said to write, for every word of every stack |
| VmStack.StepReads | compiler/cvm.c:970-1120 | a turn depends on no words but those it is said to read: two machines that agree on them take the same turn and write the same |
| VmStack.RunIsSafe | compiler/cvm.c:970-1120 | over whole runs the invariant holds and no word read or written is off its stack |
| VmStack.RunStaysInside | compiler/cvm.c:970-1120 | so in a run no word outside the stacks ever changes |
| VmStack.StartsInOrder | compiler/cvm.c:593-598 | a machine set up with a fresh stack and a spare system stack satisfies the invariant |
| VmCalls.CalleeGivesBack | compiler/cvm.c:970-1051 | a call, any run of the callee, its return and the pop: stack pointer, frame and everything below are as before |
| VmCalls.CallWrites | compiler/cvm.c:970-997 | a call writes one return address behind its frame and nothing below it |
| VmCalls.FrameAfter | compiler/cvm.c:1022-1145 | a move sets its one local and no other, a branch and the noting of live locals set none, a foreign call none below its header; which local gets what is read off the operands |
| VmCalls.EntersCallee | compiler/cvm.c:970-1073 | calls, tail calls and the start of a coroutine come to the entry of the function that the locals name, on the right stack, with the stack pointer moved by the frame, kept or at the base |
| VmCalls.EntryMakesRoom | compiler/cvm.c:2229-2259 | a function's entry goes on at once exactly when its frame and a header fit, else behind the extender with the same contents, and then they fit |
| VmCalls.RunHolds | compiler/cvm.c:970-1120 | until the callee returns nothing in a run changes the caller's part of the stack |
| VmCalls.YieldResumes | compiler/cvm.c:1057-1085 | a coroutine that yields, to itself included, is resumed behind its yield with the stack pointer and memory it had, whatever ran in between |
| VmCalls.Suspended | compiler/cvm.c:1057-1085 | a suspended stack is not touched until it is resumed |
| VmCalls.OtherStackKept | compiler/cvm.c:1057-1120 | no step changes a stack that is not current, except that extension may enlarge the system stack |
| VmCalls.TailCallsUseNoStack | compiler/cvm.c:998-1021 | a run of tail calls ends with the stack pointer and the return address it began with |
| VmLoop.Vm.Dispatch | compiler/cvm.c:970-1120 | the turn of the loop on the interpreter's variables is the step of the state machine |
| Dispatch.ScanFindsFirst | compiler/cvm.c:2363-2369 | the scan of a small table gives the first entry with the key, or the default |
| Dispatch.HashedIsScan | compiler/cvm.c:2377-2404 | in a well-placed table the two-level hash finds what a scan finds, for every type id |
| Dispatch.AbsentGetsDefault | compiler/cvm.c:2388-2404 | an id that is no key gets the default, however the entries are placed |
| Dispatch.ScanExactlyIfKeysFound | compiler/cvm.c:2388-2404 | hash and scan agree on all ids exactly when they agree on the table's keys |
| Dispatch.ChooseIsScan | compiler/cvm.c:2406-2414 | the branch that a trie table takes is the decision tree's |
| Dispatch.IncreasingIsTrie | compiler/cvm.c:2406-2414 | increasing offsets are one way of never going round |
| Dispatch.LookupSmallEtable | compiler/cvm.c:2363-2369 | the loop is the scan |
| Dispatch.LookupTrieTable | compiler/cvm.c:2388-2404 | small or hashed, a table's lookup is the scan of its entries |
| Dispatch.ReadDispatchTable | compiler/cvm.c:2406-2414 | the walk ends with the value of the nested decision tree, for any references between tables that never go round |
| Dispatch.KnownMixes | compiler/cvm.c:2377-2386 | three values of the hash before the modulo |
| PerfectHash.BucketHas | compiler/hash.stanza:103-106 | a bucket has exactly the entries that the first hash sends to it, each once |
| PerfectHash.NotAllLarge | compiler/hash.stanza:138-152 | with as many buckets as entries the walk over the large ones meets a small one |
| PerfectHash.LeastSpreads | compiler/hash.stanza:114-129 | the seed found is the least that spreads the bucket; none is found exactly when none up to the largest does |
| PerfectHash.PutAllAt | compiler/hash.stanza:132-135 | a spread bucket fills slots that were free, each entry where its hash leads, and no other |
| PerfectHash.BucketPlaced | compiler/hash.stanza:143-148 | after a large bucket its entries are found through its seed, and all placed before still are |
| PerfectHash.SinglePlaced | compiler/hash.stanza:157-162 | after a single entry it is found through its negative displacement, and all placed before still are |
| PerfectHash.FreeSlotMeansWork | compiler/hash.stanza:157-160 | while a slot is free some bucket that is not done has an entry: counted over any partial placement |
| PerfectHash.LeftOverIsEmpty | compiler/hash.stanza:155-162 | when the slots are full every bucket left over is empty: as many had one entry as slots were free |
| PerfectHash.FullIsPerfect | compiler/hash.stanza:175-182 | a full table holds exactly the entries, each at the slot that its hashes lead to |
| PerfectHash.Order | compiler/hash.stanza:108-109 | the bucket indices in a permutation by falling size |
| PerfectHash.Builder.constructor | compiler/hash.stanza:86-113 | a builder on distinct keys |
| PerfectHash.Builder.PutInBuckets | compiler/hash.stanza:96-109 | the buckets are those of the first hash, ordered by size, and nothing is placed |
| PerfectHash.Builder.TrySpread | compiler/hash.stanza:117-129 | with stamps for slots the loop decides whether the seed sends the keys to slots that are free and distinct |
| PerfectHash.Builder.ComputeD | compiler/hash.stanza:114-129 | the least seed from 2 that spreads the bucket, or none |
| PerfectHash.Builder.PutInEtable | compiler/hash.stanza:132-135 | stores each entry at its hash |
| PerfectHash.Builder.PutBuckets | compiler/hash.stanza:138-152 | the large buckets are placed in order up to the first small one, or one of them cannot be spread |
| PerfectHash.Builder.PutSingles | compiler/hash.stanza:155-162 | every free slot takes the one entry of the next bucket, all slots end full, and the buckets left over are empty |
| PerfectHash.Builder.Build | compiler/hash.stanza:165-173 | the table is perfect and its seed is the first that does not get stuck |
| PerfectHash.PerfectHashTable | compiler/hash.stanza:82-201 | the table returned is perfect: it has the entries and no others, and the two hashes lead every key to its slot; none is returned only when keys repeat or every seed tried gets stuck |
| DagEncoder.SpreadPicks | compiler/dag-encoder.stanza:76-81 | spreading the branches over their types keeps what each type leads to |
| DagEncoder.ChoiceOfSet | compiler/dag-encoder.stanza:93-101 | with distinct keys the order in which the hash table lays the entries out does not matter |
| DagEncoder.FilledHolds | compiler/dag-encoder.stanza:104-108 | with the addresses filled in the array holds each entry's table where it was laid out |
| DagEncoder.HoldsIsPlaced | compiler/dag-encoder.stanza:83-102 | such a table fits the array and is well placed, which is what lookup needs |
| DagEncoder.ScanIsPick | compiler/dag-encoder.stanza:75-102 | scanning it finds what the dag entry picks for the type |
| DagEncoder.EncodedIsTrie | compiler/dag-encoder.stanza:58-66 | the array is a trie for the interpreter |
| DagEncoder.EncodedEvaluates | compiler/dag-encoder.stanza:53-112 | the decision tree of the array gives the solution that the dag dispatches to, for all argument types |
| DagEncoder.SpreadOut | compiler/dag-encoder.stanza:77-81 | the two loops give one entry for each type of each branch |
| DagEncoder.Encode | compiler/dag-encoder.stanza:75-102 | appends the encoding of one dag entry, or reports that its keys repeat or that no seed was found for them |
| DagEncoder.FillAddresses | compiler/dag-encoder.stanza:104-108 | every reference becomes the address of its table |
| DagEncoder.EncodeDag | compiler/dag-encoder.stanza:53-112 | the array holds every entry of the dag, the first at its start; it fails only when some entry does |
| DagEncoder.EncodeAndDispatch | compiler/dag-encoder.stanza:53-112 | encoding a dag and walking the array as the interpreter does gives the solution that the dag dispatches to |
| WordBits.OrBits | compiler/cvm.c:737-748 | setting a bit changes that bit only |
| WordBits.AndNotBits | compiler/cvm.c:740-754 | clearing a bit changes that bit only |
| MarkBits.AddressInBitset | compiler/cvm.c:734-736 | with the base wrapped around 2^64 the word of every heap address is 8-aligned and inside the bytes mapped |
| MarkBits.OffsetFits | runtime/driver.c:780-784 | the size of the bitset covers the word of every heap offset |
| MarkBits.DistinctBits | compiler/cvm.c:725-736 | distinct 8-aligned heap addresses have distinct bits |
| MarkBits.OneBitChanges | compiler/cvm.c:737-742 | marking or clearing one address changes the mark of no other |
| MarkBits.MarkingIsASet | compiler/cvm.c:737-742 | the marks refine a set of addresses: set adds, clear removes |
| MarkBits.RunOfMarks | compiler/cvm.c:737-754 | after any run an address is marked exactly when the last operation on it was a set |
| MarkBits.Bitset.constructor | runtime/driver.c:825-836 | the base computed from heap and bitset |
| MarkBits.Bitset.SetMarkAt | compiler/cvm.c:737-739 | adds the address to the set |
| MarkBits.Bitset.ClearMarkAt | compiler/cvm.c:740-742 | takes the address out |
| MarkBits.Bitset.SetBit | compiler/cvm.c:743-748 | set_bit of p >> 3 is set_mark of p |
| MarkBits.Bitset.ClearBit | compiler/cvm.c:749-754 | clear_bit of p >> 3 is clear_mark of p |
| MarkBits.Bitset.TestBit | compiler/cvm.c:755-759 | 1 exactly for members of the set |
| MarkBits.Bitset.TestAndSetBit | compiler/cvm.c:760-767 | the old membership, and the address added |
| MarkBits.Bitset.TestAndClearBit | compiler/cvm.c:768-775 | the old membership, and the address removed |
| ThreadedReader.EnsureBufferCapacity | core/threadedreader.c:55-65 | doubles to the first capacity that suffices: the old one, or one less than twice the size wanted |
| ThreadedReader.NextKeepsInv | core/threadedreader.c:67-127 | every atomic step of either thread keeps the invariant on locking, freeing, stopping and contents |
| ThreadedReader.Reachable | core/threadedreader.c:67-224 | it holds in every state of every interleaving |
| ThreadedReader.FreedExactlyOnce | core/threadedreader.c:211-224 | freed at most once, exactly when thread and client are both through, by no holder of the mutex, and not touched after |
| ThreadedReader.NoDeadlock | core/threadedreader.c:88-127 | until then some thread can move |
| ThreadedReader.MoveLeavesLess | core/threadedreader.c:67-224 | every move of the thread leaves it less to do and no move of the owner leaves it more; within a call the owner's moves leave the owner less |
| ThreadedReader.ThreadEnds | core/threadedreader.c:88-127 | in no run does the thread make more than eight moves for each character of the stream, and eight |
| ThreadedReader.StopIsPrompt | core/threadedreader.c:67-127 | after a stop the thread makes at most eleven moves, whatever the stream still holds |
| ThreadedReader.StuckMeansDone | core/threadedreader.c:88-127 | a thread that cannot move is done, with `running` at 0 and the whole stream read unless stopped, or waits for the mutex that the owner holds |
| ThreadedReader.OwnerReleases | core/threadedreader.c:171-224 | the owner gives the mutex back within three moves of its own, none of which can be blocked |
| ThreadedReader.CallDoesItsWork | core/threadedreader.c:171-224 | a stop comes back with the stop requested and `running` at 0; after a delete the reader is freed or the busy thread has the order to free it |
| ThreadedReader.BufferIsPrefix | core/threadedreader.c:67-82 | the buffer is a prefix of the stream, all of it when the reader ended by itself, as it does without a stop |
| ThreadedReader.StoppedMeansFrozen | core/threadedreader.c:171-201 | once `running` is 0 buffer and length never change |
| ThreadedReader.StopStops | core/threadedreader.c:171-176 | a stop that returned leaves `running` at 0 |
| SignatureMerge.Equals | libs/asmjit/tools/tablegen.js:391-395 | true exactly for the same keys |
| SignatureMerge.XorKeys | libs/asmjit/tools/tablegen.js:425-430 | the keys that exactly one map has, each once |
| SignatureMerge.OSignature.Xor | libs/asmjit/tools/tablegen-x86.js:1055-1058 | null exactly when both operands list the same flags |
| SignatureMerge.UnionHasBoth | libs/asmjit/tools/tablegen-x86.js:1090-1093 | merged flags are those of either operand |
| SignatureMerge.OSignature.MergeWith | libs/asmjit/tools/tablegen-x86.js:1060-1094 | merges exactly when no indexed register of another kind would come to a register operand, and else changes nothing |
| SignatureMerge.MergedTakesBoth | libs/asmjit/tools/tablegen-x86.js:1255-1291 | a merged row takes exactly the tuples that one of the two took |
| SignatureMerge.ISignature.OnlyDifference | libs/asmjit/tools/tablegen-x86.js:1272-1281 | finds the one operand listed differently, and fails for several |
| SignatureMerge.ISignature.MergeWith | libs/asmjit/tools/tablegen-x86.js:1255-1291 | decides and merges as specified on the two rows, and leaves the row alone when it refuses |
| SignatureMerge.MergeAccepts | libs/asmjit/tools/tablegen-x86.js:1255-1291 | what one merge does to each mode: X64 as before, X86 gains the other row's tuples exactly in the X86-and-X64 with X64 case |
| SignatureMerge.MergeKeepsMeaning | libs/asmjit/tools/tablegen-x86.js:1436-1453 | X64 acceptance unchanged, X86 only grows, and only by what X64 accepted |
| SignatureMerge.SignatureArray.MergeOne | libs/asmjit/tools/tablegen-x86.js:1442-1447 | one merge and splice in place |
| SignatureMerge.SignatureArray.Compact | libs/asmjit/tools/tablegen-x86.js:1436-1453 | terminates, keeps the meaning of the table, and leaves no row that can take in a later one; none can take in any other exactly when no pair merges only backward |
| SignatureMerge.OrderMatters | libs/asmjit/tools/tablegen-x86.js:1255-1281 | for all rows: a does not take in b while b takes in a, exactly when they list the same operands but for at most one and either a is for X64 alone and b for both modes, or the modes are equal and the differing operand merges only towards b |
| SignatureMerge.SettledInAnyOrder | libs/asmjit/tools/tablegen-x86.js:1436-1453 | no merge is left in any order exactly when no pair of rows, earlier and later, meets that condition |
| SignatureMerge.ModesMatter | libs/asmjit/tools/tablegen-x86.js:1255-1261 | the witness for the modes |
| SignatureMerge.OperandsMatter | libs/asmjit/tools/tablegen-x86.js:1060-1082 | the witness for the operands: r32 does not take in eax, but eax takes in r32 |
| IndexedStrings.RepresentativeIsLongest | libs/asmjit/tools/tablegen.js:498-510 | a suffix's representative is a longest key that ends in it |
| IndexedStrings.RepresentativeOfKey | libs/asmjit/tools/tablegen.js:498-515 | so a key's representative is its own representative, hence stored |
| IndexedStrings.KeepsUnendedKeys | libs/asmjit/tools/tablegen.js:512-515 | the stored keys are those no other key ends in, and the empty key |
| IndexedStrings.EnterKey | libs/asmjit/tools/tablegen.js:498-510 | one key's turn of the loop over its suffixes |
| IndexedStrings.Sort | libs/asmjit/tools/tablegen.js:516 | the default sort: the same strings, each as often, in code unit order |
| IndexedStrings.DataHolds | libs/asmjit/tools/tablegen.js:518-527 | each stored string is at its offset in the data, NUL behind it |
| IndexedStrings.Layout | libs/asmjit/tools/tablegen.js:518-528 | the accumulated offsets and size are those of the data |
| IndexedStrings.ReadsBack | libs/asmjit/tools/tablegen.js:518-534 | read as a C string the data give a key back exactly when it has no NUL |
| IndexedStrings.IndexedString.Add | libs/asmjit/tools/tablegen.js:486-488 | a new key, once |
| IndexedStrings.IndexedString.Index | libs/asmjit/tools/tablegen.js:490-535 | every added string is found at its offset, followed by NUL; the sorted strings are those an earlier call stored and each needed key once more |
| IndexedStrings.IndexedOnce | libs/asmjit/tools/tablegen.js:512-516 | a table indexed once stores each key that no other ends in, and the empty key, once and nothing else |
| IndexedStrings.StoredShareNoSuffix | libs/asmjit/tools/tablegen.js:512-515 | no stored string is a suffix of another exactly when the empty string was not added beside others |
| IndexedStrings.EmptyStringIsStored | libs/asmjit/tools/tablegen.js:499-501 | the counterexample: the empty string and another are both stored |
| Safepoints.FindEntry | debug/safepoints.h:56-62 | the first entry at or after the line, or none |
| Safepoints.ChosenAreFirstAtOrAfter | debug/debug-adapter.c:2031-2051 | an entry is chosen exactly when some requested line has it as its first entry at or after |
| Safepoints.LineIsUnsigned | debug/debug-adapter.c:2031-2037 | a requested line from 0 up stays, a negative one is the large unsigned number with the same bits |
| Safepoints.RepliesAnswer | debug/debug-adapter.c:2031-2051 | one reply for each breakpoint object, in order: it names the entry with all earlier ones before the line and itself not, and carries that entry's line; it names none and carries the line asked for exactly when all entries lie before it |
| Safepoints.EnableKeepsInv | debug/debug-adapter.c:226-233 | enabling all keeps the invariant |
| Safepoints.DisableKeepsInv | debug/debug-adapter.c:234-242 | disabling all restores exactly the active entries |
| Safepoints.SetKeepsInv | debug/debug-adapter.c:2011-2063 | a setBreakpoints request keeps the invariant, with the flag on or off |
| Safepoints.ActiveAreLastChosen | debug/debug-adapter.c:191-210 | after any run the active entries of a file are those its last request chose |
| Safepoints.FlagIsLastSwitch | debug/debug-adapter.c:226-242 | the flag is on exactly when the last switch in the commands turned it on |
| Safepoints.RunIsExact | debug/debug-adapter.c:191-242 | flag off: INT3 exactly at the entries that the file's last request chose; flag on: INT3 exactly in files without a request since the flag was turned on, all read off the commands |
| Safepoints.OtherBytesStay | debug/safepoints.h:25-72 | bytes that belong to no safepoint are never written |
| SafepointsAdapter.Adapter.WriteEntry | debug/safepoints.h:25-28 | stores the instruction at each address of the list |
| SafepointsAdapter.Adapter.WriteFile | debug/safepoints.h:52-55 | at each address of the file |
| SafepointsAdapter.Adapter.WriteTable | debug/safepoints.h:68-72 | at each address of the table |
| SafepointsAdapter.Adapter.Find | debug/safepoints.h:56-62 | the search loop is the function |
| SafepointsAdapter.Adapter.Destroy | debug/debug-adapter.c:202-210 | unlinks the file's first node |
| SafepointsAdapter.Adapter.Restore | debug/debug-adapter.c:211-215 | INT3 at every address of every active entry |
| SafepointsAdapter.Adapter.EnableAll | debug/debug-adapter.c:226-233 | all bytes INT3 and the flag on, or nothing when it was on |
| SafepointsAdapter.Adapter.DisableAll | debug/debug-adapter.c:234-242 | all bytes NOP but those of active entries, or nothing when the flag was off |
| SafepointsAdapter.Adapter.SetBreakpoints | debug/debug-adapter.c:2011-2063 | the file's node replaced, its bytes rewritten unless all are enabled, and the reply to every breakpoint object |
| SafepointsAdapter.Adapter.Choose | debug/debug-adapter.c:2031-2051 | the loop over the breakpoints writes each newly found entry once, unless all are enabled |
| ChildProcesses.MakeProcessState | runtime/process-posix.c:285-298 | done or terminated exactly for dead records |
| ChildProcesses.EncodedStatuses | runtime/process-posix.c:285-298 | over encoded statuses: n 256 is an exit with n, a signal with or without the core bit a termination by it, n 256 + 127 a stop by n, FFFF running |
| ChildProcesses.SweepKeepsOrder | runtime/process-posix.c:160-180 | the sweep removes exactly the dead unreferenced records and keeps the order of the rest |
| ChildProcesses.StatusLandsOnItsProcess | runtime/process-posix.c:57-63 | a waited status finds the newest record with the pid, which is its own process's and not dead |
| ChildProcesses.StepKeepsInv | runtime/process-posix.c:71-180 | launch, status change, wait, unreference and sweep keep: a record is dead exactly when its process was reaped |
| ChildProcesses.RecordHoldsItsReport | runtime/process-posix.c:126-146 | in every run each record holds the status last waited for its own process, or none |
| ChildProcesses.PendingIsUnreported | runtime/process-posix.c:126-146 | in any run what a child has left to report is its last change that no wait has reported |
| ChildProcesses.DeadRecordsStay | runtime/process-posix.c:126-180 | a dead record is never overwritten, and stays as long as it is referenced |
| ChildProcesses.HandlerLeavesNoNews | runtime/process-posix.c:148-156 | after the handler, whatever changed during its walk, each child left has its last unreported change pending, and none when it did not change after its turn |
| ChildProcesses.Registry.GetChildProcess | runtime/process-posix.c:57-63 | the first record with the pid |
| ChildProcesses.Registry.RegisterChildProcess | runtime/process-posix.c:41-95 | the sweep and the new record in front |
| ChildProcesses.Registry.RemoveDeadChildProcesses | runtime/process-posix.c:160-180 | the unlinking walk leaves exactly the kept records |
| ChildProcesses.Registry.UpdateChildStatus | runtime/process-posix.c:126-146 | one wait and its effect |
| ChildProcesses.Registry.UpdateAllChildStatuses | runtime/process-posix.c:150-156 | the walk of the handler, with any changes of status before each wait: the state is that of the run of these changes and waits |
| FixedAllocator.TotalSize | oldtests/driver.c:318 | header and size rounded up to the next multiple of 8 |
| FixedAllocator.TiledIsApart | oldtests/driver.c:317-327 | carved chunks are aligned, inside the region and apart |
| FixedAllocator.SearchFindsBestFit | oldtests/driver.c:329-347 | the scan returns index i exactly when i is the first of the smallest free chunks that fit |
| FixedAllocator.DeletedDrops | oldtests/driver.c:269-278 | deleting by swapping with the last removes that item and no other |
| FixedAllocator.FmallocGrants | oldtests/driver.c:349-353 | fmalloc keeps the invariant, hands out a chunk that was not live and leaves live chunks alone |
| FixedAllocator.ReusesWhenever | oldtests/driver.c:329-353 | fmalloc takes the first of the smallest free chunks that fit whenever one fits, carves at the top only when none does, and fails exactly when the region has no room left either |
| FixedAllocator.FreedServesNext | oldtests/driver.c:349-358 | a block given back serves the next request that it is large enough for, without growing the region |
| FixedAllocator.FfreeKeepsInv | oldtests/driver.c:355-358 | giving back a live block keeps the invariant |
| FixedAllocator.BlockIsSound | oldtests/driver.c:349-353 | a block is 8-aligned, inside the region, and meets no live chunk or header |
| FixedAllocator.RunIsSound | oldtests/driver.c:317-358 | over any run the live and free chunks are disjoint and together all that was carved |
| FixedAllocator.FreeList.EnsureCapacity | oldtests/driver.c:257-267 | doubling keeps the items |
| FixedAllocator.FreeList.DeleteIndex | oldtests/driver.c:269-278 | the item leaves, the last takes its place |
| FixedAllocator.FreeList.AddItem | oldtests/driver.c:280-285 | the item is appended |
| FixedAllocator.Allocator.constructor | oldtests/driver.c:300-315 | an empty allocator on the region |
| FixedAllocator.Allocator.AllocChunk | oldtests/driver.c:317-327 | carves a chunk at the top, or reports that the source exits |
| FixedAllocator.Allocator.FindChunk | oldtests/driver.c:329-347 | takes the best fit off the free list |
| FixedAllocator.Allocator.Malloc | oldtests/driver.c:349-353 | result and new state of fmalloc |
| FixedAllocator.Allocator.Free | oldtests/driver.c:355-358 | the new state of ffree |
| KillRing.RingIsLatestTen | runtime/linenoise-ng/linenoise.cpp:799-836 | over any run of keys the ring is the ten latest entries: a full ring drops its oldest |
| KillRing.YankedAfterRun | runtime/linenoise-ng/linenoise.cpp:799-849 | over any run of keys ctrl-Y yanks the entry so many places behind the newest, round the ring, as yank-pops have counted since the last new entry |
| KillRing.YankPopsGoRound | runtime/linenoise-ng/linenoise.cpp:838-849 | from a new entry on the k-th yank-pop shows entry k modulo the size |
| KillRing.KillJoinsFront | runtime/linenoise-ng/linenoise.cpp:804-819 | a kill after a kill joins the front entry on its own side, exactly when no NUL cuts it off |
| KillRing.KillIsYankedNext | runtime/linenoise-ng/linenoise.cpp:799-838 | after a kill the front entry is yanked exactly when the kill made a new entry or the front was in turn |
| KillRing.EmptyKillMisleadsYank | runtime/linenoise-ng/linenoise.cpp:799-838 | the counterexample: killing nothing after a yank-pop |
| KillRing.RealKillsAreYanked | runtime/linenoise-ng/linenoise.cpp:799-838 | without empty kills the entry in turn after a kill is the front one |
| KillRing.AddsEntry | runtime/linenoise-ng/linenoise.cpp:821-827 | the slots stay a permutation and the entry comes first |
| KillRing.ReplacesOldest | runtime/linenoise-ng/linenoise.cpp:828-833 | reusing the oldest slot keeps the permutation, puts the entry first and drops the oldest |
| KillRing.KillRing.KillText | runtime/linenoise-ng/linenoise.cpp:799-836 | the new list of entries, read through indexToSlot |
| KillRing.KillRing.YankText | runtime/linenoise-ng/linenoise.cpp:838 | the entry in turn, if there is one |
| KillRing.KillRing.PopText | runtime/linenoise-ng/linenoise.cpp:840-849 | the next entry comes in turn, round the ring |
| KillRing.KillRing.Handle | runtime/linenoise-ng/linenoise.cpp:2700-3008 | what each key does to the ring and its last action |

## Left out

- Sockets, pipes, files, terminal modes, screen painting, signal contexts and memory mapping: operating system calls.
- Garbage collection, the bodies of the heap and stack extenders, `c_trampoline` and the remaining opcodes of the
  interpreter: only the frame discipline, dispatch and the mark bits are modelled; registers are not.
- Heap extension in `vmloop`: it leaves the frames alone and would repeat the stack extension protocol.
- JsonParser.JSParser.ParseValue: after a malformed nested value the model stops, where the source goes on with its
  error noted; what it then makes of the rest is not modelled, and `parse_request` refuses the request either way.
- JsonParser.JSParser.ParseNumber: the value of a double is kept as its token, since `strtod` is floating point.
- JsonBuilder.JSBuilder.WriteValue: null string pointers, raw strings that need escapes and failing allocations are not
  modelled.
- JsonRoundTrip.ReadsText: keys are written raw, so a key with a quote or a NUL is outside the round trip.
- JsonAdapter.ParseRequest: the handlers of the commands, and the refusal of a command that has none, are not modelled.
- Sha256.CalcSha256: the input is a sequence, so aliasing of input and hash buffer is not captured.
- UtfLoops.IsLegalUTF8: called with the length the first byte announces, as its comment asks; other lengths are not
  modelled, nor is `isLegalUTF8Sequence`.
- ThreadedReader.FreedExactlyOnce: one stop at a time and one delete; weak memory orders and the overflow of `capacity`
  are not modelled.
- SignatureMerge.SignatureArray.Compact: says which tuples the table accepts and that no row can take in a later one,
  not which rows remain.
- The formatting of indexed strings as C source.
- SafepointsAdapter.Adapter.SetBreakpoints: the reply's identifiers are entry indices instead of addresses.
- PerfectHash.Builder.Build: the number of seeds tried is a parameter; whether the search of the source ends, and the
  overflow of its seeds and stamps, are not modelled. The arrays of the generator are sequence fields of `Builder`, and
  `qsort!` is an insertion sort, since the order among buckets of equal size is not promised.
- PerfectHash.PerfectHashTable: the check for repeated keys is made, as without OPTIMIZE, and there is an entry: for
  none the source would read a bucket that is not there, and the encoder never asks for it.
- DagEncoder.EncodeDag: the construction of the dag from the branches is not modelled, nor is a dag without an entry.
- FixedAllocator.Allocator.Malloc: sizes are not negative; when memory runs out the source exits and the model returns
  nothing.
- KillRing.KillRing.Handle: the edited line itself and the truncation of yanked text to its buffer are not modelled.
- Instruction data, register queries and file injection of the table generators, floating-point opcodes, and the
  Windows branches.
