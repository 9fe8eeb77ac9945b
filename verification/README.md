# Verification of the ring allocator, the INI reader, the flag sets and the option prefixes

A Dafny model of four components of the utilities library, with proofs. `dafny verify dfyconfig.toml` checks all
of it.

**Ring allocator** (`utils/circular_memory.hpp`; `bytes.dfy`, `ring_layout.dfy`, `circular_memory.dfy`,
`fifo_spec.dfy`, `ring_protocol.dfy`, `ring_example.dfy`). Memory is a byte array with a header of
`sizeof(size_type)` bytes in front of each payload. `RingLayout` says in declarative terms where a request fits in the free arc and what the ring
invariant is; the class `CircularMemory` follows `allocate` and `release` and is proved to return the first fit,
or null exactly when nothing fits. `RingProtocol` is the two-thread version: load, choose, header bytes one at a
time, subtract, publish on one side, header bytes one at a time and add on the other, client stores in between.
Every run of it is shown to be a run of `FifoSpec`, an allocator whose every step is atomic over a queue of
separate buffers: each grant is the first fit in the room there is at that moment, and only a refusal may go by
the room there was when the request was made. Either thread can start whatever the other is doing, and
`RingExample` is a run in which both are under way and the refusal comes too early.

**INI reader** (`utils/ini_parser/ini_parser.cpp`; the `ini_*.dfy` and `written_*.dfy` files). `IniTokenizer` and `IniEscape` follow
the scanning loops and prove them equal to recursive scans about which everything else is proved. `IniStatement`
says what the tokens of one line mean, `IniScript` what a file of statements means with its includes, and the class
`IniParser.Parser`, with its shared accumulator and its include stack, is proved to compute that. `WrittenForm` says
what lines look like and what they then say, without any scanning; `WrittenRows` and `WrittenLines` prove that a line is
accepted exactly when it has such a form, `WrittenErrors` which error the others get, and `IniPlain` puts the usual
cases in literal characters. `IniIncludes` characterises success and failure through the include graph,
`IniSections` which section rules an entry, `IniDocument` how documents read back.

**Flag sets** (`utils/flags/flags.hpp`; `bits.dfy`, `numerals.dfy`, `flags.dfy`, `flags_round_trip.dfy`) and
**option prefixes** (`utils/program_options/ini_parser.cpp`; `prefix_index.dfy`, `program_options.dfy`).

Conventions. An alignment is any positive number, of which the powers of two that `std::align` accepts are a
part. `Geometry.Valid` is what the allocator relies on without checking it: `2 * size_` fits the word type, so
that `tail_ + free_` cannot wrap, and the assertions in the proofs show that then no sum does; a request together
with its header must fit in `std::size_t`. Blocks are released oldest first. The header is stored least
significant byte first, which no statement depends on. The counter is sequentially consistent. Opening a file and
`canonical` are one partial function from the including file and the name to a canonical path. `std::align`,
`std::from_chars` and the containers are modelled by their contracts in the C++ standard; `find(p) == 0` is the
prefix test.

Four statements one might expect are false, and the exact condition is proved instead:

- Null does not always mean that no unbroken run of free bytes exists: in an empty ring whose tail is not at the
  start, a block is never laid across the tail. `RingLayout.NullCompleteness` says in which states null is
  complete, and `CircularMemory.EmptyRingRefuses` is a run that ends in one where it is not.
- A trailing comment can change a line: a blank line followed by ` #include` becomes a directive
  (`IniStatement.TrailingComment`).
- The message about ambiguous options can name an option that is not ambiguous: it does so exactly when among the
  earlier wildcards one extends the new prefix and one comes before it (`ProgramOptions.BlameIsRight`, and
  `ProgramOptions.BlameCanBeWrong` for `a*`, `bc*`, `b*`).
- Flags do not always read back. All values do exactly when the text of every single bit does
  (`FlagsRoundTrip.RoundTripIffEveryBit`). Where no text contains the delimiter, that means that names are
  non-empty, distinct, and none is the decimal of an unnamed bit (`FlagsRoundTrip.RoundTripIffGoodNames`). A name
  with the delimiter in it, such as `a|b`, fails even so (`FlagsRoundTrip.NameWithDelimiterFails`).

## Model

| member | source | states |
|---|---|---|
| Bytes.DecodeEncode | utils/circular_memory.hpp:86 | a length copied into a header of that many bytes is read back unchanged |
| RingLayout.PadAndAlign | utils/circular_memory.hpp:67-74 | the least aligned payload offset that leaves room for the header and ends in the segment, or nothing exactly when no offset does; enough space always suffices |
| RingLayout.Split | utils/circular_memory.hpp:61-65 | the two segments make up exactly the free bytes, the second starts the buffer and exists only when the first reaches its end |
| RingLayout.SegmentsGiveFirstFit | utils/circular_memory.hpp:76-84 | trying the earliest aligned place of each segment finds the first place, walking forward from the tail, at which anything fits, and null means that nothing fits |
| RingLayout.FirstFitMonotone | utils/circular_memory.hpp:61-84 | room released behind what there was does not move the first fit |
| RingLayout.Progress | utils/circular_memory.hpp:61-84 | a request succeeds whenever the free bytes are at least twice its worst case less one, wherever the tail is |
| RingLayout.WasteBound | utils/circular_memory.hpp:81-85 | an unwrapped block wastes less than one alignment, a wrapped one takes less than twice the worst case |
| RingLayout.NullCompleteness | utils/circular_memory.hpp:61-82 | null is complete with respect to runs of free bytes if and only if the ring is not empty, or the tail is at the start, or the buffer holds no more than a header |
| RingLayout.BlocksDisjoint | utils/circular_memory.hpp:58-97 | headers and payloads of live blocks never share a byte |
| RingLayout.LiveBlockInBounds | utils/circular_memory.hpp:67-85 | every live payload is aligned, unbroken and inside the buffer with its header before it |
| RingLayout.AllocateKeepsInv | utils/circular_memory.hpp:85-90 | writing the header, debiting, and moving the tail keep the ring invariant with the new block last; the sum that moves the tail passes the end of the buffer once at most |
| RingLayout.PayloadStore | utils/circular_memory.hpp:77-104 | a client store into one payload disturbs no header and no other payload |
| CircularMemory.CircularMemory.constructor | utils/circular_memory.hpp:36-37 | a new ring is empty, all of it free, its tail at the start |
| CircularMemory.CircularMemory.IsEmpty | utils/circular_memory.hpp:39 | true exactly when no block is live |
| CircularMemory.CircularMemory.FindPlace | utils/circular_memory.hpp:59-85 | the first fit and the length of ring it takes, or null exactly when nothing fits |
| CircularMemory.CircularMemory.Allocate | utils/circular_memory.hpp:57-91 | null changes nothing and happens exactly when nothing fits; otherwise the first fit, queued last, debited, tail moved, and memory changed in its header only |
| CircularMemory.CircularMemory.UsedMemory | utils/circular_memory.hpp:99-104 | the header of a live block holds what allocation debited for it |
| CircularMemory.CircularMemory.Release | utils/circular_memory.hpp:93-97 | releasing the oldest block credits exactly its length and keeps the ring valid |
| CircularMemory.CircularMemory.Store | utils/circular_memory.hpp:77-104 | a client write inside a live payload keeps the ring valid and shows in that payload only |
| CircularMemory.EmptyRingRefuses | utils/circular_memory.hpp:57-97 | taking and releasing one block of a 16-byte ring leaves it empty with its tail at 9, where eight free bytes behind a header are refused |
| RingProtocol.StepKeepsInv | utils/circular_memory.hpp:58-97 | every step of producer, consumer and clients keeps the invariant |
| RingProtocol.LoadEnabled | utils/circular_memory.hpp:58-61 | in every good state an allocation can begin exactly when none is under way and the request is positive, whatever the consumer is doing |
| RingProtocol.BeginReleaseEnabled | utils/circular_memory.hpp:94-104 | in every good state a release can begin exactly when none is under way and some block is live, whatever the producer is doing |
| RingProtocol.StoreEnabled | utils/circular_memory.hpp:77-104 | in every good state a client can store into exactly the bytes of live payloads, whatever the threads are doing |
| RingProtocol.StaleChoiceIsCurrent | utils/circular_memory.hpp:61-85 | whatever was released since the counter was loaded, the place chosen is the one the counter as it is now would give |
| RingProtocol.ChoiceIsCurrent | utils/circular_memory.hpp:85-90 | it still is when the block is handed over, and the block takes less than twice its worst case |
| RingProtocol.AddCreditsTheLength | utils/circular_memory.hpp:94-104 | the bytes the consumer read one by one add up to the length the producer wrote |
| RingProtocol.ProducerNeverStuck | utils/circular_memory.hpp:58-91 | from every state an allocation under way can take its next step, so no modulo by zero and no out-of-range header can arise |
| RingProtocol.ConsumerNeverStuck | utils/circular_memory.hpp:94-104 | from every state a release under way can go on reading the header and then credit it |
| RingProtocol.StepRefines | utils/circular_memory.hpp:58-97 | every step is to the clients one step of the atomic allocator, or none: a grant is the first fit in the current room, apart from all buffers and of bounded length, and a refusal means that nothing fitted in the room there was at the request |
| RingProtocol.RunRefines | utils/circular_memory.hpp:58-97 | in every interleaving the clients see a run of the atomic allocator |
| RingProtocol.StaleSnapshotIsSafe | utils/circular_memory.hpp:61-88 | in every reachable state the snapshot is at most the counter and the chosen block overlaps no live block |
| RingProtocol.StaleNullOnly | utils/circular_memory.hpp:61-82 | a null from a current snapshot means that nothing fits; one from an old snapshot can miss only places that need more room than the snapshot |
| RingExample.SpuriousNull | utils/circular_memory.hpp:58-104 | a run in which an allocation begins while a release is under way, its snapshot falls behind the counter, and null is returned although the place is free by then |
| RingProtocol.RoomIsConserved | utils/circular_memory.hpp:39-97 | in every reachable state counter and queued lengths add up to the size, so empty means no live block |
| IniText.Trim | utils/ini_parser/ini_parser.cpp:39-45 | empty exactly for blank text, otherwise neither starting nor ending with a space |
| IniEscape.FindQuote | utils/ini_parser/ini_parser.cpp:127-141 | the loop finds what the recursive search finds, with the same errors |
| IniEscape.SearchAcceptsExactlyEscaped | utils/ini_parser/ini_parser.cpp:127-141 | a closing quote is found at a position if and only if what precedes it is the escaping of some text |
| IniEscape.SearchFailsExactly | utils/ini_parser/ini_parser.cpp:127-141 | the search finds no quote, or a lone backslash, or a backslash before a character other than backslash and quote, exactly when the text is escaped up to there |
| IniEscape.FindsEndOfEscaped | utils/ini_parser/ini_parser.cpp:127-141 | the quote behind escaped text is found, whatever stands before and after |
| IniEscape.ProcessQuotedValue | utils/ini_parser/ini_parser.cpp:47-60 | the loop yields the unescaped text |
| IniEscape.UnescapeEscape | utils/ini_parser/ini_parser.cpp:47-60 | unescaping undoes escaping, and escaped text meets the assert of the loop |
| IniEscape.AcceptedIsEscaped | utils/ini_parser/ini_parser.cpp:47-60 | whatever the search accepts is the escaping of its own unescaping and meets the assert of the loop |
| IniTokenizer.Tokenize | utils/ini_parser/ini_parser.cpp:261-318 | the loop yields the tokens of the recursive scan, or its error |
| IniTokenizer.TokenAt | utils/ini_parser/ini_parser.cpp:266-314 | the switch, with its two redundant end-of-line tests, yields the one token that starts at a position |
| IniTokenizer.ScanGrammar | utils/ini_parser/ini_parser.cpp:261-318 | include and section tokens come first only, comments last only, later unquoted text is followed by a comment at most, quoted text is well escaped |
| IniTokenizer.ScanSlices | utils/ini_parser/ini_parser.cpp:261-318 | the tokens are disjoint slices of the line, in order |
| IniTokenizer.ScanLosesNothing | utils/ini_parser/ini_parser.cpp:261-318 | every character outside the tokens is a space or a mark of one of them |
| IniStatement.NothingFollowsText | utils/ini_parser/ini_parser.cpp:199-201 | the error for tokens after an unquoted value is never raised |
| IniStatement.SectionNameUnescapable | utils/ini_parser/ini_parser.cpp:178-182 | a quoted section name that passes the check meets the assert of the unescaping loop |
| IniStatement.TrailingComment | utils/ini_parser/ini_parser.cpp:159-228 | behind a line that tokenizes, a comment changes the meaning if and only if the line is blank and the comment reads `#include` |
| WrittenRows.FormIsRead | utils/ini_parser/ini_parser.cpp:160-228 | every way to write a section, an entry with key and value each quoted or not, an include directive or nothing, with spaces around and a comment behind, is read as what is written |
| WrittenLines.LineSaysIff | utils/ini_parser/ini_parser.cpp:160-318 | a line says something if and only if it is written in a form that says it; all other lines are rejected |
| WrittenErrors.EntryRejects | utils/ini_parser/ini_parser.cpp:62-74 | behind a key: a blank quoted key, no value, no equals sign, two equals signs, or a token behind a quoted value is rejected with the error for it |
| WrittenErrors.StartsWithEquals | utils/ini_parser/ini_parser.cpp:62-74 | a line that starts with an equals sign is rejected with the error for it |
| WrittenErrors.IncludeRejects | utils/ini_parser/ini_parser.cpp:76-123 | a directive without a name, with an equals sign or blanks for a name, or with a token behind the name is rejected with the error for it |
| WrittenErrors.SectionRejects | utils/ini_parser/ini_parser.cpp:171-177 | blank brackets, and a token behind the closing bracket, are rejected with the error for it |
| WrittenErrors.SectionNameRejects | utils/ini_parser/ini_parser.cpp:178-184 | a quoted name that is blank, not closed, or closed before its end is rejected with the error for it |
| WrittenErrors.OpenBracket | utils/ini_parser/ini_parser.cpp:295-299 | an opening bracket without a closing one is rejected as such |
| WrittenErrors.BadQuoteBehindKey | utils/ini_parser/ini_parser.cpp:267-274 | a quote in which the search fails is reported before anything else that is wrong with the entry |
| WrittenErrors.BadQuoteFirst | utils/ini_parser/ini_parser.cpp:267-274 | the same for a quote that opens the line |
| IniPlain.PlainEntry | utils/ini_parser/ini_parser.cpp:191-206 | an unquoted key and value read as the key and the trimmed value, whatever spaces stand around them |
| IniPlain.MixedEntries | utils/ini_parser/ini_parser.cpp:191-223 | the four combinations of quoted and unquoted keys and values, with a tail behind them |
| IniPlain.PlainSection | utils/ini_parser/ini_parser.cpp:171-189 | an unquoted section reads as its trimmed name with a dot behind it |
| IniPlain.SectionGetsDot | utils/ini_parser/ini_parser.cpp:178-188 | a tight name without brackets, quoted or not, gives the name with a dot behind it, or the name itself when it ends in a dot |
| IniPlain.PlainInclude | utils/ini_parser/ini_parser.cpp:79-83 | an unquoted include reads as the text to the end of the line without the spaces around it |
| IniPlain.IncludeLine | utils/ini_parser/ini_parser.cpp:84-91 | a quoted include reads as its trimmed name, or is rejected when that is empty |
| IniPlain.IncludeNotName | utils/ini_parser/ini_parser.cpp:76-123 | a name that starts with an equals sign, and anything but a comment behind a quoted name, is rejected |
| IniPlain.NothingIff | utils/ini_parser/ini_parser.cpp:265-290 | a line says nothing if and only if behind spaces, tabs and carriage returns it ends, or a semicolon follows, or a hash that does not start the word `#include` |
| IniDocument.EntryLine | utils/ini_parser/ini_parser.cpp:62-74 | a printed entry reads back as itself if its key is not blank and is rejected otherwise |
| IniDocument.SectionLine | utils/ini_parser/ini_parser.cpp:171-189 | a printed section without brackets reads back as its prefix unless it is blank |
| IniDocument.FinalBreakIsOptional | utils/ini_parser/ini_parser.cpp:158 | a text has the same lines with and without a line break at its end |
| IniDocument.DocumentRoundTrip | utils/ini_parser/ini_parser.cpp:143-236 | a printed document reads back as its pairs, in order and prefixed, if and only if keys and section names are not blank, section names have no closing bracket, and nothing has a line break |
| IniDocument.DocumentWithoutFinalBreak | utils/ini_parser/ini_parser.cpp:143-236 | the round trip of documents holds as well when the last line break is left out |
| IniScript.RoomShrinks | utils/ini_parser/ini_parser.cpp:98-111 | each include that is entered leaves fewer files to enter, so the recursion ends |
| IniParser.Parser.Run | utils/ini_parser/ini_parser.cpp:143-236 | appends exactly the expansion of the text to the shared values, reports its first failure with its line numbers, and restores the include stack on every exit |
| IniParser.Parser.ProcessInclude | utils/ini_parser/ini_parser.cpp:92-111 | contributes the expansion of the included file, or the failure to open it, the cycle, or the failure inside it |
| IniParser.Parser.Line | utils/ini_parser/ini_parser.cpp:160-228 | tokenizing, dropping comments and the switch on the first token give the statement of the line |
| IniParser.ReadEntry | utils/ini_parser/ini_parser.cpp:191-227 | the branches on the number and kinds of the tokens, with the unescaping loop, give the statement of an entry or its error |
| IniParser.ReadSection | utils/ini_parser/ini_parser.cpp:171-189 | trimming, the quote check, unescaping and the final dot give the section prefix or the error |
| IniParser.ReadInclude | utils/ini_parser/ini_parser.cpp:76-91 | gives the name of the file to include or the error |
| IniParser.ProcessKey | utils/ini_parser/ini_parser.cpp:62-74 | an unquoted key is trimmed, a quoted one unescaped and rejected when blank |
| IniParser.Parse | utils/ini_parser/ini_parser.cpp:238-248 | reading a stream gives the pairs of its expansion or its failure |
| IniIncludes.StackDoesNotShow | utils/ini_parser/ini_parser.cpp:92-111 | what a file contributes does not depend on the files that led to it |
| IniIncludes.ReadIsReplacement | utils/ini_parser/ini_parser.cpp:143-236 | a successful parse puts in place of each include exactly the pairs the included file has on its own; sections leak neither in nor out |
| IniSections.LastSectionRules | utils/ini_parser/ini_parser.cpp:155-221 | each entry contributes its key behind the prefix of the last section line before it in its file, or the bare key when there is none; each include contributes what the file it leads to has on its own; other lines contribute nothing |
| IniSections.SilentLinesDoNotShow | utils/ini_parser/ini_parser.cpp:158-164 | a blank line or a comment inserted anywhere changes neither the pairs nor whether and why the file is rejected |
| IniIncludes.ReadFileSucceedsIff | utils/ini_parser/ini_parser.cpp:92-111 | parsing a file succeeds if and only if no include chain from it meets a file twice and all files on such chains are well formed |
| IniIncludes.ReadSucceedsIff | utils/ini_parser/ini_parser.cpp:143-158 | the same for a stream, whose own path counts as open |
| IniIncludes.ReadFailurePoints | utils/ini_parser/ini_parser.cpp:92-111 | the line numbers of a failure lead through the includes to a statement that is wrong, and in every file on the way all earlier lines are good |
| IniFiles.ParseFile | utils/ini_parser/ini_parser.cpp:250-259 | parsing a file succeeds exactly when its include tree is well formed and free of cycles, then yields its pairs with includes replaced, and otherwise points at the first line that is wrong |
| Numerals.ParseNumeric | utils/flags/flags.hpp:41-59 | accepts exactly decimal numbers, and hexadecimal ones after `0x`, that are in range, with their value |
| Numerals.NumeralIffDenotes | utils/flags/flags.hpp:41-59 | a token is worth `n` if and only if its digits denote `n` by position, in base 16 behind `0x` or `0X` and in base 10 otherwise, and `n` is in range |
| Numerals.DecimalRoundTrip | utils/flags/flags.hpp:30 | a printed positive number in range is read back as that number |
| Numerals.HexRoundTrip | utils/flags/flags.hpp:41-59 | a number in range printed in hexadecimal, in lower or upper case and behind either mark, is read back |
| Flags.ToString | utils/flags/flags.hpp:22-39 | the texts of the set bits, lowest first, with the delimiter between them |
| FlagsRoundTrip.PieceIsBit | utils/flags/flags.hpp:28-35 | every printed piece is the text of a set bit |
| FlagsRoundTrip.BitIsPrinted | utils/flags/flags.hpp:28-35 | every set bit is printed |
| FlagsRoundTrip.PiecesInOrder | utils/flags/flags.hpp:27-35 | the pieces are in the order of their bits, lowest first, and no bit is printed twice |
| Flags.ParseToken | utils/flags/flags.hpp:71-80 | a token is the bit of the first equal name, or else a number |
| Flags.ParseString | utils/flags/flags.hpp:61-87 | the OR of the pieces between delimiters up to the first unknown one, with `begin` left exactly at the start of that piece, or at the end if there is none |
| Flags.FromString | utils/flags/flags.hpp:89-97 | accepts exactly texts whose pieces are all empty, names or numbers in range, with their OR; the error carries the text from the first unknown piece on |
| Flags.OrOfBit | utils/flags/flags.hpp:69-80 | a bit of the result is set exactly when some piece sets it |
| Flags.OnlyTheSetOfPiecesMatters | utils/flags/flags.hpp:61-97 | order, repetition and empty pieces change neither acceptance nor value |
| FlagsRoundTrip.RoundTripIffEveryBit | utils/flags/flags.hpp:22-97 | for all names and any delimiter: every value of the type reads back from its text if and only if, for each bit, the pieces of its text are all accepted and OR to that bit |
| FlagsRoundTrip.ReadsBackBitByBit | utils/flags/flags.hpp:22-97 | a value reads back when the texts of its set bits do, whatever the other names are |
| FlagsRoundTrip.RoundTripIffGoodNames | utils/flags/flags.hpp:22-97 | when no text contains the delimiter, every value reads back if and only if names are non-empty, distinct, and none is the decimal of an unnamed bit |
| FlagsRoundTrip.NameWithDelimiterFails | utils/flags/flags.hpp:22-97 | a single name made of two letters with the delimiter between them is good in that sense, and the value 1 does not read back |
| PrefixIndex.SuccessorDecides | utils/program_options/ini_parser.cpp:33-37 | some element extends a prefix exactly when the lower bound does |
| PrefixIndex.PredecessorDecides | utils/program_options/ini_parser.cpp:57-61 | in a prefix-free set some element is a proper prefix of a key exactly when the element before the lower bound is |
| PrefixIndex.NeighboursDecide | utils/program_options/ini_parser.cpp:29-42 | the two neighbours tell whether a prefix clashes with any element |
| PrefixIndex.InsertKeeps | utils/program_options/ini_parser.cpp:47 | inserting a prefix that clashes with none keeps the set ordered and prefix-free |
| ProgramOptions.CheckNeighbours | utils/program_options/ini_parser.cpp:33-46 | looking at two neighbours tells whether the prefix clashes with any registered one, and the message names the element before the lower bound if there is one |
| ProgramOptions.Register | utils/program_options/ini_parser.cpp:14-49 | throws at the first option that is empty or clashes with an earlier one, and with non-empty names exactly when the prefixes of two wildcards are comparable; otherwise it has collected all names and all wildcard prefixes; the option its message names clashes unless, among the earlier wildcards, one extends the new prefix and one comes before it |
| ProgramOptions.ClashMeans | utils/program_options/ini_parser.cpp:27-46 | two wildcards clash exactly when the text before the star of one is a prefix of that of the other |
| ProgramOptions.BlameIsRight | utils/program_options/ini_parser.cpp:38-46 | the message names a clashing option if and only if among the earlier wildcards there are not both one whose prefix extends the new one and one whose prefix comes before it |
| ProgramOptions.BlameCanBeWrong | utils/program_options/ini_parser.cpp:38-46 | with `a*` and `bc*` registered, `b*` fails because of `bc*` and the message names `a*` |
| ProgramOptions.LookupAgrees | utils/program_options/ini_parser.cpp:54-61 | the lookup says registered exactly when the key is an option or a proper prefix of the key with a star behind it is one |
| ProgramOptions.ConvertKeepsPairs | utils/program_options/ini_parser.cpp:53-71 | every pair is kept in order with the right flag, or the first unmatched key is reported, exactly when unmatched keys are not allowed |
| ProgramOptions.ParseIni | utils/program_options/ini_parser.cpp:11-73 | succeeds exactly when the options register, the file can be opened and parsed, and every key matches or need not; the result is one flagged option per pair in order, and an exception names the first thing wrong in that sequence |

## Left out

- Operating-system wrappers, logging, threads, huge pages, network addresses, histograms, command-line validators and the grammar-based flag parser: thin wrappers or library grammars that would add easy members only.
- Release out of allocation order, several producers or several consumers: outside the allocator's contract.
- Weak memory orderings: the counter and the header bytes are sequentially consistent.
- `Geometry.Valid` excludes word types too narrow for `tail_ + free_`; what the allocator does after such a wrap is not modelled.
- Texts of error messages: an error is its kind, with line numbers from the outermost file inwards, and for ambiguous options the option named.
- Reading errors of a stream in the middle of a file, and files that change while they are read.
- The effects of one line are applied after the line was read as a whole; their order within the line is not visible.
- Signed flag types, where an unnamed top bit prints a number that the signed parse rejects.
