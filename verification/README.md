# USDT probes, verified

A Dafny model of the USDT library: how a probe's argument string becomes a specification, how a BPF
program turns that specification back into a value when the probe fires, how probes are found in an
ELF file, and how specifications and links are allocated and released. `dafny verify dfyconfig.toml`
checks everything.

The main theorem, `EndToEnd.EndToEndMeaning`, says that the whole path keeps meaning: split a probe's
argument text, compile each argument, store the specification's bytes in the map, pack its ID into
the attach cookie, fetch by cookie, decode the bytes, evaluate, and narrow with shifts; the result is
the meaning of the source text, defined directly on registers and memory. It holds for every start ID,
map and list of probes. `WholeProgram.SourceToValue` extends it to the file: probes encoded as UTF-8 text
in a note section, among any other notes, are parsed, decoded, stored and attached, and the BPF program
on each link gets the meaning of that probe's source text.

## Layout

| file | contents |
|---|---|
| `Machine.dfy`, `Text.dfy`, `Wrappers.dfy` | 64-bit arithmetic and byte images, numerals and trimming, results |
| `Regexes.dfy`, `Patterns.dfy` | the pattern language with its recogniser, and the seven patterns |
| `ArgSyntax.dfy`, `ArgCompiler.dfy` | the grammar of one argument, and its compiler |
| `ArgSplitter.dfy`, `ArgLists.dfy` | bracket-aware splitting, and whole argument strings |
| `Registers.dfy`, `Specs.dfy` | register tables and slots, specifications and their byte layout |
| `ArgInterpreter.dfy`, `ArgMeaning.dfy` | the BPF side, and the direct meaning of an argument |
| `StapsdtNotes.dfy`, `NoteLaws.dfy` | the note parser, and its laws |
| `SpecAllocation.dfy`, `Attach.dfy` | ID allocation and cookies, the map and the links with failing calls |
| `EndToEnd.dfy` | from the argument text to the fetched value, and the life cycle of map and links |
| `Utf8.dfy`, `WholeProgram.dfy` | texts as bytes, and the composition from the note section to the fetched value |

## Modelling choices

- `runtime.GOARCH` and the C architecture macros are one parameter, `Arch`; the byte order is a
  parameter too, so the big-endian branch of the interpreter is covered.
- Integers are unbounded with every wrap written out: `uint64` addresses, `uint32` padding and IDs,
  `int64` sizes, the `int8` shift, the C `int` of the ID, the unsigned comparison of the count.
- Sizes are not validated by the parser. Shift counts act modulo 64, as in the BPF instruction set
  (section 4.1 of RFC 9669), so every accepted size has a meaning: |SIZE| bytes for 1 to 8, and
  (|SIZE| - 1) mod 8 + 1 bytes in general (`ArgCompiler.EffectiveBytes`).
- The seven regular expressions are lists of elements with a declarative meaning; a greedy recogniser
  is proved to find the only match.
- A Go string is bytes; ranging over it, trimming it and matching it work on the runes decoded from it.
  The model decodes a probe's texts once (`Utf8.DecodeText`, malformed bytes included) and works on characters.
- Kernel objects fail by schedule: a list of booleans says which calls fail, so "for every failure
  schedule" is a quantifier. Registers are a byte image of `struct pt_regs`, user memory is a partial
  map from addresses to bytes.

## Where the code and its comments differ

- `AttachUprobes` (attach.go:94-97) promises links that clean up the specification map. The result
  carries no IDs (attach.go:124), so unloading it deletes nothing. `EndToEnd.UnloadAttached` proves both
  sides: without the IDs the map is restored just when nothing was stored, with them just when nothing
  was stored under key 0.
- Unload "removes their spec map entries" (attach.go:28) but skips ID 0 (attach.go:38), while
  `PopulateSpecMap` hands ID 0 out when the start ID is 0 or the IDs wrap through it. Then that one entry
  stays (`SpecAllocation.DeleteLeavesZero`), so the map is restored if and only if nothing was stored or
  1 <= start and start + count <= 2^32 (`SpecAllocation.DeleteRestores`). Input: one probe with
  parseable arguments and start ID 0 (`EndToEnd.StartZeroLeftBehind`).
- "0 means no spec" (attach.go:51) is false of the BPF side, which looks key 0 up like any other. Every
  argument of a probe without specification is refused if and only if the map has no entry 0 or one
  without a live argument (`EndToEnd.NoSpecificationExactly`); entry 0 is there if it was before or if this
  run hands ID 0 out. Input: start ID 0, a probe with the argument 8@$5 and one without arguments, whose
  argument 0 is then 5 (`EndToEnd.StartZeroWitness`).
- IDs from 2^31 on are handed out but negative as a C `int`, and the interpreter rejects them.
- A narrow memory argument is read as eight bytes, so it needs all eight to be readable
  (`ArgMeaning.ShortReadFaults`).
- A segment whose end address wraps contains no address at all, as if it were empty
  (`NoteLaws.ContainsNothing`).

## Model

| member | source | states |
|---|---|---|
| Text.ClassTable | args.go:96-116 | The classes `\s`, `\d` and `[a-z0-9]`, character by character |
| Text.SpaceTable | args.go:122 | The characters trimmed are the 25 with the Unicode property White_Space |
| Text.TrimSpaceUnique | args.go:122 | Trimming returns the one core without Unicode spaces at its ends |
| Text.NumeralRoundTrip | args.go:131-136 | Every integer's decimal spelling is a numeral `-?\d+` with that value |
| Text.NumeralExactly | args.go:131-136 | Every numeral is an optional minus, leading zeros and the canonical digits of its value |
| Regexes.RunSound | args.go:96-116 | Whatever the recogniser returns is a match of the pattern |
| Regexes.RunComplete | args.go:96-116 | On a deterministic pattern any match is the one the recogniser returns |
| Patterns.FindExact | args.go:96-116 | For each of the seven patterns: pieces are returned if and only if they match, so captures are unique |
| Patterns.CascadeUnambiguous | args.go:96-116 | Over all strings, the only two patterns that can match the same text are bare constant and register |
| Patterns.BareConstOverlap | args.go:111-115 | A bare constant also reads as a register exactly when it is not negative, with the same size, flag and digits |
| ArgCompiler.OrderIrrelevant | args.go:129-310 | On either architecture, a complete order of the patterns gives the parser's result (specification or rejection) on every text if and only if it tries bare constant before register |
| ArgSyntax.CapturesWellFormed | args.go:130-140 | Captured sizes and numbers are numerals and captured registers are names |
| ArgSyntax.ReadArgExact | args.go:121-311 | The cascade reads an argument from a text if and only if the grammar spells it so; the reading is unique |
| ArgSyntax.CaptureSpelled | args.go:96-116 | A pattern recovers exactly the captures spelled with it |
| ArgSyntax.CaptureLoose | args.go:96-116 | A pattern recovers the captures whatever whitespace fills the places the syntax allows |
| ArgSyntax.PrintRead | args.go:91-95 | Printing any argument in any applicable syntax and reading it back is the identity, for all integers and names |
| ArgCompiler.SizeFields | args.go:149-154 | The wrapping `int64`/`int8` computation of sign and shift equals the exact one modulo 256, for every `int64` |
| ArgCompiler.BuildRegister | args.go:130-156 | A register or memory branch yields what its captures denote, or the first of size, number, register rejections |
| ArgCompiler.BuildConstant | args.go:237-259 | A constant branch yields the two's-complement constant with no register, or its rejection |
| ArgCompiler.ParseUSDTArgSpec | args.go:121-311 | The cascade returns the compilation of the argument the text spells, or why there is none |
| ArgCompiler.BitshiftExact | args.go:149-154 | The stored shift is congruent to 64 - 8·SIZE magnitude modulo 256, is 0 to 56 exactly when the magnitude is 1 to 8 modulo 32, and modulo 64 leaves the effective bytes |
| ArgCompiler.AcceptedExactly | args.go:121-311 | A text is accepted if and only if it spells an argument whose size and number are `int64`s and whose register is one of the architecture's names |
| ArgCompiler.RejectedExactly | args.go:130-310 | A spelled argument is rejected for its size, then its number, then its register, each exactly when that is at fault |
| ArgCompiler.UnreadRejected | args.go:121-127 | A text is rejected as empty exactly when it trims to nothing, and as unrecognised exactly when it spells nothing |
| ArgCompiler.AcceptedIsEvaluable | args.go:121-311 | Every accepted argument has a handled kind and, if it uses a register, an aligned in-bounds pt_regs slot |
| ArgCompiler.SyntaxEquivalence | args.go:129-283 | The x86-64, arm64, zero-offset and dollar spellings give the same specification or the same rejection |
| Registers.RegisterFound | args.go:16-89 | The Go ID of a name leads the C switch to the pt_regs word of the register the name means |
| Registers.SlotSharing | ebpf/usdt_args.h:14-77 | Two accepted names share a pt_regs word exactly when they share an ID |
| Registers.LookupExactly | args.go:16-89 | A name has an ID if and only if it is one of that register's names: 64-, 32-, 16- and 8-bit on x86-64, xN and wN and the aliases on arm64 |
| Registers.RegisterNameFound | args.go:76-89 | Every register ID of an architecture has a widest name that looks up to it |
| ArgSplitter.SplitUSDTArgs | args.go:315-348 | The one-flag state machine computes the tokenisation, and its tokens concatenate to the text minus separators outside brackets |
| ArgSplitter.TokensExact | args.go:313-314 | A list is the result if and only if whitespace gaps interleave it to the text: tokens non-empty, free of separators, closed except the last |
| ArgSplitter.SplitJoin | args.go:313-348 | Splitting the blank-joined tokens of any text gives the same tokens |
| ArgSplitter.SeparatorsExactly | args.go:331-339 | Space, tab, newline and carriage return separate, no other character does, and behind an opening bracket none does |
| ArgLists.FillArgs | args.go:370-376 | The array holds all compiled arguments then zero values, or the first failure is reported |
| ArgLists.ParseUSDTArguments | args.go:353-379 | The whole string: at most twelve arguments, all compiled in order, or the first rejection |
| ArgLists.ListAcceptedExactly | args.go:353-379 | A string has a specification if and only if it has at most twelve arguments and each is accepted; it holds their compilations in order, then zeros |
| ArgLists.PrintParseList | args.go:353-379 | Any list printed in any mix of syntaxes with any whitespace parses to its compiled arguments or their first rejection |
| ArgLists.SpecsRoundTrip | args.go:353-379 | Up to twelve well-formed specifications print and parse back unchanged, in order, with the right count |
| Specs.SpecRoundTrip | types.go:72-88 | Reading the 304-byte image at the C offsets gives back every field, in either byte order |
| Specs.ArgReadBack | ebpf/usdt_defs.h:82-97 | The argument at byte 24·i of the image is the i-th argument |
| ArgInterpreter.EvaluateArg | ebpf/usdt_args.h:130-170 | The switch and the shift pair compute the argument's raw bits, truncated and sign- or zero-extended |
| ArgInterpreter.BpfUsdtArg | ebpf/usdt_args.h:108-171 | Success returns the fetched value; every error is nonzero and leaves the result 0 |
| ArgInterpreter.AllRefused | ebpf/usdt_args.h:124-161 | Every argument number is refused with -1 if and only if the specification has no counted argument of known kind with a register slot |
| ArgInterpreter.ShiftPair | ebpf/usdt_args.h:163-169 | Left shift then logical or arithmetic right shift keeps and extends exactly the low bits |
| ArgInterpreter.NarrowReadCorrect | ebpf/usdt_args.h:148-169 | Eight bytes read and narrowed equal the first SIZE bytes extended, little-endian directly and big-endian by the extra shift |
| ArgMeaning.RegisterAgrees | ebpf/usdt_args.h:79-89 | Reading the compiled ID gives the named register's 64 bits, or the fault |
| ArgMeaning.MeaningPreserved | ebpf/usdt_args.h:137-169 | Interpreting what an argument compiles to gives its direct meaning: constant, register, or memory at register plus offset modulo 2^64 |
| ArgMeaning.EvaluatedAsWritten | ebpf/usdt_args.h:137-169 | For every kind, size and byte order, the value is the one whose bytes were written to the register, or at register plus offset in memory, extended by the sign of the size |
| Machine.EncodedByte | ebpf/usdt_args.h:153-158 | Byte i of a value is its i-th lowest on little-endian and its i-th highest on big-endian |
| ArgMeaning.ShortReadFaults | ebpf/usdt_args.h:153-155 | A memory argument has a value if and only if the registers and all eight bytes at its address are readable |
| StapsdtNotes.FindLoadSegment | elfparse.go:38-46 | The search loop returns the first segment containing the address |
| StapsdtNotes.ReadNote | elfparse.go:79-110 | The header decides: stop, skip, or read a descriptor of at least 24 bytes that is an in-bounds slice behind the header; always at least 12 bytes on |
| StapsdtNotes.ReadDescriptor | elfparse.go:112-154 | Prelink adjustment, address translation and string split give the descriptor's probe, if its strings are complete |
| StapsdtNotes.WalkNotes | elfparse.go:77-157 | The loop terminates on every byte sequence with the probes of the readable notes in order |
| StapsdtNotes.ParseProbes | elfparse.go:51-160 | The last sections of each name are used; no section means no probes; a reader error is passed on |
| StapsdtNotes.SectionsDecide | elfparse.go:57-71 | The last `.note.stapsdt` section and the last `.stapsdt.base` address (or 0) decide; without notes there are no probes |
| NoteLaws.TruncationGivesPrefix | elfparse.go:77-157 | A truncated section yields a prefix of the probes |
| NoteLaws.Concatenation | elfparse.go:77-157 | If the loop consumes a section exactly, appending another appends its probes |
| NoteLaws.ProbesNeedRoom | elfparse.go:77-157 | n probes need at least 40n - 2 bytes in sections too short for a descriptor size to wrap |
| NoteLaws.EncodedNotesParse | elfparse.go:77-157 | Encoded notes of any types parse to exactly their probes, in order |
| NoteLaws.SectionRoundTrip | elfparse_test.go:11-39 | Encoded probes, interleaved with notes of other types, come back in order with translated addresses |
| NoteLaws.EncodedProbe | elfparse.go:112-154 | An encoded probe comes back with its texts and base, its location moved with the base (unmoved without one) and turned into an offset through the first segment covering it, or left as it is; its semaphore likewise, or 0 |
| NoteLaws.OverrunStops | elfparse.go:98-104 | A SystemTap note whose descriptor does not fit into the section ends the search, whatever follows |
| NoteLaws.WrappedSizeSkips | elfparse.go:89-95 | A note of another type whose padded size wraps to 0 is skipped up to the end of its name |
| NoteLaws.DescriptorStrings | elfparse.go:141-153 | In any descriptor, the texts lie before, between and behind the first two NULs; the last need not be terminated |
| NoteLaws.TooFewStrings | elfparse.go:141-153 | A descriptor with fewer than two NULs behind its addresses makes no probe |
| NoteLaws.PrelinkKeepsDistance | elfparse.go:116-124 | The adjustment keeps every address's distance from the base, modulo 2^64 |
| NoteLaws.FileOffsetKeepsDistance | elfparse.go:126-139 | A covered address lands as far into the segment's file contents as it lies into the segment |
| NoteLaws.ContainmentExact | elfparse.go:39-46 | The wrapping containment test is (addr - vaddr) mod 2^64 < memsz for every address if and only if the end does not wrap or the segment is empty |
| NoteLaws.ContainsNothing | elfparse.go:39-46 | A segment contains no address if and only if it is empty or its end wraps |
| NoteLaws.LocationInvariantExactly | elfparse.go:126-130 | A location survives a move if and only if a segment covers it or nothing moved |
| NoteLaws.SemaphoreInvariantExactly | elfparse.go:132-139 | A semaphore offset survives a move if and only if there is none, no segment covers it, it is 0 anyway, or its address is 0 on neither or both sides |
| NoteLaws.RelocationInvariance | elfparse.go:116-139 | Moving base and segments together leaves the probes identical if and only if both addresses of every readable probe survive |
| SpecAllocation.AllocationDistinct | attach.go:52-73 | ID 0 marks exactly the probes without specification; other IDs are distinct and rising |
| SpecAllocation.AllocationConsecutive | attach.go:52-73 | The nonzero IDs in probe order are consecutive from the start ID |
| SpecAllocation.ZeroMarksExactly | attach.go:48-51 | ID 0 marks exactly the probes without specification if and only if there is none to store or the IDs stay positive without wrapping |
| SpecAllocation.StoredLookup | attach.go:65-70 | For every start ID and count: a key holds the specification of the last probe stored under it, else what it held before |
| SpecAllocation.HolderExact | attach.go:54-67 | The keys in use are the first ones from the start ID on, modulo 2^32, as many as there are specifications |
| SpecAllocation.HolderOfID | attach.go:65-70 | A probe's ID leads to its own specification if and only if fewer than 2^32 others follow |
| SpecAllocation.StoredAtID | attach.go:65-70 | The map holds each probe's specification under its ID, for every start ID |
| SpecAllocation.StoredElsewhere | attach.go:65-70 | Keys outside the allocated ones are untouched, for every start ID |
| SpecAllocation.MergeCookies | attach.go:77-92 | One cookie per ID or user cookie: ID in the high half, user cookie in the low half |
| SpecAllocation.CookieHalves | ebpf/usdt_args.h:91-105 | The BPF side recovers the low half always and the ID exactly when it is below 2^31 |
| SpecAllocation.DeleteAllExact | attach.go:36-44 | When no call fails, exactly the nonzero IDs go; there is no error if and only if each is in the map and listed once |
| SpecAllocation.DeleteUnderFailures | attach.go:36-44 | Under any failure schedule: an ID whose call does not fail removes its key, other keys stay, and the errors are the IDs whose call fails or whose key is missing or gone |
| SpecAllocation.DeleteLeavesZero | attach.go:36-44 | Storing and deleting the returned IDs gives the map before, plus the specification stored under key 0 if there is one |
| SpecAllocation.DeleteRestores | attach.go:36-44 | For any map lacking the allocated keys and any start ID, the map is restored if and only if nothing was stored or the IDs stay positive without wrapping |
| SpecAllocation.DeleteErrors | attach.go:36-44 | No deletion misses its key if and only if no nonzero ID was handed out twice, stated on the count |
| SpecAllocation.StoredUnchanged | attach.go:52-73 | Storing leaves the map as it was if and only if no probe has a specification |
| Attach.ImageExactly | attach.go:57-68 | A probe is stored if and only if its text is not empty and is accepted argument by argument, and what is stored reads back as its specification |
| Attach.PopulateSpecMap | attach.go:52-73 | For every failure schedule: succeeds exactly when no Put fails, with the IDs and map of all probes; otherwise reports the first probe whose Put fails, keeps exactly the earlier entries and makes no further call |
| Attach.StoreNext | attach.go:62-70 | One round of the loop keeps the account of IDs and entries stored so far, or ends in the failure outcome for exactly that probe |
| Attach.AttachUprobes | attach.go:94-125 | All or nothing: one link per probe with the right symbol, program, address, semaphore and cookie, or the first failing probe is reported, no later one is tried, and every opened link is closed exactly once |
| Attach.CloseAll | attach.go:116-119 | The rollback calls Close once on every link |
| Attach.CloseErrorsExact | attach.go:30-35 | The number of close errors is the number of listed links whose Close fails |
| Attach.CloseLinks | attach.go:30-35 | Every listed link is closed as often as it is listed, and the failures are counted |
| Attach.DeleteIDs | attach.go:36-44 | Every nonzero ID is deleted in order, carrying on after errors |
| Attach.ProbeLinks.Unload | attach.go:28-46 | Links are closed and IDs deleted whatever fails on the way; the result counts the links that fail to close and the IDs that are not deleted, and is 0 if and only if there are none |
| Attach.ProbeLinks.Close | attach.go:25-26 | Close is Unload |
| EndToEnd.FetchMeans | ebpf/usdt_args.h:117-171 | Fetching through a map that holds a probe's image gives the meaning of its source argument |
| EndToEnd.EndToEndMeaning | attach.go:48-92 | For every probe list, start ID, map, register file and memory: text to map to cookie to value keeps the meaning; IDs from 2^31 on and arguments past the last get an error; a probe without specification gets what key 0 holds |
| EndToEnd.NoSpecificationExactly | ebpf/usdt_args.h:108-129 | A probe without specification is refused every argument if and only if the map has no entry 0 or one without a live argument; entry 0 is there if and only if it was before or ID 0 was handed out |
| EndToEnd.ZeroEntryRead | ebpf/usdt_args.h:117-129 | When entry 0 is a probe's image, a probe without specification gets that probe's arguments, and nothing if and only if there are none |
| EndToEnd.ZeroIDRead | attach.go:48-92 | The same for a probe of the list whose own ID is 0, for every start ID |
| EndToEnd.StartZeroWitness | attach.go:52-67 | With start ID 0, a probe without arguments next to one with the constant argument v fetches v |
| EndToEnd.StartZeroLeftBehind | attach.go:36-44 | With start ID 0, deleting the returned IDs leaves the specification of the only probe in the map |
| EndToEnd.MeaningUnique | args.go:118-121 | A source argument has at most one meaning, so the theorem determines the result |
| EndToEnd.TraceArgument | README.md:55-59 | The documented calls in sequence return the meaning of the n-th source argument and the user's cookie |
| EndToEnd.PopulateAndAttach | README.md:55-64 | Without kernel failures every probe is attached with its merged cookie and the map holds the specifications |
| EndToEnd.UnloadAttached | attach.go:94-125 | Every link is closed exactly once; with the IDs set the map is restored if and only if nothing was stored under key 0, without them if and only if nothing was stored |
| Utf8.TextRoundTrip | args.go:320-342 | Every text survives encoding to bytes and the rune-by-rune decoding |
| Utf8.DecodeTextExactly | args.go:320-342 | Bytes decode to the character whose encoding they start with, and to one replacement character per malformed byte |
| WholeProgram.SectionReadBack | elfparse_test.go:11-39 | A section of encoded source probes and foreign notes, parsed and decoded, gives back the source probes in order with their texts and translated addresses |
| WholeProgram.AttachedFires | attach.go:98-125 | A machine that runs into an attached link carries the cookie merged for the link's probe |
| WholeProgram.SourceToValue | README.md:50-64 | Each link sits at its source probe's file offset, and fetching argument n through it gives the meaning of that probe's source text |
| WholeProgram.TraceSource | README.md:50-64 | The documented calls from the file to the fired probe return that meaning |

## Left out

- StapsdtNotes.ParseProbes: probe texts are bytes here; `WholeProgram.DecodeProbes` decodes them once, where Go decodes at each use.
- NoteLaws.ProbesNeedRoom: one direction only; sections of 4 GiB and more, where a padded descriptor size wraps to 0, can hold overlapping notes.
- NoteLaws.RelocationInvariance: notes without a base, which are not adjusted at all, and segments that wrap are excluded.
- WholeProgram.TraceSource: runs in which no Put and no attach fails; the failing ones are in Attach.PopulateSpecMap and Attach.AttachUprobes.
- ArgInterpreter.BpfUsdtArg: out-of-range shift counts follow the BPF instruction set, where the C standard leaves them undefined.
- Attach.PopulateSpecMap: the map's capacity is not a number; running out of it is a failing Put.
- elfreader.go: file access and Go's ELF library; sections and segments are inputs.
- cmd/usdt/main.go: command line and table output.
- The preprocessor macros that expand BPF_USDT arguments (ebpf/usdt_args.h:173-239): finite token pasting.
- Floating-point values: the float flag is carried through the parser and the layout, and the interpreter never looks at it.
- Error texts: rejections are an enumeration.
- The kernel, the BPF verifier and the attach library beyond success or failure of each call.
- Update in place of the argument array and of the ID list: both are sequence values that the loops reassign.
