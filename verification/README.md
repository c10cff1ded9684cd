# Verification model

A Dafny model of the parts of this repository whose logic is fully visible and
whose properties are hard: the ELF note writer and the code that reads its output
back, the string algorithms, the language model session protocol, the Temporal
integer arithmetic, and the address allocator for note segments. `dafny verify
dfyconfig.toml` checks everything.

Code that works in place is modelled in place: images, buffers, segment tables and
command lines are arrays patched by methods with the loops of the code, a file
descriptor is an object with a position, and each method is proved against a
function that says what it computes. Threads are modelled as steps that interleave.

## Modules

- `Options`, `Bits`, `Bytes`, `Alignment`: missing values, masks and shifts as arithmetic,
  little-endian fields, `memcpy`, leftmost occurrences, `align_up`.
- `ElfImage`, `NoteCodec`, `NoteWriter`, `NoteWriterLaws`, `NoteMapping`, `SeaFuse`: the
  header table, the note format, the raw writer, its frame and map semantics, where
  notes land in memory, the fuse. The format is that of the System V ABI, chapter 5,
  "Program Header" and "Note Section".
- `SectionReader`, `MarkerFinder`, `PtnoteFinder`, `SmolSection`, `SmolContainer`: the
  readers, and the round trip from building a section to reading it back.
- `SampleImage`, `SampleImage32`, `ImageExamples`: images built from their entries, and small
  images at which the code does less than it is meant to.
- `GlobMatch`, `WindowsCommandLine`, `Utf8`: string algorithms, the last against the grammar
  in section 4 of RFC 3629, the command line against Microsoft's "Parsing C command-line
  arguments".
- `ReleaseScanner`, `TextSearch`, `JsonPieces`, `FieldLookup`, `AssetLookup`, `ReleaseLaws`,
  `ReleaseExample`: the release scanner, occurrences in concatenated text, JSON objects as
  nested pieces with the literals of RFC 8259, which member a search for a quoted name finds,
  and the release picked.
- `SessionProtocol`, `SessionLaws`, `ModelCache`, `TokenBudget`: the session's threads and
  their safety, cancellation and progress, the shared model cache, one prompt's budget and loop.
- `Rounding`, `TemporalOptions`, `InstantArithmetic`, `YearMonth`: TC39 Temporal,
  "GetUnsignedRoundingMode", "BalanceTimeDuration", "AddDurationToYearMonth".
- `SegmentPlacement`: addresses for note segments without one.

## Where the code differs from what is promised

The model follows the code. Each point is a lemma with the exact condition; a member named
behind a semicolon shows an input at which the code differs.

- Stretching the last PT_LOAD turns its zero-filled tail into file contents, and the notes may
  get addresses in it (`NoteMapping.ZeroFillExactly`, `NotesMissZeroFill`;
  `ImageExamples.ZeroFillLost`, `NotesInZeroFill`).
- The writer's check of where the old notes end wraps at 64 bits, so a range that wraps to a
  place inside the file is let through (`NoteWriter.SaneExactly`;
  `ImageExamples.WrappedLetThrough`).
- Names are replaced in the last PT_NOTE only, so a note of the same name in an earlier
  one is read instead (`SectionReader.ExtractAfterWrite`; `ImageExamples.StaleNoteWins`).
- The reader stops at its size limits, the writer has none (`SectionReader.WalkAfterWrite`;
  `ImageExamples.LongNameUnread`).
- `find_marker` misses a marker that a short read cuts in two (`MarkerFinder.FindFirst`;
  `MissesCutMarker`).
- The two metadata readers disagree on a file that ends inside a declared configuration
  (`SmolSection.ReadersAgree`; `ReadersDisagree`).
- The program path is quoted but not escaped (`WindowsCommandLine.CommandLineRoundTrip`;
  `QuotedPathIsLost`), and a line that fits its buffer is refused when the slack of the checks
  does not fit as well (`WindowsCommandLine.BuildWindowsCmdline`; `RefusedThoughItFits`).
- The field lookup takes the first quoted name at any depth, be it a value or a member of a
  nested object (`FieldLookup.MemberFound`; `NestedTagWins`), and goes on behind an object
  that lacks it (`FieldLookup.FieldLookup`; `NextTagTaken`). For the assets the first bracket
  behind the first mention decides, though it be another member's
  (`AssetLookup.MemberAssets`; `OtherListTaken`).
- A copied field loses the backslashes of its escapes, which is its JSON value only for some
  (`JsonPieces.UnescapedIsJson`; `LineFeedIsLost`).
- A second `prompt` erases a pending `cancel` of the first (`SessionLaws.CancelExactly`;
  `CancelIsLost`).
- The token budget is one token stricter than the context asks (`TokenBudget.BudgetExactly`;
  `RefusedThoughItSuffices`).
- `Instant.round` uses the value's sign (`Rounding.SignedVersusAsIfPositive`; `SignMatters`), and
  `Instant.since` negates the difference as well as the mode
  (`InstantArithmetic.SinceVersusProposal`; `SinceDiffers`). A smallest unit above the largest is
  not refused, and the default largest unit stays the second
  (`InstantArithmetic.NothingBelowSmallest`; `SmallestAboveLargest`).
- `PlainYearMonth` addition refuses the outermost years (`YearMonth.AddSucceeds`;
  `OutermostYearRefused`); a largest unit of `auto` gives a zero difference
  (`YearMonth.OtherUnitsLoseTheDifference`; `AutoSaysNothing`).
- A PT_NOTE stays at address zero without a PT_LOAD that ends above it
  (`SegmentPlacement.AllNotesVisible`; `NoteStaysHidden`), and placed segments are spaced by
  their size in the file, not in memory (`SegmentPlacement.MemoryApart`; `MemoryOverlaps`).
- The UTF-8 decoder lets overlong forms, surrogates and large values through although its
  comment promises WHATWG behaviour (`Utf8.StandardExactly`; `LetThrough`), and its length
  function believes the lead byte (`Utf8.ByteLenExactly`; `LengthBelieved`).

Comments and names that disagree with the code, without a lemma: comments call the integrity
hash 32 bytes of SHA-256, and the code stores 64 bytes of SHA-512; the comment on
`flip_sea_fuse_raw` promises -1 without a fuse, and the code returns 0; the writer tests for
the name `pressed_data`, which is not the name `PRESSED_DATA` in `segment_names.h`, and the
two are kept apart here.

## Assumptions

- The writer is not given an image of the kind its check wrongly lets through
  (`NoteWriter.Sane`), for what it then reads is undefined; sizes fit `off_t`. The header table stands behind the 64-byte
  header where a law needs the header to stay as it is.
- The PT_NOTE finder reads a table with short declared entries into a buffer on its stack and
  looks at entries of the class's length, so what the buffer and the header variable held
  before is a parameter (`frame`, `stack`).
- Laws about earlier PT_NOTE entries ask that these lie in the file and off the header table
  (`NoteWriterLaws.Settled`).
- Rounding increment times unit fits 64 bits (`InstantArithmetic.StepFits`); prompt tokens
  plus requested output fit 32 bits.
- `read` returns fewer bytes than asked for only as `MarkerFinder.Cut` says: at any point, by
  at least one byte, until end of file.
- SHA-512 is a function parameter. Text stops before its terminator.
- The JavaScript thread calls a handle only while it holds it, and the runtime runs the
  finalizer only when neither JavaScript nor a job refers to the handle. The session's own
  mutex is taken only under the holder's, so it never blocks and is not a step of its own.

## Model

| member | source | states |
|---|---|---|
| NoteWriter.ReuseMultiPtnote | packages/bin-infra/src/socketsecurity/bin-infra/elf_note_utils_raw_write.hpp:93-513 | The in-place algorithm over the image as an array computes the specified rewrite: the first refusal in the code's order, or the patched image followed by the kept and the new notes |
| NoteWriter.ReuseSinglePtnote | packages/bin-infra/src/socketsecurity/bin-infra/elf_note_utils_raw_write.hpp:540-549 | Writing one note is writing the list of it, without a fuse flip |
| NoteWriter.Refusal | packages/bin-infra/src/socketsecurity/bin-infra/elf_note_utils_raw_write.hpp:99-195 | There is no objection exactly when there are notes to write and the image is a 64-bit little-endian ELF whose table fits and holds a PT_NOTE |
| NoteWriter.SaneExactly | packages/bin-infra/src/socketsecurity/bin-infra/elf_note_utils_raw_write.hpp:321 | The scan of the old notes stays inside the image whenever the 64-bit check of their end lets it through, exactly when the entry does not wrap or wraps to a place behind the image |
| NoteWriter.BuildNotes | packages/bin-infra/src/socketsecurity/bin-infra/elf_note_utils_raw_write.hpp:248-271 | The zero-filled record patched field by field is the layout of the note format, for every note and in order |
| NoteWriter.PreserveNotes | packages/bin-infra/src/socketsecurity/bin-infra/elf_note_utils_raw_write.hpp:314-361 | The scan keeps, byte for byte and in order, exactly the notes whose names are not being written |
| NoteWriter.CombineNotes | packages/bin-infra/src/socketsecurity/bin-infra/elf_note_utils_raw_write.hpp:304-371 | The appended bytes are the old note list updated by the new notes |
| NoteWriter.FindLastLoad | packages/bin-infra/src/socketsecurity/bin-infra/elf_note_utils_raw_write.hpp:201-233 | The loop ends with the last PT_LOAD whose file end none before it exceeds, or with none |
| NoteWriter.FindLastNote | packages/bin-infra/src/socketsecurity/bin-infra/elf_note_utils_raw_write.hpp:280-290 | The loop ends with the last PT_NOTE entry |
| NoteWriter.FindInterp | packages/bin-infra/src/socketsecurity/bin-infra/elf_note_utils_raw_write.hpp:398-411 | Found exactly when the table holds a PT_INTERP |
| NoteWriter.PlaceNotes | packages/bin-infra/src/socketsecurity/bin-infra/elf_note_utils_raw_write.hpp:424-467 | The address of the notes and the new sizes of the load are those of the plan, with 64-bit wrap-around |
| NoteWriter.MakePlan | packages/bin-infra/src/socketsecurity/bin-infra/elf_note_utils_raw_write.hpp:161-467 | Header checks, searches and address arithmetic arrive at the refusal or the plan of the specification |
| NoteWriter.PatchEntry | packages/bin-infra/src/socketsecurity/bin-infra/elf_note_utils_raw_write.hpp:478-484 | The seven stores fill the entry from its flags to its alignment without a hole or an overlap |
| NoteWriter.PatchLoad | packages/bin-infra/src/socketsecurity/bin-infra/elf_note_utils_raw_write.hpp:444-449 | Exactly the two size fields of the load entry are stored |
| NoteWriter.PatchNote | packages/bin-infra/src/socketsecurity/bin-infra/elf_note_utils_raw_write.hpp:469-484 | Exactly the fields behind the type of the reused entry are stored |
| NoteWriter.PatchHeaders | packages/bin-infra/src/socketsecurity/bin-infra/elf_note_utils_raw_write.hpp:438-484 | The two patches together give the plan's image, also when their entries meet |
| ElfImage.LastLoadEndsLast | packages/bin-infra/src/socketsecurity/bin-infra/elf_note_utils_raw_write.hpp:225-231 | No PT_LOAD ends behind the chosen one in the file, as long as no end wraps |
| Bytes.FieldDigit | packages/bin-infra/src/socketsecurity/bin-infra/elf_note_utils_raw_write.hpp:166-168 | Byte i of a field copied out of the image is the field's digit i to the base 256, least significant first |
| Bytes.ToLEDigit | packages/bin-infra/src/socketsecurity/bin-infra/elf_note_utils_raw_write.hpp:444-449 | So is byte i of a value copied in |
| Bytes.W64Is | packages/bin-infra/src/socketsecurity/bin-infra/elf_note_utils_raw_write.hpp:421-431 | Wrapping is the remainder modulo 2^64, for negative differences too |
| NoteCodec.ChunkRoundTrip | packages/bin-infra/src/socketsecurity/bin-infra/elf_note_utils_raw_write.hpp:248-271 | A note laid out by the writer reads back with its name and data, and takes the computed number of bytes |
| NoteCodec.ScanFlatten | packages/bin-infra/src/socketsecurity/bin-infra/elf_note_utils_raw_write.hpp:326-360 | Scanning a concatenation of notes gives the notes, whatever ill-formed bytes follow |
| NoteCodec.FlattenScan | packages/bin-infra/src/socketsecurity/bin-infra/elf_note_utils_raw_write.hpp:326-360 | The scanned notes are the front of the scanned bytes, nothing dropped in between |
| NoteCodec.WalkIsCappedScan | packages/bin-infra/src/socketsecurity/bin-infra/binject_section_ops.hpp:336-363 | The reader's walk yields the notes before the first one over its limits |
| NoteCodec.CappedPrefixComplete | packages/bin-infra/src/socketsecurity/bin-infra/binject_section_ops.hpp:344 | The reader sees the whole list exactly when every note is within the limits |
| NoteCodec.KeepMembers | packages/bin-infra/src/socketsecurity/bin-infra/elf_note_utils_raw_write.hpp:347-357 | A note is kept exactly when it was there and its name is not being written |
| NoteCodec.UpdateTwice | packages/bin-infra/src/socketsecurity/bin-infra/elf_note_utils_raw_write.hpp:312-371 | Two updates leave the originals under neither set of names, then the first notes not named again, then the second notes |
| NoteCodec.UpdateIdempotent | packages/bin-infra/src/socketsecurity/bin-infra/elf_note_utils_raw_write.hpp:312-371 | Updating with the same notes again changes nothing |
| NoteCodec.FindAfterUpdate | packages/bin-infra/src/socketsecurity/bin-infra/elf_note_utils_raw_write.hpp:312-371 | Looking a name up after an update gives the new note of that name, and the old one for every other name |
| NoteCodec.FindNew | packages/bin-infra/src/socketsecurity/bin-infra/elf_note_utils_raw_write.hpp:363-371 | Among distinctly named new notes each is found under its name |
| NoteCodec.SeenNew | packages/bin-infra/src/socketsecurity/bin-infra/binject_section_ops.hpp:336-363 | Among distinctly named new notes the reader sees one exactly when it and those before it are within its limits |
| NoteCodec.UncoversExactly | packages/bin-infra/src/socketsecurity/bin-infra/binject_section_ops.hpp:336-363 | Dropping replaced notes changes what the reader sees of another name exactly when a note over the limits that hid it goes |
| NoteWriterLaws.OutputFrame | packages/bin-infra/src/socketsecurity/bin-infra/elf_note_utils_raw_write.hpp:438-495 | The output is the image followed by the notes; image bytes differ only in bytes 4 to 55 of the reused entry and in the two sizes of the stretched one |
| NoteWriterLaws.WholeFrame | packages/bin-infra/src/socketsecurity/bin-infra/elf_note_utils_raw_write.hpp:93-513 | From the input file on: the whole writer, flip included, changes bytes only in those two ranges and at the last byte of the leftmost fuse, and appends exactly the bytes of the notes |
| NoteWriterLaws.FlipKeepsTable | packages/bin-infra/src/socketsecurity/bin-infra/elf_note_utils_raw_write.hpp:152-160 | The flip leaves the header's table fields alone exactly when its byte is in neither the entry size nor the count |
| NoteWriterLaws.FlipKeepsType | packages/bin-infra/src/socketsecurity/bin-infra/elf_note_utils_raw_write.hpp:152-160 | It leaves an entry's type alone exactly when its byte is not in it |
| NoteWriterLaws.WholeTable | packages/bin-infra/src/socketsecurity/bin-infra/elf_note_utils_raw_write.hpp:93-513 | So the whole writer keeps the table's place, entry size, count and every type, as long as the fuse is in none of them |
| NoteWriterLaws.EarlierKept | packages/bin-infra/src/socketsecurity/bin-infra/elf_note_utils_raw_write.hpp:438-495 | A PT_NOTE in front of the reused one is in the output as it was, entry and bytes |
| NoteWriterLaws.OutputEntry | packages/bin-infra/src/socketsecurity/bin-infra/elf_note_utils_raw_write.hpp:438-484 | Every table entry of the output: the reused one describes the notes, the stretched one has new sizes, the others and all types are as before |
| NoteWriterLaws.NoteEntryRest | packages/bin-infra/src/socketsecurity/bin-infra/elf_note_utils_raw_write.hpp:469-484 | The reused entry is readable only, its physical address is its virtual one, and its alignment is 4 |
| NoteWriterLaws.OutputHeader | packages/bin-infra/src/socketsecurity/bin-infra/elf_note_utils_raw_write.hpp:161-195 | With the table behind the header, its offset, entry size and count are unchanged |
| NoteWriterLaws.OutputWritable | packages/bin-infra/src/socketsecurity/bin-infra/elf_note_utils_raw_write.hpp:280-295 | The output can be written again and the second run picks the same entry |
| NoteWriterLaws.OutputNotes | packages/bin-infra/src/socketsecurity/bin-infra/elf_note_utils_raw_write.hpp:280-371 | Scanning the rewritten segment gives exactly the updated note list |
| NoteWriterLaws.WriteTwice | packages/bin-infra/src/socketsecurity/bin-infra/elf_note_utils_raw_write.hpp:280-371 | Two whole rewrites act on the image's notes like two updates of an ordered map, in the same entry |
| NoteWriterLaws.WriteAgain | packages/bin-infra/src/socketsecurity/bin-infra/elf_note_utils_raw_write.hpp:280-371 | Writing the same notes again leaves the note list as it is |
| NoteMapping.NotesAreMapped | packages/bin-infra/src/socketsecurity/bin-infra/elf_note_utils_raw_write.hpp:424-484 | With an interpreter, the stretched load ends at the new end of file, grows in memory by as much as in the file, and holds the notes in file and memory at one distance between address and offset |
| NoteMapping.ExtendsExactly | packages/bin-infra/src/socketsecurity/bin-infra/elf_note_utils_raw_write.hpp:383-438 | A PT_LOAD is stretched exactly in an image with a PT_INTERP and a PT_LOAD when no note is called `pressed_data` |
| NoteMapping.NotesStayUnmapped | packages/bin-infra/src/socketsecurity/bin-infra/elf_note_utils_raw_write.hpp:452-467 | Without an interpreter, or with a note called `pressed_data`, every PT_LOAD entry of the output is unchanged, and the notes get a page-aligned address at least 0x10000000 above the file size and less than a page beyond that, behind every PT_LOAD whose memory ends below |
| NoteMapping.NotesWithoutLoad | packages/bin-infra/src/socketsecurity/bin-infra/elf_note_utils_raw_write.hpp:424-431 | With an interpreter and no PT_LOAD the address is the file size |
| NoteMapping.ZeroFillExactly | packages/bin-infra/src/socketsecurity/bin-infra/elf_note_utils_raw_write.hpp:444-449 | The stretched load's zero-filled tail still reads as zeros exactly when the image's bytes under it are zeros, and so are those of the notes as far as they lie under it |
| NoteMapping.NotesMissZeroFill | packages/bin-infra/src/socketsecurity/bin-infra/elf_note_utils_raw_write.hpp:424-431 | The notes stay off the addresses of the zero-filled tail exactly when that tail, laid over the file, ends before them |
| SampleImage.ImageHeaders | packages/bin-infra/src/socketsecurity/bin-infra/elf_note_utils_raw_write.hpp:161-195 | An image made of a list of entries is one the writer accepts, and it reads back exactly that list |
| ImageExamples.NoteBytes | packages/bin-infra/src/socketsecurity/bin-infra/elf_note_utils_raw_write.hpp:248-271 | A note of name "A" and one byte of data, byte for byte |
| ImageExamples.StaticAddress | packages/bin-infra/src/socketsecurity/bin-infra/elf_note_utils_raw_write.hpp:452-467 | A static image of 176 bytes: the notes get the address 0x10001000 and the PT_LOAD stays |
| ImageExamples.ZeroFillLost | packages/bin-infra/src/socketsecurity/bin-infra/elf_note_utils_raw_write.hpp:444-449 | An image whose zero-filled tail does not load as zeros after a write |
| ImageExamples.NotesInZeroFill | packages/bin-infra/src/socketsecurity/bin-infra/elf_note_utils_raw_write.hpp:424-431 | An image whose zero-filled tail reaches the addresses the notes get |
| ImageExamples.WrappedLetThrough | packages/bin-infra/src/socketsecurity/bin-infra/elf_note_utils_raw_write.hpp:321 | An entry whose end wraps to a place inside the image passes the check, though it starts behind the image |
| ImageExamples.WrappedSkipped | packages/bin-infra/src/socketsecurity/bin-infra/elf_note_utils_raw_write.hpp:321 | An entry whose end wraps to a place behind the image is skipped, and the writer goes on |
| ImageExamples.StaleNoteWins | packages/bin-infra/src/socketsecurity/bin-infra/binject_section_ops.hpp:322-364 | An image with a note of the same name in an earlier PT_NOTE, which is read instead of the written one |
| ImageExamples.LongNameUnread | packages/bin-infra/src/socketsecurity/bin-infra/binject_section_ops.hpp:344 | A note with a name of 1024 bytes is written, and the walk does not show it |
| SeaFuse.FlipSeaFuseRaw | packages/bin-infra/src/socketsecurity/bin-infra/elf_note_utils_raw_probe.hpp:120-139 | The loop flips the leftmost unflipped fuse in place, or changes nothing |
| SeaFuse.FlipTakesOne | packages/bin-infra/src/socketsecurity/bin-infra/elf_note_utils_raw_probe.hpp:127-133 | A flip removes exactly the leftmost unflipped fuse, lowers their number by one, and changes one byte, from 0 to 1 |
| SectionReader.WalkNotes | packages/bin-infra/src/socketsecurity/bin-infra/binject_section_ops.hpp:336-363 | The walk over a segment finds the first note of the name within the limits and returns its data |
| SectionReader.ExtractSection | packages/bin-infra/src/socketsecurity/bin-infra/binject_section_ops.hpp:322-364 | The loop over segments returns the first hit in table order |
| SectionReader.MeasureNote | packages/bin-infra/src/socketsecurity/bin-infra/binject_section_ops.hpp:487-512 | The second copy of the walk finds the same note and reports its size |
| SectionReader.VerifySection | packages/bin-infra/src/socketsecurity/bin-infra/binject_section_ops.hpp:457-515 | Existence and size agree with what extraction returns |
| SectionReader.WalkAfterWrite | packages/bin-infra/src/socketsecurity/bin-infra/binject_section_ops.hpp:336-363 | Walking over the rewritten segment yields the updated list byte for byte exactly when every note of it is within the reader's limits |
| SectionReader.EarlierSame | packages/bin-infra/src/socketsecurity/bin-infra/binject_section_ops.hpp:322-364 | The PT_NOTE segments in front of the reused one show after a write what they showed before |
| SectionReader.ExtractAfterWrite | packages/bin-infra/src/socketsecurity/bin-infra/binject_section_ops.hpp:322-364 | Extracting a written note: an earlier PT_NOTE of the image that shows the name wins; otherwise the written data comes out exactly when the reader's limits let it get there |
| SectionReader.ExtractOther | packages/bin-infra/src/socketsecurity/bin-infra/binject_section_ops.hpp:322-364 | A note that was not written reads as before the write exactly when an earlier PT_NOTE of the image shows it or the write changes nothing about the limits in front of it |
| MarkerFinder.FindMarker | packages/bin-infra/src/socketsecurity/bin-infra/marker_finder.h:39-102 | For every way reads cut the file: the end of the leftmost occurrence no short read cuts in two, or -1 exactly when there is none |
| MarkerFinder.SearchBuffer | packages/bin-infra/src/socketsecurity/bin-infra/marker_finder.h:65-84 | Finds the leftmost occurrence in the buffer, or none exactly when there is none |
| MarkerFinder.FullReadsSeeAll | packages/bin-infra/src/socketsecurity/bin-infra/marker_finder.h:90-97 | When only the last read is short, every occurrence is seen, across chunk boundaries too |
| MarkerFinder.FindFirst | packages/bin-infra/src/socketsecurity/bin-infra/marker_finder.h:39-102 | The leftmost occurrence of the file is returned exactly when no short read cuts it in two |
| MarkerFinder.MissesCutMarker | packages/bin-infra/src/socketsecurity/bin-infra/marker_finder.h:90-97 | Two reads of one byte: a marker of two bytes is in the file and is not found |
| PtnoteFinder.FindMarkerInPtnote | packages/bin-infra/src/socketsecurity/bin-infra/ptnote_finder.h:57-234 | The marker search over 32- and 64-bit headers, for every declared entry size, returns the first hit by segments, at or after the marker, or -1 with every early exit of the code |
| PtnoteFinder.SearchMeaning | packages/bin-infra/src/socketsecurity/bin-infra/ptnote_finder.h:63-230 | Something is found exactly in a little-endian ELF file with a readable table, no PT_NOTE above 64 MiB and one that holds the marker, and then the first place in the first of them |
| PtnoteFinder.FindInTable | packages/bin-infra/src/socketsecurity/bin-infra/ptnote_finder.h:136-230 | The two passes over the buffered entries: -1 when no PT_NOTE is large enough or one is too large, else the first hit |
| PtnoteFinder.TwoLevelSearch | packages/bin-infra/src/socketsecurity/bin-infra/ptnote_finder.h:205-229 | Comparing four bytes first finds the same leftmost occurrence as comparing all |
| PtnoteFinder.FindMarkerInBuffer | packages/bin-infra/src/socketsecurity/bin-infra/smol_segment_reader_metadata.c:189-229 | The in-memory search returns the leftmost occurrence of the marker |
| PtnoteFinder.LargestNote | packages/bin-infra/src/socketsecurity/bin-infra/ptnote_finder.h:139-158 | The largest size among PT_NOTE entries |
| PtnoteFinder.SearchSegments | packages/bin-infra/src/socketsecurity/bin-infra/ptnote_finder.h:169-230 | The first segment in table order with a hit decides |
| SampleImage32.ImageSegments | packages/bin-infra/src/socketsecurity/bin-infra/ptnote_finder.h:84-158 | A 32-bit image made of up to 128 segments is accepted and read as exactly those segments |
| SmolSection.CalculateCacheKey | packages/bin-infra/src/socketsecurity/bin-infra/smol_segment.c:123-139 | The key is the lower-case hexadecimal of the first eight hash bytes |
| SmolSection.HexSpells | packages/bin-infra/src/socketsecurity/bin-infra/smol_segment.c:128-135 | Digits 2i and 2i+1 of the key spell byte i, the high digit first, in lower case |
| SmolSection.IsHexExactly | packages/bin-infra/src/socketsecurity/bin-infra/smol_segment_reader_metadata.c:159 | The characters validation takes are the digits of the key and their capitals |
| SmolSection.HexInjective | packages/bin-infra/src/socketsecurity/bin-infra/smol_segment.c:128-135 | Two hashes have the same key exactly when their first eight bytes agree |
| SmolSection.BuildSectionData | packages/bin-infra/src/socketsecurity/bin-infra/smol_segment.c:144-241 | The filled buffer is marker, sizes, key, platform, hash, configuration and payload without gaps; an empty payload is refused |
| SmolSection.Descriptor.Read | packages/bin-infra/src/socketsecurity/bin-infra/smol_segment_reader_metadata.c:31-71 | A read returns the bytes at the position, fewer only at the end of file, and moves behind exactly those |
| SmolSection.ReadMetadataAfterMarker | packages/bin-infra/src/socketsecurity/bin-infra/smol_segment_reader_metadata.c:21-90 | The reads give the record at the position, and the payload starts behind a skipped configuration |
| SmolSection.ReadMetadataWithConfig | packages/bin-infra/src/socketsecurity/bin-infra/smol_segment_reader_version.c:175-245 | The same record and the configuration, or nothing when the file ends inside either |
| SmolSection.ReadersAgree | packages/bin-infra/src/socketsecurity/bin-infra/smol_segment_reader_version.c:222-232 | The two readers agree exactly on files that do not end before or inside a declared configuration |
| SmolSection.ReadersDisagree | packages/bin-infra/src/socketsecurity/bin-infra/smol_segment_reader_version.c:222-232 | A file that ends behind the flag of a configuration: one reader takes it, the other does not |
| SmolSection.SectionRoundTrip | packages/bin-infra/src/socketsecurity/bin-infra/smol_segment.c:144-241 | Both readers give back sizes, key, platform, hash, configuration and payload of a built section, wherever it stands |
| SmolSection.SectionBytes | packages/bin-infra/src/socketsecurity/bin-infra/smol_segment.c:144-241 | Every part of the built section stands at the place the format gives it, with the value a reader of those bytes takes there |
| SmolSection.MarkerSpelled | packages/bin-infra/src/socketsecurity/bin-infra/smol_segment.c:144-241 | The three parts of the marker spell it |
| SmolSection.ValidateMetadata | packages/bin-infra/src/socketsecurity/bin-infra/smol_segment_reader_metadata.c:122-184 | Accepts exactly the records in range |
| SmolSection.IntegrityOfBuilt | packages/bin-infra/src/socketsecurity/bin-infra/smol_segment.c:90-115 | Checked against the record read back from a built section, the stored payload passes, and data passes exactly when it is not empty and hashes like the payload |
| SmolSection.BuiltIsValid | packages/bin-infra/src/socketsecurity/bin-infra/smol_segment_reader_metadata.c:122-184 | A built section passes validation exactly when its sizes and platform bytes are in range |
| SmolContainer.MarkerUnbordered | packages/bin-infra/src/socketsecurity/bin-infra/smol_segment.c:169-172 | The marker overlaps no shift of itself |
| SmolContainer.EarlierHitSame | packages/bin-infra/src/socketsecurity/bin-infra/ptnote_finder.h:169-230 | The PT_NOTE segments in front of the reused one hit after a write where they hit before |
| SmolContainer.SearchIsFound | packages/bin-infra/src/socketsecurity/bin-infra/ptnote_finder.h:57-234 | Where the finder ends up in a written image, in terms of the image: an earlier segment's hit, else the first marker in the rewritten segment, or nothing outside the limits |
| SmolContainer.FindWritten | packages/bin-infra/src/socketsecurity/bin-infra/ptnote_finder.h:169-230 | The finder returns the start of the written section exactly when the image is within the limits, no earlier PT_NOTE of it hits, and the notes in front of the section do not contain the marker |
| SmolContainer.EndToEnd | packages/bin-infra/src/socketsecurity/bin-infra/smol_segment_reader_version.c:175-245 | A section built, written as a note and searched for is found at its place exactly in an image clear of earlier markers, and reading it then gives back everything stored, the payload with the stored hash |
| GlobMatch.Glob | packages/bin-stub-builder/src/socketsecurity/bin-stub-builder/update_checker.h:117-148 | The loop with one remembered star returns true exactly when the text is in the meaning of the pattern, and ends |
| GlobMatch.MatchesMeaning | packages/bin-stub-builder/src/socketsecurity/bin-stub-builder/update_checker.h:117-148 | A pattern matches exactly the texts that can be cut into one piece for each of its characters: anything for a star, any one character for a question mark, else the character itself |
| GlobMatch.StarIsAnyPrefix | packages/bin-stub-builder/src/socketsecurity/bin-stub-builder/update_checker.h:128-131 | A star stands for any prefix of the text, the empty one included |
| GlobMatch.LastStarSuffices | packages/bin-stub-builder/src/socketsecurity/bin-stub-builder/update_checker.h:135-138 | Behind a matched star-free piece only the second star decides, so forgetting the first loses no match |
| GlobMatch.NoRoomLater | packages/bin-stub-builder/src/socketsecurity/bin-stub-builder/update_checker.h:135-138 | When the text ends inside the piece, no later place of the star matches |
| ReleaseScanner.JsonFindString | packages/bin-stub-builder/src/socketsecurity/bin-stub-builder/update_checker.h:188-221 | The value behind the first occurrence of the quoted key, without the backslashes of its escapes and cut to the buffer, or nothing |
| ReleaseScanner.CopyValue | packages/bin-stub-builder/src/socketsecurity/bin-stub-builder/update_checker.h:210-218 | The copied value is the front of the literal that fits the buffer, without the backslashes of its escapes |
| ReleaseScanner.SkipString | packages/bin-stub-builder/src/socketsecurity/bin-stub-builder/update_checker.h:270-276 | The inner loop stops at the closing quote, over escaped ones, or at the end |
| ReleaseScanner.SkipObject | packages/bin-stub-builder/src/socketsecurity/bin-stub-builder/update_checker.h:262-278 | The depth counter stops where the object ends |
| ReleaseScanner.EmptyAssets | packages/bin-stub-builder/src/socketsecurity/bin-stub-builder/update_checker.h:286-301 | Whether the object has an assets array that is empty |
| ReleaseScanner.ConsiderRelease | packages/bin-stub-builder/src/socketsecurity/bin-stub-builder/update_checker.h:280-313 | One release replaces the best so far exactly when its tag is wanted, it has assets and it is newer |
| ReleaseScanner.ParseGithubReleases | packages/bin-stub-builder/src/socketsecurity/bin-stub-builder/update_checker.h:240-323 | The pointer loop computes the scan of the text |
| JsonPieces.ObjectEnds | packages/bin-stub-builder/src/socketsecurity/bin-stub-builder/update_checker.h:262-278 | The scanner passes exactly the object, whatever nested objects and strings with braces and escaped quotes it holds |
| FieldLookup.FieldLookup | packages/bin-stub-builder/src/socketsecurity/bin-stub-builder/update_checker.h:188-221 | In an object of any nesting the lookup gives the string behind the first literal, at any depth, that holds the quoted key, unescaped and cut; without one it goes on behind the object |
| FieldLookup.MemberFound | packages/bin-stub-builder/src/socketsecurity/bin-stub-builder/update_checker.h:188-221 | A member of the object itself is what the lookup gives exactly when no literal in front of it, at any depth, holds the quoted key, or the first that does is followed by a string that looks the same |
| FieldLookup.NestedTagWins | packages/bin-stub-builder/src/socketsecurity/bin-stub-builder/update_checker.h:197-207 | The object whose tag is "b" behind a nested object with the tag "a": the lookup gives "a" |
| JsonPieces.BlanksAreSpace | packages/bin-stub-builder/src/socketsecurity/bin-stub-builder/update_checker.h:248 | The scanner skips the white space of JSON, all of it and nothing else |
| JsonPieces.SeparatorsAreSpace | packages/bin-stub-builder/src/socketsecurity/bin-stub-builder/update_checker.h:203-205 | Between a name and its value it skips white space and the colon |
| JsonPieces.UnescapedIsJson | packages/bin-stub-builder/src/socketsecurity/bin-stub-builder/update_checker.h:213-217 | What is copied is the JSON value of the literal exactly when all its escapes stand for themselves |
| JsonPieces.LineFeedIsLost | packages/bin-stub-builder/src/socketsecurity/bin-stub-builder/update_checker.h:213-217 | An escaped line feed is copied as the letter behind its backslash |
| FieldLookup.LackingFieldReadsOn | packages/bin-stub-builder/src/socketsecurity/bin-stub-builder/update_checker.h:197-198 | A field the object lacks is taken from the text behind the object |
| FieldLookup.NextTagTaken | packages/bin-stub-builder/src/socketsecurity/bin-stub-builder/update_checker.h:197-198 | An empty object in front of another takes that one's tag |
| AssetLookup.AssetsAreLocal | packages/bin-stub-builder/src/socketsecurity/bin-stub-builder/update_checker.h:286-301 | Whether assets are empty depends on the object's own text only |
| AssetLookup.AssetsText | packages/bin-stub-builder/src/socketsecurity/bin-stub-builder/update_checker.h:286-301 | Every object, of any nesting and whatever follows it, counts as without assets exactly when it mentions the name and the first bracket behind the first mention, in a literal or nested object too, opens an empty array |
| AssetLookup.MemberAssets | packages/bin-stub-builder/src/socketsecurity/bin-stub-builder/update_checker.h:286-301 | An object counts as without assets exactly when its own array of that name is empty, if and only if no bracket stands between an earlier mention and the member, or the first such bracket opens an empty array exactly when the member's does |
| AssetLookup.OtherListTaken | packages/bin-stub-builder/src/socketsecurity/bin-stub-builder/update_checker.h:286-301 | An object whose own array of assets is empty, behind another member's list that is taken for it |
| ReleaseLaws.StrCmpOrder | packages/bin-stub-builder/src/socketsecurity/bin-stub-builder/update_checker.h:228-233 | The comparison is antisymmetric and zero only for equal timestamps |
| ReleaseLaws.StrCmpTransitive | packages/bin-stub-builder/src/socketsecurity/bin-stub-builder/update_checker.h:228-233 | The comparison is transitive, strictly so when one step is strict |
| ReleaseLaws.StrCmpMeaning | packages/bin-stub-builder/src/socketsecurity/bin-stub-builder/update_checker.h:228-233 | The comparison is negative exactly when the texts agree up to a place where the first ends and the second goes on, or the first has the smaller character |
| ReleaseLaws.ScanIsNewest | packages/bin-stub-builder/src/socketsecurity/bin-stub-builder/update_checker.h:257-315 | The scan visits exactly the releases of the array, in order |
| ReleaseLaws.WinnerExists | packages/bin-stub-builder/src/socketsecurity/bin-stub-builder/update_checker.h:307-311 | As soon as there is a candidate there is a winner: none is dated later, and every one in front is dated earlier, in the order of the characters |
| ReleaseLaws.ParseMeaning | packages/bin-stub-builder/src/socketsecurity/bin-stub-builder/update_checker.h:240-323 | For every array of releases whose own tag, date and assets members are not shadowed: the tag of the first newest candidate, and failure exactly when there is none or its tag is empty; a candidate's assets array is not empty |
| ReleaseExample.LaterPicked | packages/bin-stub-builder/src/socketsecurity/bin-stub-builder/update_checker.h:240-323 | Of two releases with any two dates the scanner returns the tag of the later one, and of the first when the second is not later |
| ReleaseExample.NewerYearPicked | packages/bin-stub-builder/src/socketsecurity/bin-stub-builder/update_checker.h:307-311 | The text of an answer with a release of 2023 and one of 2024: the tag of 2024 is returned |
| WindowsCommandLine.BuildWindowsCmdline | packages/bin-stub-builder/src/socketsecurity/bin-stub-builder/pe_stub.c:84-157 | Succeeds exactly when the buffer is longer than the line and its slack, and then holds the line and its terminator; the slack is 0 without arguments or with an empty last one, 1 when the last ends in a quote or backslash, else 2 |
| WindowsCommandLine.RefusedThoughItFits | packages/bin-stub-builder/src/socketsecurity/bin-stub-builder/pe_stub.c:112 | A line of seven characters is refused for a buffer of nine |
| WindowsCommandLine.EscapeArg | packages/bin-stub-builder/src/socketsecurity/bin-stub-builder/pe_stub.c:107-148 | The inner loop writes the escaped argument and leaves room for its slack, or fails only when the whole line does not fit with its slack |
| WindowsCommandLine.EscapeBackslashes | packages/bin-stub-builder/src/socketsecurity/bin-stub-builder/pe_stub.c:121-143 | A counted backslash run is written doubled before a quote or the end, else its first backslash alone, and what is still to come stays right; it fails only when the line does not fit with its slack |
| WindowsCommandLine.AppendArgument | packages/bin-stub-builder/src/socketsecurity/bin-stub-builder/pe_stub.c:95-152 | A space and the escaped argument in quotes are written, or the line does not fit with its slack |
| WindowsCommandLine.ArgRoundTrip | packages/bin-stub-builder/src/socketsecurity/bin-stub-builder/pe_stub.c:107-151 | One escaped argument in quotes is read back, whatever quotes and backslash runs it holds |
| WindowsCommandLine.ArgumentsRoundTrip | packages/bin-stub-builder/src/socketsecurity/bin-stub-builder/pe_stub.c:95-152 | Every argument list is read back, empty arguments included, under both rules for doubled quotes |
| WindowsCommandLine.CommandLineRoundTrip | packages/bin-stub-builder/src/socketsecurity/bin-stub-builder/pe_stub.c:84-157 | The runtime takes the line apart into exactly path and arguments if and only if the path holds no quote |
| WindowsCommandLine.QuotedPathIsLost | packages/bin-stub-builder/src/socketsecurity/bin-stub-builder/pe_stub.c:88 | A path with a quote in it: the runtime sees another program name |
| WindowsCommandLine.CommandLineInjective | packages/bin-stub-builder/src/socketsecurity/bin-stub-builder/pe_stub.c:84-157 | Different argument lists give different lines |
| SessionProtocol.EveryRunIsSafe | packages/ai-infra/napi/smol_ai_napi.cc:28-38 | In every interleaving: destroyed at most once, no step touches a freed session or holder, no worker inside when it is freed, the holder deleted only when nothing refers to it |
| SessionProtocol.StepKeepsInv | packages/ai-infra/napi/smol_ai_napi.cc:235-327 | Every step of every thread keeps the invariant of mutex, memory and JavaScript thread |
| SessionProtocol.DoomedRun | packages/ai-infra/napi/smol_ai_napi.cc:28-38 | Once destruction has set the cancel flag nothing clears it before the session is freed, no job is queued, and jobs not yet generating end cancelled |
| SessionProtocol.DestroyDooms | packages/ai-infra/napi/smol_ai_napi.cc:313-327 | The step that starts destruction brings that state about, for `Destroy` and the finalizer |
| SessionProtocol.NoDeadlock | packages/ai-infra/napi/smol_ai_napi.cc:235-248 | Whatever is unfinished, some thread can go on |
| SessionLaws.TurnEndsCancelled | packages/ai-infra/src/smol_ai_core.cc:302-312 | Once the flag is set, and until a prompt resets it, a generation that takes another turn returns cancelled in that turn, in every run |
| SessionLaws.GenerationCanEnd | packages/ai-infra/src/smol_ai_core.cc:302-312 | From every state with the flag set some run returns a generating job cancelled |
| SessionLaws.DoomedTurn | packages/ai-infra/src/smol_ai_core.cc:302-312 | After destruction has set the flag, every further turn of a generation returns cancelled, in every run |
| SessionLaws.NoLateStart | packages/ai-infra/napi/smol_ai_napi.cc:238-244 | From the call of `Destroy` on, before the flag is set, no job that waits or checks the holder ever starts its prompt, in every run |
| SessionLaws.DestroyFrees | packages/ai-infra/napi/smol_ai_napi.cc:313-327 | Waiting for the mutex, destruction can always go on to free the session |
| SessionLaws.CallFrees | packages/ai-infra/napi/smol_ai_napi.cc:313-327 | A call of `Destroy` can be seen through to its end: the session freed once, the handle and the jobs still there |
| SessionLaws.CallsDo | packages/ai-infra/napi/smol_ai_napi.cc:267-377 | What an undisturbed prompt, cancel, usage and measurement call of a live session comes to |
| SessionLaws.JobDoes | packages/ai-infra/napi/smol_ai_napi.cc:235-248 | An undisturbed job of a live session returns with its own outcome and leaves the mutex free |
| SessionLaws.FinalizerFreesAll | packages/ai-infra/napi/smol_ai_napi.cc:28-38 | The finalizer can always free the session and the holder |
| SessionLaws.JsReturns | packages/ai-infra/napi/smol_ai_napi.cc:235-327 | From every state the JavaScript thread can become idle again |
| SessionLaws.WindsUp | packages/ai-infra/napi/smol_ai_napi.cc:28-38 | From every state before the holder is deleted all jobs, the session and the holder can come to their end |
| SessionLaws.CancelHolds | packages/ai-infra/napi/smol_ai_napi.cc:300-311 | A cancelled job not yet generating ends cancelled as long as no later prompt resets the flag |
| SessionLaws.CancelExactly | packages/ai-infra/napi/smol_ai_napi.cc:285-311 | A cancelled job not yet generating may still succeed exactly when the session is not being destroyed, JavaScript holds it, and the job does not hold the mutex while the JavaScript thread waits for it; otherwise in every run it waits or has returned cancelled |
| SessionLaws.CancelIsLost | packages/ai-infra/napi/smol_ai_napi.cc:287 | Prompt, cancel, prompt: the second prompt erases the cancellation of the first, which succeeds |
| ModelCache.LiveHandlesAgree | packages/ai-infra/src/smol_ai_core.cc:41-74 | In every interleaving live handles are equal exactly when their paths are, and equal the cache entry |
| ModelCache.StepKeepsInv | packages/ai-infra/src/smol_ai_core.cc:41-74 | Lookup, unprotected load, publication and release keep the cache invariant |
| ModelCache.LookupMeaning | packages/ai-infra/src/smol_ai_core.cc:45-49 | A lookup takes the entry's model exactly when someone still holds it, and only otherwise misses; nothing else changes |
| ModelCache.LiveModelIsShared | packages/ai-infra/src/smol_ai_core.cc:45-49 | As long as a handle lives, a lookup of its path gives the same model without a load, in every run |
| ModelCache.HandleIsStable | packages/ai-infra/src/smol_ai_core.cc:64-73 | No other thread replaces the entry of a live handle |
| ModelCache.DuplicateIsDiscarded | packages/ai-infra/src/smol_ai_core.cc:66-70 | A duplicate load is dropped and no caller sees it, then or later |
| TokenBudget.Prompt | packages/ai-infra/src/smol_ai_core.cc:241-347 | The model is never handed more tokens than the context holds; the first thing that stops the generation is reported; on success the pieces come in order |
| TokenBudget.PromptEnds | packages/ai-infra/src/smol_ai_core.cc:302-329 | The generation ends cancelled exactly when turns that go on lead to one that finds the flag set, and well exactly when they use up the tokens or lead to the end of the text |
| TokenBudget.BudgetExactly | packages/ai-infra/src/smol_ai_core.cc:269-274 | The context suffices for every course of a generation exactly when prompt and output exceed it by at most one, so the check is one token stricter than it has to be |
| TokenBudget.RefusedThoughItSuffices | packages/ai-infra/src/smol_ai_core.cc:269-274 | Three prompt tokens and two to generate are refused with a context of four, which suffices for every course |
| Rounding.UnitsExactly | packages/temporal-infra/include/temporal_rs/Instant.hpp:203-234 | The computed multiple is the one and only value the nine modes define: less than one increment away, nearest with the stated tie rule, or on the required side |
| Rounding.RoundIdempotent | packages/temporal-infra/include/temporal_rs/Instant.hpp:203-234 | Rounding twice is rounding once |
| Rounding.RoundMonotone | packages/temporal-infra/include/temporal_rs/Instant.hpp:203-234 | Rounding keeps order, across zero as well |
| Rounding.RoundNegated | packages/temporal-infra/src/socketsecurity/temporal/options.h:167-186 | Negating value and mode negates the result |
| Rounding.RoundModeNegated | packages/temporal-infra/src/socketsecurity/temporal/options.h:167-186 | Negating only the mode changes nothing exactly for multiples, symmetric modes, and half modes off the middle |
| Rounding.SignedVersusAsIfPositive | packages/temporal-infra/include/temporal_rs/Instant.hpp:203-205 | Using the value's sign agrees with rounding as if positive exactly when the value is not negative, is a multiple, or the mode does not look at zero |
| Rounding.SignMatters | packages/temporal-infra/include/temporal_rs/Instant.hpp:203-205 | Truncating -1 to twos: zero with the sign, -2 as if positive |
| InstantArithmetic.UnitIsField | packages/temporal-infra/include/temporal_rs/Instant.hpp:174-190 | The length of a unit is that of one such unit in a duration, for exactly the units from day to nanosecond |
| InstantArithmetic.UnitLadder | packages/temporal-infra/include/temporal_rs/Instant.hpp:490-530 | The lengths, each from the next: 24, 60, 60, and three times 1000 |
| InstantArithmetic.RoundInstantMeaning | packages/temporal-infra/include/temporal_rs/Instant.hpp:160-243 | A rounded instant is valid, is the rounding its mode asks for to the increment times the length of the smallest unit, and rounds to itself |
| InstantArithmetic.NinetySeconds | packages/temporal-infra/include/temporal_rs/Instant.hpp:160-243 | Ninety seconds rounded to minutes are two minutes |
| InstantArithmetic.RoundDelta | packages/temporal-infra/include/temporal_rs/Instant.hpp:423-456 | The rounding block computes the rounding, and skipping it for the defaults is right |
| InstantArithmetic.BalanceLaws | packages/temporal-infra/include/temporal_rs/Instant.hpp:490-530 | Fields add back to the delta, all carry its sign, each stays below the next unit |
| InstantArithmetic.BalanceOfSum | packages/temporal-infra/include/temporal_rs/Instant.hpp:490-530 | Balancing is the only way to write the sum: it undoes adding up on balanced fields |
| InstantArithmetic.BalanceNegated | packages/temporal-infra/include/temporal_rs/Instant.hpp:490-530 | Balancing the negated delta negates every field |
| InstantArithmetic.BalanceTimeDuration | packages/temporal-infra/include/temporal_rs/Instant.hpp:501-530 | The step-by-step balancing computes these fields and no 64-bit narrowing loses anything past the guards |
| InstantArithmetic.Diff | packages/temporal-infra/include/temporal_rs/Instant.hpp:337-537 | The whole method computes the specified difference, with its refusals in order |
| InstantArithmetic.UntilMeaning | packages/temporal-infra/include/temporal_rs/Instant.hpp:326-329 | The fields of `until` are balanced and add up to the rounding of the exact difference to the increment times the length of the smallest unit |
| InstantArithmetic.NothingBelowSmallest | packages/temporal-infra/include/temporal_rs/Instant.hpp:346-412 | Every field below the smallest unit is zero exactly when the largest unit is not below the smallest, or the difference is zero |
| InstantArithmetic.SmallestAboveLargest | packages/temporal-infra/include/temporal_rs/Instant.hpp:383-412 | Ninety seconds in minutes with the default largest unit are sixty seconds |
| InstantArithmetic.GuardedExactly | packages/temporal-infra/include/temporal_rs/Instant.hpp:458-487 | The guards refuse a difference exactly when a field would not fit 64 bits |
| InstantArithmetic.SinceNegatesUntil | packages/temporal-infra/include/temporal_rs/Instant.hpp:384-416 | `since` is the field-by-field negation of `until` for every pair and all settings, refusals included |
| InstantArithmetic.SinceVersusProposal | packages/temporal-infra/include/temporal_rs/Instant.hpp:382-386 | The result of `since`, with its refusals and fields, is that of the proposal's rounding exactly when the settings are refused, the mode is symmetric, the difference is a multiple, a half mode meets no tie, or the guards refuse even the multiple below |
| InstantArithmetic.SinceDiffers | packages/temporal-infra/include/temporal_rs/Instant.hpp:382-386 | A second and a half rounded up to seconds: `since` gives minus two seconds, the proposal minus one |
| YearMonth.YearOfIsFloor | packages/temporal-infra/include/temporal_rs/PlainYearMonth.hpp:331-337 | The hand-written division is the floor and leaves a month in 0 to 11, for negative totals too |
| YearMonth.DaysInMonthMeaning | packages/temporal-infra/src/socketsecurity/temporal/iso.h:27-50 | The table of month lengths and the leap years are those of an independent day count: every month ends where the next one starts |
| YearMonth.TryNewIso | packages/temporal-infra/src/socketsecurity/temporal/plain_year_month.cc:18-42 | Accepts exactly the dates of the calendar in the year range |
| YearMonth.ComputeSum | packages/temporal-infra/include/temporal_rs/PlainYearMonth.hpp:306-367 | The 64-bit computation is the specified addition and overflows for no valid duration |
| YearMonth.MovedMeaning | packages/temporal-infra/include/temporal_rs/PlainYearMonth.hpp:321-367 | The month number moves by exactly the months asked for, and the day is kept unless the month is too short |
| YearMonth.AddedMonths | packages/temporal-infra/include/temporal_rs/PlainYearMonth.hpp:321-367 | The months between are exactly those of the duration, a year being twelve, negated for `subtract` |
| YearMonth.LastOfMay | packages/temporal-infra/include/temporal_rs/PlainYearMonth.hpp:358 | A month before the last of May 2024 is the last of April |
| YearMonth.AddThenSubtract | packages/temporal-infra/include/temporal_rs/PlainYearMonth.hpp:321-367 | Subtracting what was added gives back the month, and the day exactly when the month between had it |
| YearMonth.AddTwice | packages/temporal-infra/include/temporal_rs/PlainYearMonth.hpp:321-367 | Two additions reach the month of the combined one, and its day exactly when the month between does not cut it |
| YearMonth.AddSucceeds | packages/temporal-infra/include/temporal_rs/PlainYearMonth.hpp:338-342 | An addition succeeds exactly when the target exists, is in neither of the two outermost years, and has the day or may clamp it |
| YearMonth.OutermostYearRefused | packages/temporal-infra/include/temporal_rs/PlainYearMonth.hpp:338-342 | Adding a month to December 275759 is refused, and January 275760 exists |
| YearMonth.SurpassesIsIndex | packages/temporal-infra/src/socketsecurity/temporal/calendar.cc:193-211 | On first days the comparison of balanced dates is one of month numbers |
| YearMonth.CalendarDateUntil | packages/temporal-infra/src/socketsecurity/temporal/calendar.cc:215-250 | Stepping candidate years and months until they surpass gives the difference in whole years and months of one sign |
| YearMonth.RoundToIncrement | packages/temporal-infra/src/socketsecurity/temporal/rounding.h:186-206 | The integer rounder, which compares with half the divisor, computes the same rounding for odd and even divisors |
| YearMonth.DiffYearMonth | packages/temporal-infra/include/temporal_rs/PlainYearMonth.hpp:392-518 | The whole method computes the specified difference |
| YearMonth.UntilFails | packages/temporal-infra/include/temporal_rs/PlainYearMonth.hpp:404-421 | It fails exactly for weeks or days, or a zero increment with something to round |
| YearMonth.UntilMeaning | packages/temporal-infra/include/temporal_rs/PlainYearMonth.hpp:460-515 | The months of `until` are the rounding of the exact number of months, in one sign, balanced as the units ask |
| YearMonth.FourteenMonths | packages/temporal-infra/include/temporal_rs/PlainYearMonth.hpp:404-515 | Fourteen months: by default a year and two months, in whole years one, in months fourteen |
| YearMonth.SinceIsUntilReversed | packages/temporal-infra/include/temporal_rs/PlainYearMonth.hpp:472-516 | What a month is since another is what lies from that one until it, for all settings |
| YearMonth.SinceVersusUntil | packages/temporal-infra/include/temporal_rs/PlainYearMonth.hpp:472-516 | `since` is the negation of `until` exactly when the negated mode rounds alike |
| YearMonth.OtherUnitsLoseTheDifference | packages/temporal-infra/src/socketsecurity/temporal/calendar.cc:225-239 | With a largest unit that is accepted but is neither years nor months, `auto` among them, the result is zero, rounded or not; so it is the rounded difference exactly for those units or when that is zero |
| YearMonth.AutoSaysNothing | packages/temporal-infra/src/socketsecurity/temporal/calendar.cc:225-239 | From January 2024 until January 2025 with the largest unit `auto`: zero |
| YearMonth.AddUntil | packages/temporal-infra/include/temporal_rs/PlainYearMonth.hpp:381-384 | Adding an unrounded difference arrives at the other month |
| SegmentPlacement.FixNoteSegmentVaddrs | packages/bin-infra/src/socketsecurity/bin-infra/elf_note_utils_lief_write.hpp:130-161 | The two loops patch the segments in place as specified, with 64-bit wrap-around |
| SegmentPlacement.HighestLoadEnd | packages/bin-infra/src/socketsecurity/bin-infra/elf_note_utils_lief_write.hpp:131-140 | The first loop finds the highest end of a PT_LOAD |
| SegmentPlacement.Placement | packages/bin-infra/src/socketsecurity/bin-infra/elf_note_utils_lief_write.hpp:142-156 | Without overflow every placed segment is page aligned, behind every PT_LOAD, apart from the other placed ones, and nothing else changes |
| SegmentPlacement.PlacedExactly | packages/bin-infra/src/socketsecurity/bin-infra/elf_note_utils_lief_write.hpp:142-156 | The address given is the first page behind every PT_LOAD plus whole pages for each segment placed before |
| SegmentPlacement.AlwaysOnPage | packages/bin-infra/src/socketsecurity/bin-infra/elf_note_utils_lief_write.hpp:142-156 | Even where a sum wraps, a segment in need gets one page boundary as both addresses and nothing else changes |
| SegmentPlacement.PageUpMasks | packages/bin-infra/src/socketsecurity/bin-infra/elf_note_utils_lief_write.hpp:142-156 | The page rounding is the mask on the 64-bit sum, for every word |
| SegmentPlacement.MemoryApart | packages/bin-infra/src/socketsecurity/bin-infra/elf_note_utils_lief_write.hpp:142-156 | Two placed segments are apart in memory exactly when the first is in memory no longer than the pages reserved by file size up to the second |
| SegmentPlacement.MemoryOverlaps | packages/bin-infra/src/socketsecurity/bin-infra/elf_note_utils_lief_write.hpp:142-156 | A note longer in memory than in the file runs into the next one |
| SegmentPlacement.AllNotesVisible | packages/bin-infra/src/socketsecurity/bin-infra/elf_note_utils_lief_write.hpp:142-156 | No PT_NOTE is left at address zero exactly when none was there, or some PT_LOAD ends above zero |
| SegmentPlacement.NoteStaysHidden | packages/bin-infra/src/socketsecurity/bin-infra/elf_note_utils_lief_write.hpp:142-156 | One PT_NOTE and no PT_LOAD: the note stays at address zero |
| SegmentPlacement.FixTwice | packages/bin-infra/src/socketsecurity/bin-infra/elf_note_utils_lief_write.hpp:130-161 | A second run changes nothing |
| Alignment.Align4 | packages/bin-infra/src/socketsecurity/bin-infra/elf_note_utils_types.hpp:20-22 | The smallest multiple of 4 not below the value |
| Alignment.AlignPage | packages/bin-infra/src/socketsecurity/bin-infra/elf_note_utils_types.hpp:20-22 | The smallest multiple of the page size not below the value |
| Alignment.AlignUpMasks | packages/bin-infra/src/socketsecurity/bin-infra/elf_note_utils_types.hpp:20-22 | The mask expression takes the low bits off the 64-bit sum, for every power of two |
| Alignment.AlignUpFour | packages/bin-infra/src/socketsecurity/bin-infra/elf_note_utils_types.hpp:20-22 | On 64-bit words `align_up` to 4 is the smallest multiple of 4 not below the value, or zero when the sum wraps |
| Alignment.AlignUpPage | packages/bin-infra/src/socketsecurity/bin-infra/elf_note_utils_types.hpp:20-22 | On 64-bit words `align_up` to pages is the smallest multiple not below the value, or zero when the sum wraps |
| Utf8.DecodeWordIs | packages/tui-infra/include/tui/utf8.hpp:40-134 | Decoding and measuring with the masks, shifts and alternatives of the code is the decoding and measuring of the model |
| Utf8.EncodeWordIs | packages/tui-infra/include/tui/utf8.hpp:94-114 | Encoding with shifts, alternatives and the cut to eight bits is the encoding of the model |
| Utf8.DecodeUtf8 | packages/tui-infra/include/tui/utf8.hpp:40-83 | Decoding at a position computes the code point and advances by its length |
| Utf8.EncodeUtf8 | packages/tui-infra/include/tui/utf8.hpp:94-114 | Encoding fills the front of the buffer with the encoding and leaves the rest |
| Utf8.DecodeText | packages/tui-infra/src/socketsecurity/tui/width.cc:96-112 | The decode loop yields the code points of the whole text and ends |
| Utf8.DecodeAdvances | packages/tui-infra/include/tui/utf8.hpp:78-82 | On arbitrary bytes a step advances by one to four, never past the end, and by one where it replaces |
| Utf8.DecodeEncoding | packages/tui-infra/include/tui/utf8.hpp:40-114 | Decoding an encoding below 0x200000 gives the code point back, whatever follows, and the measured length agrees |
| Utf8.DecodeEncodingExactly | packages/tui-infra/include/tui/utf8.hpp:94-114 | A code point survives encoding and decoding exactly when it has at most 21 bits |
| Utf8.ByteLenExactly | packages/tui-infra/include/tui/utf8.hpp:116-134 | The measured length is the decoded one exactly for complete sequences and stray bytes |
| Utf8.LengthBelieved | packages/tui-infra/include/tui/utf8.hpp:116-134 | A lead byte of two in front of a letter is measured as two bytes and decoded as one |
| Utf8.EncodeDecoded | packages/tui-infra/include/tui/utf8.hpp:40-114 | Encoding what was decoded gives the bytes back in the shortest form and never otherwise |
| Utf8.StandardExactly | packages/tui-infra/include/tui/utf8.hpp:40-83 | What is decoded is a character of RFC 3629 exactly when it is shortest and a scalar value |
| Utf8.LetThrough | packages/tui-infra/include/tui/utf8.hpp:51-76 | An overlong form, a surrogate and a value above U+10FFFF come out as code points |
| Utf8.DecodeAllEncodings | packages/tui-infra/include/tui/utf8.hpp:40-114 | Decoding the encodings of any list of 21-bit values returns the list and consumes every byte |
| Utf8.EncodeAllDecoded | packages/tui-infra/include/tui/utf8.hpp:40-114 | A text survives decoding and encoding exactly when all of it is in shortest form |

## Left out

- LIEF, and the Mach-O and PE rewriting built on it: the library is not part of this model. The segments LIEF lists are taken to be the header table in order.
- File and process input and output, permissions, atomic replacement: a file is a byte sequence, and failures of these calls are not modelled.
- `list_sections`: the same note walk as in extraction, printing instead of comparing.
- Regular sections and other formats in `extract_section` and `verify_section`: lookups inside LIEF.
- Compression, SHA-512 and code signing: abstract or absent.
- The stub's backward seek for the configuration: the forward readers are modelled instead.
- `extract_version_from_smfg` and `extract_version_from_tag`: bounded copies that would add easy members.
- `extract_section` for a name other than the two note names: no visible logic.
- Inference, sampling and tokenizing: what they return is a parameter of `TokenBudget.Prompt`.
- Memory order of the atomics: steps are interleaved, every store is seen by the next step.
- Environment teardown in the language binding, and creation of sessions: outside the protocol of one session.
- Calendar backends, time zones, parsing and string output in Temporal; months of other calendars: only the ISO calendar is modelled, so the calendar mismatch is not.
- Durations as doubles: fields are integers, so the check for values that are not finite and the last conversion are absent.
- The day and week counts of the calendar difference: the caller sets them to zero.
- SegmentPlacement.Placement: says nothing for a computation that wraps (`AlwaysOnPage` says what is kept then); what is kept apart in memory is stated by `MemoryApart`.
- ReleaseLaws.ParseMeaning: covers releases that have all three members as their own, each leading in its object; what the code finds in any other object is stated for the two strings by `FieldLookup.FieldLookup` and for the assets by `AssetLookup.AssetsText`, and not carried through the whole scan.
- ReleaseScanner.JsonFindString: library searches for a substring and a character are the function of the leftmost occurrence.
- NoteWriterLaws.OutputHeader: does not cover a header table that overlaps the ELF header.
- Terminal buffers, views, rendering and mouse input: their bodies rest on more state than the headers show.
