# BEF to MLIR, kernel frames and the corert op definitions, in Dafny

This project models three pieces of the TFRT host runtime and proves properties
of them.

- **The BEF decoder** (`lib/bef_converter/bef_to_mlir/bef_to_mlir.cc`). A Binary
  Executable Format file is a two-byte magic header followed by sections. The
  decoder reads the sections and turns each BEF function into MLIR:
  - the file-level tables: location filenames and positions, strings, attributes,
    kernels, types and the function index;
  - each function's register table, kernel table, result registers and kernels;
  - finally, the anonymous functions are resolved into the regions of the ops
    that reference them.

  The model decodes bytes into plain datatypes (`Op`, `Region`, `FuncOp`,
  `Module`) that stand for the MLIR objects. The stateful readers become classes:
  - the byte cursor `BefReader.Reader`;
  - the section table `BefTables.Sections`;
  - the attribute reader `BefAttributes.AttributeReader`;
  - the per-function `BefFunctions.FunctionReader`, with its register vector,
    kernel table and block of ops.

  Each class method is proved equal to a specification function on bytes. Those
  functions carry the round trips (encode, then decode, gives the value back),
  the failure cases and the structural invariants:
  - every use is defined before it;
  - every register keeps its first definition;
  - every anonymous function becomes exactly one region.
- **`KernelFrame` / `KernelFrameBuilder`** (`include/tfrt/host_context/kernel_frame.h`).
  One vector of pointer-sized slots holds the arguments, then the results, then
  the attributes. The builder is a class over that vector. Ghost fields record
  what the protocol put where, and every accessor is proved to return the slots
  that belong to it.
- **The corert op definitions** (`lib/core_runtime/opdefs/core_runtime.cc`):
  - the `#corert.shape<…>` parser and printer, with a proved parse-after-print
    round trip;
  - the verifier, builder and accessor for `corert.executeop`'s `op_attrs`;
  - the `tf.Const` folder.

Modules: `Wrappers` (Option, Result), `Decimal` (decimal text of naturals), and
then `BefReader`, `BefIr`, `BefTables`, `BefAttributes`, `BefKernel`,
`BefFunctions`, `BefResolve`, `BefConverter`, `KernelFrames` and `CoreRuntime`.

### Layout assumptions

The decoder uses definitions from headers that are not part of this model:
- `include/tfrt/bef/bef_reader.h`: `BEFReader`;
- `include/tfrt/bef/bef_encoding.h`: the section ids, the attribute type codes,
  `BEFKernel` and the constants.

The model takes them as follows:
- **Magic and version.** The magic bytes are `0x0B 0xEF`. Format version 0 is the
  only version accepted.
- **Sections.** There are twelve section ids, 0 to 11. A section is one id byte,
  then its length as a VBR integer, then that many bytes of body.
- **`BEFReader::ReadInt`.** It reads forward VBR: seven bits per byte, most
  significant group first, with the high bit set on every byte but the last.
- **`ReadInt8`.** It reads 8 bytes, little-endian.
- **`ReadAlignment(n)`.** It skips to the next multiple of `n`.
- **Lengths in the attributes section.** They are read backwards from a position
  (`ReadLength`, lines 303-316).
- **Attribute type word.** The low 3 bits are the `AttributeTypeID`, the rest is
  the payload.
- **Standard-attribute codes.** Codes 1 to 6 are i1, i32, i64, f16, f32 and
  f64.
- **`BEFKernel` word layout.** In 32-bit little-endian words:
  - the header is code, location, #arguments, #attributes, #functions, #results;
  - then one used-by count per result;
  - then the argument, attribute, function, result and used-by entries.
- **Kernel alignment.** `kKernelEntryAlignment` is 4.

## Model

| member | source | states |
|---|---|---|
| BefReader.LittleEndianRoundTrip | lib/bef_converter/bef_to_mlir/bef_to_mlir.cc:896-922 | decoding the `n` little-endian bytes of any `v < 256^n` gives `v` back |
| BefReader.LittleEndianBytesRoundTrip | lib/bef_converter/bef_to_mlir/bef_to_mlir.cc:896-922 | re-encoding a decoded byte string at its own width gives the same bytes |
| BefReader.LittleEndianSnoc | lib/bef_converter/bef_to_mlir/bef_to_mlir.cc:896-922 | one more high byte `b` adds `b * 256^|bs|` to the value |
| BefReader.ByteAt | lib/bef_converter/bef_to_mlir/bef_to_mlir.cc:407-408 | reading a byte stays within the data and advances exactly when a byte is there |
| BefReader.VbrFrom | lib/bef_converter/bef_to_mlir/bef_to_mlir.cc:177-183 | a VBR read stays in bounds; it succeeds past `pos` or fails at the end of data |
| BefReader.IntAt | lib/bef_converter/bef_to_mlir/bef_to_mlir.cc:177-183 | `ReadInt` never moves backwards or past the end, and a value consumes at least one byte |
| BefReader.Int8At | lib/bef_converter/bef_to_mlir/bef_to_mlir.cc:868-880 | `ReadInt8` stays within the data |
| BefReader.AlignUp | lib/bef_converter/bef_to_mlir/bef_to_mlir.cc:966-967 | the aligned position is the least multiple of the alignment at or after `pos` |
| BefReader.AlignAt | lib/bef_converter/bef_to_mlir/bef_to_mlir.cc:966-967 | `ReadAlignment` stays within the data |
| BefReader.IntsAt | lib/bef_converter/bef_to_mlir/bef_to_mlir.cc:1020-1027 | reading `n` integers gives exactly `n` values or fails, inside the data |
| BefReader.IntsReadAt | lib/bef_converter/bef_to_mlir/bef_to_mlir.cc:1020-1027 | integers written one after another in VBR read back as those integers and end right after them |
| BefReader.IntArrayAt | lib/bef_converter/bef_to_mlir/bef_to_mlir.cc:174-186 | a count-prefixed integer array stays within the data |
| BefReader.IntArrayReadAt | lib/bef_converter/bef_to_mlir/bef_to_mlir.cc:174-186 | a count-prefixed integer array written at any position reads back as its items and ends right after it |
| BefReader.VbrBytes | lib/bef_converter/bef_to_mlir/bef_to_mlir.cc:177-183 | the VBR encoding of an integer |
| BefReader.VbrGroupsRead | lib/bef_converter/bef_to_mlir/bef_to_mlir.cc:177-183 | the continued groups of a VBR encoding read back to their value and end where the encoding ends |
| BefReader.VbrGroupsAt | lib/bef_converter/bef_to_mlir/bef_to_mlir.cc:177-183 | wherever the groups of `n` lie in a section, a forward VBR read from their first byte gives `n` and stops right after them, or carries `n` on when more groups follow |
| BefReader.VbrGroupStep | lib/bef_converter/bef_to_mlir/bef_to_mlir.cc:177-183 | the last group of `n`, read with `n / 128` so far, completes `n`; the read continues exactly when the group has its continuation bit |
| BefReader.VbrRoundTrip | lib/bef_converter/bef_to_mlir/bef_to_mlir.cc:177-183 | `ReadInt` of the VBR encoding of `n`, in any context, gives `n` and stops right after it |
| BefReader.PrependTwice | lib/bef_converter/bef_to_mlir/bef_to_mlir.cc:174-186 | accumulating items in two steps equals accumulating them at once |
| BefReader.Reader.constructor | lib/bef_converter/bef_to_mlir/bef_to_mlir.cc:476 | a reader starts valid at the given position of its data |
| BefReader.Reader.ReadByte | lib/bef_converter/bef_to_mlir/bef_to_mlir.cc:407-408 | the cursor method returns and advances exactly as `ByteAt` |
| BefReader.Reader.ReadInt | lib/bef_converter/bef_to_mlir/bef_to_mlir.cc:177-183 | the cursor method returns and advances exactly as `IntAt` |
| BefReader.Reader.ReadInt8 | lib/bef_converter/bef_to_mlir/bef_to_mlir.cc:868-880 | the cursor method returns and advances exactly as `Int8At` |
| BefReader.Reader.ReadAlignment | lib/bef_converter/bef_to_mlir/bef_to_mlir.cc:966-967 | the cursor method succeeds and advances exactly as `AlignAt` |
| BefReader.ReadIntArray | lib/bef_converter/bef_to_mlir/bef_to_mlir.cc:174-186 | the loop reads exactly the items of `IntArrayAt` and leaves the cursor where it does |
| BefTables.HeaderAt | lib/bef_converter/bef_to_mlir/bef_to_mlir.cc:404-412 | the header is accepted iff the next two bytes are the BEF magic, and then it consumes both |
| BefTables.ReadHeader | lib/bef_converter/bef_to_mlir/bef_to_mlir.cc:404-412 | the method accepts and advances exactly as `HeaderAt` |
| BefTables.SectionAt | lib/bef_converter/bef_to_mlir/bef_to_mlir.cc:430-438 | reading a section stays in bounds and a read section consumes at least one byte |
| BefTables.SectionRoundTrip | lib/bef_converter/bef_to_mlir/bef_to_mlir.cc:430-438 | reading the encoding of `(id, body)`, in any context, gives `(id, body)` and stops after it |
| BefTables.SetSectionAsWritten | lib/bef_converter/bef_to_mlir/bef_to_mlir.cc:60-62 | the `.at()` store succeeds iff the id is a known section id |
| BefTables.SetSection | lib/bef_converter/bef_to_mlir/bef_to_mlir.cc:60-62 | the store replaces exactly the known id's entry and leaves every other entry alone |
| BefTables.EmptySections | lib/bef_converter/bef_to_mlir/bef_to_mlir.cc:53-54 | a fresh table has one empty section per section id |
| BefTables.SectionsFrom | lib/bef_converter/bef_to_mlir/bef_to_mlir.cc:414-428 | reading all sections keeps the table's size |
| BefTables.UnknownSectionRejected | lib/bef_converter/bef_to_mlir/bef_to_mlir.cc:60-62 | a file with a section id 12 is rejected as written and accepted, with the section dropped, as intended |
| BefTables.SectionsAgreeOnKnownIds | lib/bef_converter/bef_to_mlir/bef_to_mlir.cc:414-428 | as-written and intended section reading agree on files that use only known ids |
| BefTables.Sections.constructor | lib/bef_converter/bef_to_mlir/bef_to_mlir.cc:53-54 | the table starts with every section empty |
| BefTables.Sections.Get | lib/bef_converter/bef_to_mlir/bef_to_mlir.cc:56-58 | the bytes stored under a known section id; only known ids may be asked for, as `.at()` demands |
| BefTables.Sections.Set | lib/bef_converter/bef_to_mlir/bef_to_mlir.cc:60-62 | the table becomes `SetSection` of the old table |
| BefTables.ReadSections | lib/bef_converter/bef_to_mlir/bef_to_mlir.cc:414-428 | the loop succeeds iff `SectionsFrom` does and fills the table with its result; the warning is raised iff the attribute types, attribute names or register types section is missing |
| BefTables.ReadSection | lib/bef_converter/bef_to_mlir/bef_to_mlir.cc:430-438 | the method reads exactly `SectionAt` |
| BefTables.NulFrom | lib/bef_converter/bef_to_mlir/bef_to_mlir.cc:456-460 | the scan stops at the first NUL at or after `pos`, or at the end |
| BefTables.NulStringsShape | lib/bef_converter/bef_to_mlir/bef_to_mlir.cc:450-464 | decoded strings contain no NUL and are keyed by increasing offsets chained by their terminators |
| BefTables.NulStringsRoundTrip | lib/bef_converter/bef_to_mlir/bef_to_mlir.cc:450-464 | decoding the NUL-joined strings gives every string back, each with its offset |
| BefTables.NulFromPastString | lib/bef_converter/bef_to_mlir/bef_to_mlir.cc:456-460 | the scan from a string's start ends right after it when a NUL follows |
| BefTables.UnterminatedTableFails | lib/bef_converter/bef_to_mlir/bef_to_mlir.cc:456-460 | a table whose last string has no terminator is rejected |
| BefTables.ReadNullTerminatedStrings | lib/bef_converter/bef_to_mlir/bef_to_mlir.cc:450-464 | the loop returns exactly `NulStringsFrom` of the section |
| BefTables.NulStringsStep | lib/bef_converter/bef_to_mlir/bef_to_mlir.cc:450-464 | one string of the table moves from the unread rest to the strings read so far, keyed by its offset, and reading resumes past its NUL |
| BefTables.Filenames | lib/bef_converter/bef_to_mlir/bef_to_mlir.cc:466-472 | the filename list holds the decoded strings in order |
| BefTables.StringsByOffset | lib/bef_converter/bef_to_mlir/bef_to_mlir.cc:502-507 | every decoded offset is a key, and every key is the offset of a string with that text |
| BefTables.StringsByOffsetExact | lib/bef_converter/bef_to_mlir/bef_to_mlir.cc:502-507 | with increasing offsets, each string is found at its own offset |
| BefTables.ChainedOffsetsIncrease | lib/bef_converter/bef_to_mlir/bef_to_mlir.cc:450-464 | chained offsets strictly increase from the table start |
| BefTables.TripleAt | lib/bef_converter/bef_to_mlir/bef_to_mlir.cc:484-488 | a position triple read stays in bounds and consumes bytes |
| BefTables.LocationsFromKeys | lib/bef_converter/bef_to_mlir/bef_to_mlir.cc:474-500 | every location is keyed by an offset inside the section |
| BefTables.TripleRoundTrip | lib/bef_converter/bef_to_mlir/bef_to_mlir.cc:484-488 | the encoding of `(file, line, column)` reads back to itself |
| BefTables.LocationsRoundTrip | lib/bef_converter/bef_to_mlir/bef_to_mlir.cc:474-500 | encoded triples with valid filename indices decode to the locations keyed by their offsets, each `LocationOf` its triple: line and column kept modulo 2^32, as the `unsigned` parameters of `FileLineColLoc::get` (line 496) receive them |
| BefTables.LocationsRoundTripAt | lib/bef_converter/bef_to_mlir/bef_to_mlir.cc:474-500 | wherever the encoded triples fill a section from `start` on, the table read from `start` keys each triple's `LocationOf` (line and column modulo 2^32) by its own offset |
| BefTables.TripleAtSlice | lib/bef_converter/bef_to_mlir/bef_to_mlir.cc:484-488 | a triple written at any position reads back there and ends right after its encoding |
| BefTables.LocationsCons | lib/bef_converter/bef_to_mlir/bef_to_mlir.cc:474-500 | the table read from `pos` is the triple there, keyed by `pos`, over the table read after it |
| BefTables.TriplesKeyedCons | lib/bef_converter/bef_to_mlir/bef_to_mlir.cc:474-500 | the expected table keys the first triple by its start offset over the rest keyed from the next offset |
| BefTables.BadFilenameIndexFails | lib/bef_converter/bef_to_mlir/bef_to_mlir.cc:490-492 | a triple whose filename index, narrowed to `int` as `GetLocationFilename(int)` receives it, names no filename fails the whole section |
| BefTables.WrappedFilenameIndexDecodes | lib/bef_converter/bef_to_mlir/bef_to_mlir.cc:111-115 | a triple whose filename index is 2^32 decodes with filename 0, since `GetLocationFilename(int)` receives the index narrowed to `int` (call at line 491), and with its line and column modulo 2^32 (line 496) |
| BefTables.WrappedLineNumber | lib/bef_converter/bef_to_mlir/bef_to_mlir.cc:494-497 | a triple `(0, 2^32, 0)` is stored as line 0, column 0: the `unsigned` line parameter of `FileLineColLoc::get` keeps the low 32 bits |
| BefTables.Unsigned | lib/bef_converter/bef_to_mlir/bef_to_mlir.cc:496 | a `size_t` passed as `unsigned` is below 2^32, and unchanged when it already was |
| BefTables.LocationFilename | lib/bef_converter/bef_to_mlir/bef_to_mlir.cc:111-115 | `GetLocationFilename`: the filename at the `int`-narrowed index, none when that is not below the table size |
| BefTables.LocationOf | lib/bef_converter/bef_to_mlir/bef_to_mlir.cc:490-497 | a triple has a location iff its narrowed filename index names a filename; it is that file with line and column modulo 2^32 |
| BefTables.ReadLocationPositions | lib/bef_converter/bef_to_mlir/bef_to_mlir.cc:474-500 | the loop returns exactly `LocationsFrom` of the section, whose filenames are looked up at the `int`-narrowed index and whose lines and columns are kept modulo 2^32 (`LocationOf`) |
| BefTables.LocationsLoopStep | lib/bef_converter/bef_to_mlir/bef_to_mlir.cc:474-500 | one triple of the loop moves into the table read so far, keyed by its offset, and the reader moves strictly forward |
| BefTables.ReadTriple | lib/bef_converter/bef_to_mlir/bef_to_mlir.cc:484-488 | the method reads exactly `TripleAt` |
| BefTables.LookupStrings | lib/bef_converter/bef_to_mlir/bef_to_mlir.cc:534-546 | the lookup succeeds iff every offset names a string, one name per offset |
| BefTables.LookupMissing | lib/bef_converter/bef_to_mlir/bef_to_mlir.cc:540-542 | the index it returns is that of an offset with no string, whenever one exists |
| BefTables.ReadStringOffsetSection | lib/bef_converter/bef_to_mlir/bef_to_mlir.cc:534-546 | the loop returns exactly `StringOffsetSection` |
| BefTables.ReadTypes | lib/bef_converter/bef_to_mlir/bef_to_mlir.cc:555-562 | the types table is read iff its names resolve, one parsed type per name |
| BefTables.TypesOf | lib/bef_converter/bef_to_mlir/bef_to_mlir.cc:139-142 | the type list resolves iff `GetType` finds a type at every index, after the index is narrowed to `int` as `GetType(int)` receives it; one type per index, in order |
| BefTables.TypeListAt | lib/bef_converter/bef_to_mlir/bef_to_mlir.cc:584-599 | reading a type list stays within the data |
| BefTables.FunctionEntryAt | lib/bef_converter/bef_to_mlir/bef_to_mlir.cc:570-600 | reading one function index entry stays within the data |
| BefTables.FunctionEntriesFrom | lib/bef_converter/bef_to_mlir/bef_to_mlir.cc:570-600 | reading `n` entries gives `n` entries or fails |
| BefTables.EntriesStep | lib/bef_converter/bef_to_mlir/bef_to_mlir.cc:570-600 | reading `n` entries is one entry followed by the other `n - 1` |
| BefTables.ReadTypeList | lib/bef_converter/bef_to_mlir/bef_to_mlir.cc:584-599 | the method reads exactly `TypeListAt`, whose types are `TypesOf` the indices, narrowed as `GetType(int)` receives them |
| BefTables.IntIndexWraps | lib/bef_converter/bef_to_mlir/bef_to_mlir.cc:139-142 | an index below 2^31 reaches `GetType` unchanged, adding 2^32 does not change it, and one whose low 32 bits are negative as an `int` comes back at least 2^64 - 2^31 |
| BefTables.GetTypeNarrows | lib/bef_converter/bef_to_mlir/bef_to_mlir.cc:139-142 | for any table smaller than 2^63, `GetType` finds the entry at the low 32 bits of the index when those form a non-negative `int` below the size, and the null type otherwise |
| BefTables.GetType | lib/bef_converter/bef_to_mlir/bef_to_mlir.cc:139-142 | a type found is the entry at the `int`-narrowed index, which is below the table size; an index below 2^31 finds the entry at that index, or the null type past the table |
| BefTables.GetTypeWrapsExample | lib/bef_converter/bef_to_mlir/bef_to_mlir.cc:139-142 | index 2^32 + 1 names the type at index 1 |
| BefTables.ReadFunctionEntry | lib/bef_converter/bef_to_mlir/bef_to_mlir.cc:570-600 | the method reads exactly `FunctionEntryAt` |
| BefTables.ReadFunctionIndex | lib/bef_converter/bef_to_mlir/bef_to_mlir.cc:564-602 | the loop returns exactly `FunctionIndexOf` of the section |
| BefTables.TypeListReadAt | lib/bef_converter/bef_to_mlir/bef_to_mlir.cc:584-594 | a written type index array reads back as `TypesOf` its indices and ends right after it |
| BefTables.EntryReadAt | lib/bef_converter/bef_to_mlir/bef_to_mlir.cc:570-600 | an entry written at any position, whose name offset names a string and whose type indices name types, reads back as the function it describes and ends right after it |
| BefTables.EntryWithoutNameFails | lib/bef_converter/bef_to_mlir/bef_to_mlir.cc:572-580 | a written entry whose name offset names no string fails, the hardened `getValue()` |
| BefTables.EntriesReadAt | lib/bef_converter/bef_to_mlir/bef_to_mlir.cc:569-600 | entries written one after another read back as the functions they describe, in order |
| BefTables.FunctionIndexRoundTrip | lib/bef_converter/bef_to_mlir/bef_to_mlir.cc:564-602 | a written function index (count, then entries) whose names and types resolve reads back as the functions its entries describe, in order |
| BefAttributes.TypeId | lib/bef_converter/bef_to_mlir/bef_to_mlir.cc:723-725 | the type id is at most the 3-bit mask |
| BefAttributes.Payload | lib/bef_converter/bef_to_mlir/bef_to_mlir.cc:723-725 | the payload is smaller than the non-zero type word |
| BefAttributes.AttributeTypeSplit | lib/bef_converter/bef_to_mlir/bef_to_mlir.cc:723-725 | splitting a composed type word gives back its id and payload |
| BefAttributes.DecodeType | lib/bef_converter/bef_to_mlir/bef_to_mlir.cc:845-862 | a standard type code decodes iff it is between 1 and 6 |
| BefAttributes.TypeCodeRoundTrip | lib/bef_converter/bef_to_mlir/bef_to_mlir.cc:845-862 | decoding and encoding standard type codes are inverse both ways |
| BefAttributes.BackwardVbr | lib/bef_converter/bef_to_mlir/bef_to_mlir.cc:303-316 | a length read backwards is below 2^64 |
| BefAttributes.LengthAt | lib/bef_converter/bef_to_mlir/bef_to_mlir.cc:303-316 | `ReadLength` yields a value below 2^64 |
| BefAttributes.LengthBytes | lib/bef_converter/bef_to_mlir/bef_to_mlir.cc:303-316 | the backward encoding of a length is never empty |
| BefAttributes.LengthGroupsBefore | lib/bef_converter/bef_to_mlir/bef_to_mlir.cc:303-316 | wherever the groups of a length end at position `end`, reading backwards from `end - 1` gives the length, or continues before them (failing at index 0) when more groups precede |
| BefAttributes.VbrAtGroup | lib/bef_converter/bef_to_mlir/bef_to_mlir.cc:303-316 | one step of the backward read over the group of `n` gives `n` and stops, or moves one byte down exactly when the group has its top bit set |
| BefAttributes.LengthBytesCons | lib/bef_converter/bef_to_mlir/bef_to_mlir.cc:303-316 | an encoded length is its least significant group followed by the groups of `n / 128`, which all carry the top bit |
| BefAttributes.LengthAtOf | lib/bef_converter/bef_to_mlir/bef_to_mlir.cc:303-316 | `ReadLength` at any offset right after an encoded length gives that length |
| BefAttributes.GroupCombine | lib/bef_converter/bef_to_mlir/bef_to_mlir.cc:303-316 | combining a length's high groups and low seven bits gives the length |
| BefAttributes.IntegerAt | lib/bef_converter/bef_to_mlir/bef_to_mlir.cc:896-922 | an integer attribute reads iff the width is 1, 32 or 64 and its bytes are there, and it consumes exactly those bytes |
| BefAttributes.IntegerRoundTrip | lib/bef_converter/bef_to_mlir/bef_to_mlir.cc:896-922 | the little-endian bytes of a value that fits the width read back to that value |
| BefAttributes.FloatAt | lib/bef_converter/bef_to_mlir/bef_to_mlir.cc:924-934 | only f32 reads, as the raw bits of a 32-bit integer read |
| BefAttributes.StandardAt | lib/bef_converter/bef_to_mlir/bef_to_mlir.cc:748-764 | a standard attribute is an integer or float attribute of its declared type and width, or fails |
| BefAttributes.BoolAt | lib/bef_converter/bef_to_mlir/bef_to_mlir.cc:766-770 | a bool attribute reads iff a byte is left; it is true iff that byte is nonzero, and it consumes exactly that byte |
| BefAttributes.BoolAttributeRoundTrip | lib/bef_converter/bef_to_mlir/bef_to_mlir.cc:721-770 | the byte written for `b`, in any context, reads back through the attribute dispatch as the bool attribute `b` and consumes one byte |
| BefAttributes.TypeAttrAt | lib/bef_converter/bef_to_mlir/bef_to_mlir.cc:783-804 | a type attribute reads iff a byte is left and it is a standard type code (1 to 6); it is that type and consumes exactly that byte |
| BefAttributes.StringAt | lib/bef_converter/bef_to_mlir/bef_to_mlir.cc:772-781 | a string attribute reads its length at the offset without moving, and fails when the length does not read |
| BefAttributes.OffsetArrayAt | lib/bef_converter/bef_to_mlir/bef_to_mlir.cc:822-843 | an offset array has as many elements as its length says, each an attribute of the table |
| BefAttributes.DimsAt | lib/bef_converter/bef_to_mlir/bef_to_mlir.cc:876-882 | reading `rank` dimensions succeeds iff `8 * rank` bytes remain, and consumes them |
| BefAttributes.DimsReadAt | lib/bef_converter/bef_to_mlir/bef_to_mlir.cc:876-882 | `int64_t` dimensions written little-endian in two's complement at any position read back as those dimensions and end right after them |
| BefAttributes.ElementsAt | lib/bef_converter/bef_to_mlir/bef_to_mlir.cc:885-889 | reading `count` elements gives `count` non-null attributes or fails |
| BefAttributes.StandardReadAt | lib/bef_converter/bef_to_mlir/bef_to_mlir.cc:748-764 | a value that fits its integer or float type, written little-endian in that width, reads back as that type's attribute of the value and consumes exactly its bytes |
| BefAttributes.ElementsReadAt | lib/bef_converter/bef_to_mlir/bef_to_mlir.cc:885-889 | values that fit the element type, written one after another, read back as their attributes, in order, and end right after them |
| BefAttributes.DenseAt | lib/bef_converter/bef_to_mlir/bef_to_mlir.cc:864-894 | a dense attribute needs its 16-byte header and carries the rank and count it read |
| BefAttributes.DenseRoundTrip | lib/bef_converter/bef_to_mlir/bef_to_mlir.cc:864-894 | a dense attribute written at any position (type code over rank, element count, dimensions, elements) reads back with that element type, shape and values and ends right after it |
| BefAttributes.AttrAt | lib/bef_converter/bef_to_mlir/bef_to_mlir.cc:721-746 | the dispatch stays in bounds, and type id 7 (unsupported) gives a null attribute; a standard attribute's type is `GetType` of the payload, narrowed to `int` as the call at line 729 passes it |
| BefAttributes.FlatArrayAt | lib/bef_converter/bef_to_mlir/bef_to_mlir.cc:806-820 | a flat array has as many elements as its length says |
| BefAttributes.FlatElementsAt | lib/bef_converter/bef_to_mlir/bef_to_mlir.cc:812-818 | reading `n` flat elements gives `n` results |
| BefAttributes.StandardElementAt | lib/bef_converter/bef_to_mlir/bef_to_mlir.cc:721-733 | a standard attribute word whose type index `GetType` resolves reads as `ReadStandardAttribute` of that type |
| BefAttributes.FlatElementsReadAt | lib/bef_converter/bef_to_mlir/bef_to_mlir.cc:812-818 | standard elements of a type `GetType` resolves, written one after another, read back as their attributes and end right after them |
| BefAttributes.FlatElementsAsDense | lib/bef_converter/bef_to_mlir/bef_to_mlir.cc:812-818 | the flat element loop reads the same attributes, and stops at the same place, as the dense elements reader wherever that one succeeds |
| BefAttributes.FlatArrayRoundTrip | lib/bef_converter/bef_to_mlir/bef_to_mlir.cc:806-820 | elements written at an offset, with their count written backwards just before it, read back as the flat array of their attributes |
| BefAttributes.StringAttributeRoundTrip | lib/bef_converter/bef_to_mlir/bef_to_mlir.cc:772-781 | a string whose bytes sit at the attribute offset, with its encoded length just before, reads back as that string attribute |
| BefAttributes.StringAttrAt | lib/bef_converter/bef_to_mlir/bef_to_mlir.cc:772-781 | when `ReadLength` gives the string length and the bytes fit in the section, the string attribute is exactly those bytes |
| BefAttributes.AttributeReader.constructor | lib/bef_converter/bef_to_mlir/bef_to_mlir.cc:255-257 | the reader holds the attributes section and the table read so far |
| BefAttributes.AttributeReader.ReadLength | lib/bef_converter/bef_to_mlir/bef_to_mlir.cc:303-316 | the loop reads exactly `LengthAt` |
| BefAttributes.AttributeReader.ReadIntegerAttribute | lib/bef_converter/bef_to_mlir/bef_to_mlir.cc:896-922 | the loop reads and advances exactly as `IntegerAt` |
| BefAttributes.AttributeReader.ReadFloatAttribute | lib/bef_converter/bef_to_mlir/bef_to_mlir.cc:924-934 | the method reads and advances exactly as `FloatAt` |
| BefAttributes.AttributeReader.ReadStandardAttribute | lib/bef_converter/bef_to_mlir/bef_to_mlir.cc:748-764 | the method reads and advances exactly as `StandardAt` |
| BefAttributes.AttributeReader.ReadDenseElementsAttribute | lib/bef_converter/bef_to_mlir/bef_to_mlir.cc:864-894 | the method reads and advances exactly as `DenseAt` |
| BefAttributes.AttributeReader.ReadDims | lib/bef_converter/bef_to_mlir/bef_to_mlir.cc:876-882 | the loop reads and advances exactly as `DimsAt` |
| BefAttributes.AttributeReader.ReadElements | lib/bef_converter/bef_to_mlir/bef_to_mlir.cc:885-889 | the loop reads and advances exactly as `ElementsAt` |
| BefAttributes.AttributeReader.ReadAttribute | lib/bef_converter/bef_to_mlir/bef_to_mlir.cc:721-746 | the dispatch reads and advances exactly as `AttrAt`, including the `int` narrowing of the type index |
| BefAttributes.AttributeAtOffset | lib/bef_converter/bef_to_mlir/bef_to_mlir.cc:715-719 | the attribute of a given type at an offset of the attributes section: null past the section, otherwise `AttrAt` there |
| BefAttributes.AttributeReader.ReadAttributeAt | lib/bef_converter/bef_to_mlir/bef_to_mlir.cc:715-719 | reading at an offset gives `AttributeAtOffset`: the null attribute past the section, otherwise the attribute decoded there |
| BefAttributes.AttributeReader.ReadFlatArrayAttribute | lib/bef_converter/bef_to_mlir/bef_to_mlir.cc:806-820 | the loop reads and advances exactly as `FlatArrayAt` |
| BefAttributes.AttributeReader.ReadOffsetArrayAttribute | lib/bef_converter/bef_to_mlir/bef_to_mlir.cc:822-843 | the loop reads exactly `OffsetArrayAt` |
| BefAttributes.Insert | lib/bef_converter/bef_to_mlir/bef_to_mlir.cc:527-529 | a map insert adds the key and never overwrites an existing entry |
| BefAttributes.AttributesFrom | lib/bef_converter/bef_to_mlir/bef_to_mlir.cc:519-531 | reading the table only adds entries: every earlier attribute is kept unchanged |
| BefAttributes.AttributesStep | lib/bef_converter/bef_to_mlir/bef_to_mlir.cc:519-531 | an entry that reads its offset and type adds the attribute at that offset, then the remaining entries are read |
| BefAttributes.AttributesOf | lib/bef_converter/bef_to_mlir/bef_to_mlir.cc:509-532 | without an AttributeTypes section no attribute is decoded and the read succeeds (line 512); a count that does not read fails with nothing decoded; a count of 0 succeeds with nothing |
| BefAttributes.ReadAttributes | lib/bef_converter/bef_to_mlir/bef_to_mlir.cc:509-532 | the loop returns exactly `AttributesOf` the sections |
| BefKernel.Words | lib/bef_converter/bef_to_mlir/bef_to_mlir.cc:966-971 | the function's kernel area from the aligned position, as the uint32 words handed to `ReadKernels`, has a quarter as many entries as bytes (rounded down), each below 2^32 |
| BefKernel.WordBytes | lib/bef_converter/bef_to_mlir/bef_to_mlir.cc:966-971 | the byte image of words has four bytes per word |
| BefKernel.WordBytesSlice | lib/bef_converter/bef_to_mlir/bef_to_mlir.cc:966-971 | word `i` occupies bytes `4i` to `4i+4` of the image |
| BefKernel.WordsRoundTrip | lib/bef_converter/bef_to_mlir/bef_to_mlir.cc:966-971 | reading the byte image of 32-bit words gives the words back |
| BefKernel.WordAt | lib/bef_converter/bef_to_mlir/bef_to_mlir.cc:966-971 | word `i` is the little-endian value of its four bytes |
| BefKernel.UsedBysAt | lib/bef_converter/bef_to_mlir/bef_to_mlir.cc:1218-1220 | one used-by list per result, each as long as its count |
| BefKernel.DecodeKernel | lib/bef_converter/bef_to_mlir/bef_to_mlir.cc:1129-1231 | a decoded kernel has one used-by list per result |
| BefKernel.Lengths | lib/bef_converter/bef_to_mlir/bef_to_mlir.cc:1218-1220 | the counts of used-by lists, one per list |
| BefKernel.UsedBysRoundTrip | lib/bef_converter/bef_to_mlir/bef_to_mlir.cc:1218-1220 | flattened used-by lists read back with their counts |
| BefKernel.UsedBysRoundTripStep | lib/bef_converter/bef_to_mlir/bef_to_mlir.cc:1218-1220 | one more used-by list in front of lists that read back also reads back |
| BefKernel.UsedBysStep | lib/bef_converter/bef_to_mlir/bef_to_mlir.cc:1218-1220 | the used-by lists read from `pos` are the first list, of its count, followed by the lists read after it |
| BefKernel.KernelWordsLayout | lib/bef_converter/bef_to_mlir/bef_to_mlir.cc:1138-1220 | the encoded kernel has its header, counts and entries at the offsets `GetKernelEntries` uses |
| BefKernel.KernelRoundTrip | lib/bef_converter/bef_to_mlir/bef_to_mlir.cc:1129-1231 | decoding an encoded kernel, in any context, gives the kernel back |
| BefKernel.KernelHeaderIn | lib/bef_converter/bef_to_mlir/bef_to_mlir.cc:1138-1220 | an encoded kernel in any context has its code, location and four counts in the header words and fits the words |
| BefKernel.KernelUsedBysIn | lib/bef_converter/bef_to_mlir/bef_to_mlir.cc:1218-1220 | the used-by lists of an encoded kernel, in any context, read back from the used-by counts of its header |
| BefKernel.KernelEntriesIn | lib/bef_converter/bef_to_mlir/bef_to_mlir.cc:1138-1220 | the argument, attribute, function and result entries of an encoded kernel, in any context, lie where `GetKernelEntries` reads them |
| BefKernel.KernelWordsEntries | lib/bef_converter/bef_to_mlir/bef_to_mlir.cc:1138-1220 | the entry lists of an encoded kernel follow its header and used-by counts in order |
| BefKernel.DecodeKernelOf | lib/bef_converter/bef_to_mlir/bef_to_mlir.cc:1129-1231 | a kernel decodes from any words that hold its encoding at the offset |
| BefKernel.DecodeKernelFields | lib/bef_converter/bef_to_mlir/bef_to_mlir.cc:1138-1220 | a decoded kernel's entries are the words at their layout positions |
| BefKernel.Ascii | lib/bef_converter/bef_to_mlir/bef_to_mlir.cc:1166 | the bytes of an ASCII name have the same length and values as its text |
| BefKernel.AsciiInjective | lib/bef_converter/bef_to_mlir/bef_to_mlir.cc:1166 | distinct ASCII names have distinct bytes |
| BefKernel.SpecialAttributesAt | lib/bef_converter/bef_to_mlir/bef_to_mlir.cc:1150-1157 | the special-attribute byte adds `bef.nonstrict` or nothing, and consumes what `ReadByte` does |
| BefKernel.DefaultAttributeNamesDistinct | lib/bef_converter/bef_to_mlir/bef_to_mlir.cc:1166 | the dummy names `attr<i>` of different slots differ |
| BefKernel.AttributeNameAt | lib/bef_converter/bef_to_mlir/bef_to_mlir.cc:1164-1171 | the name read consumes exactly what `ReadInt` does |
| BefKernel.AttributeNamesFrom | lib/bef_converter/bef_to_mlir/bef_to_mlir.cc:1159-1181 | `n` attribute slots get `n` names, inside the data |
| BefKernel.NamesWithoutNameSection | lib/bef_converter/bef_to_mlir/bef_to_mlir.cc:1164-1171 | with the names reader exhausted, slot `k` is named `attr<k>` |
| BefKernel.AttributeOrSentinel | lib/bef_converter/bef_to_mlir/bef_to_mlir.cc:1172-1176 | a known attribute is used as is; an unknown one becomes the i32 `0xdeadbeef` |
| BefKernel.SlotAttributes | lib/bef_converter/bef_to_mlir/bef_to_mlir.cc:1162-1180 | one attribute per slot |
| BefKernel.AppendRefsTwice | lib/bef_converter/bef_to_mlir/bef_to_mlir.cc:1186-1198 | appending function references in two steps equals appending them at once |
| BefKernel.FunctionRefsShape | lib/bef_converter/bef_to_mlir/bef_to_mlir.cc:1183-1199 | the references resolve iff every index is in the function index; named ones become `callee` attributes and the others regions, one per index; no regions iff all are named, all regions iff none is |
| BefFunctions.RegisterTableOf | lib/bef_converter/bef_to_mlir/bef_to_mlir.cc:979-1005 | the register table reads iff there are no type indices or one per register, and then has one register per use count, with no value yet, each typed by `GetType` of its narrowed index |
| BefFunctions.RegisterTypeCases | lib/bef_converter/bef_to_mlir/bef_to_mlir.cc:990-1002 | a register is untyped without a type table or when `GetType` finds nothing; a type index whose low 32 bits are a non-negative `int` below the table size takes the parsed type at those low bits |
| BefFunctions.EntriesAt | lib/bef_converter/bef_to_mlir/bef_to_mlir.cc:1010-1016 | reading `n` kernel table entries gives `n` entries or fails |
| BefFunctions.KernelTableAt | lib/bef_converter/bef_to_mlir/bef_to_mlir.cc:1007-1018 | the kernel table read stays within the data |
| BefFunctions.EntryRoundTrip | lib/bef_converter/bef_to_mlir/bef_to_mlir.cc:1012-1013 | an encoded `(offset, num_operands)` entry reads back to itself |
| BefFunctions.EntriesRoundTrip | lib/bef_converter/bef_to_mlir/bef_to_mlir.cc:1010-1016 | encoded kernel table entries read back to themselves |
| BefFunctions.KernelTableAtCount | lib/bef_converter/bef_to_mlir/bef_to_mlir.cc:1009-1016 | the table is its count followed by that many entries |
| BefFunctions.KernelTableRoundTrip | lib/bef_converter/bef_to_mlir/bef_to_mlir.cc:1007-1018 | a count-prefixed encoded kernel table reads back to itself |
| BefFunctions.NonStrictPseudoKernelAcceptedAsWritten | lib/bef_converter/bef_to_mlir/bef_to_mlir.cc:1047-1051 | as written, a `bef.nonstrict` marker on the pseudo kernel passes; as intended it does not |
| BefFunctions.ReadSpecialAttributes | lib/bef_converter/bef_to_mlir/bef_to_mlir.cc:1150-1157 | the method reads exactly `SpecialAttributesAt` |
| BefFunctions.ReadSlotNames | lib/bef_converter/bef_to_mlir/bef_to_mlir.cc:1159-1181 | the loop reads exactly `AttributeNamesFrom` |
| BefFunctions.AttributeNamesStep | lib/bef_converter/bef_to_mlir/bef_to_mlir.cc:1159-1181 | reading slot `i`'s name moves it from the names still to come to the names already read, and the rest is read from where it stopped |
| BefFunctions.FunctionRefsStep | lib/bef_converter/bef_to_mlir/bef_to_mlir.cc:1186-1198 | resolving references from `i` is resolving index `i`, then the rest |
| BefFunctions.ResolveFunctionRefs | lib/bef_converter/bef_to_mlir/bef_to_mlir.cc:1183-1199 | the loop returns exactly `FunctionRefs` |
| BefFunctions.FunctionRefsLoopInit | lib/bef_converter/bef_to_mlir/bef_to_mlir.cc:1183-1199 | before the loop, nothing is collected and all references remain |
| BefFunctions.FunctionRefsLoopStep | lib/bef_converter/bef_to_mlir/bef_to_mlir.cc:1186-1198 | a named function adds one `callee` attribute, any other function adds one region, and the rest remains |
| BefFunctions.FunctionRefsLoopUnknown | lib/bef_converter/bef_to_mlir/bef_to_mlir.cc:1186-1198 | an index past the function index fails the whole reference list |
| BefFunctions.FunctionRefsLoopEnd | lib/bef_converter/bef_to_mlir/bef_to_mlir.cc:1183-1199 | after the last reference, the collected callees and region count are the result |
| BefFunctions.DefinedBeforeGrows | lib/bef_converter/bef_to_mlir/bef_to_mlir.cc:1054-1059 | appending an op keeps every earlier value defined |
| BefFunctions.FunctionReader.constructor | lib/bef_converter/bef_to_mlir/bef_to_mlir.cc:327-336 | the function reader starts at the function's offset with empty tables and block |
| BefFunctions.FunctionReader.AddDefinition | lib/bef_converter/bef_to_mlir/bef_to_mlir.cc:1233-1244 | a definition succeeds iff the register exists, has no value and its type agrees; only that register changes |
| BefFunctions.FunctionReader.DefineResults | lib/bef_converter/bef_to_mlir/bef_to_mlir.cc:1210-1222 | every result register gets its value and used-bys, all others keep theirs, and no definition is overwritten |
| BefFunctions.DefineResultsStep | lib/bef_converter/bef_to_mlir/bef_to_mlir.cc:1210-1222 | defining one more result register in order keeps every earlier result defined and every other register unchanged |
| BefFunctions.DefineResultsFails | lib/bef_converter/bef_to_mlir/bef_to_mlir.cc:1210-1222 | a result register that is out of range, already defined or of another type means the results cannot all be defined |
| BefFunctions.DefineResultsDone | lib/bef_converter/bef_to_mlir/bef_to_mlir.cc:1210-1222 | after all results: they are distinct, each was free and of its type before and now holds its value and used-bys, and no other register changed |
| BefFunctions.FunctionReader.ResolveOperands | lib/bef_converter/bef_to_mlir/bef_to_mlir.cc:1140-1148 | operands resolve iff every argument register holds a value, and they are those values, in order |
| BefFunctions.FunctionReader.ResultTypes | lib/bef_converter/bef_to_mlir/bef_to_mlir.cc:1201-1206 | result types are the result registers' types, one per result |
| BefFunctions.FunctionReader.ReadRegisterTable | lib/bef_converter/bef_to_mlir/bef_to_mlir.cc:979-1005 | the registers become `RegisterTableOf` the two arrays read, types looked up through the `int`-narrowing `GetType`, or the read fails |
| BefFunctions.FunctionReader.ReadKernelTable | lib/bef_converter/bef_to_mlir/bef_to_mlir.cc:1007-1018 | the kernel table becomes `KernelTableAt` of the input |
| BefFunctions.FunctionReader.ReadResultRegs | lib/bef_converter/bef_to_mlir/bef_to_mlir.cc:1020-1027 | one result register per declared result type, read as `IntsAt` and stored narrowed to `int` (`RegisterIndices`), as `SmallVector<int, 2>` holds them |
| BefFunctions.RegisterIndices | lib/bef_converter/bef_to_mlir/bef_to_mlir.cc:1020-1027 | each stored result register is the `int`-narrowed index read |
| BefFunctions.WrappedResultRegister | lib/bef_converter/bef_to_mlir/bef_to_mlir.cc:1069-1077 | a result register index of 2^32 + 1 returns the value of register 1, since `GetRegister(int)` receives it narrowed |
| BefFunctions.FunctionReader.ReadArgumentsPseudoKernel | lib/bef_converter/bef_to_mlir/bef_to_mlir.cc:1083-1118 | the pseudo kernel defines exactly the argument registers as the block arguments |
| BefFunctions.FunctionReader.BuildOp | lib/bef_converter/bef_to_mlir/bef_to_mlir.cc:1129-1206 | succeeds iff `KernelBuilds`: the kernel at the offset decodes, its code and location are known, every argument register is in range and defined, every callee is a known function and every result register is in range; then the op has the kernel's name, location, operands, attributes, regions and result types, and each failure carries its message |
| BefFunctions.FunctionReader.ReadKernel | lib/bef_converter/bef_to_mlir/bef_to_mlir.cc:1120-1231 | succeeds iff `KernelAccepted`: the op builds, its result registers can all be defined with their types, and its callees are all named or all anonymous; on success the op is `KernelRead` from the kernel at the offset: it is `OpOfKernel` the decoded kernel, the names cursor ends at `KernelNamesEnd`, the results are defined; the op is appended and its anonymous callees are recorded as pending regions; undefined operands and unknown callees fail with their messages |
| BefFunctions.KernelReadAccepted | lib/bef_converter/bef_to_mlir/bef_to_mlir.cc:1120-1231 | a kernel read only from a kernel that is `KernelAccepted` with the registers it starts from |
| BefFunctions.KernelReadDeterministic | lib/bef_converter/bef_to_mlir/bef_to_mlir.cc:1120-1231 | reading a kernel is deterministic: the names position, the registers and the op after it are fixed by the kernel, the names position and the registers before it |
| BefFunctions.FunctionReader.ReadKernelAt | lib/bef_converter/bef_to_mlir/bef_to_mlir.cc:1054-1058 | reading table entry `i` appends its op and extends the chain of kernels read so far by one `KernelRead` link, with the names position and registers after it; a failure means that kernel is not `KernelAccepted` with the registers as they stood |
| BefFunctions.FunctionReader.AppendOp | lib/bef_converter/bef_to_mlir/bef_to_mlir.cc:1201-1231 | appending an op succeeds iff its result registers are distinct, in range, free and of the op's result types and its callees are all named or all anonymous; it first defines the results, so a redefinition fails before the mixed-callee check, records its anonymous callees as pending regions, and keeps the block well formed |
| BefFunctions.FunctionReader.EstablishValid | lib/bef_converter/bef_to_mlir/bef_to_mlir.cc:1054-1059 | after appending an op whose operands were defined, every use in the block is still defined before it |
| BefFunctions.FunctionReader.ReadKernelsFrom | lib/bef_converter/bef_to_mlir/bef_to_mlir.cc:1054-1059 | on success the block is read link by link from the kernel table entries from `start`: each op is `OpOfKernel` of the kernel at its offset, read with the names position and registers the previous op left, and the pending regions are those of the ops with regions; on failure no chain of kernel reads covers those entries from where the loop started (`ChainReads`) |
| BefFunctions.KernelsReadSnoc | lib/bef_converter/bef_to_mlir/bef_to_mlir.cc:1054-1058 | one more kernel read from table entry `i` extends the chain of kernels read by one link and the pending regions by that op's |
| BefFunctions.ChainSnoc | lib/bef_converter/bef_to_mlir/bef_to_mlir.cc:1054-1058 | a chain of kernels read, followed by one more kernel read from where it ended, is a chain one longer |
| BefFunctions.ChainDropLast | lib/bef_converter/bef_to_mlir/bef_to_mlir.cc:1054-1058 | dropping the last kernel read of a chain leaves a chain |
| BefFunctions.ChainPrefix | lib/bef_converter/bef_to_mlir/bef_to_mlir.cc:1054-1058 | the first `j` kernel reads of a chain form a chain |
| BefFunctions.ChainLink | lib/bef_converter/bef_to_mlir/bef_to_mlir.cc:1054-1058 | link `j` of a chain is a kernel read from the names position and registers link `j - 1` left |
| BefFunctions.ChainDeterministic | lib/bef_converter/bef_to_mlir/bef_to_mlir.cc:1054-1058 | two chains over the same table entries from the same names position and registers are the same chain |
| BefFunctions.ChainStops | lib/bef_converter/bef_to_mlir/bef_to_mlir.cc:1054-1058 | a chain whose next kernel is not accepted cannot be completed: no chain covers all the entries |
| BefFunctions.KernelLoopStops | lib/bef_converter/bef_to_mlir/bef_to_mlir.cc:1054-1058 | the kernel loop stopping at entry `i` means no chain covers the table from `start` |
| BefFunctions.PendingSnoc | lib/bef_converter/bef_to_mlir/bef_to_mlir.cc:1054-1058 | the pending regions of a block one op longer are the old ones followed by that op's |
| BefFunctions.BlockArgumentsDefined | lib/bef_converter/bef_to_mlir/bef_to_mlir.cc:1083-1118 | giving block arguments to registers keeps every register value defined before the end of the block |
| BefFunctions.FunctionReader.ReadKernels | lib/bef_converter/bef_to_mlir/bef_to_mlir.cc:1029-1081 | succeeds iff `KernelsDecodable`: some block, return operands and pending regions are `KernelsDecode` of the kernel table and names section; then the block is that decoding (prologue, one op per remaining entry read in order, return operands the values of the `int`-narrowed result registers) and it defines every use before it |
| BefFunctions.ArgumentsDeterministic | lib/bef_converter/bef_to_mlir/bef_to_mlir.cc:1083-1118 | the registers after the arguments pseudo kernel are fixed by those before it |
| BefFunctions.KernelsChainNeeded | lib/bef_converter/bef_to_mlir/bef_to_mlir.cc:1054-1058 | a kernel area whose kernels cannot all be read from the end of the prologue is not decodable |
| BefFunctions.KernelsReturnNeeded | lib/bef_converter/bef_to_mlir/bef_to_mlir.cc:1069-1077 | a kernel area whose kernels leave a result register out of range or undefined is not decodable |
| BefFunctions.ReturnsResolve | lib/bef_converter/bef_to_mlir/bef_to_mlir.cc:1069-1077 | return operands exist only for result registers that are in range and hold a value |
| BefFunctions.KernelsDecodeDeterministic | lib/bef_converter/bef_to_mlir/bef_to_mlir.cc:1029-1081 | a kernel area decodes in one way: the names end, the block, the return operands and the pending regions are fixed by the inputs |
| BefFunctions.FunctionReader.ReadKernelsPrologue | lib/bef_converter/bef_to_mlir/bef_to_mlir.cc:1032-1052 | succeeds iff `PrologueAccepts`: a kernel count that is read equals the table size, a function with arguments starts with the arguments pseudo kernel, and its marker byte is missing or `kUnknown`; a wrong count or marker fails as malformed, a missing pseudo kernel with the pseudo-kernel message |
| BefFunctions.FunctionReader.ReturnDefined | lib/bef_converter/bef_to_mlir/bef_to_mlir.cc:1063-1079 | when every result register holds a value, the block with those values as return operands defines every use before it |
| BefFunctions.FunctionReader.ReadFunction | lib/bef_converter/bef_to_mlir/bef_to_mlir.cc:936-977 | the function location fails iff it is unreadable or unknown; the read succeeds iff `BodyDecodable`, and then the body is `BodyDecodes` of the function bytes at its offset: location, register table, kernel table, result registers (narrowed to `int`), alignment and the kernels, read from the names and register-types sections between the positions the readers moved across |
| BefFunctions.FunctionReader.ReadFunctionHeader | lib/bef_converter/bef_to_mlir/bef_to_mlir.cc:944-962 | the location message is returned iff the location is unreadable or unknown; the header read succeeds iff `FunctionHeaderAt` gives a header, and then the location, register table, kernel table, result registers and both reader positions are that header's |
| BefFunctions.FunctionHeaderAt | lib/bef_converter/bef_to_mlir/bef_to_mlir.cc:944-962 | a header that reads ends inside the function bytes and inside the register-types section |
| BefFunctions.BodyDecodableSteps | lib/bef_converter/bef_to_mlir/bef_to_mlir.cc:936-977 | a decodable body has a header, and its kernel area is decodable |
| BefFunctions.BodyDecodesDeterministic | lib/bef_converter/bef_to_mlir/bef_to_mlir.cc:936-977 | a body decodes in one way: the reader positions after it, its location, region and pending regions are fixed by the inputs |
| BefFunctions.KernelAt | lib/bef_converter/bef_to_mlir/bef_to_mlir.cc:1128-1130 | a byte offset that is not a multiple of `kKernelEntryAlignment` gives no kernel (the hardened `assert`); a kernel found is the one decoded at word `offset / 4` |
| BefFunctions.KernelOffsets | lib/bef_converter/bef_to_mlir/bef_to_mlir.cc:1054-1056 | one kernel offset per table entry from `start` |
| BefResolve.ReturnTypes | lib/bef_converter/bef_to_mlir/bef_to_mlir.cc:642-658 | one return type per return operand, each the type of that operand |
| BefResolve.ReturnOperandsTyped | lib/bef_converter/bef_to_mlir/bef_to_mlir.cc:642-658 | in a well-formed region every return operand has a type |
| BefResolve.FuncOpOf | lib/bef_converter/bef_to_mlir/bef_to_mlir.cc:642-668 | a native function is an external declaration with its declared types; a BEF function carries its body and returns its return operands' types |
| BefIr.BefFunction.IsNamedFunction | lib/bef_converter/bef_to_mlir/bef_to_mlir.cc:85 | a function is named iff its name is not empty |
| BefIr.BefFunction.IsNativeFunction | lib/bef_converter/bef_to_mlir/bef_to_mlir.cc:86-88 | a function is native iff its kind is `kNativeFunction` (1) |
| BefResolve.TopLevel | lib/bef_converter/bef_to_mlir/bef_to_mlir.cc:678-690 | top-level functions are named |
| BefResolve.TopLevelHasNamed | lib/bef_converter/bef_to_mlir/bef_to_mlir.cc:678-690 | every named function becomes a top-level function |
| BefResolve.TopLevelOnlyNamed | lib/bef_converter/bef_to_mlir/bef_to_mlir.cc:678-690 | every top-level function comes from a named function |
| BefResolve.ReferencedIndicesSnoc | lib/bef_converter/bef_to_mlir/bef_to_mlir.cc:693-710 | the referenced indices of one more op are the earlier ones then its own |
| BefResolve.ReferencedIndicesPrefix | lib/bef_converter/bef_to_mlir/bef_to_mlir.cc:693-710 | the indices of a prefix of ops are a prefix of all indices |
| BefResolve.NestedOf | lib/bef_converter/bef_to_mlir/bef_to_mlir.cc:693-710 | one set of nested regions per referencing op |
| BefResolve.ResolveTopLevel | lib/bef_converter/bef_to_mlir/bef_to_mlir.cc:678-690 | the module's functions are `TopLevel`, and exactly the anonymous BEF functions are left to resolve |
| BefResolve.TakeBodies | lib/bef_converter/bef_to_mlir/bef_to_mlir.cc:696-707 | an op's regions take their functions' bodies, each function at most once, or resolution fails |
| BefResolve.ResolveNested | lib/bef_converter/bef_to_mlir/bef_to_mlir.cc:693-710 | every referencing op gets the bodies of its functions, or resolution cannot succeed |
| BefResolve.RefsInRangeSnoc | lib/bef_converter/bef_to_mlir/bef_to_mlir.cc:693-710 | one more op whose references are in range keeps all references in range |
| BefResolve.ResolveFunctions | lib/bef_converter/bef_to_mlir/bef_to_mlir.cc:670-713 | resolution succeeds iff every anonymous BEF function is referenced exactly once and nothing else is, and then gives the top-level functions and the nested regions |
| BefResolve.NotResolvedByTaken | lib/bef_converter/bef_to_mlir/bef_to_mlir.cc:699-705 | a reference out of range, to a function that is not pending, or repeated, makes resolution fail |
| BefConverter.ReadBefFunction | lib/bef_converter/bef_to_mlir/bef_to_mlir.cc:626-637 | succeeds iff the body at the function's offset is `BodyDecodable`, so an offset past the functions section fails; on success the slot and references are `BefFunctionDecodes` of the section bytes at the function's offset: the body the bytes decode to, with references tagged by the function's index |
| BefConverter.ReadFunctions | lib/bef_converter/bef_to_mlir/bef_to_mlir.cc:604-640 | one slot per function index entry; succeeds iff `FunctionsDecodable`, and then the slots and references are `FunctionsDecode` of the three sections, read one function after another from past each shared section's table count; a BEF function whose offset lies past the section fails |
| BefConverter.ReadFunctionSlot | lib/bef_converter/bef_to_mlir/bef_to_mlir.cc:620-637 | one function index entry read, succeeding iff that function is `FunctionDecodable` from where the shared readers stand: a native entry gets an unknown location and no body, a BEF entry the body `ReadBefFunction` decodes; the slots read so far and the chain of function reads both grow by one |
| BefConverter.FunctionNeedsBody | lib/bef_converter/bef_to_mlir/bef_to_mlir.cc:626-637 | a BEF function whose body is not decodable is not decodable |
| BefConverter.FunctionDecodesDeterministic | lib/bef_converter/bef_to_mlir/bef_to_mlir.cc:620-637 | a function decodes in one way: the reader positions after it, its slot and its references are fixed by the inputs |
| BefConverter.FunctionsReadAgree | lib/bef_converter/bef_to_mlir/bef_to_mlir.cc:604-640 | two chains of function reads from the same positions agree on their first `j` links |
| BefConverter.FunctionsDecodeDeterministic | lib/bef_converter/bef_to_mlir/bef_to_mlir.cc:604-640 | the Functions section decodes to one list of slots and one list of references |
| BefConverter.FunctionsStop | lib/bef_converter/bef_to_mlir/bef_to_mlir.cc:620-637 | the function loop stopping at a function that does not decode from where the readers stand means the Functions section does not decode |
| BefConverter.SharedSectionReader | lib/bef_converter/bef_to_mlir/bef_to_mlir.cc:609-617 | the reader of a shared section starts past its table count, or at 0 when the section is empty |
| BefConverter.SkipCount | lib/bef_converter/bef_to_mlir/bef_to_mlir.cc:609-617 | the start position is inside the section, and 0 for an empty one |
| BefConverter.NativeFunctionRead | lib/bef_converter/bef_to_mlir/bef_to_mlir.cc:621-624 | a native function extends the chain of function reads without moving either shared reader |
| BefConverter.FunctionsLoopSnoc | lib/bef_converter/bef_to_mlir/bef_to_mlir.cc:620-637 | one more function decoded from where the shared readers stand extends the loop state by one link |
| BefConverter.FunctionsReadSnoc | lib/bef_converter/bef_to_mlir/bef_to_mlir.cc:620-637 | one more function decoded extends the chain of function reads by one, and its references follow those of the earlier functions |
| BefConverter.SlotsReadSnoc | lib/bef_converter/bef_to_mlir/bef_to_mlir.cc:620-637 | adding one function's slot and references keeps every slot matched to its function and every body and reference well formed |
| BefConverter.SlotsSnoc | lib/bef_converter/bef_to_mlir/bef_to_mlir.cc:620-637 | adding one function's slot and references keeps all slots and references well formed |
| BefConverter.ParsedTypes | lib/bef_converter/bef_to_mlir/bef_to_mlir.cc:555-562 | one parse result per type name |
| BefConverter.ContainerOf | lib/bef_converter/bef_to_mlir/bef_to_mlir.cc:1264-1276 | a readable container has one section per section id |
| BefConverter.FirstPhase | lib/bef_converter/bef_to_mlir/bef_to_mlir.cc:1264-1295 | the tables are read from a container with one section per id; the location table looks filenames up at the `int`-narrowed index |
| BefConverter.ReadContainer | lib/bef_converter/bef_to_mlir/bef_to_mlir.cc:1264-1276 | the method returns exactly `ContainerOf` |
| BefConverter.ReadTables | lib/bef_converter/bef_to_mlir/bef_to_mlir.cc:1277-1295 | the method returns exactly `TablesOf`, including the `int` narrowing of filename and type indices |
| BefConverter.ConvertBEFToMLIR | lib/bef_converter/bef_to_mlir/bef_to_mlir.cc:1254-1313 | succeeds iff the first phase does and the file is `Convertible`: the Functions section decodes and its references resolve exactly; a failing table stage gives its message, a failing function body "Invalid Functions section." and a failing resolution "Failed to resolve functions."; success means the slots are those the Functions section decodes to (`FunctionsDecode`), the module's functions are their top level and every anonymous function became exactly one region; the attribute warning is raised iff the attributes failed to read |
| BefConverter.ConvertibleWhenResolved | lib/bef_converter/bef_to_mlir/bef_to_mlir.cc:1296-1310 | once the Functions section has decoded, the file converts iff those references resolve exactly |
| BefConverter.ConvertibleNeedsFunctions | lib/bef_converter/bef_to_mlir/bef_to_mlir.cc:1298-1303 | a file whose Functions section does not decode does not convert |
| BefConverter.ReadFirstPhase | lib/bef_converter/bef_to_mlir/bef_to_mlir.cc:1264-1295 | reading the container and the file-level tables gives exactly `FirstPhase`, with the missing-sections flag |
| BefConverter.FirstPhaseFailsWith | lib/bef_converter/bef_to_mlir/bef_to_mlir.cc:1264-1295 | a failing header, section list or table stops with one of the source's messages for those stages |
| BefConverter.TablesFailWith | lib/bef_converter/bef_to_mlir/bef_to_mlir.cc:1277-1295 | a failing file-level table stops with the message of that table |
| KernelFrames.SizeT | include/tfrt/host_context/kernel_frame.h:226 | an `int` compared with a `size_t` is taken modulo 2^64 |
| KernelFrames.KernelFrameBuilder.constructor | include/tfrt/host_context/kernel_frame.h:266 | a new builder has no slots and no result count |
| KernelFrames.KernelFrameBuilder.AddArg | include/tfrt/host_context/kernel_frame.h:276-283 | before the result count, the argument is appended to the arguments and to the slots |
| KernelFrames.KernelFrameBuilder.AddAttribute | include/tfrt/host_context/kernel_frame.h:286-292 | after the result count, the attribute is appended after all other slots; arguments and results are unchanged |
| KernelFrames.KernelFrameBuilder.SetNumResults | include/tfrt/host_context/kernel_frame.h:295-300 | right after the arguments, `n` empty result slots are added |
| KernelFrames.KernelFrameBuilder.Reset | include/tfrt/host_context/kernel_frame.h:308-312 | the builder is back to its initial state |
| KernelFrames.KernelFrameBuilder.GetResultAt | include/tfrt/host_context/kernel_frame.h:269 | the slot returned is result `index` |
| KernelFrames.KernelFrameBuilder.SetResultAt | include/tfrt/host_context/kernel_frame.h:159-165 | an empty result slot is set and nothing else changes |
| KernelFrames.KernelFrameBuilder.GetNumArgs | include/tfrt/host_context/kernel_frame.h:66 | the number of arguments added |
| KernelFrames.KernelFrameBuilder.GetNumResults | include/tfrt/host_context/kernel_frame.h:127 | the result count, or -1 with only argument slots |
| KernelFrames.KernelFrameBuilder.GetNumAttributes | include/tfrt/host_context/kernel_frame.h:95-97 | the number of attributes added; 1 before the result count is set |
| KernelFrames.KernelFrameBuilder.GetAttributes | include/tfrt/host_context/kernel_frame.h:86-92 | the attributes added; before the result count, the last argument's word or nothing |
| KernelFrames.KernelFrameBuilder.GetAsyncValues | include/tfrt/host_context/kernel_frame.h:225-232 | a range of the argument and result slots, of the requested length |
| KernelFrames.KernelFrameBuilder.GetArguments | include/tfrt/host_context/kernel_frame.h:81-83 | exactly the arguments added |
| KernelFrames.KernelFrameBuilder.GetResults | include/tfrt/host_context/kernel_frame.h:181-183 | exactly the result slots |
| KernelFrames.KernelFrameBuilder.GetArgAt | include/tfrt/host_context/kernel_frame.h:75-78 | argument `index` as added |
| KernelFrames.KernelFrameBuilder.AssertArity | include/tfrt/host_context/kernel_frame.h:353-358 | after the result count, the arity holds iff the argument, attribute and result counts match; before it, only with one attribute and -1 results |
| Decimal.NatToString | lib/core_runtime/opdefs/core_runtime.cc:91-92 | the decimal text of a natural is a non-empty digit string with no leading zero |
| Decimal.DigitValueOfDigitChar | lib/core_runtime/opdefs/core_runtime.cc:91-92 | a digit's character reads back as the digit |
| Decimal.NatToStringRoundTrip | lib/core_runtime/opdefs/core_runtime.cc:91-92 | the value of a natural's decimal text is the natural |
| Decimal.NatToStringInjective | lib/core_runtime/opdefs/core_runtime.cc:91-92 | different naturals print differently |
| Decimal.DigitRun | lib/core_runtime/opdefs/core_runtime.cc:74-75 | the maximal run of leading digits |
| Decimal.ConsumeInteger | lib/core_runtime/opdefs/core_runtime.cc:74-75 | a consumed integer fits `int64_t` and consumes at least one character |
| Decimal.DigitRunOfDigitsThen | lib/core_runtime/opdefs/core_runtime.cc:74-75 | digits followed by a non-digit form a run of exactly their length |
| Decimal.ConsumeIntegerOfNatToString | lib/core_runtime/opdefs/core_runtime.cc:74-75 | consuming the decimal text of an `int64_t` natural gives it back and leaves the rest |
| CoreRuntime.DimAt | lib/core_runtime/opdefs/core_runtime.cc:72-75 | a dimension is `?` (as -1) or an `int64_t`, and consumes text |
| CoreRuntime.SkipX | lib/core_runtime/opdefs/core_runtime.cc:77 | skipping the separator never lengthens the text |
| CoreRuntime.DimsFrom | lib/core_runtime/opdefs/core_runtime.cc:69-80 | every parsed dimension fits `int64_t` |
| CoreRuntime.ParseShape | lib/core_runtime/opdefs/core_runtime.cc:58-83 | text without the `shape<` prefix is rejected; every error names the text; dimensions fit `int64_t` |
| CoreRuntime.ParseShapeAttr | lib/core_runtime/opdefs/core_runtime.cc:58-83 | the loop returns exactly `ParseShape` |
| CoreRuntime.DimsLoopStep | lib/core_runtime/opdefs/core_runtime.cc:69-80 | one dimension of the loop moves from the unparsed text to the shape read so far, and parsing resumes after the `x` |
| CoreRuntime.DimText | lib/core_runtime/opdefs/core_runtime.cc:90-95 | a dimension prints as `?` or as digits, never empty |
| CoreRuntime.JoinDimsSnoc | lib/core_runtime/opdefs/core_runtime.cc:90-96 | one more dimension appends `x` and its text |
| CoreRuntime.PrintShapeAttr | lib/core_runtime/opdefs/core_runtime.cc:85-101 | the loop prints exactly `ShapeText` |
| CoreRuntime.ReadBack | lib/core_runtime/opdefs/core_runtime.cc:90-96 | the dimensions as they read back after printing: negatives become -1 |
| CoreRuntime.DimAtOfDimText | lib/core_runtime/opdefs/core_runtime.cc:72-75 | a printed dimension parses back to itself, or -1 for a negative |
| CoreRuntime.DimsFromDim | lib/core_runtime/opdefs/core_runtime.cc:69-80 | a printed dimension then a separator parses as that dimension then the rest |
| CoreRuntime.DimsFromOfLastDim | lib/core_runtime/opdefs/core_runtime.cc:69-80 | a printed last dimension then `>` parses as that one dimension |
| CoreRuntime.DimsFromOfJoinStep | lib/core_runtime/opdefs/core_runtime.cc:69-80 | if the tail's printed dimensions parse back, so do all |
| CoreRuntime.DimsFromOfJoin | lib/core_runtime/opdefs/core_runtime.cc:69-80 | printed dimensions parse back, negatives as -1 |
| CoreRuntime.JoinDimsFirst | lib/core_runtime/opdefs/core_runtime.cc:90-96 | printed dimensions are empty iff there are none, and otherwise start with `?` or a digit |
| CoreRuntime.ParsePrintedUnranked | lib/core_runtime/opdefs/core_runtime.cc:58-101 | `shape<*>` parses back as the unranked shape |
| CoreRuntime.ParsePrintedRanked | lib/core_runtime/opdefs/core_runtime.cc:58-101 | a printed ranked shape parses back with its dimensions, negatives as -1 |
| CoreRuntime.ParseRankedSpec | lib/core_runtime/opdefs/core_runtime.cc:58-83 | text with the shape prefix, not `*>` after it, whose dimensions parse, is that ranked shape |
| CoreRuntime.PrintedDimsNotUnranked | lib/core_runtime/opdefs/core_runtime.cc:85-101 | printed dimensions never start with `*>`, so a printed ranked shape is never read as unranked |
| CoreRuntime.ParsePrintedShape | lib/core_runtime/opdefs/core_runtime.cc:58-101 | parse after print gives the shape back, negatives as -1 |
| CoreRuntime.ShapeRoundTrip | lib/core_runtime/opdefs/core_runtime.cc:58-101 | for dimensions in `[-1, 2^63)`, parse after print is the identity |
| CoreRuntime.Value | lib/core_runtime/opdefs/core_runtime.cc:311-314 | a key-value pair is rebuilt from its key and value |
| CoreRuntime.VerifyExecuteOp | lib/core_runtime/opdefs/core_runtime.cc:177-188 | an op verifies iff every element of its `op_attrs` is a key-value pair, and otherwise fails with the op_attr message |
| CoreRuntime.VerifyOpAttrs | lib/core_runtime/opdefs/core_runtime.cc:177-188 | the verifier accepts iff every `op_attrs` element is a two-element array with a string key, and otherwise reports its message |
| CoreRuntime.KeyValue | lib/core_runtime/opdefs/core_runtime.cc:195-199 | a built pair is a valid key-value element |
| CoreRuntime.Packed | lib/core_runtime/opdefs/core_runtime.cc:195-199 | one key-value element per pair, in order |
| CoreRuntime.Unpacked | lib/core_runtime/opdefs/core_runtime.cc:303-316 | one pair per element, each rebuilding the element |
| CoreRuntime.BuildExecuteOp | lib/core_runtime/opdefs/core_runtime.cc:190-202 | the built op packs the pairs in order and passes the verifier |
| CoreRuntime.GetOpAttrs | lib/core_runtime/opdefs/core_runtime.cc:303-316 | the loop returns exactly `Unpacked` of the verified `op_attrs` |
| CoreRuntime.UnpackPacked | lib/core_runtime/opdefs/core_runtime.cc:190-202 | the pairs read from a built op are the pairs it was built from |
| CoreRuntime.PackUnpacked | lib/core_runtime/opdefs/core_runtime.cc:303-316 | packing the pairs read from verified `op_attrs` rebuilds them |
| CoreRuntime.FirstValue | lib/core_runtime/opdefs/core_runtime.cc:323-329 | a value exists iff some key is `value`, and it is that of the first such key |
| CoreRuntime.Fold | lib/core_runtime/opdefs/core_runtime.cc:318-334 | folding succeeds iff the op is `tf.Const` and has a `value` attribute |
| CoreRuntime.FoldBuilt | lib/core_runtime/opdefs/core_runtime.cc:318-334 | folding a built `tf.Const` op gives the first `value` among its pairs |

## Left out

- I/O and MLIR objects. The MLIR context, operation, block and region objects
  become plain datatypes. `mlir::Location`s become `FileLineCol` or
  `UnknownLoc` values. Nothing is printed. A diagnostic that ends the
  conversion becomes the message of the returned `Err`, and the two warnings
  of `ConvertBEFToMLIR` (missing optional sections, unreadable attributes)
  are a returned list. Other diagnostics are not modelled; the lines below
  name them.
- BefConverter.ConvertBEFToMLIR: when a function body fails, the result is
  only `"Invalid Functions section."` (line 1303). The source first emits the
  body's own error (for example "Redefinition of registers" or "Using an
  undefined register in return op."). `ReadFunctions` and the function
  reader return that message, but the converter does not pass it on.
- BefAttributes.AttrAt: the non-fatal `EmitError`s of the attribute reader
  are not modelled. They are "Unknown attribute type" (line 744), "Unknown
  standard attribute type" (line 762), "Unknown integer attribute width"
  (line 901) and "Unknown float attribute width" (line 932). The model gives
  the null attribute each of them comes with, and the attribute table
  stores it as the source does.
- BefAttributes.TypeAttrAt and BefAttributes.DenseAt: a type code other than
  1 to 6 reaches `llvm_unreachable` in the source (lines 802 and 860), which
  is undefined behaviour. The model gives the null attribute.
- BefAttributes.ElementsAt and BefAttributes.DenseAt: the source pushes the
  null result of a failed element read and goes on reading (lines 887-889),
  then `DenseElementsAttr::get` asserts on a null element or an element count
  that is not the product of the shape (line 893). The model stops at the
  first null element with a null attribute, and does not compare the count
  with the shape.
- `mlir::parseType` is not part of this model. It is a function parameter
  `parse`. A name that fails to parse stores no type, as the source pushes a
  null `Type` (lines 555-562). This follows the code.
- Hardened assertions and unchecked lookups. Each `assert`, `.at()`,
  `getValue()` and read past a buffer is modelled as a failure of the enclosing
  operation, with a message:
  - `"Malformed BEF function body."` covers:
    - a misaligned kernel offset, an undecodable kernel, or an unknown kernel
      code or location (lines 1128-1136);
    - a register index past the register table (`GetRegister`, lines
      1246-1250);
    - a definition whose type disagrees with its register (line 1240);
    - a kernel count that differs from the kernel table (lines 1032-1034);
    - an op with both named and anonymous callees (line 1226), checked after
      its result registers are defined (lines 1212-1222), so a redefinition
      is reported first;
    - the pseudo kernel marker (lines 1048-1051, see Findings).
  - `"Failed to read register table."` also covers register type indices
    that are present but not one per register (the `assert` of lines
    989-990), in `RegisterTableOf`.
  - `"Failed to read pseudo."` (lines 1041-1044) covers every failure inside
    the arguments pseudo kernel: arguments, attributes, functions or the
    wrong number of results (lines 1088-1092), and a result register that is
    out of range, already defined or of another type (lines 1094-1114).
  - `"Malformed region reference."` covers a nested-region index out of range
    or referring to a body already taken or absent (lines 693-702).
  - `"Function offset past the Functions section."` covers a function offset
    beyond the section (line 629).
- Floating point. Float attributes are kept as the raw bits read. No value is
  converted.
- `region_references` is a `DenseMap` keyed by `Operation*` (lines 160-161). Its
  iteration order depends on pointer values. The model keeps the insertion
  order, kernel by kernel. Which region is reported first when several are
  wrong is therefore not modelled; whether resolution succeeds does not depend
  on the order.
- BefFunctions.FunctionReader.ReadKernel: on failure, the register table left
  behind is not stated. The source leaves it partly updated, and the function
  is discarded anyway.
- BefFunctions.FunctionReader.ReadKernels: the marker byte of the arguments
  pseudo kernel is read after that kernel (lines 1047-1051), as in the source.
  The model does not state where the names cursor ends up on failure.
- ReadAttribute for a type id the source does not handle (`kEmpty`, lines
  727-745) yields a null attribute, which the table stores. The source stores it
  too.
- KernelFrames.KernelFrameBuilder.SetResultAt: requires `0 <= index`. The
  source's `assert(index < GetNumResults())` also lets a negative index through,
  which writes into the argument slots. That is undefined in the source's
  terms.
- KernelFrames.KernelFrameBuilder.GetArgAt: requires `0 <= index`. The source's
  `assert(index < GetNumArgs())` (line 76) also lets a negative index through,
  which reads before the vector. That is undefined in the source's terms.
- KernelFrames.KernelFrameBuilder.GetAsyncValues: requires a non-empty range to
  lie in the vector. With no result count, the source's `size_t` assertion
  passes any range (modelled by `SizeT`), but reading outside the vector is
  undefined behaviour.
- KernelFrames.KernelFrameBuilder.AddArg and SetNumResults: require counts of
  at most `INT_MAX`, because the counters are `int`.
- Also left out of `kernel_frame.h`:
  - reference counting of async values: a slot is a word, 0 for nullptr;
  - `EmplaceResult`, `AllocateResult`, `EmplaceResultAt` and `AllocateResultAt`
    create values in result slots; they are `SetResultAt` of a fresh word;
  - `GetMutableAsyncValues` and `RAIIKernelFrame` (ownership only);
  - the location, the execution context, the host, `ReportError` and
    `attribute_section`: no bytes are decoded through a frame here.
- CoreRuntime.Fold: a `tf.Const` op with an empty `op_attrs`, which the
  source asserts against (line 322), folds to nothing.
- From `core_runtime.cc`:
  - `ParseExecuteOpImpl`, the printers other than `PrintShapeAttr`,
    `materializeConstant` and the dialect registration: they are MLIR
    plumbing;
  - `lib/core_runtime/logging_op_handler.cc` is context only.
- Integer widths in the decoder: `size_t` values are unbounded naturals,
  except where the source narrows them. Those narrowings are written out:
  `ReadLength` truncates to 64 bits and integer attributes to their width.
  `BEFFile::GetType(int index)` (lines 139-142) receives a `size_t` type
  index as an `int` (callers at lines 590, 729 and 995). `IntIndex` keeps the
  low 32 bits as a two's complement `int` and converts a negative one back to
  `size_t` for the comparison. The same narrowing is applied to the filename
  index passed to `GetLocationFilename(int index)` (lines 111-115, call at
  line 491) and to the result registers stored in `SmallVector<int, 2>
  result_regs_` (lines 401 and 1024) and then passed to `GetRegister(int)`.
  Line and column numbers, read as `size_t`, are passed to the `unsigned`
  parameters of `FileLineColLoc::get` (line 496): `LocationOf` keeps them
  modulo 2^32.
  Register indices from kernel entries are 32-bit words; narrowed, those of
  2^31 or more become negative and fail the range check, which is what the
  model gives for any index past the table.
- `int` loop counters compared with a count read from the file (for example
  lines 569 and 1021) stay unbounded. Such a counter can only pass 2^31 - 1
  after that many successful reads, which needs a section of at least 2^31
  bytes; the model does not cover sections that large.

## Findings

| source | as written | input that shows it | evidently intended | confidence | as-written member | corrected member |
|---|---|---|---|---|---|---|
| lib/bef_converter/bef_to_mlir/bef_to_mlir.cc:60-62 | `BEFSections::Set` stores with `.at()`, so a section id of 12 or more throws, although `ReadSections` means to skip unknown sections | a file whose section list is `[12, 0]`: one section with id 12 and an empty body | unknown section ids are dropped and reading goes on | not executed | BefTables.UnknownSectionRejected | BefTables.SetSection |
| lib/bef_converter/bef_to_mlir/bef_to_mlir.cc:1048-1051 | the check that the pseudo kernel is not `bef.nonstrict` runs only when `ReadByte` fails, so it never sees a byte that was read | a names section whose marker byte after the argument pseudo kernel is `kNonStrict` | the assertion checks a byte that was read | not executed | BefFunctions.NonStrictPseudoKernelAcceptedAsWritten | BefFunctions.FunctionReader.ReadKernelsPrologue |
