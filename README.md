# EDF/EHF header codec of the ESRF ImageJ plugins, in Dafny

The ESRF plugins for ImageJ read and write the ESRF Data Format (EDF). An EDF
file is a text header followed by raw pixels. The header is a block between
`{` and `}` made of `key = value;` lines. This project models the part of the
three plugins that handles that header:

- **The header block scanner** (`HeaderScanner`). It counts brackets one byte
  at a time until the counter returns to 0. For `EHF` it keeps going block
  after block until a block holds `EDF_DataBlockID`. The readers
  `EDF_StackReader` and `ESRF_Reader` share this code.
- **The header decoder** (`HeaderDecoder`). It uses StringTokenizer on `;`
  and cuts each token at its first `=`. It parses the value with
  `Integer.valueOf` and updates the `FileInfo` for the six keys the readers
  know. The decoder is a left fold over the tokens. The two readers' DataType
  tables are two separate functions.
- **Stack selection** (`StackReader`). It derives the name prefix from the
  chosen file. It sorts the directory listing by `compareTo`, keeps every name
  that contains the prefix, and reads each kept file as one slice.
- **`ESRF_Reader.run`** (`EsrfReader`). It sets up the default `FileInfo` and
  parses the header only for `EDF` and `EHF`.
- **The header encoder** (`HeaderEncoder`), i.e. `ESRF_Writer.saveAsEDF`.
  It writes a fixed sequence of lines, maps the type to its DataType name and
  bytes per point, computes `Size` in Java `int` arithmetic, and pads with
  spaces to exactly 1024 characters.
- **The round trip** (`RoundTrip`). A file the writer wrote, read as EDF by
  either reader, gives back:
  - its geometry;
  - offset 1024, where the pixels start;
  - little-endian byte order;
  - the type the reader's table gives the written name, if it knows the name
    (ESRF_Reader reads GRAY32_UNSIGNED back as GRAY32_INT).
- **`getShort`**, in `HeaderDecoder`.

`JavaLang` holds the Java library behaviour the code relies on:
- `String.trim`, `indexOf`, `lastIndexOf`, `contains` and `compareTo`;
- `Integer.valueOf` and `Integer.toString`;
- 32-bit `int` wrap-around.

`EdfFormat` holds the `FileInfo` fields the header touches and the shape of
a header line.

Files are modelled as strings: each byte read is one character. A read past
the end of the file gives `'\uffff'`, which is what `getChar` makes of
`read()`'s -1. The scan and the token loop are methods proved equal to
specification functions (`Scan`, `Decode`, `ParseHeader`). The properties are
stated and proved about those functions.

Each FileInfo the plugins change in place is modelled as a returned value. An
operation that can end badly returns an `Outcome`:
- `Done` is normal completion;
- `Threw` is an uncaught `StringIndexOutOfBoundsException`;
- `Hangs` is a scan that reads `'\uffff'` forever (the scanner's own
  `ScanOutcome` uses the same name).

An `IOException`, which the readers catch, leaves the `FileInfo` unchanged.

The DataType value `SingedByte` is kept as the stack reader spells it.
`GRAY64_FLOAT` keeps the 1 byte per point that the writer's switch gives it.
So `Size` for such an image is its pixel count (`Gray64SizeIsPixelCount`).

## Model

| member | source | states |
|---|---|---|
| JavaLang.Wrap | ESRFPlugins/plugins/ESRF_Writer.java:133 | the Java `int` value of an exact product is a 32-bit int, and equals the product whenever the product fits |
| JavaLang.WrapCongruent | ESRFPlugins/plugins/ESRF_Writer.java:133 | `int` overflow changes a value by a multiple of 2^32 |
| JavaLang.Trim | ESRFPlugins/plugins/EDF_StackReader.java:181-182 | `String.trim`: drops every character at or below U+0020 from both ends |
| JavaLang.TrimOfTrimmed | ESRFPlugins/plugins/EDF_StackReader.java:181-182 | `trim` leaves a string that neither starts nor ends with a character at or below U+0020 unchanged |
| JavaLang.IndexOf | ESRFPlugins/plugins/EDF_StackReader.java:178 | `indexOf('=')` is the first position holding `=`, or -1 exactly when there is none |
| JavaLang.LastIndexOf | ESRFPlugins/plugins/EDF_StackReader.java:65 | `lastIndexOf(".")` is the last position holding `.`, or -1 exactly when there is none |
| JavaLang.Contains | ESRFPlugins/plugins/EDF_StackReader.java:99 | `String.contains`: the name has the prefix at its start or contains it further on |
| JavaLang.ContainsAt | ESRFPlugins/plugins/EDF_StackReader.java:99 | `contains(prefix)` holds exactly when the prefix occurs at some position of the name |
| JavaLang.ParseInt | ESRFPlugins/plugins/EDF_StackReader.java:189 | whatever `Integer.valueOf` accepts is a 32-bit int |
| JavaLang.IntToString | ESRFPlugins/plugins/ESRF_Writer.java:131-133 | string concatenation of an int: `-` for a negative number, then its decimal digits without leading zeros |
| JavaLang.ParseIntToString | ESRFPlugins/plugins/EDF_StackReader.java:189 | `Integer.valueOf` reads back every int that `Integer.toString` (string concatenation) writes |
| JavaLang.IntToStringShape | ESRFPlugins/plugins/ESRF_Writer.java:131-133 | an int is written in 1 to 11 characters, each a digit or `-` |
| JavaLang.Below | ESRFPlugins/plugins/EDF_StackReader.java:90-95 | `compareTo(...) <= 0`: the first differing character decides, and a proper prefix comes first |
| JavaLang.BelowTotal | ESRFPlugins/plugins/EDF_StackReader.java:90-95 | `compareTo` puts every two names in some order |
| JavaLang.BelowTransitive | ESRFPlugins/plugins/EDF_StackReader.java:90-95 | the `compareTo` order is transitive |
| JavaLang.BelowAntisymmetric | ESRFPlugins/plugins/EDF_StackReader.java:90-95 | two names each at or below the other are equal |
| JavaLang.BelowReflexive | ESRFPlugins/plugins/EDF_StackReader.java:90-95 | every name is at or below itself |
| EdfFormat.DefaultInfo | ESRFPlugins/src/ESRF_Reader.java:50-57 | a fresh FileInfo is 512 x 512, offset 0, big-endian, GRAY16_UNSIGNED, with the chosen name |
| EdfFormat.Line | ESRFPlugins/plugins/ESRF_Writer.java:59-61 | the shape of every header line the writer builds: the key, ` = `, the value, `;` and a newline |
| EdfFormat.Lines | ESRFPlugins/plugins/ESRF_Writer.java:135-143 | header lines for keys and values, concatenated in order |
| HeaderScanner.ByteAt | ESRFPlugins/plugins/EDF_StackReader.java:252-255 | `getChar`: the byte at a position, or `'\uffff'` (the cast of `read()`'s -1) past the end |
| HeaderScanner.Depth | ESRFPlugins/plugins/EDF_StackReader.java:149-156 | `noBrackets` after reading some bytes from 0: the `{` count minus the `}` count |
| HeaderScanner.DepthStep | ESRFPlugins/plugins/EDF_StackReader.java:149-156 | each byte read moves the bracket counter by +1 for `{`, -1 for `}` and 0 otherwise |
| HeaderScanner.EndSearch | ESRFPlugins/plugins/EDF_StackReader.java:149-156 | the inner loop, when it stops inside the file, stops at or after the bytes already read |
| HeaderScanner.BlockEnd | ESRFPlugins/plugins/EDF_StackReader.java:149-156 | a block is at least one byte long |
| HeaderScanner.EndSearchSpec | ESRFPlugins/plugins/EDF_StackReader.java:149-156 | the search from a point where the counter has not yet returned to 0 ends exactly where it first does, and fails exactly when it never does inside the file |
| HeaderScanner.BlockEndSpec | ESRFPlugins/plugins/EDF_StackReader.java:149-156 | the block ends right after the first byte that brings the counter back to 0; the loop runs forever exactly when no byte of the file does |
| HeaderScanner.SingleByteBlock | ESRFPlugins/src/ESRF_Reader.java:126-133 | a block whose first byte is not a bracket is that single byte |
| HeaderScanner.OneBraceBlock | ESRFPlugins/plugins/EDF_StackReader.java:149-156 | a block opened by `{` with no other bracket before its `}` ends at that `}` |
| HeaderScanner.ScanFrom | ESRFPlugins/plugins/EDF_StackReader.java:146-163 | one iteration of the outer loop per block: no end gives `Hangs`, a block ending on the last byte makes `readFully` fail, and EHF moves on while the text lacks `EDF_DataBlockID` |
| HeaderScanner.Scan | ESRFPlugins/plugins/EDF_StackReader.java:142-163 | the scan starts at byte 0 with `headerSize = 0` |
| HeaderScanner.Chain | ESRFPlugins/plugins/EDF_StackReader.java:146-163 | the blocks an EHF scan passes over: back to back, each followed by a byte in the file, none holding `EDF_DataBlockID` |
| HeaderScanner.EdfScansOneBlock | ESRFPlugins/plugins/EDF_StackReader.java:146-163 | for EDF one block is scanned from byte 0; headerString is that block plus the byte after it |
| HeaderScanner.EhfScanFindsDataBlock | ESRFPlugins/plugins/EDF_StackReader.java:146-163 | an EHF scan from byte 0 (`Scan` is `ScanFrom` at 0) goes block by block, each starting right after the previous one closed (`Chain`), with no block before the last holding `EDF_DataBlockID`. It ends on the first block whose text does hold it, returning that block and the byte after it |
| HeaderScanner.EdfBlockScans | ESRFPlugins/plugins/EDF_StackReader.java:146-163 | conversely, any file whose block from byte 0 closes before the last byte scans as EDF to that block plus the next byte, whatever follows |
| HeaderScanner.EhfChainScans | ESRFPlugins/plugins/EDF_StackReader.java:146-163 | conversely, a chain of blocks without `EDF_DataBlockID` followed by a block that holds it, with one byte after it in the file, scans as EHF to that block plus the byte |
| HeaderScanner.BraceAtEndFails | ESRFPlugins/src/ESRF_Reader.java:134-144 | a block that closes at the last byte of the file makes `readFully` fail, which is an IOException |
| HeaderScanner.ScanHeader | ESRFPlugins/plugins/EDF_StackReader.java:142-167 | the nested do/while loops and `readFully` compute `Scan` |
| HeaderDecoder.Tokens | ESRFPlugins/plugins/EDF_StackReader.java:175-177 | StringTokenizer never hands out an empty token or one holding `;` |
| HeaderDecoder.TokensKeepText | ESRFPlugins/plugins/EDF_StackReader.java:175-177 | the tokens, joined, are the header without its `;` |
| HeaderDecoder.TokensCons | ESRFPlugins/plugins/EDF_StackReader.java:175-177 | text without `;` followed by `;` is one token, then the tokens of the rest |
| HeaderDecoder.TokensSingle | ESRFPlugins/plugins/EDF_StackReader.java:175-177 | non-empty text without `;` is a single token |
| HeaderDecoder.ParseToken | ESRFPlugins/plugins/EDF_StackReader.java:178-182 | a token without `=` or starting with it is skipped, `=` second throws, otherwise the key is `substring(1, i - 1)` trimmed and the value the text after `=` trimmed |
| HeaderDecoder.ParseTokenAt | ESRFPlugins/plugins/EDF_StackReader.java:178-182 | a token whose first `=` is at index i > 1 gives the trimmed key `token[1..i-1)` and the trimmed value after `=` |
| HeaderDecoder.LineEntry | ESRFPlugins/plugins/EDF_StackReader.java:178-182 | a line `key = value` after a newline decodes to exactly that key and value |
| HeaderDecoder.StackReaderDataType | ESRFPlugins/plugins/EDF_StackReader.java:211-235 | EDF_StackReader's DataType names and the types they give; any other name leaves the type |
| HeaderDecoder.EsrfReaderDataType | ESRFPlugins/src/ESRF_Reader.java:187-204 | ESRF_Reader's DataType names and the types they give; any other name leaves the type |
| HeaderDecoder.StackReaderTableDomain | ESRFPlugins/plugins/EDF_StackReader.java:211-235 | the stack reader knows exactly eleven DataType names and never yields a 64-bit type |
| HeaderDecoder.EsrfReaderTableDomain | ESRFPlugins/src/ESRF_Reader.java:187-204 | ESRF_Reader knows exactly nine names and never yields GRAY32_UNSIGNED or a 64-bit type |
| HeaderDecoder.TablesDiffer | ESRFPlugins/src/ESRF_Reader.java:187-204 | the two tables differ exactly on SignedLong, SingedByte, UnsignedLong and UnsignedInteger |
| HeaderDecoder.FieldOf | ESRFPlugins/plugins/EDF_StackReader.java:194-238 | the six keys the loop tests with `equals`, and every other key |
| HeaderDecoder.NextInt | ESRFPlugins/plugins/EDF_StackReader.java:188-192 | `iParam` becomes the value when `Integer.valueOf` accepts it, and keeps its last value when it throws |
| HeaderDecoder.Apply | ESRFPlugins/plugins/EDF_StackReader.java:194-238 | each known key sets its one field: the name from the value, offset, width and height from `iParam`, the type from the table, Intel order from `LowByteFirst` |
| HeaderDecoder.StepEntry | ESRFPlugins/plugins/EDF_StackReader.java:179-239 | a skipped token changes nothing, a malformed one throws, and a pair updates `iParam` before the field |
| HeaderDecoder.Step | ESRFPlugins/plugins/EDF_StackReader.java:177-239 | one iteration of the token loop: cut the token, then apply the entry |
| HeaderDecoder.Fold | ESRFPlugins/plugins/EDF_StackReader.java:176-239 | the loop over the tokens in order, stopping at the first that throws |
| HeaderDecoder.Decode | ESRFPlugins/plugins/EDF_StackReader.java:175-239 | tokenising the header text and folding from `iParam = 0` |
| HeaderDecoder.UnknownKeyIgnored | ESRFPlugins/plugins/EDF_StackReader.java:188-239 | a token with an unknown key changes no FileInfo field; it changes iParam exactly when its value is an int |
| HeaderDecoder.NonNumericTakesLastInt | ESRFPlugins/plugins/EDF_StackReader.java:188-209 | a non-numeric Dim_1, Dim_2 or EDF_BinaryFilePosition takes the int parsed last |
| HeaderDecoder.ByteOrderIsLowByteFirst | ESRFPlugins/plugins/EDF_StackReader.java:236-238 | `intelByteOrder` is set exactly when the ByteOrder value is `LowByteFirst` |
| HeaderDecoder.EntryKeepsField | ESRFPlugins/plugins/EDF_StackReader.java:194-238 | a token that does not name a field leaves that field alone |
| HeaderDecoder.FoldAppend | ESRFPlugins/plugins/EDF_StackReader.java:176-239 | the token loop over two token lists is the loop over the first, then the loop over the second |
| HeaderDecoder.FoldKeepsField | ESRFPlugins/plugins/EDF_StackReader.java:176-239 | tokens that do not name a field leave it as it was |
| HeaderDecoder.LastOccurrenceWins | ESRFPlugins/plugins/EDF_StackReader.java:176-239 | the last token naming a field decides that field's final value |
| HeaderDecoder.LastDim1GivesWidth | ESRFPlugins/plugins/EDF_StackReader.java:203-206 | the last Dim_1 token with an int value gives the width |
| HeaderDecoder.OffsetFollowsHeader | ESRFPlugins/plugins/EDF_StackReader.java:172-201 | without an EDF_BinaryFilePosition token the offset is headerSize + 1 |
| HeaderDecoder.DecodeKeepsOffset | ESRFPlugins/plugins/EDF_StackReader.java:176-239 | the token loop changes the offset only at an EDF_BinaryFilePosition token |
| HeaderDecoder.MalformedThrows | ESRFPlugins/plugins/EDF_StackReader.java:181 | a token with `=` as its second character throws, whatever surrounds it |
| HeaderDecoder.DecodeLines | ESRFPlugins/plugins/EDF_StackReader.java:175-239 | decoding clean `key = value;` lines applies exactly their entries, in order |
| HeaderDecoder.ParseHeader | ESRFPlugins/plugins/EDF_StackReader.java:134-241 | an unopenable file or a failed `readFully` keeps the FileInfo, a scan that never ends hangs, and otherwise the offset becomes headerSize + 1 and the header text is decoded |
| HeaderDecoder.ParseEsrfDataFormatHeader | ESRFPlugins/plugins/EDF_StackReader.java:134-241 | the method's outcome is `ParseHeader`: open failure and IOException keep the FileInfo; a scan sets offset = headerSize + 1 and decodes the header |
| HeaderDecoder.DecodeHeader | ESRFPlugins/plugins/EDF_StackReader.java:175-239 | the token loop computes `Decode`, throwing at a token whose `=` is its second character |
| HeaderDecoder.GetShort | ESRFPlugins/plugins/EDF_StackReader.java:243-250 | for two bytes the result is in 0..65535, with the second byte high under Intel byte order and the first byte high otherwise |
| HeaderDecoder.GetShortSwap | ESRFPlugins/src/ESRF_Reader.java:213-220 | flipping the byte order equals swapping the two bytes |
| EsrfReader.OpenEsrfImage | ESRFPlugins/src/ESRF_Reader.java:88-104 | the defaults with the chosen name, updated from the header exactly when the type is EDF or EHF |
| EsrfReader.UnreadableFileKeepsDefaults | ESRFPlugins/src/ESRF_Reader.java:141-144 | a file that cannot be opened or read gives the defaults |
| StackReader.DerivePrefix | ESRFPlugins/plugins/EDF_StackReader.java:65-83 | the prefix loop from the character before the last `.`: the name up to the last non-digit, or a failure at `charAt(-1)` |
| StackReader.PrefixEnd | ESRFPlugins/plugins/EDF_StackReader.java:72-81 | the loop stops at or below where it started |
| StackReader.PrefixEndSpec | ESRFPlugins/plugins/EDF_StackReader.java:72-81 | the loop stops exactly when a non-digit lies at or below `index`, and then at the last one, with only digits above it |
| StackReader.PrefixSpec | ESRFPlugins/plugins/EDF_StackReader.java:65-83 | a prefix exists exactly when a non-digit precedes the last `.`; it is a start of the name ending in a non-digit, followed only by digits up to the `.` |
| StackReader.NumberedName | ESRFPlugins/plugins/EDF_StackReader.java:65-83 | stem + digits + `.suffix` has the stem as its prefix |
| StackReader.NumberedExample | ESRFPlugins/plugins/EDF_StackReader.java:65-83 | `sample_0001.edf` gives `sample_` |
| StackReader.UnnumberedExample | ESRFPlugins/plugins/EDF_StackReader.java:65-83 | `run.edf` gives `run` |
| StackReader.ExtractPrefix | ESRFPlugins/plugins/EDF_StackReader.java:65-83 | the prefix loop computes `DerivePrefix`; reaching `charAt(-1)` is a failure |
| StackReader.Insert | ESRFPlugins/plugins/EDF_StackReader.java:89-95 | one step of sorting by `compareTo`: a name goes before the first name it is at or below |
| StackReader.SortNames | ESRFPlugins/plugins/EDF_StackReader.java:89-95 | `Arrays.sort` of the listing by name |
| StackReader.SortNamesSpec | ESRFPlugins/plugins/EDF_StackReader.java:89-95 | the sorted listing is a permutation of the listing, in ascending `compareTo` order |
| StackReader.SortedUnique | ESRFPlugins/plugins/EDF_StackReader.java:89-95 | two sorted permutations of one listing are equal |
| StackReader.SortIsDetermined | ESRFPlugins/plugins/EDF_StackReader.java:89-95 | any sort of the listing by name is `SortNames` |
| StackReader.Filter | ESRFPlugins/plugins/EDF_StackReader.java:97-99 | the names that `contains` the prefix, in listing order |
| StackReader.Selected | ESRFPlugins/plugins/EDF_StackReader.java:89-99 | the sorted listing, filtered by the prefix |
| StackReader.FilterMultiset | ESRFPlugins/plugins/EDF_StackReader.java:97-99 | the kept names are exactly the names containing the prefix, each as often as listed |
| StackReader.FilterSorted | ESRFPlugins/plugins/EDF_StackReader.java:97-99 | keeping names preserves their order |
| StackReader.SelectedSpec | ESRFPlugins/plugins/EDF_StackReader.java:89-99 | a name is read exactly when it is listed and contains the prefix anywhere; each is read as often as listed, in ascending name order |
| StackReader.ReadSlice | ESRFPlugins/plugins/EDF_StackReader.java:102-115 | one slice: the defaults with the entry's name, then `parseESRFDataFormatHeader` as EDF |
| StackReader.ReadAll | ESRFPlugins/plugins/EDF_StackReader.java:97-127 | the slices of the selected names in order; the first slice that throws or hangs ends the run |
| StackReader.Run | ESRFPlugins/plugins/EDF_StackReader.java:64-127 | a prefix failure throws, and otherwise the selected files are read |
| StackReader.StackSize | ESRFPlugins/plugins/EDF_StackReader.java:120-122 | the stack is built with the first slice's width and height |
| StackReader.StackTakesFirstSize | ESRFPlugins/plugins/EDF_StackReader.java:97-127 | a finished run has one slice per selected file, and the stack's size is the geometry the header of the first selected file gives |
| StackReader.ReadAllSlices | ESRFPlugins/plugins/EDF_StackReader.java:97-127 | a finished read has one FileInfo per selected file, in order, each equal to reading that file alone |
| StackReader.ReadAllFails | ESRFPlugins/plugins/EDF_StackReader.java:97-127 | a failed read fails the same way as some selected file, after every earlier one was read |
| StackReader.ReadStack | ESRFPlugins/plugins/EDF_StackReader.java:64-127 | the prefix loop, the sort and the reading loop compute `Run` |
| HeaderEncoder.WriterDataType | ESRFPlugins/plugins/ESRF_Writer.java:74-127 | the type switch: each known type's DataType name and BYTES_PER_POINT, and no header for any other type |
| HeaderEncoder.SizeValue | ESRFPlugins/plugins/ESRF_Writer.java:133 | `fi.height*fi.width*BYTES_PER_POINT` evaluated left to right in `int` arithmetic |
| HeaderEncoder.Content | ESRFPlugins/plugins/ESRF_Writer.java:135-143 | TOTAL: START, then the HeaderID, Image, ByteOrder, DataType, Dim_1, Dim_2 and Size lines |
| HeaderEncoder.WriterPairs | ESRFPlugins/plugins/ESRF_Writer.java:131-143 | the seven keys and values of the writer's lines, in the order TOTAL concatenates them |
| HeaderEncoder.ContentIsLines | ESRFPlugins/plugins/ESRF_Writer.java:135-143 | TOTAL is `{\n` followed by the seven `key = value;` lines in order |
| HeaderEncoder.WriterNamesArePlain | ESRFPlugins/plugins/ESRF_Writer.java:82-122 | every DataType name the writer uses is one word without white space, braces, `=` or `;` |
| HeaderEncoder.WriterPairsArePlain | ESRFPlugins/plugins/ESRF_Writer.java:131-143 | every key and value the writer writes is such a word |
| HeaderEncoder.LinesHaveNoBrace | ESRFPlugins/plugins/ESRF_Writer.java:135-143 | lines made of such words hold no brace |
| HeaderEncoder.Spaces | ESRFPlugins/plugins/ESRF_Writer.java:149-153 | the padding has the requested length and holds only spaces |
| HeaderEncoder.ContentLength | ESRFPlugins/plugins/ESRF_Writer.java:131-147 | TOTAL is at most 163 characters for every int width and height, so PAD_SIZE is positive |
| HeaderEncoder.EdfHeader | ESRFPlugins/plugins/ESRF_Writer.java:135-155 | a header is written exactly for the seven known types, and is exactly 1024 characters |
| HeaderEncoder.EdfHeaderOf | ESRFPlugins/plugins/ESRF_Writer.java:145-155 | the header is TOTAL, then 1024 - \|TOTAL\| - 2 spaces, then `}\n` |
| HeaderEncoder.HeaderLayout | ESRFPlugins/plugins/ESRF_Writer.java:145-155 | the header starts with TOTAL, holds spaces up to byte 1022 and ends in `}\n` |
| HeaderEncoder.ContentBraces | ESRFPlugins/plugins/ESRF_Writer.java:135-143 | TOTAL opens with `{` and holds no other brace |
| HeaderEncoder.OnlyOuterBraces | ESRFPlugins/plugins/ESRF_Writer.java:135-155 | the only braces in the header are its first byte and byte 1022 |
| HeaderEncoder.SizeIsByteCount | ESRFPlugins/plugins/ESRF_Writer.java:133 | when the product fits an int, Size is height x width x bytes per point |
| HeaderEncoder.Gray64SizeIsPixelCount | ESRFPlugins/plugins/ESRF_Writer.java:118-122 | for GRAY64_FLOAT, Size is the pixel count, not the byte count |
| HeaderEncoder.HeaderIgnoresOtherFields | ESRFPlugins/plugins/ESRF_Writer.java:61 | the header does not depend on the image's byte order, name or offset |
| HeaderEncoder.Padding | ESRFPlugins/plugins/ESRF_Writer.java:149-153 | the `char[]` loop fills PAD_SIZE spaces |
| HeaderEncoder.SaveAsEdf | ESRFPlugins/plugins/ESRF_Writer.java:44-167 | succeeds exactly for the known types and writes the 1024-character header and then the pixels; an unknown type writes nothing and returns false |
| RoundTrip.WrittenHeaderScans | ESRFPlugins/plugins/ESRF_Writer.java:135-155 | reading a written file as EDF scans the whole header: headerSize 1023, headerString the 1024 characters |
| RoundTrip.HeaderAsLines | ESRFPlugins/plugins/ESRF_Writer.java:135-155 | the header is `{\n`, the writer's seven lines, the spaces and `}\n` |
| RoundTrip.PaddingSkipped | ESRFPlugins/plugins/EDF_StackReader.java:175-180 | the text after the last `;` (newline, spaces, `}\n`) is one token without `=` and changes nothing |
| RoundTrip.PlainIsClean | ESRFPlugins/plugins/EDF_StackReader.java:181-182 | a plain word reads back unchanged as key or value |
| RoundTrip.DecodeLinesAndPadding | ESRFPlugins/plugins/EDF_StackReader.java:175-239 | decoding `{\n`, clean lines and padding applies exactly the lines' entries |
| RoundTrip.DecodeWritten | ESRFPlugins/plugins/ESRF_Writer.java:131-155 | decoding the written header applies the writer's seven lines in order |
| RoundTrip.HeaderIdEntry | ESRFPlugins/plugins/ESRF_Writer.java:59 | the HeaderID line changes nothing |
| RoundTrip.ImageEntry | ESRFPlugins/plugins/ESRF_Writer.java:60 | `Image = 1;` sets only iParam, to 1 |
| RoundTrip.ByteOrderEntry | ESRFPlugins/plugins/ESRF_Writer.java:61 | the ByteOrder line sets Intel byte order |
| RoundTrip.DataTypeEntry | ESRFPlugins/plugins/ESRF_Writer.java:82-122 | the DataType line sets the type the reader's table gives the name, if any |
| RoundTrip.Dim1Entry | ESRFPlugins/plugins/ESRF_Writer.java:131 | the Dim_1 line sets the width to the written width |
| RoundTrip.Dim2Entry | ESRFPlugins/plugins/ESRF_Writer.java:132 | the Dim_2 line sets the height to the written height |
| RoundTrip.SizeEntry | ESRFPlugins/plugins/ESRF_Writer.java:133 | the Size line sets only iParam |
| RoundTrip.NotAnInt | ESRFPlugins/plugins/EDF_StackReader.java:188-192 | a value starting with neither a sign nor a digit is not an int, so iParam keeps its value |
| RoundTrip.WriterNameStartsWithLetter | ESRFPlugins/plugins/ESRF_Writer.java:82-122 | every DataType name the writer uses starts with a capital letter |
| RoundTrip.ApplyWriterPairs | ESRFPlugins/plugins/ESRF_Writer.java:131-143 | the writer's lines give back the width, height, Intel byte order and the table's type |
| RoundTrip.EdfParse | ESRFPlugins/plugins/EDF_StackReader.java:142-175 | a successful EDF scan decodes the header text with offset headerSize + 1 |
| RoundTrip.WrittenFileReadsBack | ESRFPlugins/plugins/ESRF_Writer.java:135-155 | either reader, reading as EDF from any FileInfo, reads a written file with offset 1024 (the header length), the written width and height, Intel byte order and the table's type |
| RoundTrip.StackReaderNames | ESRFPlugins/plugins/EDF_StackReader.java:211-235 | the stack reader maps every written DataType name back to its type, except DoubleValue, which it does not know |
| RoundTrip.EsrfReaderNames | ESRFPlugins/src/ESRF_Reader.java:187-204 | ESRF_Reader maps back the 8-bit, 16-bit and float types; it reads UnsignedLong as GRAY32_INT and knows neither SignedLong nor DoubleValue |
| RoundTrip.StackSliceOfWrittenFile | ESRFPlugins/plugins/EDF_StackReader.java:97-127 | a written file in the stack becomes a slice with the written geometry, offset 1024, Intel order and the written type (GRAY16_UNSIGNED for GRAY64_FLOAT) |
| RoundTrip.EsrfReaderOpensWrittenFile | ESRFPlugins/src/ESRF_Reader.java:88-104 | ESRF_Reader opens a written file with its geometry and offset 1024; GRAY32_UNSIGNED comes back as GRAY32_INT, and GRAY32_INT and GRAY64_FLOAT keep the default GRAY16_UNSIGNED |

## Left out

- The GUI and logging are not modelled: `OpenDialog`, `GenericDialog`, `IJ.log`, `IJ.write`, `IJ.error`, `showAbout` and `ImagePlus.show`. The file kind, the chosen name and the directory listing are parameters.
- The `.edf` suffix check is not modelled. It only reports `IJ.error`, and processing continues.
- Raster I/O is not modelled: `FileOpener`, `ImageWriter`, `ImageStack.addSlice` and `getChannelProcessor`. The model gives the FileInfos handed to them, in order, and the stack's size (`StackSize`). The check inside `addSlice` that each slice has the stack's size is not modelled.
- The file system is not modelled. A file is its bytes read as characters, or None when it cannot be opened. A directory is its list of names plus a map from readable names to contents. Directory entries that are not regular files are not distinguished.
- The character set is not modelled. `new String(header)` and the writer's default-charset `OutputStreamWriter` are taken as one character per byte.
- The FileInfo fields that header parsing never touches are not modelled: `fileFormat`, `directory`, `nImages`, `gapBetweenImages` and `whiteIsZero`.
- ParseEsrfDataFormatHeader: returns the updated FileInfo instead of changing the caller's object in place. No other reference to that object is modelled.
- ScanHeader: where the source reads `'\uffff'` forever, the method stops and reports `Hangs`.
- GetShort: reads the plugin's `intelByteOrder` field, which the readers never set. The model passes the flag as a parameter. The stream reads are the byte parameters.
- SortNames: `Arrays.sort` is modelled as an insertion sort. `SortIsDetermined` shows that every sorted permutation of the listing equals it, so the algorithm does not matter.
- Below: compares Dafny characters (Unicode scalar values), while `compareTo` compares UTF-16 code units. The two orders differ only between supplementary characters and characters U+E000 to U+FFFF.
- ParseInt: accepts only ASCII digits, while `Integer.valueOf` also accepts other Unicode decimal digits.
- OffsetFollowsHeader: the offset is `headerSize + 1` as an unbounded number. The Java `int` overflow for a header longer than 2^31 - 2 bytes is not modelled.
- SaveAsEdf: the `Date` line is not modelled, because the writer leaves it out of the header.
- SaveAsEdf: the output file is created before the type switch. So an unknown type leaves an empty file, which the model gives as `written == []`.
- SaveAsEdf: only the width, height and type enter the header. The pixel bytes are a parameter appended as written.
- ESRF_Reader's choice between `EDF` and `EHF` comes from a dialog. Here it is the `fileKind` parameter, and any other value skips the header.
