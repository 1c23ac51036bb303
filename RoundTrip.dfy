/** What the readers make of a file ESRF_Writer wrote: its header followed by
    the pixel bytes. The block scan ends on the writer's closing brace, so the
    pixels are found at offset 1024; Dim_1 and Dim_2 give back the image size;
    the DataType name goes back through each reader's own table. */
module RoundTrip {
  import opened JavaLang
  import opened EdfFormat
  import opened HeaderScanner
  import opened HeaderDecoder
  import opened HeaderEncoder
  import StackReader
  import EsrfReader

  // ---------------------------------------------------------------------------
  // The scan

  /** Reading a written file as EDF scans exactly the 1024-character header:
      headerSize ends at 1023, on the '}' before the final newline. */
  lemma WrittenHeaderScans(info: FileInfo, pixels: string)
    requires IsInt(info.width) && IsInt(info.height) && info.fileType != Other
    ensures Scan(EdfHeader(info).value + pixels, false) == Scanned(HeaderBlockLength - 1, EdfHeader(info).value)
  {
    var (name, bytesPerPoint) := WriterDataType(info.fileType).value;
    OnlyOuterBraces(info, name, bytesPerPoint);
    var h := EdfHeader(info).value;
    var f := h + pixels;
    assert forall j | 0 <= j < |h| :: f[j] == h[j];
    OneBraceBlock(f, HeaderBlockLength - 1);
    BlockEndSpec(f, 0);
    assert BlockEnd(f, 0) == Some(HeaderBlockLength - 1);
    assert f[0..HeaderBlockLength] == h;
  }

  // ---------------------------------------------------------------------------
  // The tokens

  /** The header is "{\n", the writer's seven lines, and then the padding and
      "}\n". */
  lemma HeaderAsLines(info: FileInfo, name: string, bytesPerPoint: int)
    requires IsInt(info.width) && IsInt(info.height)
    requires WriterDataType(info.fileType) == Some((name, bytesPerPoint))
    ensures var pad := HeaderBlockLength - |Content(info, name, bytesPerPoint)| - |End|;
            pad >= 0 &&
            EdfHeader(info).value == Start + Lines(WriterPairs(info, name, bytesPerPoint)) + (Spaces(pad) + End)
  {
    EdfHeaderOf(info, name, bytesPerPoint);
    ContentIsLines(info, name, bytesPerPoint);
  }

  /** What follows the last ';' of the header is one token without '=': the
      loop skips it. */
  lemma PaddingSkipped(plugin: Plugin, st: DecodeState, n: nat)
    ensures Fold(plugin, st, Tokens("\n" + (Spaces(n) + End))) == Some(st)
  {
    var t := "\n" + (Spaces(n) + End);
    assert forall k | 0 <= k < |t| :: t[k] == '\n' || t[k] == ' ' || t[k] == '}';
    assert ';' !in t && '=' !in t;
    TokensSingle(t);
    assert IndexOf(t, '=') == -1;
    assert ParseToken(t) == Skipped;
    assert [t][1..] == [];
  }

  /** A plain word reads back unchanged as a key or a value. */
  lemma PlainIsClean(s: string)
    requires Plain(s)
    ensures CleanKey(s) && CleanValue(s)
  {
    assert forall k | 0 <= k < |s| :: s[k] != '=' && s[k] != ';';
  }

  lemma WriterPairsClean(info: FileInfo, name: string, bytesPerPoint: int)
    requires IsInt(info.width) && IsInt(info.height) && Plain(name)
    ensures var ps := WriterPairs(info, name, bytesPerPoint);
            forall i | 0 <= i < |ps| :: CleanKey(ps[i].0) && CleanValue(ps[i].1)
  {
    var ps := WriterPairs(info, name, bytesPerPoint);
    WriterPairsArePlain(info, name, bytesPerPoint);
    forall i | 0 <= i < |ps| ensures CleanKey(ps[i].0) && CleanValue(ps[i].1) {
      PlainIsClean(ps[i].0);
      PlainIsClean(ps[i].1);
    }
  }

  /** Decoding "{\n", clean lines, then padding and "}\n" applies exactly the
      lines' entries. */
  lemma DecodeLinesAndPadding(plugin: Plugin, info1: FileInfo, ps: seq<(string, string)>, pad: nat, h: string)
    requires ps != []
    requires forall i | 0 <= i < |ps| :: CleanKey(ps[i].0) && CleanValue(ps[i].1)
    requires h == Start + Lines(ps) + (Spaces(pad) + End)
    ensures Decode(plugin, h, info1) ==
              Done(ApplyPairs(plugin, DecodeState(info1, 0), ps).info)
  {
    assert forall j | 1 <= j < |Start| :: IsTrimmed(Start[j]);
    DecodeLines(plugin, DecodeState(info1, 0), Start, ps, Spaces(pad) + End);
    PaddingSkipped(plugin, ApplyPairs(plugin, DecodeState(info1, 0), ps), pad);
  }

  /** Decoding the written header applies the writer's seven lines, in order,
      and nothing else. */
  lemma DecodeWritten(plugin: Plugin, info: FileInfo, name: string, bytesPerPoint: int, info1: FileInfo)
    requires IsInt(info.width) && IsInt(info.height)
    requires WriterDataType(info.fileType) == Some((name, bytesPerPoint))
    ensures Decode(plugin, EdfHeader(info).value, info1) ==
              Done(ApplyPairs(plugin, DecodeState(info1, 0), WriterPairs(info, name, bytesPerPoint)).info)
  {
    HeaderAsLines(info, name, bytesPerPoint);
    WriterNamesArePlain(info.fileType);
    WriterPairsClean(info, name, bytesPerPoint);
    DecodeLinesAndPadding(plugin, info1, WriterPairs(info, name, bytesPerPoint),
                          HeaderBlockLength - |Content(info, name, bytesPerPoint)| - |End|,
                          EdfHeader(info).value);
  }

  // ---------------------------------------------------------------------------
  // The seven entries, one at a time

  /** Seven entries applied in turn. */
  lemma ApplySeven(plugin: Plugin, st: DecodeState,
                   p1: (string, string), p2: (string, string), p3: (string, string),
                   p4: (string, string), p5: (string, string), p6: (string, string),
                   p7: (string, string))
    ensures ApplyPairs(plugin, st, [p1, p2, p3, p4, p5, p6, p7]) ==
              var s1 := StepEntry(plugin, st, Pair(p1.0, p1.1)).value;
              var s2 := StepEntry(plugin, s1, Pair(p2.0, p2.1)).value;
              var s3 := StepEntry(plugin, s2, Pair(p3.0, p3.1)).value;
              var s4 := StepEntry(plugin, s3, Pair(p4.0, p4.1)).value;
              var s5 := StepEntry(plugin, s4, Pair(p5.0, p5.1)).value;
              var s6 := StepEntry(plugin, s5, Pair(p6.0, p6.1)).value;
              StepEntry(plugin, s6, Pair(p7.0, p7.1)).value
  {
    var s1 := StepEntry(plugin, st, Pair(p1.0, p1.1)).value;
    var s2 := StepEntry(plugin, s1, Pair(p2.0, p2.1)).value;
    var s3 := StepEntry(plugin, s2, Pair(p3.0, p3.1)).value;
    var s4 := StepEntry(plugin, s3, Pair(p4.0, p4.1)).value;
    var s5 := StepEntry(plugin, s4, Pair(p5.0, p5.1)).value;
    var s6 := StepEntry(plugin, s5, Pair(p6.0, p6.1)).value;
    ApplyCons(plugin, st, p1, [p2, p3, p4, p5, p6, p7]);
    ApplyCons(plugin, s1, p2, [p3, p4, p5, p6, p7]);
    ApplyCons(plugin, s2, p3, [p4, p5, p6, p7]);
    ApplyCons(plugin, s3, p4, [p5, p6, p7]);
    ApplyCons(plugin, s4, p5, [p6, p7]);
    ApplyCons(plugin, s5, p6, [p7]);
    ApplyCons(plugin, s6, p7, []);
    assert [p1, p2, p3, p4, p5, p6, p7] == [p1] + [p2, p3, p4, p5, p6, p7];
    assert [p2, p3, p4, p5, p6, p7] == [p2] + [p3, p4, p5, p6, p7];
    assert [p3, p4, p5, p6, p7] == [p3] + [p4, p5, p6, p7];
    assert [p4, p5, p6, p7] == [p4] + [p5, p6, p7];
    assert [p5, p6, p7] == [p5] + [p6, p7];
    assert [p6, p7] == [p6] + [p7];
    assert [p7] == [p7] + [];
  }

  lemma ApplyCons(plugin: Plugin, st: DecodeState, p: (string, string), rest: seq<(string, string)>)
    ensures ApplyPairs(plugin, st, [p] + rest) ==
              ApplyPairs(plugin, StepEntry(plugin, st, Pair(p.0, p.1)).value, rest)
  {
    assert ([p] + rest)[0] == p && ([p] + rest)[1..] == rest;
  }

  /** A value that starts with neither a sign nor a digit is not an int. */
  lemma NotAnInt(s: string)
    requires s != [] && s[0] != '-' && s[0] != '+' && !IsDigit(s[0])
    ensures ParseInt(s) == None
  {
  }

  lemma HeaderIdEntry(plugin: Plugin, st: DecodeState)
    ensures StepEntry(plugin, st, Pair("HeaderID", "EH:000001:000000:000000")) == Some(st)
  {
    NotAnInt("EH:000001:000000:000000");
    assert FieldOf("HeaderID") == Unrecognised;
  }

  /** `Image = 1;` sets iParam to 1 and nothing else. */
  lemma ImageEntry(plugin: Plugin, st: DecodeState)
    ensures StepEntry(plugin, st, Pair("Image", "1")) == Some(st.(iParam := 1))
  {
    assert AllDigits("1") && "1"[..0] == [];
    assert ParseInt("1") == Some(1);
    assert FieldOf("Image") == Unrecognised;
  }

  lemma ByteOrderEntry(plugin: Plugin, st: DecodeState)
    ensures StepEntry(plugin, st, Pair("ByteOrder", "LowByteFirst")) ==
              Some(st.(info := st.info.(intelByteOrder := true)))
  {
    NotAnInt("LowByteFirst");
    assert FieldOf("ByteOrder") == ByteOrder;
  }

  /** The type the DataType line leaves in a FileInfo of type `before`. */
  function TypeAfter(plugin: Plugin, name: string, before: FileType): FileType
  {
    match DataTypeOf(plugin, name)
    case Some(ft) => ft
    case None => before
  }

  lemma DataTypeEntry(plugin: Plugin, st: DecodeState, name: string)
    requires name != [] && name[0] != '-' && name[0] != '+' && !IsDigit(name[0])
    ensures StepEntry(plugin, st, Pair("DataType", name)) ==
              Some(st.(info := st.info.(fileType := TypeAfter(plugin, name, st.info.fileType))))
  {
    NotAnInt(name);
    assert FieldOf("DataType") == DataType;
  }

  lemma Dim1Entry(plugin: Plugin, st: DecodeState, n: int)
    requires IsInt(n)
    ensures StepEntry(plugin, st, Pair("Dim_1", IntToString(n))) ==
              Some(DecodeState(st.info.(width := n), n))
  {
    ParseIntToString(n);
    assert FieldOf("Dim_1") == Dim1;
  }

  lemma Dim2Entry(plugin: Plugin, st: DecodeState, n: int)
    requires IsInt(n)
    ensures StepEntry(plugin, st, Pair("Dim_2", IntToString(n))) ==
              Some(DecodeState(st.info.(height := n), n))
  {
    ParseIntToString(n);
    assert FieldOf("Dim_2") == Dim2;
  }

  lemma SizeEntry(plugin: Plugin, st: DecodeState, n: int)
    requires IsInt(n)
    ensures StepEntry(plugin, st, Pair("Size", IntToString(n))) == Some(st.(iParam := n))
  {
    ParseIntToString(n);
    assert FieldOf("Size") == Unrecognised;
  }

  /** Every DataType name the writer uses starts with a letter. */
  lemma WriterNameStartsWithLetter(ft: FileType)
    requires ft != Other
    ensures var name := WriterDataType(ft).value.0;
            name != [] && name[0] != '-' && name[0] != '+' && !IsDigit(name[0])
  {
    WriterNamesArePlain(ft);
    var name := WriterDataType(ft).value.0;
    assert 'A' <= name[0] <= 'Z';
  }

  /** The FileInfo the readers make of a written header, starting from info0:
      offset 1024, the written width and height, little-endian, and the type
      the DataType name maps to in the reader's table. */
  function ReadBack(plugin: Plugin, info0: FileInfo, info: FileInfo): FileInfo
    requires info.fileType != Other
  {
    info0.(offset := HeaderBlockLength, width := info.width, height := info.height,
           intelByteOrder := true,
           fileType := TypeAfter(plugin, WriterDataType(info.fileType).value.0, info0.fileType))
  }

  lemma ApplyWriterPairs(plugin: Plugin, info: FileInfo, name: string, bytesPerPoint: int, info1: FileInfo)
    requires IsInt(info.width) && IsInt(info.height)
    requires WriterDataType(info.fileType) == Some((name, bytesPerPoint))
    ensures ApplyPairs(plugin, DecodeState(info1, 0), WriterPairs(info, name, bytesPerPoint)).info ==
              info1.(width := info.width, height := info.height, intelByteOrder := true,
                     fileType := TypeAfter(plugin, name, info1.fileType))
  {
    var size := SizeValue(info, bytesPerPoint);
    var s0 := DecodeState(info1, 0);
    ApplySeven(plugin, s0, ("HeaderID", "EH:000001:000000:000000"), ("Image", "1"),
               ("ByteOrder", "LowByteFirst"), ("DataType", name), ("Dim_1", IntToString(info.width)),
               ("Dim_2", IntToString(info.height)), ("Size", IntToString(size)));
    HeaderIdEntry(plugin, s0);
    var s2 := s0.(iParam := 1);
    ImageEntry(plugin, s0);
    var s3 := s2.(info := s2.info.(intelByteOrder := true));
    ByteOrderEntry(plugin, s2);
    WriterNameStartsWithLetter(info.fileType);
    var s4 := s3.(info := s3.info.(fileType := TypeAfter(plugin, name, s3.info.fileType)));
    DataTypeEntry(plugin, s3, name);
    var s5 := DecodeState(s4.info.(width := info.width), info.width);
    Dim1Entry(plugin, s4, info.width);
    var s6 := DecodeState(s5.info.(height := info.height), info.height);
    Dim2Entry(plugin, s5, info.height);
    SizeEntry(plugin, s6, size);
  }

  // ---------------------------------------------------------------------------
  // The round trip

  /** An EDF file whose scan succeeds is decoded from its header text, with
      the offset just after it. */
  lemma EdfParse(plugin: Plugin, data: string, info0: FileInfo, size: nat, text: string)
    requires Scan(data, false) == Scanned(size, text)
    ensures ParseHeader(plugin, "EDF", Some(data), info0) == Decode(plugin, text, info0.(offset := size + 1))
  {
    assert ("EDF" == "EHF") == false;
  }

  /** A file the writer wrote, read as EDF by either reader from any starting
      FileInfo, gives back the written width and height, little-endian byte
      order, the data offset 1024 where the pixels begin, and the type the
      reader's table gives the written DataType name; the name stays as it
      was. */
  lemma WrittenFileReadsBack(plugin: Plugin, info: FileInfo, pixels: string, info0: FileInfo)
    requires IsInt(info.width) && IsInt(info.height) && info.fileType != Other
    ensures ParseHeader(plugin, "EDF", Some(EdfHeader(info).value + pixels), info0) ==
              Done(ReadBack(plugin, info0, info))
    ensures ReadBack(plugin, info0, info).offset == |EdfHeader(info).value|
  {
    var (name, bytesPerPoint) := WriterDataType(info.fileType).value;
    WrittenHeaderScans(info, pixels);
    EdfParse(plugin, EdfHeader(info).value + pixels, info0, HeaderBlockLength - 1, EdfHeader(info).value);
    var info1 := info0.(offset := HeaderBlockLength);
    DecodeWritten(plugin, info, name, bytesPerPoint, info1);
    ApplyWriterPairs(plugin, info, name, bytesPerPoint, info1);
  }

  // ---------------------------------------------------------------------------
  // The DataType names back through each table

  /** EDF_StackReader gives back every type the writer writes except
      GRAY64_FLOAT, whose name DoubleValue it does not know. */
  lemma StackReaderNames(ft: FileType)
    requires ft != Other
    ensures ft != Gray64Float ==> StackReaderDataType(WriterDataType(ft).value.0) == Some(ft)
    ensures ft == Gray64Float ==> StackReaderDataType(WriterDataType(ft).value.0) == None
  {
  }

  /** ESRF_Reader gives back the 8- and 16-bit types and GRAY32_FLOAT; it does
      not know SignedLong (GRAY32_INT) or DoubleValue (GRAY64_FLOAT), and reads
      UnsignedLong as GRAY32_INT. */
  lemma EsrfReaderNames(ft: FileType)
    requires ft != Other
    ensures ft in {Gray8, Gray16Signed, Gray16Unsigned, Gray32Float} ==>
              EsrfReaderDataType(WriterDataType(ft).value.0) == Some(ft)
    ensures ft == Gray32Unsigned ==> EsrfReaderDataType(WriterDataType(ft).value.0) == Some(Gray32Int)
    ensures ft in {Gray32Int, Gray64Float} ==> EsrfReaderDataType(WriterDataType(ft).value.0) == None
  {
  }

  /** A written file in a stack directory becomes a slice with the written
      geometry and, except for GRAY64_FLOAT, the written type. */
  lemma StackSliceOfWrittenFile(contents: map<string, string>, name: string, info: FileInfo, pixels: string)
    requires IsInt(info.width) && IsInt(info.height) && info.fileType != Other
    requires name in contents && contents[name] == EdfHeader(info).value + pixels
    ensures StackReader.ReadSlice(contents, name).Done?
    ensures var slice := StackReader.ReadSlice(contents, name).value;
            slice.width == info.width && slice.height == info.height &&
            slice.offset == HeaderBlockLength && slice.intelByteOrder && slice.fileName == name &&
            slice.fileType == if info.fileType == Gray64Float then Gray16Unsigned else info.fileType
  {
    WrittenFileReadsBack(StackPlugin, info, pixels, DefaultInfo(name));
    StackReaderNames(info.fileType);
  }

  /** ESRF_Reader opening a written file as EDF. */
  lemma EsrfReaderOpensWrittenFile(fileName: string, info: FileInfo, pixels: string)
    requires IsInt(info.width) && IsInt(info.height) && info.fileType != Other
    ensures var r := ParseHeader(ReaderPlugin, "EDF", Some(EdfHeader(info).value + pixels), DefaultInfo(fileName));
            r.Done? && r.value.width == info.width && r.value.height == info.height &&
            r.value.offset == HeaderBlockLength &&
            r.value.fileType == match info.fileType
                                case Gray32Unsigned => Gray32Int
                                case Gray32Int => Gray16Unsigned
                                case Gray64Float => Gray16Unsigned
                                case _ => info.fileType
  {
    WrittenFileReadsBack(ReaderPlugin, info, pixels, DefaultInfo(fileName));
    EsrfReaderNames(info.fileType);
  }
}
