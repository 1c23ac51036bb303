/** The header ESRF_Writer.saveAsEDF(String) writes in front of the pixels: a
    fixed sequence of `key = value;` lines, padded with spaces to a block of
    exactly 1024 characters that ends in "}\n". */
module HeaderEncoder {
  import opened JavaLang
  import opened EdfFormat

  const Start: string := "{\n"
  const End: string := "}\n"
  /** "HeaderID = EH:000001:000000:000000;\n" */
  const HeaderLine: string := Line("HeaderID", "EH:000001:000000:000000")
  /** "Image = 1;\n" */
  const ImageLine: string := Line("Image", "1")
  /** "ByteOrder = LowByteFirst;\n", whatever the image's byte order */
  const ByteOrderLine: string := Line("ByteOrder", "LowByteFirst")
  const HeaderBlockLength: nat := 1024

  /** The writer's type switch: the DataType name and BYTES_PER_POINT of each
      type it knows. GRAY64_FLOAT is given one byte per point. Any other type
      is an IOException("Unknown data type"). */
  function WriterDataType(ft: FileType): Option<(string, int)>
  {
    match ft
    case Gray16Signed => Some(("SignedShort", 2))
    case Gray16Unsigned => Some(("UnsignedShort", 2))
    case Gray32Float => Some(("FloatValue", 4))
    case Gray32Int => Some(("SignedLong", 4))
    case Gray32Unsigned => Some(("UnsignedLong", 4))
    case Gray8 => Some(("UnsignedByte", 1))
    case Gray64Float => Some(("DoubleValue", 1))
    case Other => None
  }

  /** The value of the Size line: fi.height*fi.width*BYTES_PER_POINT, evaluated
      left to right in int arithmetic. */
  function SizeValue(info: FileInfo, bytesPerPoint: int): int
  {
    Wrap(Wrap(info.height * info.width) * bytesPerPoint)
  }

  /** TOTAL: everything before the padding, concatenated as the writer does. */
  function Content(info: FileInfo, name: string, bytesPerPoint: int): string
  {
    Start + HeaderLine + ImageLine + ByteOrderLine + Line("DataType", name)
    + Line("Dim_1", IntToString(info.width)) + Line("Dim_2", IntToString(info.height))
    + Line("Size", IntToString(SizeValue(info, bytesPerPoint)))
  }

  /** The keys and values the writer puts on its lines, in order. */
  function WriterPairs(info: FileInfo, name: string, bytesPerPoint: int): seq<(string, string)>
  {
    [("HeaderID", "EH:000001:000000:000000"), ("Image", "1"), ("ByteOrder", "LowByteFirst"),
     ("DataType", name), ("Dim_1", IntToString(info.width)), ("Dim_2", IntToString(info.height)),
     ("Size", IntToString(SizeValue(info, bytesPerPoint)))]
  }

  /** Seven lines, written out. */
  lemma SevenLines(p1: (string, string), p2: (string, string), p3: (string, string),
                   p4: (string, string), p5: (string, string), p6: (string, string),
                   p7: (string, string))
    ensures Lines([p1, p2, p3, p4, p5, p6, p7]) ==
              Line(p1.0, p1.1) + (Line(p2.0, p2.1) + (Line(p3.0, p3.1) + (Line(p4.0, p4.1)
              + (Line(p5.0, p5.1) + (Line(p6.0, p6.1) + (Line(p7.0, p7.1) + []))))))
  {
    assert Lines([p7]) == Line(p7.0, p7.1) + [];
    assert [p6, p7][1..] == [p7];
    assert Lines([p6, p7]) == Line(p6.0, p6.1) + Lines([p7]);
    assert [p5, p6, p7][1..] == [p6, p7];
    assert Lines([p5, p6, p7]) == Line(p5.0, p5.1) + Lines([p6, p7]);
    assert [p4, p5, p6, p7][1..] == [p5, p6, p7];
    assert Lines([p4, p5, p6, p7]) == Line(p4.0, p4.1) + Lines([p5, p6, p7]);
    assert [p3, p4, p5, p6, p7][1..] == [p4, p5, p6, p7];
    assert Lines([p3, p4, p5, p6, p7]) == Line(p3.0, p3.1) + Lines([p4, p5, p6, p7]);
    assert [p2, p3, p4, p5, p6, p7][1..] == [p3, p4, p5, p6, p7];
    assert Lines([p2, p3, p4, p5, p6, p7]) == Line(p2.0, p2.1) + Lines([p3, p4, p5, p6, p7]);
    assert [p1, p2, p3, p4, p5, p6, p7][1..] == [p2, p3, p4, p5, p6, p7];
  }

  /** Concatenating eight strings left to right is nesting them to the right. */
  lemma Regroup8(a: string, b: string, c: string, d: string, e: string, f: string, g: string, h: string)
    ensures a + b + c + d + e + f + g + h == a + (b + (c + (d + (e + (f + (g + (h + [])))))))
  {
  }

  /** TOTAL is "{\n" followed by the writer's seven lines. */
  lemma ContentIsLines(info: FileInfo, name: string, bytesPerPoint: int)
    ensures Content(info, name, bytesPerPoint) == Start + Lines(WriterPairs(info, name, bytesPerPoint))
  {
    var ps := WriterPairs(info, name, bytesPerPoint);
    SevenLines(ps[0], ps[1], ps[2], ps[3], ps[4], ps[5], ps[6]);
    Regroup8(Start, Line(ps[0].0, ps[0].1), Line(ps[1].0, ps[1].1), Line(ps[2].0, ps[2].1),
             Line(ps[3].0, ps[3].1), Line(ps[4].0, ps[4].1), Line(ps[5].0, ps[5].1), Line(ps[6].0, ps[6].1));
  }

  /** Neither brace occurs in s. */
  predicate NoBrace(s: string)
  {
    '{' !in s && '}' !in s
  }

  /** A word the writer puts on either side of " = ": not empty, every
      character printable and below '{', none of them '=' or ';'. */
  predicate Plain(s: string)
  {
    s != [] && forall k | 0 <= k < |s| :: ' ' < s[k] < '{' && s[k] != '=' && s[k] != ';'
  }

  /** A rendered int is a plain word. */
  lemma IntIsPlain(n: int)
    requires IsInt(n)
    ensures Plain(IntToString(n))
  {
    IntToStringShape(n);
  }

  lemma HeaderIdIsPlain() ensures Plain("HeaderID") && Plain("EH:000001:000000:000000") {}
  lemma ImageIsPlain() ensures Plain("Image") && Plain("1") {}
  lemma ByteOrderIsPlain() ensures Plain("ByteOrder") && Plain("LowByteFirst") {}
  lemma OtherKeysArePlain() ensures Plain("DataType") && Plain("Dim_1") && Plain("Dim_2") && Plain("Size") {}

  /** Every DataType name the writer uses is a plain word. */
  lemma WriterNamesArePlain(ft: FileType)
    requires ft != Other
    ensures Plain(WriterDataType(ft).value.0)
  {
    ShortNamesArePlain();
    LongNamesArePlain();
    OtherNamesArePlain();
  }

  lemma ShortNamesArePlain() ensures Plain("SignedShort") && Plain("UnsignedShort") {}
  lemma LongNamesArePlain() ensures Plain("SignedLong") && Plain("UnsignedLong") {}
  lemma OtherNamesArePlain()
    ensures Plain("FloatValue") && Plain("UnsignedByte") && Plain("DoubleValue")
  {
  }

  /** Every key and value the writer puts on its lines is a plain word. */
  lemma WriterPairsArePlain(info: FileInfo, name: string, bytesPerPoint: int)
    requires IsInt(info.width) && IsInt(info.height) && Plain(name)
    ensures var ps := WriterPairs(info, name, bytesPerPoint);
            forall i | 0 <= i < |ps| :: Plain(ps[i].0) && Plain(ps[i].1)
  {
    IntIsPlain(info.width);
    IntIsPlain(info.height);
    IntIsPlain(SizeValue(info, bytesPerPoint));
    HeaderIdIsPlain();
    ImageIsPlain();
    ByteOrderIsPlain();
    OtherKeysArePlain();
  }

  /** Lines made of plain words hold no brace. */
  lemma {:induction false} LinesHaveNoBrace(pairs: seq<(string, string)>)
    requires forall i | 0 <= i < |pairs| :: Plain(pairs[i].0) && Plain(pairs[i].1)
    ensures NoBrace(Lines(pairs))
    decreases |pairs|
  {
    if pairs != [] {
      var k, v := pairs[0].0, pairs[0].1;
      assert Plain(k) && Plain(v);
      assert NoBrace(Line(k, v));
      LinesHaveNoBrace(pairs[1..]);
    }
  }

  function Spaces(n: nat): (p: string)
    ensures |p| == n && forall k | 0 <= k < n :: p[k] == ' '
  {
    seq(n, _ => ' ')
  }

  /** The header is 117 fixed characters plus the DataType name and three
      rendered ints, so at most 163 characters for the names the writer uses. */
  lemma ContentLength(info: FileInfo, name: string, bytesPerPoint: int)
    requires IsInt(info.width) && IsInt(info.height) && |name| <= 13
    ensures |Content(info, name, bytesPerPoint)| ==
              117 + |name| + |IntToString(info.width)| + |IntToString(info.height)|
                  + |IntToString(SizeValue(info, bytesPerPoint))|
    ensures |Content(info, name, bytesPerPoint)| <= 163
  {
    IntToStringShape(info.width);
    IntToStringShape(info.height);
    IntToStringShape(SizeValue(info, bytesPerPoint));
  }

  /** TOTAL + BUFF + END, or None for a type the writer does not know. */
  function EdfHeader(info: FileInfo): (h: Option<string>)
    requires IsInt(info.width) && IsInt(info.height)
    ensures h.Some? <==> info.fileType != Other
    ensures h.Some? ==> |h.value| == HeaderBlockLength
  {
    match WriterDataType(info.fileType)
    case None => None
    case Some((name, bytesPerPoint)) =>
      ContentLength(info, name, bytesPerPoint);
      var total := Content(info, name, bytesPerPoint);
      Some(total + Spaces(HeaderBlockLength - |total| - |End|) + End)
  }

  /** The written header of a known type, spelt out. */
  lemma EdfHeaderOf(info: FileInfo, name: string, bytesPerPoint: int)
    requires IsInt(info.width) && IsInt(info.height)
    requires WriterDataType(info.fileType) == Some((name, bytesPerPoint))
    ensures |Content(info, name, bytesPerPoint)| <= HeaderBlockLength - |End|
    ensures EdfHeader(info) ==
              Some(Content(info, name, bytesPerPoint)
                   + Spaces(HeaderBlockLength - |Content(info, name, bytesPerPoint)| - |End|) + End)
  {
    ContentLength(info, name, bytesPerPoint);
  }

  /** TOTAL + BUFF + END is the header when BUFF pads TOTAL to the block length. */
  lemma HeaderAssembled(info: FileInfo, name: string, bytesPerPoint: int, buff: string)
    requires IsInt(info.width) && IsInt(info.height)
    requires WriterDataType(info.fileType) == Some((name, bytesPerPoint))
    requires |Content(info, name, bytesPerPoint)| + |buff| + |End| == HeaderBlockLength
    requires buff == Spaces(|buff|)
    ensures EdfHeader(info) == Some(Content(info, name, bytesPerPoint) + buff + End)
  {
    EdfHeaderOf(info, name, bytesPerPoint);
  }

  /** The header is the content, then only spaces, then "}\n" in its last two
      characters. */
  lemma HeaderLayout(info: FileInfo, name: string, bytesPerPoint: int)
    requires IsInt(info.width) && IsInt(info.height)
    requires WriterDataType(info.fileType) == Some((name, bytesPerPoint))
    ensures var total := Content(info, name, bytesPerPoint);
            var h := EdfHeader(info).value;
            |total| <= HeaderBlockLength - |End| &&
            h[..|total|] == total &&
            (forall k | |total| <= k < HeaderBlockLength - |End| :: h[k] == ' ') &&
            h[HeaderBlockLength - |End|..] == End
  {
    EdfHeaderOf(info, name, bytesPerPoint);
    var total := Content(info, name, bytesPerPoint);
    var pad := Spaces(HeaderBlockLength - |total| - |End|);
    var h := EdfHeader(info).value;
    assert h == total + pad + End;
    forall k | |total| <= k < HeaderBlockLength - |End| ensures h[k] == ' ' {
      assert h[k] == pad[k - |total|];
    }
  }

  /** In a block made of `total`, spaces and End, where total opens with '{'
      and holds no other brace, the only braces are the first character and
      the '}' of End. */
  lemma PaddedBlockBraces(h: string, total: string)
    requires |h| == HeaderBlockLength && 1 <= |total| <= HeaderBlockLength - |End|
    requires h[..|total|] == total && h[HeaderBlockLength - |End|..] == End
    requires forall k | |total| <= k < HeaderBlockLength - |End| :: h[k] == ' '
    requires total[0] == '{' && NoBrace(total[1..])
    ensures h[0] == '{' && h[HeaderBlockLength - 2] == '}' && h[HeaderBlockLength - 1] == '\n'
    ensures forall j | 0 < j < HeaderBlockLength - 2 :: h[j] != '{' && h[j] != '}'
  {
    forall j | 0 < j < HeaderBlockLength - 2 ensures h[j] != '{' && h[j] != '}' {
      if j < |total| {
        assert h[j] == total[j] == total[1..][j - 1];
      }
    }
    assert h[HeaderBlockLength - 2] == h[HeaderBlockLength - |End|..][0];
    assert h[HeaderBlockLength - 1] == h[HeaderBlockLength - |End|..][1];
    assert h[0] == h[..|total|][0];
  }

  lemma AfterStart(x: string)
    ensures (Start + x)[0] == '{' && (Start + x)[1..] == "\n" + x
    ensures NoBrace(x) ==> NoBrace((Start + x)[1..])
  {
  }

  /** TOTAL opens with '{' and holds no other brace. */
  lemma ContentBraces(info: FileInfo, name: string, bytesPerPoint: int)
    requires IsInt(info.width) && IsInt(info.height) && Plain(name)
    ensures Content(info, name, bytesPerPoint)[0] == '{'
    ensures NoBrace(Content(info, name, bytesPerPoint)[1..])
  {
    var ps := WriterPairs(info, name, bytesPerPoint);
    WriterPairsArePlain(info, name, bytesPerPoint);
    LinesHaveNoBrace(ps);
    ContentIsLines(info, name, bytesPerPoint);
    AfterStart(Lines(ps));
  }

  /** The only braces in a written header are its first character and the
      second-to-last one. */
  lemma OnlyOuterBraces(info: FileInfo, name: string, bytesPerPoint: int)
    requires IsInt(info.width) && IsInt(info.height)
    requires WriterDataType(info.fileType) == Some((name, bytesPerPoint))
    ensures var h := EdfHeader(info).value;
            h[0] == '{' && h[HeaderBlockLength - 2] == '}' && h[HeaderBlockLength - 1] == '\n' &&
            forall j | 0 < j < HeaderBlockLength - 2 :: h[j] != '{' && h[j] != '}'
  {
    HeaderLayout(info, name, bytesPerPoint);
    WriterNamesArePlain(info.fileType);
    ContentBraces(info, name, bytesPerPoint);
    PaddedBlockBraces(EdfHeader(info).value, Content(info, name, bytesPerPoint));
  }

  /** Scaling by a positive factor moves a value away from 0, so the value lies
      between 0 and its scaled value. */
  lemma ProductBounds(p: int, c: int)
    requires 1 <= c
    ensures 0 <= p ==> 0 <= p <= p * c
    ensures p < 0 ==> p * c <= p < 0
  {
    assert p * c == p + p * (c - 1);
    if 0 <= p {
      assert 0 <= p * (c - 1);
    } else {
      assert p * (c - 1) <= 0;
    }
  }

  /** Size is the image's byte count height * width * BYTES_PER_POINT whenever
      that count fits an int. */
  lemma SizeIsByteCount(info: FileInfo)
    requires IsInt(info.width) && IsInt(info.height) && info.fileType != Other
    requires IsInt(info.height * info.width * WriterDataType(info.fileType).value.1)
    ensures SizeValue(info, WriterDataType(info.fileType).value.1) ==
              info.height * info.width * WriterDataType(info.fileType).value.1
  {
    var bytesPerPoint := WriterDataType(info.fileType).value.1;
    assert 1 <= bytesPerPoint;
    var pixels := info.height * info.width;
    ProductBounds(pixels, bytesPerPoint);
    assert IsInt(pixels);
    assert Wrap(pixels) == pixels;
  }

  /** GRAY64_FLOAT images are announced with one byte per pixel: Size is the
      pixel count, an eighth of the bytes that follow the header. */
  lemma Gray64SizeIsPixelCount(info: FileInfo)
    requires IsInt(info.width) && IsInt(info.height) && info.fileType == Gray64Float
    requires IsInt(info.height * info.width)
    ensures SizeValue(info, WriterDataType(info.fileType).value.1) == info.height * info.width
  {
  }

  /** The header depends only on the geometry and the type: the byte-order line
      is always LowByteFirst, and the name and offset are not written. */
  lemma HeaderIgnoresOtherFields(info: FileInfo, intel: bool, fileName: string, offset: int)
    requires IsInt(info.width) && IsInt(info.height)
    ensures EdfHeader(info.(intelByteOrder := intel, fileName := fileName, offset := offset)) ==
              EdfHeader(info)
  {
  }

  /** BUFF: a char array of the given size filled with spaces, as a String. */
  method Padding(padSize: nat) returns (buff: string)
    ensures buff == Spaces(padSize)
  {
    var ia := new char[padSize];
    for i := 0 to ia.Length
      invariant forall k | 0 <= k < i :: ia[k] == ' '
    {
      ia[i] := ' ';
    }
    buff := ia[..];
  }

  /** saveAsEDF(path) on an image with this FileInfo: the file receives the
      header and then the pixels, and the result is true; for a type the switch
      does not know the stream is already open, nothing is written and the
      result is false. The ImageWriter's pixel bytes are the parameter. */
  method SaveAsEdf(info: FileInfo, pixels: string) returns (ok: bool, written: string)
    requires IsInt(info.width) && IsInt(info.height)
    ensures ok <==> info.fileType != Other
    ensures ok ==> written == EdfHeader(info).value + pixels
    ensures !ok ==> written == []
  {
    var name := "";
    var bytesPerPoint := 4;
    match info.fileType {
      case Gray16Signed =>
        bytesPerPoint := 2;
        name := "SignedShort";
      case Gray16Unsigned =>
        bytesPerPoint := 2;
        name := "UnsignedShort";
      case Gray32Float =>
        bytesPerPoint := 4;
        name := "FloatValue";
      case Gray32Int =>
        bytesPerPoint := 4;
        name := "SignedLong";
      case Gray32Unsigned =>
        bytesPerPoint := 4;
        name := "UnsignedLong";
      case Gray8 =>
        bytesPerPoint := 1;
        name := "UnsignedByte";
      case Gray64Float =>
        bytesPerPoint := 1;
        name := "DoubleValue";
      case Other =>
        return false, [];
    }
    assert WriterDataType(info.fileType) == Some((name, bytesPerPoint));
    var dataType := Line("DataType", name);

    var dim1 := Line("Dim_1", IntToString(info.width));
    var dim2 := Line("Dim_2", IntToString(info.height));
    var size := Line("Size", IntToString(Wrap(Wrap(info.height * info.width) * bytesPerPoint)));
    var total := Start + HeaderLine + ImageLine + ByteOrderLine + dataType + dim1 + dim2 + size;
    assert total == Content(info, name, bytesPerPoint);
    ContentLength(info, name, bytesPerPoint);

    var lt := |total|;
    var le := |End|;
    var padSize := HeaderBlockLength - lt - le;
    var buff := Padding(padSize);
    HeaderAssembled(info, name, bytesPerPoint, buff);
    written := total + buff + End + pixels;
    ok := true;
  }
}
