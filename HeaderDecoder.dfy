/** The back half of parseESRFDataFormatHeader: split the header text on ';',
    cut each token into key and value at its first '=', and update the FileInfo
    for the six keys the readers know. EDF_StackReader and ESRF_Reader share
    all of it except the DataType table. */
module HeaderDecoder {
  import opened JavaLang
  import opened EdfFormat
  import HeaderScanner

  // ---------------------------------------------------------------------------
  // StringTokenizer(headerString, ";")

  /** Length of the run of non-';' characters that s starts with. */
  function RunLength(s: string): (n: nat)
    ensures n <= |s| && ';' !in s[..n] && (n == |s| || s[n] == ';')
  {
    if s == [] || s[0] == ';' then 0
    else
      var m := RunLength(s[1..]);
      assert s[..m + 1] == [s[0]] + s[1..][..m];
      m + 1
  }

  /** The tokens a StringTokenizer with delimiter ";" hands out: the maximal
      runs of non-';' characters, in order; it never yields an empty token. */
  function Tokens(s: string): (ts: seq<string>)
    ensures forall k | 0 <= k < |ts| :: ts[k] != [] && ';' !in ts[k]
    decreases |s|
  {
    if s == [] then []
    else if s[0] == ';' then Tokens(s[1..])
    else
      var n := RunLength(s);
      [s[..n]] + Tokens(s[n..])
  }

  function Concat(ts: seq<string>): string
  {
    if ts == [] then [] else ts[0] + Concat(ts[1..])
  }

  /** s with every ';' removed. */
  function WithoutDelimiters(s: string): string
  {
    if s == [] then [] else (if s[0] == ';' then [] else [s[0]]) + WithoutDelimiters(s[1..])
  }

  lemma {:induction false} WithoutDelimitersSplit(s: string, n: nat)
    requires n <= |s| && ';' !in s[..n]
    ensures WithoutDelimiters(s) == s[..n] + WithoutDelimiters(s[n..])
  {
    if n > 0 {
      assert s[0] in s[..n];
      WithoutDelimitersSplit(s[1..], n - 1);
      assert s[1..][..n - 1] == s[1..n];
      assert s[1..][n - 1..] == s[n..];
      assert s[..n] == [s[0]] + s[1..n];
    }
  }

  /** Tokenizing loses nothing but the delimiters: the tokens, put back
      together, are the text without its ';'. */
  lemma {:induction false} TokensKeepText(s: string)
    ensures Concat(Tokens(s)) == WithoutDelimiters(s)
    decreases |s|
  {
    if s == [] {
    } else if s[0] == ';' {
      TokensKeepText(s[1..]);
    } else {
      var n := RunLength(s);
      TokensKeepText(s[n..]);
      WithoutDelimitersSplit(s, n);
      var ts := [s[..n]] + Tokens(s[n..]);
      assert ts[0] == s[..n] && ts[1..] == Tokens(s[n..]);
      assert Concat(ts) == s[..n] + Concat(Tokens(s[n..]));
    }
  }

  lemma {:induction false} RunLengthAppend(t: string, u: string)
    requires ';' !in t
    ensures RunLength(t + u) == |t| + RunLength(u)
  {
    if t != [] {
      assert (t + u)[1..] == t[1..] + u;
      assert t == [t[0]] + t[1..];
      assert (t + u)[0] == t[0] && t[0] != ';';
      RunLengthAppend(t[1..], u);
      assert RunLength(t + u) == 1 + RunLength((t + u)[1..]);
    } else {
      assert t + u == u;
    }
  }

  /** A non-empty text without ';' followed by ';' is one token. */
  lemma TokensCons(t: string, rest: string)
    requires t != [] && ';' !in t
    ensures Tokens(t + ";" + rest) == [t] + Tokens(rest)
  {
    var s := t + ";" + rest;
    RunLengthAppend(t, ";" + rest);
    assert s[..|t|] == t;
    assert s[|t|..] == ";" + rest;
    assert (";" + rest)[1..] == rest;
  }

  /** A non-empty text without ';' is a single token. */
  lemma TokensSingle(t: string)
    requires t != [] && ';' !in t
    ensures Tokens(t) == [t]
  {
    RunLengthAppend(t, []);
    assert t + [] == t;
    assert t[..|t|] == t && t[|t|..] == [];
    assert Tokens(t) == [t] + Tokens([]);
  }

  // ---------------------------------------------------------------------------
  // One token: key and value

  /** What the token loop makes of one token. */
  datatype Entry =
      // no '=', or '=' first: `continue`
    | Skipped
      // '=' second: token.substring(1, 0) throws StringIndexOutOfBoundsException
    | Malformed
      // key: the text between the first character and the character before
      // '=', trimmed; value: the text after '=', trimmed
    | Pair(key: string, value: string)

  function ParseToken(t: string): Entry
  {
    var i := IndexOf(t, '=');
    if i <= 0 then Skipped
    else if i == 1 then Malformed
    else Pair(Trim(t[1..i - 1]), Trim(t[i + 1..]))
  }

  lemma {:induction false} TrimStartWhite(w: string, s: string)
    requires forall k | 0 <= k < |w| :: IsTrimmed(w[k])
    ensures TrimStart(w + s) == TrimStart(s)
  {
    if w != [] {
      assert (w + s)[0] == w[0] && (w + s)[1..] == w[1..] + s;
      assert forall k | 0 <= k < |w[1..]| :: IsTrimmed(w[1..][k]) by {
        forall k | 0 <= k < |w[1..]| ensures IsTrimmed(w[1..][k]) {
          assert w[1..][k] == w[k + 1];
        }
      }
      TrimStartWhite(w[1..], s);
      assert IsTrimmed(w[0]);
      assert TrimStart(w + s) == TrimStart((w + s)[1..]);
    } else {
      assert w + s == s;
    }
  }

  lemma IndexOfFirst(s: string, c: char, i: nat)
    requires i < |s| && s[i] == c && c !in s[..i]
    ensures IndexOf(s, c) == i
  {
    assert s[i] in s;
    forall k | 0 <= k < i ensures s[k] != c {
      assert s[k] in s[..i];
    }
  }

  /** Trimming drops white space in front of a text that neither starts nor
      ends with white space. */
  lemma TrimAfterWhite(w: string, s: string)
    requires forall k | 0 <= k < |w| :: IsTrimmed(w[k])
    requires s != [] && !IsTrimmed(s[0]) && !IsTrimmed(s[|s| - 1])
    ensures Trim(w + s) == s
  {
    TrimStartWhite(w, s);
    TrimOfTrimmed(s);
  }

  /** A header line `key = value;` as the writer emits it, after its leading
      `lead` (the '\n' ending the previous line, or "{\n" before the first
      line), decodes to exactly that key and value. */
  lemma LineEntry(lead: string, key: string, value: string)
    requires |lead| >= 1 && '=' !in lead
    requires forall k | 1 <= k < |lead| :: IsTrimmed(lead[k])
    requires key != [] && '=' !in key && !IsTrimmed(key[0]) && !IsTrimmed(key[|key| - 1])
    requires value != [] && !IsTrimmed(value[0]) && !IsTrimmed(value[|value| - 1])
    ensures ParseToken(lead + key + " = " + value) == Pair(key, value)
  {
    KeyTrims(lead, key, lead[1..] + key);
    ValueTrims(value, " " + value);
    CutLine(lead, key, value);
  }

  /** The cut of a header line, given how its two halves trim. */
  lemma CutLine(lead: string, key: string, value: string)
    requires |lead| >= 1 && '=' !in lead && '=' !in key
    requires Trim(lead[1..] + key) == key && Trim(" " + value) == value
    ensures ParseToken(lead + key + " = " + value) == Pair(key, value)
  {
    var t := lead + key + " = " + value;
    var i := |lead| + |key| + 1;
    LineCut(lead, key, value, t, i);
    ParseTokenAt(t, i, lead[1..] + key, " " + value, key, value);
  }

  lemma KeyTrims(lead: string, key: string, cut: string)
    requires |lead| >= 1 && forall k | 1 <= k < |lead| :: IsTrimmed(lead[k])
    requires key != [] && !IsTrimmed(key[0]) && !IsTrimmed(key[|key| - 1])
    requires cut == lead[1..] + key
    ensures Trim(cut) == key
  {
    WhiteAfterFirst(lead);
    TrimAfterWhite(lead[1..], key);
  }

  lemma ValueTrims(value: string, cut: string)
    requires value != [] && !IsTrimmed(value[0]) && !IsTrimmed(value[|value| - 1])
    requires cut == " " + value
    ensures Trim(cut) == value
  {
    SpaceIsWhite();
    TrimAfterWhite(" ", value);
  }

  lemma WhiteAfterFirst(lead: string)
    requires |lead| >= 1 && forall k | 1 <= k < |lead| :: IsTrimmed(lead[k])
    ensures forall k | 0 <= k < |lead[1..]| :: IsTrimmed(lead[1..][k])
  {
    forall k | 0 <= k < |lead[1..]| ensures IsTrimmed(lead[1..][k]) {
      assert lead[1..][k] == lead[k + 1];
    }
  }

  lemma SpaceIsWhite()
    ensures forall k | 0 <= k < |" "| :: IsTrimmed(" "[k])
  {
    assert IsTrimmed(" "[0]);
  }

  /** A token whose first '=' is at index i > 1 is cut there. */
  lemma ParseTokenAt(t: string, i: nat, before: string, after: string, key: string, value: string)
    requires IndexOf(t, '=') == i && i > 1
    requires t[1..i - 1] == before && t[i + 1..] == after
    requires Trim(before) == key && Trim(after) == value
    ensures ParseToken(t) == Pair(key, value)
  {
  }

  /** Where the token of a header line is cut: at the '=' after the key. */
  lemma LineCut(lead: string, key: string, value: string, t: string, i: nat)
    requires |lead| >= 1 && '=' !in lead && '=' !in key
    requires t == lead + key + " = " + value && i == |lead| + |key| + 1
    ensures IndexOf(t, '=') == i && t[1..i - 1] == lead[1..] + key && t[i + 1..] == " " + value
  {
    assert t[..i] == lead + key + " ";
    assert '=' !in t[..i] && t[i] == '=';
    IndexOfFirst(t, '=', i);
    assert t[1..i - 1] == lead[1..] + key;
    assert t[i + 1..] == " " + value;
  }

  // ---------------------------------------------------------------------------
  // The DataType tables

  /** The two readers, which differ only in their DataType table. */
  datatype Plugin = StackPlugin | ReaderPlugin

  /** EDF_StackReader's table. Unknown names leave fileType as it is. */
  function StackReaderDataType(v: string): Option<FileType>
  {
    if v == "SignedLong" || v == "SignedInteger" then Some(Gray32Int)
    else if v == "UnsignedLong" || v == "UnsignedInteger" then Some(Gray32Unsigned)
    else if v == "SignedShort" then Some(Gray16Signed)
    else if v == "UnsignedShort" then Some(Gray16Unsigned)
    else if v == "SingedByte" || v == "UnsignedByte" || v == "UnsignedChar" then Some(Gray8)
    else if v == "Float" || v == "FloatValue" then Some(Gray32Float)
    else None
  }

  /** ESRF_Reader's table: no SignedLong, no unsigned 32-bit type. */
  function EsrfReaderDataType(v: string): Option<FileType>
  {
    if v == "UnsignedLong" || v == "UnsignedInteger" || v == "SignedInteger" then Some(Gray32Int)
    else if v == "UnsignedShort" then Some(Gray16Unsigned)
    else if v == "Float" || v == "FloatValue" then Some(Gray32Float)
    else if v == "UnsignedByte" || v == "UnsignedChar" then Some(Gray8)
    else if v == "SignedShort" then Some(Gray16Signed)
    else None
  }

  function DataTypeOf(plugin: Plugin, v: string): Option<FileType>
  {
    match plugin
    case StackPlugin => StackReaderDataType(v)
    case ReaderPlugin => EsrfReaderDataType(v)
  }

  /** EDF_StackReader knows eleven names and never yields a 64-bit type. */
  lemma StackReaderTableDomain(v: string)
    ensures StackReaderDataType(v).Some? <==>
              v in ["SignedLong", "SignedInteger", "UnsignedLong", "UnsignedInteger",
                    "SignedShort", "UnsignedShort", "SingedByte", "UnsignedByte",
                    "UnsignedChar", "Float", "FloatValue"]
    ensures StackReaderDataType(v) != Some(Gray64Float) && StackReaderDataType(v) != Some(Other)
  {
  }

  /** ESRF_Reader knows nine names and never yields an unsigned 32-bit or a
      64-bit type. */
  lemma EsrfReaderTableDomain(v: string)
    ensures EsrfReaderDataType(v).Some? <==>
              v in ["UnsignedLong", "UnsignedInteger", "SignedInteger", "UnsignedShort",
                    "Float", "FloatValue", "UnsignedByte", "UnsignedChar", "SignedShort"]
    ensures EsrfReaderDataType(v) != Some(Gray32Unsigned)
    ensures EsrfReaderDataType(v) != Some(Gray64Float) && EsrfReaderDataType(v) != Some(Other)
  {
  }

  /** The tables agree except on four names: ESRF_Reader does not know
      SignedLong or the misspelt SingedByte, and reads UnsignedLong and
      UnsignedInteger as signed. */
  lemma TablesDiffer(v: string)
    ensures StackReaderDataType(v) != EsrfReaderDataType(v) <==>
              v in ["SignedLong", "SingedByte", "UnsignedLong", "UnsignedInteger"]
  {
  }

  // ---------------------------------------------------------------------------
  // The token loop as a left fold

  /** The loop's state: the FileInfo being filled in and iParam, the int most
      recently parsed from any token's value (0 before the first). */
  datatype DecodeState = DecodeState(info: FileInfo, iParam: int)

  /** The keys the decoder acts on, and everything else. */
  datatype Field =
    | BinaryFileName | BinaryFilePosition | Dim1 | Dim2 | DataType | ByteOrder | Unrecognised

  /** Which key a trimmed key string is (exact, case-sensitive match). */
  function FieldOf(key: string): Field
  {
    if key == "EDF_BinaryFileName" then BinaryFileName
    else if key == "EDF_BinaryFilePosition" then BinaryFilePosition
    else if key == "Dim_1" then Dim1
    else if key == "Dim_2" then Dim2
    else if key == "DataType" then DataType
    else if key == "ByteOrder" then ByteOrder
    else Unrecognised
  }

  /** The FileInfo after a token with the given field and value, iParam being
      the int most recently parsed. */
  function Apply(plugin: Plugin, info: FileInfo, field: Field, param: string, iParam: int): FileInfo
  {
    match field
    case BinaryFileName => info.(fileName := param)
    case BinaryFilePosition => info.(offset := iParam)
    case Dim1 => info.(width := iParam)
    case Dim2 => info.(height := iParam)
    case DataType =>
      (match DataTypeOf(plugin, param)
       case Some(ft) => info.(fileType := ft)
       case None => info)
    case ByteOrder => info.(intelByteOrder := param == "LowByteFirst")
    case Unrecognised => info
  }

  /** iParam after a value: the value when it parses as an int, else as it was. */
  function NextInt(param: string, iParam: int): int
  {
    match ParseInt(param)
    case Some(n) => n
    case None => iParam
  }

  /** What the token loop does with one entry, or None when it throws. */
  function StepEntry(plugin: Plugin, st: DecodeState, e: Entry): Option<DecodeState>
  {
    match e
    case Skipped => Some(st)
    case Malformed => None
    case Pair(key, param) =>
      var iParam := NextInt(param, st.iParam);
      Some(DecodeState(Apply(plugin, st.info, FieldOf(key), param, iParam), iParam))
  }

  /** One iteration of the token loop. */
  function Step(plugin: Plugin, st: DecodeState, t: string): Option<DecodeState>
  {
    StepEntry(plugin, st, ParseToken(t))
  }

  function Fold(plugin: Plugin, st: DecodeState, ts: seq<string>): Option<DecodeState>
    decreases |ts|
  {
    if ts == [] then Some(st)
    else
      match Step(plugin, st, ts[0])
      case None => None
      case Some(next) => Fold(plugin, next, ts[1..])
  }

  /** Decoding a header text into the given FileInfo. */
  function Decode(plugin: Plugin, headerString: string, info: FileInfo): Outcome<FileInfo>
  {
    match Fold(plugin, DecodeState(info, 0), Tokens(headerString))
    case None => Threw
    case Some(st) => Done(st.info)
  }

  /** The whole of parseESRFDataFormatHeader on a file that may not exist (None:
      opening it throws an IOException). An IOException leaves the FileInfo as
      it was; otherwise the offset becomes headerSize + 1 before the tokens are
      read. */
  function ParseHeader(plugin: Plugin, fileKind: string, file: Option<string>, info: FileInfo): Outcome<FileInfo>
  {
    match file
    case None => Done(info)
    case Some(data) =>
      match HeaderScanner.Scan(data, fileKind == "EHF")
      case Hangs => Hangs
      case ReadFailed => Done(info)
      case Scanned(size, text) => Decode(plugin, text, info.(offset := size + 1))
  }

  // ---------------------------------------------------------------------------
  // Properties of the fold

  /** Entry e sets the given field. */
  predicate Sets(e: Entry, field: Field)
  {
    e.Pair? && FieldOf(e.key) == field
  }

  /** Token t sets the given field. */
  predicate SetsField(t: string, field: Field)
  {
    Sets(ParseToken(t), field)
  }

  /** a and b agree on the FileInfo member that field sets. */
  predicate SameField(field: Field, a: FileInfo, b: FileInfo)
  {
    match field
    case BinaryFileName => a.fileName == b.fileName
    case BinaryFilePosition => a.offset == b.offset
    case Dim1 => a.width == b.width
    case Dim2 => a.height == b.height
    case DataType => a.fileType == b.fileType
    case ByteOrder => a.intelByteOrder == b.intelByteOrder
    case Unrecognised => true
  }

  /** An entry whose key is not one of the six changes no FileInfo field; it
      can only change iParam, and does so exactly when its value is an int. */
  lemma UnknownKeyIgnored(plugin: Plugin, st: DecodeState, e: Entry)
    requires Sets(e, Unrecognised)
    ensures StepEntry(plugin, st, e).Some? && StepEntry(plugin, st, e).value.info == st.info
    ensures StepEntry(plugin, st, e).value.iParam ==
              match ParseInt(e.value) case Some(n) => n case None => st.iParam
  {
  }

  /** A Dim_1, Dim_2 or EDF_BinaryFilePosition value that is not an int takes
      the int parsed last, from whatever token that was. */
  lemma NonNumericTakesLastInt(plugin: Plugin, st: DecodeState, e: Entry)
    requires e.Pair? && ParseInt(e.value).None?
    ensures Sets(e, Dim1) ==> StepEntry(plugin, st, e).value.info.width == st.iParam
    ensures Sets(e, Dim2) ==> StepEntry(plugin, st, e).value.info.height == st.iParam
    ensures Sets(e, BinaryFilePosition) ==> StepEntry(plugin, st, e).value.info.offset == st.iParam
  {
  }

  /** ByteOrder selects Intel byte order exactly for the value LowByteFirst. */
  lemma ByteOrderIsLowByteFirst(plugin: Plugin, st: DecodeState, e: Entry)
    requires Sets(e, ByteOrder)
    ensures StepEntry(plugin, st, e).Some?
    ensures StepEntry(plugin, st, e).value.info.intelByteOrder <==> e.value == "LowByteFirst"
  {
  }

  /** An entry that does not set a field leaves it alone. */
  lemma EntryKeepsField(plugin: Plugin, st: DecodeState, e: Entry, field: Field)
    requires StepEntry(plugin, st, e).Some? && !Sets(e, field)
    ensures SameField(field, st.info, StepEntry(plugin, st, e).value.info)
  {
  }

  lemma {:induction false} FoldAppend(plugin: Plugin, st: DecodeState, a: seq<string>, b: seq<string>)
    ensures Fold(plugin, st, a + b) ==
              match Fold(plugin, st, a) case None => None case Some(m) => Fold(plugin, m, b)
    decreases |a|
  {
    if a != [] {
      assert (a + b)[0] == a[0];
      assert (a + b)[1..] == a[1..] + b;
      match Step(plugin, st, a[0])
      case None =>
      case Some(next) => FoldAppend(plugin, next, a[1..], b);
    } else {
      assert a + b == b;
    }
  }

  /** Tokens that do not set a field leave it alone. */
  lemma {:induction false} FoldKeepsField(plugin: Plugin, st: DecodeState, ts: seq<string>, field: Field, fin: DecodeState)
    requires Fold(plugin, st, ts) == Some(fin)
    requires forall k | 0 <= k < |ts| :: !SetsField(ts[k], field)
    ensures SameField(field, st.info, fin.info)
    decreases |ts|
  {
    if ts != [] {
      var step := Step(plugin, st, ts[0]);
      assert step.Some? && Fold(plugin, step.value, ts[1..]) == Some(fin);
      assert !SetsField(ts[0], field);
      EntryKeepsField(plugin, st, ParseToken(ts[0]), field);
      assert forall k | 0 <= k < |ts[1..]| :: !SetsField(ts[1..][k], field) by {
        forall k | 0 <= k < |ts[1..]| ensures !SetsField(ts[1..][k], field) {
          assert ts[1..][k] == ts[k + 1];
        }
      }
      FoldKeepsField(plugin, step.value, ts[1..], field, fin);
    }
  }

  lemma FoldSingle(plugin: Plugin, st: DecodeState, t: string)
    ensures Fold(plugin, st, [t]) == Step(plugin, st, t)
  {
    assert [t][1..] == [];
  }

  /** The last token that sets a key decides its field: whatever it set is what
      the decoder returns. */
  lemma LastOccurrenceWins(plugin: Plugin, st: DecodeState, pre: seq<string>, t: string,
                           post: seq<string>, field: Field, fin: DecodeState)
    requires Fold(plugin, st, pre + [t] + post) == Some(fin)
    requires forall k | 0 <= k < |post| :: !SetsField(post[k], field)
    ensures Fold(plugin, st, pre).Some?
    ensures Step(plugin, Fold(plugin, st, pre).value, t).Some?
    ensures SameField(field, Step(plugin, Fold(plugin, st, pre).value, t).value.info, fin.info)
  {
    FoldAppend(plugin, st, pre + [t], post);
    var m2 := Fold(plugin, st, pre + [t]).value;
    assert Fold(plugin, m2, post) == Some(fin);
    FoldAppend(plugin, st, pre, [t]);
    var m := Fold(plugin, st, pre).value;
    FoldSingle(plugin, m, t);
    assert m2 == Step(plugin, m, t).value;
    FoldKeepsField(plugin, m2, post, field, fin);
  }

  /** So a last Dim_1 token with an int value gives the width. */
  lemma LastDim1GivesWidth(plugin: Plugin, st: DecodeState, pre: seq<string>, t: string,
                           post: seq<string>, n: int, fin: DecodeState)
    requires Fold(plugin, st, pre + [t] + post) == Some(fin)
    requires SetsField(t, Dim1) && ParseInt(ParseToken(t).value) == Some(n)
    requires forall k | 0 <= k < |post| :: !SetsField(post[k], Dim1)
    ensures fin.info.width == n
  {
    LastOccurrenceWins(plugin, st, pre, t, post, Dim1, fin);
  }

  /** When no token sets EDF_BinaryFilePosition, the offset is the one the
      scan found: headerSize + 1. */
  lemma OffsetFollowsHeader(plugin: Plugin, fileKind: string, data: string, info: FileInfo,
                            size: nat, text: string, result: FileInfo)
    requires HeaderScanner.Scan(data, fileKind == "EHF") == HeaderScanner.Scanned(size, text)
    requires forall k | 0 <= k < |Tokens(text)| :: !SetsField(Tokens(text)[k], BinaryFilePosition)
    requires ParseHeader(plugin, fileKind, Some(data), info) == Done(result)
    ensures result.offset == size + 1
  {
    assert ParseHeader(plugin, fileKind, Some(data), info) == Decode(plugin, text, info.(offset := size + 1));
    DecodeKeepsOffset(plugin, text, info.(offset := size + 1), result);
  }

  /** Decoding a header with no EDF_BinaryFilePosition token keeps the offset. */
  lemma DecodeKeepsOffset(plugin: Plugin, text: string, info: FileInfo, result: FileInfo)
    requires forall k | 0 <= k < |Tokens(text)| :: !SetsField(Tokens(text)[k], BinaryFilePosition)
    requires Decode(plugin, text, info) == Done(result)
    ensures result.offset == info.offset
  {
    var st0 := DecodeState(info, 0);
    var fin := Fold(plugin, st0, Tokens(text));
    assert fin.Some? && fin.value.info == result;
    FoldKeepsField(plugin, st0, Tokens(text), BinaryFilePosition, fin.value);
  }

  /** A token with '=' as its second character ends the plugin, whatever came
      before or follows it. */
  lemma MalformedThrows(plugin: Plugin, st: DecodeState, pre: seq<string>, t: string, post: seq<string>)
    requires IndexOf(t, '=') == 1
    ensures Fold(plugin, st, pre + [t] + post).None?
  {
    FoldAppend(plugin, st, pre + [t], post);
    FoldAppend(plugin, st, pre, [t]);
  }

  // ---------------------------------------------------------------------------
  // Headers made of `key = value;` lines

  /** A key the decoder reads back unchanged: no '=', no ';', no white space
      at either end. */
  predicate CleanKey(k: string)
  {
    k != [] && '=' !in k && ';' !in k && !IsTrimmed(k[0]) && !IsTrimmed(k[|k| - 1])
  }

  /** A value the decoder reads back unchanged: no ';', no white space at
      either end. */
  predicate CleanValue(v: string)
  {
    v != [] && ';' !in v && !IsTrimmed(v[0]) && !IsTrimmed(v[|v| - 1])
  }

  /** The decoder state after the given key/value entries, in order. */
  function ApplyPairs(plugin: Plugin, st: DecodeState, pairs: seq<(string, string)>): DecodeState
    decreases |pairs|
  {
    if pairs == [] then st
    else ApplyPairs(plugin, StepEntry(plugin, st, Pair(pairs[0].0, pairs[0].1)).value, pairs[1..])
  }

  lemma Regroup(a: string, b: string, c: string, d: string)
    ensures a + (b + c) + d == a + b + (c + d)
  {
  }

  /** A line after `lead` ends the token `lead key = value`; the newline
      starts the next one. */
  lemma LineSplit(lead: string, k: string, v: string, rest: string)
    ensures lead + Line(k, v) + rest == (lead + k + " = " + v) + ";" + ("\n" + rest)
  {
  }

  /** The first line after `lead` is one token, and decodes to its pair. */
  lemma FirstLine(plugin: Plugin, st: DecodeState, lead: string, k: string, v: string, rest: string)
    requires |lead| >= 1 && '=' !in lead && ';' !in lead
    requires forall j | 1 <= j < |lead| :: IsTrimmed(lead[j])
    requires CleanKey(k) && CleanValue(v)
    ensures Fold(plugin, st, Tokens(lead + Line(k, v) + rest)) ==
              Fold(plugin, StepEntry(plugin, st, Pair(k, v)).value, Tokens("\n" + rest))
  {
    var t := lead + k + " = " + v;
    LineSplit(lead, k, v, rest);
    assert ';' !in " = ";
    assert ';' !in t;
    TokensCons(t, "\n" + rest);
    LineEntry(lead, k, v);
    var ts := [t] + Tokens("\n" + rest);
    assert ts[0] == t && ts[1..] == Tokens("\n" + rest);
  }

  /** The first of several lines decodes to its pair; the rest begins with
      the newline that ends it. */
  lemma LinesHead(plugin: Plugin, st: DecodeState, lead: string, pairs: seq<(string, string)>, tail: string)
    requires |lead| >= 1 && '=' !in lead && ';' !in lead
    requires forall j | 1 <= j < |lead| :: IsTrimmed(lead[j])
    requires pairs != [] && CleanKey(pairs[0].0) && CleanValue(pairs[0].1)
    ensures Fold(plugin, st, Tokens(lead + Lines(pairs) + tail)) ==
              Fold(plugin, StepEntry(plugin, st, Pair(pairs[0].0, pairs[0].1)).value,
                   Tokens("\n" + Lines(pairs[1..]) + tail))
  {
    var k, v := pairs[0].0, pairs[0].1;
    var more := Lines(pairs[1..]);
    assert Lines(pairs) == Line(k, v) + more;
    Regroup(lead, Line(k, v), more, tail);
    FirstLine(plugin, st, lead, k, v, more + tail);
    Regroup3("\n", more, tail);
  }

  /** The newline ending a line can lead the next one. */
  lemma NewlineLead()
    ensures |"\n"| >= 1 && '=' !in "\n" && ';' !in "\n"
    ensures forall j | 1 <= j < |"\n"| :: IsTrimmed("\n"[j])
  {
  }

  lemma Regroup3(a: string, b: string, c: string)
    ensures a + (b + c) == a + b + c
  {
  }

  /** Decoding `lead`, clean header lines and a tail applies exactly the
      lines' entries, in order, and then whatever the text after the last ';'
      holds (the newline ending the last line and the tail). */
  lemma {:induction false} DecodeLines(plugin: Plugin, st: DecodeState, lead: string,
                                       pairs: seq<(string, string)>, tail: string)
    requires |lead| >= 1 && '=' !in lead && ';' !in lead
    requires forall j | 1 <= j < |lead| :: IsTrimmed(lead[j])
    requires forall i | 0 <= i < |pairs| :: CleanKey(pairs[i].0) && CleanValue(pairs[i].1)
    ensures Fold(plugin, st, Tokens(lead + Lines(pairs) + tail)) ==
              Fold(plugin, ApplyPairs(plugin, st, pairs), Tokens((if pairs == [] then lead else "\n") + tail))
    decreases |pairs|
  {
    if pairs == [] {
      assert lead + Lines(pairs) + tail == lead + tail;
    } else {
      var next := StepEntry(plugin, st, Pair(pairs[0].0, pairs[0].1)).value;
      LinesHead(plugin, st, lead, pairs, tail);
      assert ApplyPairs(plugin, st, pairs) == ApplyPairs(plugin, next, pairs[1..]);
      assert forall i | 0 <= i < |pairs[1..]| :: pairs[1..][i] == pairs[i + 1];
      NewlineLead();
      DecodeLines(plugin, next, "\n", pairs[1..], tail);
      assert (if pairs[1..] == [] then "\n" else "\n") == "\n";
    }
  }

  // ---------------------------------------------------------------------------
  // The method

  /** parseESRFDataFormatHeader: scan, set the offset, then update the FileInfo
      token by token. The caller's FileInfo is returned updated rather than
      changed in place. */
  method ParseEsrfDataFormatHeader(plugin: Plugin, fileKind: string, file: Option<string>, info: FileInfo)
    returns (r: Outcome<FileInfo>)
    ensures r == ParseHeader(plugin, fileKind, file, info)
  {
    if file.None? {
      return Done(info);
    }
    var ehf := fileKind == "EHF";
    var scan := HeaderScanner.ScanHeader(file.value, ehf);
    match scan {
      case Hangs =>
        r := Hangs;
      case ReadFailed =>
        r := Done(info);
      case Scanned(headerSize, headerString) =>
        r := DecodeHeader(plugin, headerString, info.(offset := headerSize + 1));
    }
  }

  /** The token loop of parseESRFDataFormatHeader over the header text,
      starting from the FileInfo with its offset already set. */
  method DecodeHeader(plugin: Plugin, headerString: string, info: FileInfo) returns (r: Outcome<FileInfo>)
    ensures r == Decode(plugin, headerString, info)
  {
    var tokens := Tokens(headerString);
    var fileInfo := info;
    var iParam := 0;
    ghost var start := DecodeState(fileInfo, iParam);
    var i := 0;
    while i < |tokens|
      invariant 0 <= i <= |tokens|
      invariant Fold(plugin, DecodeState(fileInfo, iParam), tokens[i..]) == Fold(plugin, start, tokens)
    {
      var token := tokens[i];
      assert tokens[i..][0] == token && tokens[i..][1..] == tokens[i + 1..];
      ghost var before := DecodeState(fileInfo, iParam);
      var eq := IndexOf(token, '=');
      if eq == 1 {
        // token.substring(1, eq - 1) with eq - 1 < 1
        return Threw;
      }
      if eq > 1 {
        var key := Trim(token[1..eq - 1]);
        var param := Trim(token[eq + 1..]);
        var parsed := ParseInt(param);
        if parsed.Some? {
          iParam := parsed.value;
        }
        ParseTokenAt(token, eq, token[1..eq - 1], token[eq + 1..], key, param);
        ghost var after := StepEntry(plugin, before, Pair(key, param)).value;
        assert iParam == after.iParam;
        match FieldOf(key) {
          case BinaryFileName =>
            fileInfo := fileInfo.(fileName := param);
          case BinaryFilePosition =>
            fileInfo := fileInfo.(offset := iParam);
          case Dim1 =>
            fileInfo := fileInfo.(width := iParam);
          case Dim2 =>
            fileInfo := fileInfo.(height := iParam);
          case DataType =>
            var ft := DataTypeOf(plugin, param);
            if ft.Some? {
              fileInfo := fileInfo.(fileType := ft.value);
            }
          case ByteOrder =>
            fileInfo := fileInfo.(intelByteOrder := param == "LowByteFirst");
          case Unrecognised =>
        }
        assert fileInfo == after.info;
        assert Step(plugin, before, token) == Some(DecodeState(fileInfo, iParam));
      } else {
        assert Step(plugin, before, token) == Some(before);
      }
      i := i + 1;
    }
    return Done(fileInfo);
  }

  // ---------------------------------------------------------------------------
  // getShort

  /** getShort: combine two bytes read in file order into an unsigned 16-bit
      value, the second byte high when intelByteOrder is set. The bytes come
      from read(), so either may be -1 at end of file. */
  function GetShort(intelByteOrder: bool, b1: int, b2: int): (r: int)
    requires -1 <= b1 < 256 && -1 <= b2 < 256
    ensures 0 <= b1 && 0 <= b2 ==> 0 <= r < 0x1_0000
    ensures 0 <= b1 && 0 <= b2 ==>
              if intelByteOrder then r / 256 == b2 && r % 256 == b1
              else r / 256 == b1 && r % 256 == b2
  {
    if intelByteOrder then b2 * 256 + b1 else b1 * 256 + b2
  }

  /** Flipping the byte order is the same as swapping the two bytes. */
  lemma GetShortSwap(intelByteOrder: bool, b1: int, b2: int)
    requires -1 <= b1 < 256 && -1 <= b2 < 256
    ensures GetShort(!intelByteOrder, b1, b2) == GetShort(intelByteOrder, b2, b1)
  {
  }
}
