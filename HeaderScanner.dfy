/** The front half of parseESRFDataFormatHeader, identical in EDF_StackReader and
    ESRF_Reader: find the brace-delimited header block by counting brackets one
    byte at a time. A file is its bytes read as characters. */
module HeaderScanner {
  import opened JavaLang

  /** getChar casts read()'s end-of-file value -1 to a char. */
  const EofChar: char := '\U{FFFF}'

  /** The key whose presence ends an EHF scan. */
  const DataBlockId: string := "EDF_DataBlockID"

  /** The character getChar returns at position k. */
  function ByteAt(file: string, k: nat): char
  {
    if k < |file| then file[k] else EofChar
  }

  /** What one byte does to the bracket counter noBrackets. */
  function Delta(c: char): int
  {
    if c == '{' then 1 else if c == '}' then -1 else 0
  }

  /** The bracket counter after reading s from a counter of 0: the number of
      '{' minus the number of '}'. */
  function Depth(s: string): int
  {
    if s == [] then 0 else Depth(s[..|s| - 1]) + Delta(s[|s| - 1])
  }

  lemma DepthStep(file: string, start: nat, k: nat)
    requires start <= k < |file|
    ensures Depth(file[start..k + 1]) == Depth(file[start..k]) + Delta(file[k])
  {
    assert file[start..k + 1][..k - start] == file[start..k];
  }

  /** The block that starts at `start` consists of the bytes before e: the
      counter first comes back to 0 after byte e - 1. */
  ghost predicate ClosesAt(file: string, start: nat, e: nat)
  {
    start < e <= |file| && Depth(file[start..e]) == 0 &&
    forall k | start < k < e :: Depth(file[start..k]) != 0
  }

  /** Search for the end of the block starting at `start`, with the first k bytes
      of the file already read. */
  function EndSearch(file: string, start: nat, k: nat): (e: Option<nat>)
    requires start < k <= |file|
    ensures e.Some? ==> k <= e.value <= |file|
    decreases |file| - k
  {
    if Depth(file[start..k]) == 0 then Some(k)
    else if k == |file| then None
    else EndSearch(file, start, k + 1)
  }

  /** Where the block starting at `start` ends (the value of headerSize after the
      inner loop), or None when the counter never returns to 0 inside the file:
      past the end only EofChar is read, which leaves the counter as it is. At
      the very end of the file the EofChar itself is a one-byte block. */
  function BlockEnd(file: string, start: nat): (e: Option<nat>)
    ensures e.Some? ==> start < e.value
  {
    if start < |file| then EndSearch(file, start, start + 1) else Some(start + 1)
  }

  lemma {:induction false} EndSearchSpec(file: string, start: nat, k: nat)
    requires start < k <= |file|
    requires forall j | start < j < k :: Depth(file[start..j]) != 0
    ensures forall e: nat :: EndSearch(file, start, k) == Some(e) <==> ClosesAt(file, start, e)
    ensures EndSearch(file, start, k).None? <==>
              forall j | start < j <= |file| :: Depth(file[start..j]) != 0
    decreases |file| - k
  {
    if Depth(file[start..k]) != 0 && k < |file| {
      EndSearchSpec(file, start, k + 1);
    }
  }

  /** The scan stops at the first byte after which the counter is 0, and runs
      forever exactly when there is no such byte in the file. */
  lemma BlockEndSpec(file: string, start: nat)
    requires start < |file|
    ensures forall e: nat :: BlockEnd(file, start) == Some(e) <==> ClosesAt(file, start, e)
    ensures BlockEnd(file, start).None? <==>
              forall j | start < j <= |file| :: Depth(file[start..j]) != 0
  {
    EndSearchSpec(file, start, start + 1);
  }

  /** A block whose first byte is not a brace is that single byte: this is how
      an EHF scan steps over the newline between two blocks. */
  lemma SingleByteBlock(file: string, start: nat)
    requires start < |file| && file[start] != '{' && file[start] != '}'
    ensures BlockEnd(file, start) == Some(start + 1)
  {
    assert file[start..start + 1] == [file[start]];
    assert [file[start]][..0] == [];
    assert Depth(file[start..start + 1]) == 0;
    assert EndSearch(file, start, start + 1) == Some(start + 1);
  }

  lemma {:induction false} DepthInsideBlock(file: string, e: nat, k: nat)
    requires 1 <= k < e <= |file| && file[0] == '{'
    requires forall j | 0 < j < e - 1 :: file[j] != '{' && file[j] != '}'
    ensures Depth(file[0..k]) == 1
  {
    DepthStep(file, 0, k - 1);
    if k == 1 {
      assert file[0..0] == [];
    } else {
      DepthInsideBlock(file, e, k - 1);
    }
  }

  /** A block that opens with '{' at byte 0 and holds no other brace before its
      closing '}' at byte e - 1 ends exactly there. */
  lemma OneBraceBlock(file: string, e: nat)
    requires 2 <= e <= |file| && file[0] == '{' && file[e - 1] == '}'
    requires forall j | 0 < j < e - 1 :: file[j] != '{' && file[j] != '}'
    ensures ClosesAt(file, 0, e)
  {
    forall k | 0 < k < e ensures Depth(file[0..k]) == 1 {
      DepthInsideBlock(file, e, k);
    }
    DepthStep(file, 0, e - 1);
  }

  /** How the block scan ends. */
  datatype ScanOutcome =
      // headerSize after the last block, and headerString: that block and the
      // one byte after it
    | Scanned(headerSize: nat, text: string)
      // an IOException: readFully found no byte after the closing '}'
    | ReadFailed
      // the scan loop never ends
    | Hangs

  /** The scan from `start` on: one block for EDF; for EHF, block after block
      until a block's text contains EDF_DataBlockID. */
  function ScanFrom(file: string, ehf: bool, start: nat): ScanOutcome
    decreases |file| - start
  {
    match BlockEnd(file, start)
    case None => Hangs
    case Some(e) =>
      if |file| < e + 1 then ReadFailed
      else if ehf && !Contains(file[start..e + 1], DataBlockId) then ScanFrom(file, ehf, e)
      else Scanned(e, file[start..e + 1])
  }

  /** The whole scan of a file, from byte 0. */
  function Scan(file: string, ehf: bool): ScanOutcome
  {
    ScanFrom(file, ehf, 0)
  }

  /** For EDF exactly one block is scanned: the header is the block that starts
      at byte 0 together with the byte after it. */
  lemma EdfScansOneBlock(file: string, size: nat, text: string)
    requires Scan(file, false) == Scanned(size, text)
    ensures ClosesAt(file, 0, size) && size < |file| && text == file[..size + 1]
  {
    BlockEndSpec(file, 0);
  }

  /** The blocks scanned from `a` on reach `b` back to back: each starts at the
      byte just after the previous block closed, is followed by one more byte in
      the file, and its text (the block and that byte) lacks EDF_DataBlockID. */
  ghost predicate Chain(file: string, a: nat, b: nat)
    decreases b - a
  {
    a == b ||
    (a < b && exists e: nat | a < e <= b ::
       ClosesAt(file, a, e) && e < |file| && !Contains(file[a..e + 1], DataBlockId) &&
       Chain(file, e, b))
  }

  /** For EHF the scan from `start` (byte 0 for Scan) steps over the chain of
      blocks without EDF_DataBlockID and ends on the first block that holds it:
      the block that closes where the counter first returns to 0, plus one byte. */
  lemma {:induction false} EhfScanFindsDataBlock(file: string, start: nat, size: nat, text: string)
    requires ScanFrom(file, true, start) == Scanned(size, text)
    ensures size < |file| && Contains(text, DataBlockId)
    ensures exists s: nat :: Chain(file, start, s) && ClosesAt(file, s, size) && text == file[s..size + 1]
    decreases |file| - start
  {
    var e := BlockEnd(file, start).value;
    if Contains(file[start..e + 1], DataBlockId) {
      BlockEndSpec(file, start);
      assert ClosesAt(file, start, size);
      assert Chain(file, start, start);
    } else {
      BlockEndSpec(file, start);
      assert ClosesAt(file, start, e);
      EhfScanFindsDataBlock(file, e, size, text);
      var s: nat :| Chain(file, e, s) && ClosesAt(file, s, size) && text == file[s..size + 1];
      assert Chain(file, start, s);
    }
  }

  /** Conversely, an EDF scan succeeds whenever the block at byte 0 closes
      before the last byte: the header is that block and the byte after it. */
  lemma EdfBlockScans(file: string, e: nat)
    requires ClosesAt(file, 0, e) && e < |file|
    ensures Scan(file, false) == Scanned(e, file[..e + 1])
  {
    BlockEndSpec(file, 0);
  }

  /** A block that closes at e is where BlockEnd puts its end. */
  lemma BlockEndAt(file: string, a: nat, e: nat)
    requires ClosesAt(file, a, e)
    ensures BlockEnd(file, a) == Some(e)
  {
    BlockEndSpec(file, a);
  }

  /** Conversely, an EHF scan that passes over a chain of blocks without
      EDF_DataBlockID and then meets a block holding it, followed by one more
      byte, ends on that block. */
  lemma {:induction false} EhfChainScans(file: string, a: nat, s: nat, e: nat)
    requires Chain(file, a, s) && ClosesAt(file, s, e) && e < |file|
    requires Contains(file[s..e + 1], DataBlockId)
    ensures ScanFrom(file, true, a) == Scanned(e, file[s..e + 1])
    decreases s - a
  {
    if a == s {
      BlockEndAt(file, a, e);
      EhfStops(file, a, e);
    } else {
      var e1: nat :| a < e1 <= s && ClosesAt(file, a, e1) && e1 < |file| &&
                     !Contains(file[a..e1 + 1], DataBlockId) && Chain(file, e1, s);
      BlockEndAt(file, a, e1);
      EhfSkips(file, a, e1);
      EhfChainScans(file, e1, s, e);
    }
  }

  /** An EHF scan stops on a block whose text holds EDF_DataBlockID. */
  lemma EhfStops(file: string, a: nat, e: nat)
    requires BlockEnd(file, a) == Some(e) && e < |file| && Contains(file[a..e + 1], DataBlockId)
    ensures ScanFrom(file, true, a) == Scanned(e, file[a..e + 1])
  {
  }

  /** An EHF scan moves past a block whose text lacks EDF_DataBlockID. */
  lemma EhfSkips(file: string, a: nat, e: nat)
    requires BlockEnd(file, a) == Some(e) && e < |file| && !Contains(file[a..e + 1], DataBlockId)
    ensures ScanFrom(file, true, a) == ScanFrom(file, true, e)
  {
  }

  /** A closing '}' in the last byte of the file leaves nothing for readFully's
      extra byte: the scan fails with an IOException. */
  lemma BraceAtEndFails(file: string, ehf: bool)
    requires ClosesAt(file, 0, |file|)
    ensures Scan(file, ehf) == ReadFailed
  {
    BlockEndSpec(file, 0);
  }

  /** The nested do/while loops of parseESRFDataFormatHeader, with readFully's
      end-of-file check. Where the source would read EofChar forever, the model
      stops and reports Hangs. */
  method ScanHeader(file: string, ehf: bool) returns (r: ScanOutcome)
    ensures r == Scan(file, ehf)
  {
    var headerSize: nat := 0;
    var noBrackets := 0;
    while true
      invariant headerSize == 0 || headerSize < |file|
      invariant ScanFrom(file, ehf, headerSize) == Scan(file, ehf)
      decreases |file| - headerSize
    {
      var headerStart := headerSize;
      // the inner do/while
      var h := ByteAt(file, headerSize);
      headerSize := headerSize + 1;
      noBrackets := noBrackets + Delta(h);
      if headerStart < |file| {
        assert file[headerStart..headerSize] == [h];
        assert [h][..0] == [];
      }
      while noBrackets != 0 && headerSize < |file|
        invariant headerStart < headerSize
        invariant headerStart < |file| ==> headerSize <= |file|
        invariant headerStart < |file| ==> noBrackets == Depth(file[headerStart..headerSize])
        invariant headerStart < |file| ==>
                    EndSearch(file, headerStart, headerSize) == BlockEnd(file, headerStart)
        invariant |file| <= headerStart ==> noBrackets == 0 && headerSize == headerStart + 1
        decreases |file| - headerSize
      {
        h := ByteAt(file, headerSize);
        DepthStep(file, headerStart, headerSize);
        headerSize := headerSize + 1;
        noBrackets := noBrackets + Delta(h);
      }
      if noBrackets != 0 {
        return Hangs;
      }
      // readFully(header) with header.length == headerSize - headerStart + 1
      if |file| < headerSize + 1 {
        return ReadFailed;
      }
      var headerString := file[headerStart..headerSize + 1];
      if !(ehf && !Contains(headerString, DataBlockId)) {
        return Scanned(headerSize, headerString);
      }
    }
  }
}
