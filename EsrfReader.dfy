/** ESRF_Reader.run after its dialogs: the file kind the user chose ("EDF" or
    "EHF"), the chosen file's name and its contents (None when it cannot be
    opened) give the FileInfo handed to ImageJ's raster reader. */
module EsrfReader {
  import opened JavaLang
  import opened EdfFormat
  import opened HeaderDecoder

  /** The header is only read for the two kinds the plugin knows. */
  predicate ReadsHeader(fileKind: string)
  {
    fileKind == "EDF" || fileKind == "EHF"
  }

  /** run(arg): fill a FileInfo with the plugin's defaults and the chosen name,
      then let the header update it. */
  method OpenEsrfImage(fileKind: string, fileName: string, file: Option<string>)
    returns (r: Outcome<FileInfo>)
    ensures !ReadsHeader(fileKind) ==> r == Done(DefaultInfo(fileName))
    ensures ReadsHeader(fileKind) ==>
              r == ParseHeader(ReaderPlugin, fileKind, file, DefaultInfo(fileName))
  {
    // the plugin's width, height, offset, intelByteOrder and fileType fields
    var fileInfo := FileInfo(512, 512, 0, fileName, false, Gray16Unsigned);
    if fileKind == "EDF" || fileKind == "EHF" {
      r := ParseEsrfDataFormatHeader(ReaderPlugin, fileKind, file, fileInfo);
    } else {
      r := Done(fileInfo);
    }
  }

  /** A file that cannot be opened, or one whose header block runs into the end
      of the file with no byte after it, is opened with the defaults. */
  lemma UnreadableFileKeepsDefaults(fileKind: string, fileName: string, file: Option<string>)
    requires file.None? || HeaderScanner.Scan(file.value, fileKind == "EHF") == HeaderScanner.ReadFailed
    ensures ParseHeader(ReaderPlugin, fileKind, file, DefaultInfo(fileName)) == Done(DefaultInfo(fileName))
  {
  }
}
