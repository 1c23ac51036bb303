/** The image description ImageJ's FileInfo carries between the EDF plugins and
    the raster reader, restricted to the fields the header codec touches. */
module EdfFormat {

  /** FileInfo.fileType: the pixel encodings the plugins name, and every other
      ImageJ type (RGB, bitmap, ...) as Other. */
  datatype FileType =
    | Gray8
    | Gray16Signed
    | Gray16Unsigned
    | Gray32Int
    | Gray32Unsigned
    | Gray32Float
    | Gray64Float
    | Other

  /** The FileInfo fields that header parsing reads or writes. width, height and
      offset are Java ints. */
  datatype FileInfo = FileInfo(
    width: int,
    height: int,
    offset: int,
    fileName: string,
    intelByteOrder: bool,
    fileType: FileType)

  /** What both readers put in a fresh FileInfo before looking at the header:
      512 x 512, offset 0, big-endian ("Motorola") 16-bit unsigned pixels. */
  function DefaultInfo(fileName: string): (info: FileInfo)
    ensures info.width == 512 && info.height == 512 && info.offset == 0
    ensures info.fileName == fileName
    ensures !info.intelByteOrder && info.fileType == Gray16Unsigned
  {
    FileInfo(512, 512, 0, fileName, false, Gray16Unsigned)
  }

  /** How a call into the plugins' header code ends. */
  datatype Outcome<T> =
    | Done(value: T)
      // an uncaught StringIndexOutOfBoundsException ends the plugin
    | Threw
      // the header scan keeps reading past the end of the file forever
    | Hangs

  /** One line of an EDF header: `key = value;` and a newline. */
  function Line(key: string, value: string): string
  {
    key + " = " + value + ";\n"
  }

  /** The header lines for the given keys and values, in order. */
  function Lines(pairs: seq<(string, string)>): string
    decreases |pairs|
  {
    if pairs == [] then [] else Line(pairs[0].0, pairs[0].1) + Lines(pairs[1..])
  }
}
