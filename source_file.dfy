/// The image and digest files as the core sees them through `fs_read`: a
/// byte string, a read position, and a position from which every read fails
/// (a file whose fault position lies past its end never fails).
module SourceFile {
  import opened Bytes

  /** `DFU_XFER_SIZE_2K`: bytes the core asks for per read of the image. */
  const DFU_XFER_SIZE_2K: nat := 2048

  datatype FileImage = FileImage(data: seq<Byte>, faultAt: nat)

  predicate Healthy(f: FileImage) {
    f.faultAt > |f.data|
  }

  datatype ReadResult = ReadFault | ReadData(bytes: seq<Byte>)

  function Min(a: nat, b: nat): nat {
    if a <= b then a else b
  }

  /** `fs_read(file, buf, max)` at position `pos`. */
  function Read(f: FileImage, pos: nat, max: nat): (r: ReadResult)
    requires pos <= |f.data|
    ensures r.ReadFault? <==> pos >= f.faultAt
    ensures r.ReadData? ==> |r.bytes| <= max && pos + |r.bytes| <= |f.data|
    ensures r.ReadData? ==> r.bytes == f.data[pos..pos + |r.bytes|]
    ensures r.ReadData? && |r.bytes| < max ==> pos + |r.bytes| == |f.data|
  {
    if pos >= f.faultAt then ReadFault else ReadData(f.data[pos..Min(pos + max, |f.data|)])
  }
}
