/// The MCUboot-style image header found at the start of each flash slot
/// (dfu_gecko/dfu_gecko_lib.c, `struct image_version`, `struct image_header`),
/// its little-endian decoder `deserialize_magic_hdr`, and the `memcpy`
/// reinterpretation used by `get_gecko_fw_version`.
module ImageHeader {
  import opened Bytes

  /** `IMAGE_MAGIC`: the magic of a valid header. */
  const IMAGE_MAGIC: U32 := 0x96f3b83d

  /** Size of the packed header, `_pad1` included. */
  const IMAGE_HEADER_SIZE: nat := 32
  /** Bytes `deserialize_magic_hdr` consumes: every field except `_pad1`. */
  const DECODED_SIZE: nat := 28

  datatype ImageVersion = ImageVersion(major: Byte, minor: Byte, revision: U16, buildNum: U32)

  datatype ImageHeader = ImageHeader(
    magic: U32,
    loadAddr: U32,
    hdrSize: U16,
    protectTlvSize: U16,
    imgSize: U32,
    flags: U32,
    ver: ImageVersion,
    pad1: U32)

  /** The value of a header variable before anything is stored into it. */
  const UNSET: ImageHeader := ImageHeader(0, 0, 0, 0, 0, 0, ImageVersion(0, 0, 0, 0), 0)

  function Le16(b: seq<Byte>, at: nat): U16
    requires at + 2 <= |b|
  {
    b[at] as int + 0x100 * (b[at + 1] as int)
  }

  function Le32(b: seq<Byte>, at: nat): U32
    requires at + 4 <= |b|
  {
    b[at] as int + 0x100 * (b[at + 1] as int) + 0x1_0000 * (b[at + 2] as int) + 0x100_0000 * (b[at + 3] as int)
  }

  function Put16(x: U16): seq<Byte> {
    [x % 0x100, x / 0x100]
  }

  function Put32(x: U32): seq<Byte> {
    [x % 0x100, (x / 0x100) % 0x100, (x / 0x100 / 0x100) % 0x100, x / 0x100 / 0x100 / 0x100]
  }

  /**
   * `deserialize_magic_hdr(dst, buf)`: fills every field of `dst` except
   * `_pad1` from `buf`, little-endian, at fixed offsets. The result is the
   * new value of `*dst`.
   */
  function Deserialize(dst: ImageHeader, buf: seq<Byte>): (h: ImageHeader)
    requires |buf| >= DECODED_SIZE
    ensures SerializeDecoded(h) == buf[..DECODED_SIZE]
    ensures h.pad1 == dst.pad1
  {
    LayoutOfFields(buf);
    ImageHeader(
      Le32(buf, 0), Le32(buf, 4), Le16(buf, 8), Le16(buf, 10), Le32(buf, 12), Le32(buf, 16),
      ImageVersion(buf[20], buf[21], Le16(buf, 22), Le32(buf, 24)),
      dst.pad1)
  }

  /**
   * `memcpy(&hdr, buf, IMAGE_HEADER_SIZE)` on a little-endian target: the
   * packed struct takes all 32 bytes, `_pad1` included.
   */
  function CopyHeader(buf: seq<Byte>): (h: ImageHeader)
    requires |buf| >= IMAGE_HEADER_SIZE
    ensures Serialize(h) == buf[..IMAGE_HEADER_SIZE]
  {
    LayoutOfFields(buf);
    Put32Le32(buf, 28);
    assert buf[..IMAGE_HEADER_SIZE] == buf[..DECODED_SIZE] + buf[28..32];
    ImageHeader(
      Le32(buf, 0), Le32(buf, 4), Le16(buf, 8), Le16(buf, 10), Le32(buf, 12), Le32(buf, 16),
      ImageVersion(buf[20], buf[21], Le16(buf, 22), Le32(buf, 24)),
      Le32(buf, 28))
  }

  /** The on-flash layout of a header (the encoder the decoders invert). */
  function Serialize(h: ImageHeader): (b: seq<Byte>)
    ensures |b| == IMAGE_HEADER_SIZE
  {
    SerializeDecoded(h) + Put32(h.pad1)
  }

  /** The first 28 bytes of the layout: every field but `_pad1`. */
  function SerializeDecoded(h: ImageHeader): (b: seq<Byte>)
    ensures |b| == DECODED_SIZE
  {
    Put32(h.magic) + Put32(h.loadAddr) + Put16(h.hdrSize) + Put16(h.protectTlvSize)
    + Put32(h.imgSize) + Put32(h.flags)
    + [h.ver.major, h.ver.minor] + Put16(h.ver.revision) + Put32(h.ver.buildNum)
  }

  lemma Le16Put16(x: U16, b: seq<Byte>, at: nat)
    requires at + 2 <= |b| && b[at..at + 2] == Put16(x)
    ensures Le16(b, at) == x
  {
    assert b[at] == Put16(x)[0] && b[at + 1] == Put16(x)[1];
  }

  lemma Le32Put32(x: U32, b: seq<Byte>, at: nat)
    requires at + 4 <= |b| && b[at..at + 4] == Put32(x)
    ensures Le32(b, at) == x
  {
    assert b[at] == Put32(x)[0] && b[at + 1] == Put32(x)[1];
    assert b[at + 2] == Put32(x)[2] && b[at + 3] == Put32(x)[3];
    var q1 := x / 0x100;
    var q2 := q1 / 0x100;
    assert x == 0x100 * q1 + x % 0x100;
    assert q1 == 0x100 * q2 + q1 % 0x100;
    assert q2 == 0x100 * (q2 / 0x100) + q2 % 0x100;
  }

  lemma Put16Le16(b: seq<Byte>, at: nat)
    requires at + 2 <= |b|
    ensures Put16(Le16(b, at)) == b[at..at + 2]
  {
    DivMod256(Le16(b, at), b[at + 1], b[at]);
  }

  lemma Put32Le32(b: seq<Byte>, at: nat)
    requires at + 4 <= |b|
    ensures Put32(Le32(b, at)) == b[at..at + 4]
  {
    var x := Le32(b, at);
    var q1 := b[at + 1] as int + 0x100 * (b[at + 2] as int) + 0x1_0000 * (b[at + 3] as int);
    var q2 := b[at + 2] as int + 0x100 * (b[at + 3] as int);
    DivMod256(x, q1, b[at]);
    DivMod256(q1, q2, b[at + 1]);
    DivMod256(q2, b[at + 3], b[at + 2]);
  }

  /**
   * Round trip: decoding the serialised form of any header reproduces every
   * field it decodes; `_pad1` keeps whatever `dst` held.
   */
  lemma DeserializeSerialize(dst: ImageHeader, h: ImageHeader)
    ensures Deserialize(dst, Serialize(h)) == h.(pad1 := dst.pad1)
  {
    var b := Serialize(h);
    var lead := Put32(h.magic) + Put32(h.loadAddr) + Put16(h.hdrSize) + Put16(h.protectTlvSize)
      + Put32(h.imgSize) + Put32(h.flags);
    var tail := [h.ver.major, h.ver.minor] + Put16(h.ver.revision) + Put32(h.ver.buildNum);
    assert b == lead + tail + Put32(h.pad1);
    assert b[0..4] == Put32(h.magic);
    assert b[4..8] == Put32(h.loadAddr);
    assert b[8..10] == Put16(h.hdrSize);
    assert b[10..12] == Put16(h.protectTlvSize);
    assert b[12..16] == Put32(h.imgSize);
    assert b[16..20] == Put32(h.flags);
    assert b[20] == h.ver.major && b[21] == h.ver.minor;
    assert b[22..24] == Put16(h.ver.revision);
    assert b[24..28] == Put32(h.ver.buildNum);
    Le32Put32(h.magic, b, 0);
    Le32Put32(h.loadAddr, b, 4);
    Le16Put16(h.hdrSize, b, 8);
    Le16Put16(h.protectTlvSize, b, 10);
    Le32Put32(h.imgSize, b, 12);
    Le32Put32(h.flags, b, 16);
    Le16Put16(h.ver.revision, b, 22);
    Le32Put32(h.ver.buildNum, b, 24);
  }

  /** Re-encoding the little-endian fields read from bytes 0..27 gives those bytes back. */
  lemma LayoutOfFields(buf: seq<Byte>)
    requires |buf| >= DECODED_SIZE
    ensures Put32(Le32(buf, 0)) + Put32(Le32(buf, 4)) + Put16(Le16(buf, 8)) + Put16(Le16(buf, 10))
      + Put32(Le32(buf, 12)) + Put32(Le32(buf, 16)) + [buf[20], buf[21]] + Put16(Le16(buf, 22))
      + Put32(Le32(buf, 24)) == buf[..DECODED_SIZE]
  {
    Put32Le32(buf, 0);
    Put32Le32(buf, 4);
    Put16Le16(buf, 8);
    Put16Le16(buf, 10);
    Put32Le32(buf, 12);
    Put32Le32(buf, 16);
    Put16Le16(buf, 22);
    Put32Le32(buf, 24);
    assert buf[..DECODED_SIZE] == buf[0..4] + buf[4..8] + buf[8..10] + buf[10..12]
      + buf[12..16] + buf[16..20] + [buf[20], buf[21]] + buf[22..24] + buf[24..28];
  }

  /** The decoder reads no byte past offset 27. */
  lemma DeserializeReadsPrefix(dst: ImageHeader, b1: seq<Byte>, b2: seq<Byte>)
    requires |b1| >= DECODED_SIZE && |b2| >= DECODED_SIZE
    requires b1[..DECODED_SIZE] == b2[..DECODED_SIZE]
    ensures Deserialize(dst, b1) == Deserialize(dst, b2)
  {
    forall i | 0 <= i < DECODED_SIZE
      ensures b1[i] == b2[i]
    {
      assert b1[i] == b1[..DECODED_SIZE][i];
    }
  }

  /**
   * On a little-endian target, the `memcpy` of `get_gecko_fw_version` and
   * `deserialize_magic_hdr` of `get_oldest_slot` agree on every field the
   * latter writes.
   */
  lemma CopyAgreesWithDeserialize(dst: ImageHeader, buf: seq<Byte>)
    requires |buf| >= IMAGE_HEADER_SIZE
    ensures Deserialize(dst, buf) == CopyHeader(buf).(pad1 := dst.pad1)
  {
  }
}
