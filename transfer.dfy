/// The pure side of the chunked transfer in dfu_gecko/dfu_gecko_lib.c:
/// where each page of the image goes, which 2048 bytes the writer sends for
/// it, what a sequence of page writes leaves in flash, and how the running
/// CRC-32 accumulates over the chunks read.
module Transfer {
  import opened Bytes
  import opened FlashDevice
  import opened SourceFile

  /** `DFU_CHUNK_SIZE`, also the page size handed to `flash_erase`/`flash_write`. */
  const DFU_CHUNK_SIZE: nat := 2048

  /** Slot base addresses `GECKO_IMAGE_SLOT_0_SECTOR`, `GECKO_IMAGE_SLOT_1_SECTOR`. */
  const GECKO_IMAGE_SLOT_0_SECTOR: U32 := 0x10000
  const GECKO_IMAGE_SLOT_1_SECTOR: U32 := 0x80000
  /** `GECKO_FLASH_SECTOR`, passed along with the page reset. */
  const GECKO_FLASH_SECTOR: U32 := 0

  /** `file_read_flash` writes slot 0 when slot 0 was requested, slot 1 for any other value. */
  function SlotBase(slot: int): U32 {
    if slot == 0 then GECKO_IMAGE_SLOT_0_SECTOR else GECKO_IMAGE_SLOT_1_SECTOR
  }

  /** `startSector + page * DFU_XFER_SIZE_2K` in 32-bit unsigned arithmetic. */
  function PageAddr(start: U32, page: nat): U32 {
    (start + page * 2048) % TWO_32
  }

  /** Below 2^32 the page address does not wrap. */
  lemma PageAddrNoWrap(start: U32, page: nat)
    requires start + page * 2048 < TWO_32
    ensures PageAddr(start, page) == start + page * 2048
  {
  }

  /** `chunk_check`: the number of 2048-byte chunks that cover `size` bytes. */
  function ChunkCount(size: nat): (c: nat)
    ensures c * 2048 >= size
    ensures c == 0 || (c - 1) * 2048 < size
  {
    size / 2048 + if size % 2048 != 0 then 1 else 0
  }

  /** The bytes of chunk `w` of the image, as one `fs_read` of 2048 bytes returns them. */
  function Chunk(d: seq<Byte>, w: nat): (c: seq<Byte>)
    requires w * 2048 <= |d|
    ensures |c| <= DFU_CHUNK_SIZE
  {
    d[w * 2048..Min(w * 2048 + 2048, |d|)]
  }

  /** An image the chunk loop can finish: at least two chunks. */
  predicate Transferable(d: seq<Byte>) {
    ChunkCount(|d|) >= 2
  }

  /**
   * The 2048 bytes `image_buffer` holds when page `w` is written. Every
   * page but the last is a full chunk. The last chunk is read straight
   * after the one before it, with no `memset` in between, so its page is
   * padded with the tail of the previous chunk rather than with zeros.
   */
  function PageImage(d: seq<Byte>, w: nat): (p: seq<Byte>)
    requires Transferable(d) && w < ChunkCount(|d|)
    ensures |p| == DFU_CHUNK_SIZE
  {
    if w < ChunkCount(|d|) - 1 then Chunk(d, w)
    else Chunk(d, w) + Chunk(d, w - 1)[|Chunk(d, w)|..]
  }

  /** The first `|Chunk(d, w)|` bytes of every page are that chunk of the image. */
  lemma PageImageStartsWithChunk(d: seq<Byte>, w: nat)
    requires Transferable(d) && w < ChunkCount(|d|)
    ensures PageImage(d, w)[..|Chunk(d, w)|] == Chunk(d, w)
  {
  }

  /**
   * The padding of the last page is the tail of the chunk before it: the
   * bytes of the image at the same place one chunk earlier.
   */
  lemma LastPagePadding(d: seq<Byte>)
    requires Transferable(d)
    ensures var c := ChunkCount(|d|);
      PageImage(d, c - 1)[|Chunk(d, c - 1)|..] == d[(c - 2) * 2048 + |Chunk(d, c - 1)|..(c - 1) * 2048]
  {
  }

  /** So the padding is not zeros in general: a 2049-byte image of 0xFF bytes pads its last page with 0xFF. */
  lemma LastPageNotZeroPadded()
    ensures Transferable(Ones(2049)) && ChunkCount(2049) == 2
    ensures PageImage(Ones(2049), 1)[1..] == Ones(2047) != Zeros(2047)
  {
    LastPagePadding(Ones(2049));
    assert Ones(2047)[0] != Zeros(2047)[0];
  }

  /** Every page but the last is exactly its chunk, a full 2048 bytes. */
  lemma PageImageFull(d: seq<Byte>, v: nat)
    requires Transferable(d) && v + 1 < ChunkCount(|d|)
    ensures |Chunk(d, v)| == DFU_CHUNK_SIZE && PageImage(d, v) == Chunk(d, v)
  {
  }

  /** A read of 2048 bytes at the start of chunk `v` of a healthy file returns that chunk. */
  lemma ReadChunk(f: FileImage, v: nat)
    requires Healthy(f) && v < ChunkCount(|f.data|)
    ensures v * 2048 <= |f.data|
    ensures Read(f, v * 2048, DFU_XFER_SIZE_2K) == ReadData(Chunk(f.data, v))
  {
  }

  /** The pages 0..w-1 laid end to end, as the slot holds them once they are written. */
  function Pages(d: seq<Byte>, w: nat): (p: seq<Byte>)
    requires Transferable(d) && w <= ChunkCount(|d|)
    ensures |p| == w * 2048
  {
    if w == 0 then [] else Pages(d, w - 1) + PageImage(d, w - 1)
  }

  /** Every page before the last is a full chunk, so pages 0..w-1 are the image's first `w * 2048` bytes. */
  lemma {:induction false} FullPages(d: seq<Byte>, w: nat)
    requires Transferable(d) && w < ChunkCount(|d|)
    ensures w * 2048 < |d|
    ensures Pages(d, w) == d[..w * 2048]
  {
    if w > 0 {
      FullPages(d, w - 1);
      SliceJoin(d, 0, (w - 1) * 2048, w * 2048);
    }
  }

  /** The last chunk starts inside the image and runs to its end. */
  lemma FinalChunk(d: seq<Byte>, c: nat)
    requires Transferable(d) && c == ChunkCount(|d|)
    ensures (c - 1) * 2048 < |d| <= c * 2048
    ensures Chunk(d, c - 1) == d[(c - 1) * 2048..]
  {
  }

  /** The laid-out pages begin with the whole image; only the tail of the last page is padding. */
  lemma PagesHoldImage(d: seq<Byte>)
    requires Transferable(d)
    ensures |d| <= |Pages(d, ChunkCount(|d|))|
    ensures Pages(d, ChunkCount(|d|))[..|d|] == d
  {
    PagesCover(d, ChunkCount(|d|));
  }

  /** `PagesHoldImage` for `c` the number of chunks. */
  lemma {:induction false} PagesCover(d: seq<Byte>, c: nat)
    requires Transferable(d) && c == ChunkCount(|d|)
    ensures |d| <= |Pages(d, c)| && Pages(d, c)[..|d|] == d
  {
    var o := (c - 1) * 2048;
    FinalChunk(d, c);
    FullPages(d, c - 1);
    PageImageStartsWithChunk(d, c - 1);
    var front, last, whole, tail := Pages(d, c - 1), PageImage(d, c - 1), Pages(d, c), Chunk(d, c - 1);
    assert whole == front + last;
    PrefixGrow(front, last, whole, d, tail, o, |d|);
  }

  /** Memory after the erase and the full-page program of one writer call. */
  function Burned(dev: Flash, m: seq<Byte>, addr: nat, page: seq<Byte>): (r: seq<Byte>)
    requires |m| == dev.mem.Length
    ensures |r| == |m|
  {
    dev.Programmed(dev.Erased(m, addr, DFU_CHUNK_SIZE), addr, page)
  }

  /** Whether the writer reports success: the program call succeeded and the first `n` bytes read back equal. */
  predicate BurnVerified(dev: Flash, m: seq<Byte>, addr: nat, page: seq<Byte>, n: nat)
    requires |m| == dev.mem.Length && n <= |page|
  {
    dev.ProgramRc(addr, |page|) == 0 && Burned(dev, m, addr, page)[addr..addr + n] == page[..n]
  }

  /**
   * Flash contents after the chunk loop has written pages 0..w-1 of image
   * `d` into the slot at `base`, starting from contents `m`.
   */
  function Burn(dev: Flash, m: seq<Byte>, base: U32, d: seq<Byte>, w: nat): (r: seq<Byte>)
    requires |m| == dev.mem.Length && Transferable(d) && w <= ChunkCount(|d|)
    ensures |r| == |m|
  {
    if w == 0 then m
    else Burned(dev, Burn(dev, m, base, d, w - 1), PageAddr(base, w - 1), PageImage(d, w - 1))
  }

  /** The bytes `totalwritebytes` counts over the same writes: each verified page adds its chunk length. */
  function Written(dev: Flash, m: seq<Byte>, base: U32, d: seq<Byte>, w: nat): nat
    requires |m| == dev.mem.Length && Transferable(d) && w <= ChunkCount(|d|)
  {
    if w == 0 then 0
    else
      var n := |Chunk(d, w - 1)|;
      Written(dev, m, base, d, w - 1)
        + if BurnVerified(dev, Burn(dev, m, base, d, w - 1), PageAddr(base, w - 1), PageImage(d, w - 1), n) then n else 0
  }

  /**
   * Every page the chunk loop writes for image `d` into the slot at `base`
   * is programmable: inside the flash and free of program faults. Erase
   * faults are not excluded because `FlashDevice.Flash` programs a page
   * whether or not it was erased.
   */
  ghost predicate SlotAccepts(dev: Flash, m: seq<Byte>, base: U32, d: seq<Byte>) {
    && dev.Valid() && |m| == dev.mem.Length && Transferable(d)
    && base + ChunkCount(|d|) * 2048 <= |m|
    && forall w :: 0 <= w < ChunkCount(|d|) ==>
         base + w * 2048 !in dev.programFaults && base + w * 2048 !in dev.lossyPrograms
  }

  /** One writer call on a programmable page puts the page at `addr` and touches nothing else. */
  lemma BurnPage(dev: Flash, m: seq<Byte>, addr: nat, page: seq<Byte>)
    requires |m| == dev.mem.Length && |page| == 2048
    requires addr + |page| <= |m| && addr !in dev.programFaults && addr !in dev.lossyPrograms
    ensures Burned(dev, m, addr, page) == Overlay(m, addr, page)
  {
    OverlayTwice(m, addr, Ones(2048), page);
  }

  /** On a programmable page the read-back check passes for any prefix. */
  lemma BurnPageVerified(dev: Flash, m: seq<Byte>, addr: nat, page: seq<Byte>, n: nat)
    requires |m| == dev.mem.Length && |page| == 2048 && n <= 2048
    requires addr + |page| <= |m| && addr !in dev.programFaults && addr !in dev.lossyPrograms
    ensures BurnVerified(dev, m, addr, page, n)
  {
    BurnPage(dev, m, addr, page);
    OverlayPrefix(m, addr, page, n);
  }

  /** Page `v` of an accepting slot lies inside the flash, below 2^32, and is programmable. */
  lemma SlotPage(dev: Flash, m: seq<Byte>, base: U32, d: seq<Byte>, v: nat)
    requires SlotAccepts(dev, m, base, d) && v < ChunkCount(|d|)
    ensures base + v * 2048 + 2048 <= |m| && base + v * 2048 < TWO_32
    ensures base + v * 2048 !in dev.programFaults && base + v * 2048 !in dev.lossyPrograms
    ensures PageAddr(base, v) == base + v * 2048
  {
    PageAddrNoWrap(base, v);
  }

  /** Writing page `w - 1` extends the layout of pages 0..w-2 by one page. */
  lemma BurnStep(dev: Flash, m: seq<Byte>, base: U32, d: seq<Byte>, w: nat)
    requires SlotAccepts(dev, m, base, d) && 0 < w <= ChunkCount(|d|)
    requires Burn(dev, m, base, d, w - 1) == Overlay(m, base, Pages(d, w - 1))
    ensures Burn(dev, m, base, d, w) == Overlay(m, base, Pages(d, w))
  {
    SlotPage(dev, m, base, d, w - 1);
    var p := Pages(d, w - 1);
    var page := PageImage(d, w - 1);
    var addr := PageAddr(base, w - 1);
    assert addr == base + |p|;
    BurnPage(dev, Burn(dev, m, base, d, w - 1), addr, page);
    OverlayGrow(m, base, p, page);
  }

  /** The memory half of `Burn`: the slot holds pages 0..w-1 and everything else is still `m`. */
  lemma {:induction false} BurnPrefix(dev: Flash, m: seq<Byte>, base: U32, d: seq<Byte>, w: nat)
    requires SlotAccepts(dev, m, base, d) && w <= ChunkCount(|d|)
    ensures Burn(dev, m, base, d, w) == Overlay(m, base, Pages(d, w))
  {
    if w > 0 {
      BurnPrefix(dev, m, base, d, w - 1);
      BurnStep(dev, m, base, d, w);
    } else {
      assert Overlay(m, base, []) == m;
    }
  }

  /** A page written to a programmable page of the slot is counted with its chunk length. */
  lemma WrittenStep(dev: Flash, m: seq<Byte>, base: U32, d: seq<Byte>, w: nat)
    requires SlotAccepts(dev, m, base, d) && 0 < w <= ChunkCount(|d|)
    ensures Written(dev, m, base, d, w) == Written(dev, m, base, d, w - 1) + |Chunk(d, w - 1)|
  {
    SlotPage(dev, m, base, d, w - 1);
    BurnPageVerified(dev, Burn(dev, m, base, d, w - 1), PageAddr(base, w - 1), PageImage(d, w - 1), |Chunk(d, w - 1)|);
  }

  /** Chunk `v` covers the image bytes between offsets `v * 2048` and `(v + 1) * 2048`. */
  lemma ChunkStep(d: seq<Byte>, v: nat)
    requires v < ChunkCount(|d|)
    ensures v * 2048 <= |d|
    ensures Min(v * 2048, |d|) + |Chunk(d, v)| == Min((v + 1) * 2048, |d|)
  {
  }

  /** The count half of `Burn`: every byte of the first w chunks is counted as written. */
  lemma {:induction false} BurnCount(dev: Flash, m: seq<Byte>, base: U32, d: seq<Byte>, w: nat)
    requires SlotAccepts(dev, m, base, d) && w <= ChunkCount(|d|)
    ensures Written(dev, m, base, d, w) == Min(w * 2048, |d|)
  {
    if w > 0 {
      BurnCount(dev, m, base, d, w - 1);
      WrittenStep(dev, m, base, d, w);
      ChunkStep(d, w - 1);
      var before := Written(dev, m, base, d, w - 1);
      assert before == Min((w - 1) * 2048, |d|);
      assert before + |Chunk(d, w - 1)| == Min(w * 2048, |d|);
    }
  }

  /**
   * With every page of the slot programmable, the whole chunk loop leaves
   * the image byte for byte at the start of the slot, changes nothing
   * outside the slot's pages 0..C-1, and counts every image byte as written.
   */
  lemma BurnIntact(dev: Flash, m: seq<Byte>, base: U32, d: seq<Byte>)
    requires SlotAccepts(dev, m, base, d)
    ensures base + |d| <= |m|
    ensures Burn(dev, m, base, d, ChunkCount(|d|))[base..base + |d|] == d
    ensures Burn(dev, m, base, d, ChunkCount(|d|))[..base] == m[..base]
    ensures Burn(dev, m, base, d, ChunkCount(|d|))[base + ChunkCount(|d|) * 2048..]
         == m[base + ChunkCount(|d|) * 2048..]
    ensures Written(dev, m, base, d, ChunkCount(|d|)) == |d|
  {
    var c := ChunkCount(|d|);
    BurnPrefix(dev, m, base, d, c);
    BurnCount(dev, m, base, d, c);
    PagesHoldImage(d);
    OverlayAt(m, base, Pages(d, c));
    OverlayPrefix(m, base, Pages(d, c), |d|);
  }

  /**
   * The running CRC after the chunk loop has fed the first `w` chunks to
   * `crc32_ieee_update`, starting from `crc`.
   */
  function CrcOver(crcUpdate: (U32, seq<Byte>) -> U32, crc: U32, d: seq<Byte>, w: nat): U32
    requires w <= ChunkCount(|d|)
  {
    if w == 0 then crc else crcUpdate(CrcOver(crcUpdate, crc, d, w - 1), Chunk(d, w - 1))
  }

  /** An update function that only sees the byte stream, as CRC-32 does. */
  ghost predicate Streaming(crcUpdate: (U32, seq<Byte>) -> U32) {
    && (forall c: U32, a: seq<Byte>, b: seq<Byte> :: crcUpdate(crcUpdate(c, a), b) == crcUpdate(c, a + b))
    && (forall c: U32 :: crcUpdate(c, []) == c)
  }

  /**
   * The CRC is taken over the logical byte stream of the image, not over
   * the padded pages: chunk by chunk it equals one update over the bytes read.
   */
  lemma {:induction false} CrcOverStream(crcUpdate: (U32, seq<Byte>) -> U32, crc: U32, d: seq<Byte>, w: nat)
    requires Streaming(crcUpdate) && w <= ChunkCount(|d|)
    ensures CrcOver(crcUpdate, crc, d, w) == crcUpdate(crc, d[..Min(w * 2048, |d|)])
  {
    if w > 0 {
      CrcOverStream(crcUpdate, crc, d, w - 1);
      var before := d[..Min((w - 1) * 2048, |d|)];
      assert before + Chunk(d, w - 1) == d[..Min(w * 2048, |d|)];
    } else {
      assert d[..0] == [];
    }
  }
}
