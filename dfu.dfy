/// The update driver of dfu_gecko/dfu_gecko_lib.c: the file-scope statics
/// become the fields of one `Dfu` object, and each static function becomes a
/// method that updates those fields, the two open files, the image buffer,
/// the digest buffers and the flash. SHA-1 and the CRC-32 update are fields
/// holding the functions the core calls; file and flash access go through
/// the models in SourceFile and FlashDevice.
module GeckoDfu {
  import opened Bytes
  import opened FlashDevice
  import opened SourceFile
  import opened HexDigest
  import opened Transfer
  import opened DfuLoop

  /** `DFU_SHA1_LEN * 2`: characters in the digest file. */
  const SHA1_HEX_LEN: nat := 40

  /** The value `get_gecko_fw_size` returns on a read error: -1 converted to `uint32_t`. */
  const SIZE_READ_ERROR: U32 := 0xFFFF_FFFF

  /** Read at `pos`, the digest file `g` yields 40 hex characters that decode to `digest`. */
  ghost predicate Announces(g: FileImage, pos: nat, digest: Digest)
    requires pos <= |g.data|
  {
    var h := Read(g, pos, SHA1_HEX_LEN);
    h.ReadData? && |h.bytes| == SHA1_HEX_LEN && DecodeHex(h.bytes) == digest
  }

  class Dfu {
    const dev: Flash
    const sha1: seq<Byte> -> Digest
    const crcUpdate: (U32, seq<Byte>) -> U32
    /** `image_buffer[DFU_CHUNK_SIZE]`. */
    const imageBuffer: array<Byte>
    /** `gecko_expected_sha1_final[DFU_SHA1_LEN]`. */
    const expectedFinal: array<Byte>

    var state: AppState
    var chunkCnt: U32
    var chunkCheck: U32
    var offset: U32
    var fwImageSize: U32
    var status: int
    var requestedSlot: int
    /** `page` in `write_image_chunk_to_flash`. */
    var page: U32
    var fwUpgradeDone: bool
    var crc: U32

    /** `geckofile`: the image file and its read position. */
    var binFile: FileImage
    var binPos: nat
    /** `gecko_sha1_file`: the digest file and its read position. */
    var shaFile: FileImage
    var shaPos: nat

    var readbytes: int
    var totalreadbytes: int
    var totalwritebytes: int

    /** The bytes fed to `gecko_sha1_ctx` since `mbedtls_sha1_starts`. */
    var shaStream: seq<Byte>
    /** `gecko_sha1_output`. */
    var shaOutput: seq<Byte>
    /** `gecko_expected_sha1`: the hex characters read from the digest file. */
    var expectedHex: seq<Byte>

    ghost predicate Valid()
      reads this
    {
      && imageBuffer.Length == DFU_CHUNK_SIZE
      && expectedFinal.Length == DFU_SHA1_LEN
      && imageBuffer != expectedFinal && imageBuffer != dev.mem && expectedFinal != dev.mem
      && dev.Valid()
      && binPos <= |binFile.data| && shaPos <= |shaFile.data|
      && |shaOutput| == DFU_SHA1_LEN && |expectedHex| == SHA1_HEX_LEN
    }

    /** The statics as the program image initialises them, before any update has run. */
    ghost predicate Fresh()
      reads this
    {
      && state == InitialState && !fwUpgradeDone
      && chunkCnt == 0 && chunkCheck == 0 && offset == 0 && fwImageSize == 0 && status == 0
    }

    constructor (dev: Flash, sha1: seq<Byte> -> Digest, crcUpdate: (U32, seq<Byte>) -> U32)
      requires dev.Valid()
      ensures Valid() && Fresh()
      ensures this.dev == dev && this.sha1 == sha1 && this.crcUpdate == crcUpdate
      ensures fresh(imageBuffer) && fresh(expectedFinal)
      ensures requestedSlot == -1 && page == 0 && crc == 0 && imageBuffer[..] == Zeros(DFU_CHUNK_SIZE)
    {
      this.dev := dev;
      this.sha1 := sha1;
      this.crcUpdate := crcUpdate;
      imageBuffer := new Byte[DFU_CHUNK_SIZE](_ => 0);
      expectedFinal := new Byte[DFU_SHA1_LEN](_ => 0);
      state := InitialState;
      chunkCnt, chunkCheck, offset, fwImageSize := 0, 0, 0, 0;
      status := 0;
      requestedSlot := -1;
      page := 0;
      fwUpgradeDone := false;
      crc := 0;
      binFile, binPos := FileImage([], 1), 0;
      shaFile, shaPos := FileImage([], 1), 0;
      readbytes, totalreadbytes, totalwritebytes := 0, 0, 0;
      shaStream := [];
      shaOutput := Zeros(DFU_SHA1_LEN);
      expectedHex := Zeros(SHA1_HEX_LEN);
      new;
      assert imageBuffer[..] == Zeros(DFU_CHUNK_SIZE);
    }

    /** `readbytes = fs_read(&geckofile, image_buffer, DFU_XFER_SIZE_2K)`; `r` names the read's outcome. */
    method ReadImageChunk() returns (ghost r: ReadResult)
      requires Valid()
      modifies this`readbytes, this`binPos, imageBuffer
      ensures Valid() && r == Read(binFile, old(binPos), DFU_XFER_SIZE_2K)
      ensures r.ReadFault? ==> readbytes == -EIO && binPos == old(binPos) && imageBuffer[..] == old(imageBuffer[..])
      ensures r.ReadData? ==>
        && readbytes == |r.bytes| && binPos == old(binPos) + |r.bytes|
        && imageBuffer[..] == r.bytes + old(imageBuffer[..])[|r.bytes|..]
        && imageBuffer[..readbytes] == r.bytes
    {
      r := Read(binFile, binPos, DFU_XFER_SIZE_2K);
      match Read(binFile, binPos, DFU_XFER_SIZE_2K)
      case ReadFault =>
        readbytes := -EIO;
      case ReadData(b) =>
        forall i | 0 <= i < |b| {
          imageBuffer[i] := b[i];
        }
        assert imageBuffer[..] == b + old(imageBuffer[..])[|b|..];
        readbytes := |b|;
        binPos := binPos + |b|;
    }

    /**
     * `get_gecko_fw_size`: reads the image file to its end, feeding every
     * chunk to SHA-1, and returns the number of bytes read. On a read error
     * it returns -1 as a `uint32_t` without finishing the digest.
     */
    method GetGeckoFwSize() returns (size: U32)
      requires Valid()
      modifies this`readbytes, this`binPos, this`totalreadbytes, this`shaStream, this`shaOutput, imageBuffer
      ensures Valid() && old(binPos) <= binPos
      ensures shaStream == old(shaStream) + binFile.data[old(binPos)..binPos]
      ensures Healthy(binFile) ==>
        && binPos == |binFile.data| && size == (binPos - old(binPos)) % TWO_32
        && (binPos - old(binPos) < TWO_32 ==> size == binPos - old(binPos))
        && shaOutput == sha1(old(shaStream) + binFile.data[old(binPos)..])
      ensures !Healthy(binFile) ==>
        binPos >= binFile.faultAt && size == SIZE_READ_ERROR && shaOutput == old(shaOutput)
    {
      ghost var data, start, stream0 := binFile.data, binPos, shaStream;
      totalreadbytes := 0;
      var notdone := true;
      while notdone
        invariant Valid() && binFile.data == data && start <= binPos <= |data|
        invariant !notdone ==> binPos == |data| && Healthy(binFile)
        invariant shaStream == stream0 + data[start..binPos]
        invariant totalreadbytes == binPos - start
        invariant shaOutput == old(shaOutput)
        decreases |data| - binPos, notdone
      {
        ghost var pos := binPos;
        ghost var rr := ReadImageChunk();
        if readbytes < 0 {
          return SIZE_READ_ERROR;
        }
        totalreadbytes := totalreadbytes + readbytes;
        SliceJoin(data, start, pos, binPos);
        shaStream := shaStream + imageBuffer[..readbytes];
        if readbytes == 0 {
          notdone := false;
        }
      }
      assert data[start..binPos] == data[start..];
      shaOutput := sha1(shaStream);
      size := totalreadbytes % TWO_32;
    }

    /**
     * `get_gecko_sha1`: reads exactly 40 hex characters from the digest file
     * and converts them into the expected digest; any other outcome of the
     * read fails with -1 and leaves the expected digest as it was.
     */
    method GetGeckoSha1() returns (rc: int)
      requires Valid()
      modifies this`readbytes, this`shaPos, this`expectedHex, expectedFinal
      ensures Valid()
      ensures var r := old(Read(shaFile, shaPos, SHA1_HEX_LEN));
        && (rc == 0 <==> r.ReadData? && |r.bytes| == SHA1_HEX_LEN)
        && (rc == 0 ==> expectedFinal[..] == DecodeHex(r.bytes))
        && (rc != 0 ==> rc == -1 && expectedFinal[..] == old(expectedFinal[..]))
    {
      match Read(shaFile, shaPos, SHA1_HEX_LEN)
      case ReadFault =>
        readbytes := -EIO;
        return -1;
      case ReadData(b) =>
        readbytes := |b|;
        shaPos := shaPos + |b|;
        expectedHex := b + expectedHex[|b|..];
        if readbytes != SHA1_HEX_LEN {
          return -1;
        }
        ShaHexToBin(expectedHex, expectedFinal, SHA1_HEX_LEN);
        assert expectedFinal[..] == DecodeHex(b);
        return 0;
    }

    /** `compare_sha1`: 0 when the computed digest equals the expected one, -1 otherwise. */
    method CompareSha1() returns (rc: int)
      requires Valid()
      ensures rc == 0 <==> shaOutput == expectedFinal[..]
      ensures rc == -1 <==> shaOutput != expectedFinal[..]
    {
      var fails := 0;
      var i := 0;
      while i < DFU_SHA1_LEN
        invariant 0 <= i <= DFU_SHA1_LEN
        invariant fails == 0
        invariant shaOutput[..i] == expectedFinal[..i]
      {
        if shaOutput[i] != expectedFinal[i] {
          fails := fails + 1;
          break;
        }
        i := i + 1;
      }
      if fails != 0 {
        rc := -1;
      } else {
        assert shaOutput == shaOutput[..i] && expectedFinal[..] == expectedFinal[..i];
        rc := 0;
      }
    }

    /** `memset(image_buffer, 0, sizeof(image_buffer))`. */
    method ClearImageBuffer()
      requires Valid()
      modifies imageBuffer
      ensures imageBuffer[..] == Zeros(DFU_CHUNK_SIZE)
    {
      forall i | 0 <= i < imageBuffer.Length {
        imageBuffer[i] := 0;
      }
    }

    /** What the chunk transfer reads and never changes. */
    ghost function Env(): Setting
      reads this
    {
      Setting(dev, binFile, requestedSlot, crcUpdate)
    }

    /** The statics the chunk transfer changes, with the image buffer and the flash contents. */
    ghost function Snap(): Statics
      reads this, imageBuffer, dev.mem
    {
      Statics(state, chunkCnt, chunkCheck, offset, fwImageSize, status, page, crc, binPos,
              readbytes, totalreadbytes, totalwritebytes, imageBuffer[..], dev.mem[..])
    }

    /**
     * `write_image_chunk_to_flash`. A page reset only rewinds the page
     * counter; otherwise the call is `WritePage`: the next page is erased (a
     * failure there is ignored), programmed with all 2048 bytes of
     * `writedata`, and its first `imageBytes` bytes read back and compared.
     */
    method WriteImageChunkToFlash(imageBytes: int, writedata: seq<Byte>, startSector: U32, pageReset: bool) returns (ret: int)
      requires Valid() && |writedata| == DFU_CHUNK_SIZE && (!pageReset ==> 0 <= imageBytes <= DFU_CHUNK_SIZE)
      modifies this`page, this`totalwritebytes, dev.mem
      ensures Valid()
      ensures pageReset ==>
        ret == 0 && page == 0 && dev.mem[..] == old(dev.mem[..]) && totalwritebytes == old(totalwritebytes)
      ensures !pageReset ==> (Snap(), ret) == WritePage(Env(), old(Snap()), imageBytes, writedata, startSector)
    {
      if pageReset {
        page := 0;
        return 0;
      }
      var addr := PageAddr(startSector, page);
      page := (page + 1) % TWO_32;
      var _ := dev.Erase(addr, DFU_CHUNK_SIZE);
      var rc := dev.Write(addr, writedata);
      if rc != 0 {
        return -EIO;
      }
      var check := dev.Read(addr, imageBytes);
      if check != writedata[..imageBytes] {
        return -EIO;
      }
      totalwritebytes := totalwritebytes + imageBytes;
      return 0;
    }

    /** `file_read_flash`: the call is `ReadFlash` on the statics. */
    method FileReadFlash() returns (rc: int)
      requires Valid()
      modifies this`readbytes, this`binPos, this`totalreadbytes, this`status, this`crc, this`page,
        this`totalwritebytes, imageBuffer, dev.mem
      ensures Valid() && (Snap(), rc) == ReadFlash(Env(), old(Snap()))
    {
      ghost var e, s := Env(), Snap();
      var r := ReadImageChunk();
      if readbytes < 0 {
        status := -1;
        return -1;
      }
      totalreadbytes := totalreadbytes + readbytes;
      ghost var t := Loaded(s, r.bytes);
      assert Snap() == t;
      if readbytes > 0 {
        var data := imageBuffer[..];
        assert data == t.buf && readbytes == |r.bytes|;
        var _ := WriteImageChunkToFlash(readbytes, data, SlotBase(requestedSlot), false);
        assert Env() == e;
        ghost var u := WritePage(e, t, |r.bytes|, t.buf, SlotBase(e.slot)).0;
        assert Snap() == u;
        crc := crcUpdate(crc, imageBuffer[..readbytes]);
        ReadFlashStores(e, s, r.bytes);
      }
      status := 0;
      return 0;
    }

    /** The last-chunk branch of the loop body: the call is `LastChunk` on the statics. */
    method WriteLastChunk() returns (step: Step)
      requires Valid()
      modifies this`state, this`readbytes, this`binPos, this`totalreadbytes,
        this`status, this`crc, this`page, this`totalwritebytes, imageBuffer, dev.mem
      ensures Valid() && (Snap(), step) == LastChunk(Env(), old(Snap()))
    {
      var rc := FileReadFlash();
      if rc != 0 {
        return Fail;
      }
      if status != 0 {
        return Leave;
      }
      state := FwUpgradeDone;
      return Leave;
    }

    /** The loop body after its first read: the call is `Branch` on the statics. */
    method ChunkBranch() returns (step: Step)
      requires Valid()
      modifies this`chunkCnt, this`offset, this`state, this`readbytes, this`binPos, this`totalreadbytes,
        this`status, this`crc, this`page, this`totalwritebytes, imageBuffer, dev.mem
      ensures Valid() && (Snap(), step) == Branch(Env(), old(Snap()))
    {
      if chunkCnt == 0 {
        if status != 0 {
          return Fail;
        }
      } else if chunkCnt == (chunkCheck + 0xFFFF_FFFF) % TWO_32 {
        step := WriteLastChunk();
        return;
      } else if status != 0 {
        return Leave;
      }
      offset := (offset + readbytes) % TWO_32;
      ClearImageBuffer();
      chunkCnt := (chunkCnt + 1) % TWO_32;
      return Continue;
    }

    /** One pass through the body of `while (offset <= fw_image_size)`: the call is `Pass` on the statics. */
    method ChunkPass() returns (step: Step)
      requires Valid()
      modifies this`chunkCnt, this`offset, this`state, this`readbytes, this`binPos, this`totalreadbytes,
        this`status, this`crc, this`page, this`totalwritebytes, imageBuffer, dev.mem
      ensures Valid() && (Snap(), step) == Pass(Env(), old(Snap()))
    {
      if chunkCnt != 0 {
        var rc := FileReadFlash();
        if rc != 0 {
          return Fail;
        }
      }
      step := ChunkBranch();
    }

    /**
     * The chunk loop `while (offset <= fw_image_size)` for at most `fuel`
     * passes: the call is `Run` on the statics.
     */
    method ChunkLoop(fuel: nat) returns (r: Option<Outcome>)
      requires Valid()
      modifies this`chunkCnt, this`offset, this`state, this`readbytes, this`binPos, this`totalreadbytes,
        this`status, this`crc, this`page, this`totalwritebytes, imageBuffer, dev.mem
      ensures Valid() && (Snap(), r) == Run(Env(), old(Snap()), fuel)
    {
      var left: nat := fuel;
      while offset <= fwImageSize
        invariant Valid() && Env() == old(Env())
        invariant Run(Env(), Snap(), left) == Run(Env(), old(Snap()), fuel)
        decreases left
      {
        if left == 0 {
          return Some(OutOfFuel);
        }
        ghost var s := Snap();
        var step := ChunkPass();
        left := left - 1;
        match step
        case Fail => return Some(Returned(-1));
        case Leave => return None;
        case Continue =>
      }
      return None;
    }

    /**
     * The digest file holds, at its read position, 40 hex characters that
     * decode to the SHA-1 of the bytes `get_gecko_fw_size` will feed the
     * digest: what it already holds and the rest of the image file.
     */
    ghost predicate DigestMatches()
      requires Valid()
      reads this
    {
      Announces(shaFile, shaPos, sha1(shaStream + binFile.data[binPos..]))
    }

    /**
     * The three checks that open the case `GECKO_FW_UPGRADE`: the size that
     * `get_gecko_fw_size` reports must be at least 2048, the digest file
     * must yield 40 hex characters, and they must decode to the digest of
     * the image. On a file read from its start, 0 exactly when the image
     * has 2048 bytes or more and its digest matches; -1 otherwise.
     */
    method CheckImage() returns (rc: int)
      requires Valid()
      modifies this`readbytes, this`binPos, this`totalreadbytes, this`shaStream, this`shaOutput,
        this`fwImageSize, this`shaPos, this`expectedHex, imageBuffer, expectedFinal
      ensures Valid() && (rc == 0 || rc == -1)
      ensures !Healthy(binFile) ==> fwImageSize == SIZE_READ_ERROR
      ensures !Healthy(binFile) ==>
        (rc == 0 <==> var h := old(Read(shaFile, shaPos, SHA1_HEX_LEN));
          h.ReadData? && |h.bytes| == SHA1_HEX_LEN && DecodeHex(h.bytes) == old(shaOutput))
      ensures Healthy(binFile) && old(binPos) == 0 && |binFile.data| < TWO_32 ==>
        && fwImageSize == |binFile.data|
        && (rc == 0 <==> DFU_CHUNK_SIZE <= |binFile.data| && old(DigestMatches()))
    {
      ghost var h := Read(shaFile, shaPos, SHA1_HEX_LEN);
      var size := GetGeckoFwSize();
      fwImageSize := size;
      if size == 0 || size < DFU_CHUNK_SIZE as U32 {
        return -1;
      }
      var got := GetGeckoSha1();
      if got != 0 {
        return -1;
      }
      assert h.ReadData? && |h.bytes| == SHA1_HEX_LEN && expectedFinal[..] == DecodeHex(h.bytes);
      rc := CompareSha1();
    }

    /**
     * The case `GECKO_FW_UPGRADE` of `dfu_gecko_write_image` up to its chunk
     * loop: the checks of `CheckImage`, then count the chunks, rewind the
     * image and clear the byte counters. On a healthy image read from its
     * start with the loop counters clear, it passes exactly when
     * `CheckImage` does, and then the chunk loop is ready to start.
     */
    method PrepareTransfer() returns (rc: int)
      requires Valid()
      modifies this`readbytes, this`binPos, this`totalreadbytes, this`totalwritebytes, this`chunkCheck,
        this`shaStream, this`shaOutput, this`fwImageSize, this`shaPos, this`expectedHex, imageBuffer, expectedFinal
      ensures Valid() && (rc == 0 || rc == -1)
      ensures !Healthy(binFile) ==> fwImageSize == SIZE_READ_ERROR
      ensures rc == 0 ==> binPos == 0 && totalreadbytes == 0 && totalwritebytes == 0
      ensures Healthy(binFile) && old(binPos) == 0 && |binFile.data| < TWO_32 ==>
        && (rc == 0 <==> DFU_CHUNK_SIZE <= |binFile.data| && old(DigestMatches()))
        && (rc == 0 && old(Unstarted()) ==> LoopReady(Env(), Snap()))
    {
      rc := CheckImage();
      if rc != 0 {
        return;
      }
      var size := fwImageSize;
      chunkCheck := size / DFU_CHUNK_SIZE as U32 + if size % DFU_CHUNK_SIZE as U32 != 0 then 1 else 0;
      binPos := 0;
      readbytes, totalreadbytes, totalwritebytes := 0, 0, 0;
    }

    /**
     * The case `GECKO_FW_UPGRADE` of `dfu_gecko_write_image`: the checks of
     * `PrepareTransfer`, then the chunk loop.
     */
    method UpgradeCase(fuel: nat) returns (r: Option<Outcome>)
      requires Valid()
      modifies this`chunkCnt, this`offset, this`state, this`readbytes, this`binPos, this`totalreadbytes,
        this`status, this`crc, this`page, this`totalwritebytes, imageBuffer, dev.mem,
        this`fwImageSize, this`chunkCheck, this`shaStream, this`shaOutput, this`shaPos, this`expectedHex, expectedFinal
      ensures Valid()
      ensures !Healthy(binFile) ==> fwImageSize == SIZE_READ_ERROR
      ensures Healthy(binFile) && old(binPos) == 0 && |binFile.data| < TWO_32 && !(DFU_CHUNK_SIZE <= |binFile.data| && old(DigestMatches())) ==>
        r == Some(Returned(-1)) && dev.mem[..] == old(dev.mem[..])
      ensures Healthy(binFile) && old(binPos) == 0 && DFU_CHUNK_SIZE <= |binFile.data| < TWO_32 && old(DigestMatches()) && old(Unstarted()) ==>
        && (|binFile.data| == DFU_CHUNK_SIZE ==> r == Some(OutOfFuel))
        && (Transferable(binFile.data) && fuel >= ChunkCount(|binFile.data|) ==>
              r == None && Effects() == Transferred(old(dev.mem[..]), old(crc)))
    {
      ghost var go := Healthy(binFile) && binPos == 0 && DFU_CHUNK_SIZE <= |binFile.data| < TWO_32 && DigestMatches() && Unstarted();
      ghost var m0, crc0 := dev.mem[..], crc;
      var rc := PrepareTransfer();
      if rc != 0 {
        return Some(Returned(-1));
      }
      ghost var e, start := Env(), Snap();
      assert start.mem == m0 && start.crc == crc0;
      r := ChunkLoop(fuel);
      assert Env() == e;
      if go {
        if |binFile.data| == DFU_CHUNK_SIZE {
          SingleChunkHangs(e, start, fuel);
        } else if fuel >= ChunkCount(|binFile.data|) {
          TransferCompletes(e, start, fuel);
        }
      }
    }

    /** The loop counters, the status and the page counter as the chunk loop needs them on its first pass. */
    ghost predicate Unstarted()
      reads this
    {
      offset == 0 && chunkCnt == 0 && status == 0 && page == 0 && readbytes == 0
    }

    /**
     * The statics on entering the state machine of `dfu_gecko_write_image`
     * from the program image's initial statics: both files open at their
     * start, the page counter reset, the flash `m0` and the CRC `crc0`.
     */
    ghost predicate Starting(m0: seq<Byte>, crc0: U32)
      reads this, dev.mem
    {
      && Valid() && !fwUpgradeDone && state == InitialState && binPos == 0 && shaPos == 0 && Unstarted()
      && dev.mem[..] == m0 && crc == crc0 && Healthy(binFile) && |binFile.data| < TWO_32
    }

    /**
     * After the first round on an image of two chunks or more: given one
     * round per chunk, the transfer is finished and the update marked done.
     */
    ghost predicate Completed(m0: seq<Byte>, crc0: U32, fuel: nat)
      reads this, imageBuffer, dev.mem
    {
      && Valid() && !fwUpgradeDone && Transferable(binFile.data) && |m0| == dev.mem.Length
      && (fuel >= ChunkCount(|binFile.data|) ==> Effects() == Transferred(m0, crc0))
    }

    /** What the transfer leaves behind: the state, the flash, the CRC and the two byte counters. */
    ghost function Effects(): (AppState, seq<Byte>, U32, int, int)
      reads this, imageBuffer, dev.mem
    {
      Effect(Snap())
    }

    /**
     * The `Effects` of transferring the image from the flash `m0` and the
     * CRC `crc0` with both byte counters cleared: the update marked done,
     * every chunk written to the requested slot, fed to the CRC, and
     * counted as written and as read.
     */
    ghost function Transferred(m0: seq<Byte>, crc0: U32): (AppState, seq<Byte>, U32, int, int)
      requires |m0| == dev.mem.Length && Transferable(binFile.data)
      reads this
    {
      Goal(Env(), m0, crc0, 0, 0)
    }

    /**
     * One round of `while (!fw_upgrade_done)`: the case for the current state
     * (`GECKO_INITIAL_STATE` starts the digest and falls through into
     * `GECKO_FW_UPGRADE`; `GECKO_FW_UPGRADE_DONE` reboots; any other state does
     * nothing). `None` means the loop goes round again.
     */
    method Round(fuel: nat, ghost m0: seq<Byte>, ghost crc0: U32) returns (r: Option<Outcome>)
      requires Valid()
      modifies this`chunkCnt, this`offset, this`state, this`readbytes, this`binPos, this`totalreadbytes,
        this`status, this`crc, this`page, this`totalwritebytes, imageBuffer, dev.mem,
        this`fwImageSize, this`chunkCheck, this`shaStream, this`shaOutput, this`shaPos, this`expectedHex, expectedFinal,
        this`fwUpgradeDone
      ensures Valid()
      ensures old(state) == FwUpgradeDone ==> r == Some(Rebooted) && fwUpgradeDone && Snap() == old(Snap())
      ensures old(state) != FwUpgradeDone ==> fwUpgradeDone == old(fwUpgradeDone)
      ensures old(Starting(m0, crc0)) ==>
        var d := binFile.data;
        var matches := Announces(shaFile, 0, sha1(d));
        && (!(DFU_CHUNK_SIZE <= |d| && matches) ==> r == Some(Returned(-1)) && dev.mem[..] == m0)
        && (|d| == DFU_CHUNK_SIZE && matches ==> r == Some(OutOfFuel))
        && (Transferable(d) && matches ==>
              && (fuel >= ChunkCount(|d|) ==> r == None)
              && (r == None ==> Completed(m0, crc0, fuel)))
    {
      ghost var starting := Starting(m0, crc0);
      if state == InitialState {
        state := FwUpgrade;
        shaStream := [];
        shaOutput := Zeros(DFU_SHA1_LEN);
      }
      if state == FwUpgrade {
        assert starting ==> shaStream + binFile.data[binPos..] == binFile.data;
        r := UpgradeCase(fuel);
      } else if state == FwUpgradeDone {
        fwUpgradeDone := true;
        r := Some(Rebooted);
      } else {
        r := None;
      }
    }

    /**
     * `dfu_gecko_write_image(slot, bin_file, sha_file)`, with each file given
     * as `None` when `fs_open` fails on it, and the state machine run for at
     * most `fuel` rounds. From the statics the program image starts with,
     * and for a healthy image file below 4 GiB: an image under 2048 bytes, or
     * one whose digest file does not announce its SHA-1, is refused with -1
     * and the flash is untouched; an image of exactly 2048 bytes never
     * finishes; and an image of two chunks or more, given one round per
     * chunk, is written page by page to the requested slot, fed to the CRC
     * and counted before the device reboots.
     */
    method WriteImage(slot: int, bin: Option<FileImage>, sha: Option<FileImage>, fuel: nat) returns (r: Outcome)
      requires Valid()
      modifies this`chunkCnt, this`offset, this`state, this`readbytes, this`binPos, this`totalreadbytes,
        this`status, this`crc, this`page, this`totalwritebytes, imageBuffer, dev.mem,
        this`fwImageSize, this`chunkCheck, this`shaStream, this`shaOutput, this`shaPos, this`expectedHex, expectedFinal,
        this`requestedSlot, this`binFile, this`shaFile, this`fwUpgradeDone
      ensures Valid() && requestedSlot == slot && (bin.Some? ==> binFile == bin.value)
      ensures bin.None? || sha.None? ==> r == Returned(1) && dev.mem[..] == old(dev.mem[..])
      ensures old(Fresh()) && bin.Some? && sha.Some? && Healthy(bin.value) && |bin.value.data| < TWO_32 && 0 < fuel ==>
        var d := bin.value.data;
        var matches := Announces(sha.value, 0, sha1(d));
        && (!(DFU_CHUNK_SIZE <= |d| && matches) ==> r == Returned(-1) && dev.mem[..] == old(dev.mem[..]))
        && (|d| == DFU_CHUNK_SIZE && matches ==> r == OutOfFuel)
        && (Transferable(d) && matches && fuel >= ChunkCount(|d|) ==>
              r == Rebooted && fwUpgradeDone && Effects() == Transferred(old(dev.mem[..]), old(crc)))
    {
      requestedSlot := slot;
      if bin.None? || sha.None? {
        if bin.Some? {
          binFile, binPos := bin.value, 0;
        }
        return Returned(1);
      }
      binFile, binPos := bin.value, 0;
      shaFile, shaPos := sha.value, 0;
      ResetCounters();

      assert old(Fresh()) && Healthy(binFile) && |binFile.data| < TWO_32 ==> Starting(old(dev.mem[..]), old(crc));
      r := RunStates(fuel, old(dev.mem[..]), old(crc));
    }

    /**
     * The dummy call of `write_image_chunk_to_flash` that rewinds the page
     * counter, then the three byte counters cleared.
     */
    method ResetCounters()
      requires Valid()
      modifies this`page, this`totalwritebytes, this`readbytes, this`totalreadbytes, dev.mem
      ensures Valid() && page == 0 && readbytes == 0 && totalreadbytes == 0 && totalwritebytes == 0
      ensures dev.mem[..] == old(dev.mem[..])
    {
      var _ := WriteImageChunkToFlash(readbytes, imageBuffer[..], GECKO_FLASH_SECTOR, true);
      readbytes, totalreadbytes, totalwritebytes := 0, 0, 0;
    }

    /**
     * The loop `while (!fw_upgrade_done)` of `dfu_gecko_write_image`, for at
     * most `fuel` rounds, entered with the statics of `Starting`; the result
     * is what the function returns, or `Rebooted`.
     */
    method RunStates(fuel: nat, ghost m0: seq<Byte>, ghost crc0: U32) returns (r: Outcome)
      requires Valid()
      modifies this`chunkCnt, this`offset, this`state, this`readbytes, this`binPos, this`totalreadbytes,
        this`status, this`crc, this`page, this`totalwritebytes, imageBuffer, dev.mem,
        this`fwImageSize, this`chunkCheck, this`shaStream, this`shaOutput, this`shaPos, this`expectedHex, expectedFinal,
        this`fwUpgradeDone
      ensures Valid()
      ensures old(Starting(m0, crc0)) && 0 < fuel ==>
        var d := binFile.data;
        var matches := Announces(shaFile, 0, sha1(d));
        && (!(DFU_CHUNK_SIZE <= |d| && matches) ==> r == Returned(-1) && dev.mem[..] == m0)
        && (|d| == DFU_CHUNK_SIZE && matches ==> r == OutOfFuel)
        && (Transferable(d) && matches && fuel >= ChunkCount(|d|) ==>
              r == Rebooted && fwUpgradeDone && Effects() == Transferred(m0, crc0))
    {
      ghost var matches := Announces(shaFile, 0, sha1(binFile.data));
      ghost var begun := Starting(m0, crc0) && 0 < fuel;
      ghost var happy := begun && Transferable(binFile.data) && matches && fuel >= ChunkCount(|binFile.data|);
      var left: nat := fuel;
      while !fwUpgradeDone
        invariant Valid() && left <= fuel
        invariant begun && left == fuel ==> Starting(m0, crc0)
        invariant begun && left < fuel ==> Transferable(binFile.data) && matches
        invariant happy && left < fuel ==> left == fuel - 1 && Completed(m0, crc0, fuel)
        decreases left
      {
        if left == 0 {
          return OutOfFuel;
        }
        left := left - 1;
        var res := Round(fuel, m0, crc0);
        if res.Some? {
          return res.value;
        }
      }
      return Returned(status);
    }
  }
}
