/// The chunk transfer of `dfu_gecko_write_image` (dfu_gecko/dfu_gecko_lib.c)
/// as functions on the statics it changes: `write_image_chunk_to_flash`,
/// `file_read_flash`, one pass of the loop `while (offset <= fw_image_size)`
/// and the loop itself. The methods of `GeckoDfu.Dfu` are proved to change
/// their fields exactly as these functions say; what the transfer achieves
/// is proved here, once, about the functions.
module DfuLoop {
  import opened Bytes
  import opened FlashDevice
  import opened SourceFile
  import opened Transfer

  /** `gecko_app_state_t`. */
  datatype AppState = InitialState | InitState | FwUpgrade | FwUpgradeDone

  /** How `dfu_gecko_write_image` ends: it returns a code, reboots the device, or (in the model) runs out of fuel. */
  datatype Outcome = Returned(code: int) | Rebooted | OutOfFuel

  /** What the transfer reads but never changes: the flash, the open image file, the requested slot and the CRC-32 update. */
  datatype Setting = Setting(dev: Flash, image: FileImage, slot: int, crcUpdate: (U32, seq<Byte>) -> U32)

  /**
   * The statics the transfer changes, with the read position of the image
   * file, the contents of `image_buffer` and the contents of the flash.
   */
  datatype Statics = Statics(
    state: AppState, chunkCnt: U32, chunkCheck: U32, offset: U32, fwImageSize: U32, status: int,
    page: U32, crc: U32, pos: nat, readbytes: int, totalreadbytes: int, totalwritebytes: int,
    buf: seq<Byte>, mem: seq<Byte>)

  /** Shapes every state of the transfer has: a 2048-byte buffer, the flash's size, a position inside the file. */
  predicate Wf(e: Setting, s: Statics) {
    |s.buf| == DFU_CHUNK_SIZE && |s.mem| == e.dev.mem.Length && s.pos <= |e.image.data|
  }

  /**
   * `write_image_chunk_to_flash(imageBytes, data, startSector, GECKO_INCRE_PAGE)`:
   * the page counter advances, the page is erased and programmed with all of
   * `data`, and only a page whose first `imageBytes` bytes read back equal is
   * counted and reported as 0.
   */
  function WritePage(e: Setting, s: Statics, imageBytes: nat, data: seq<Byte>, startSector: U32): (r: (Statics, int))
    requires Wf(e, s) && |data| == DFU_CHUNK_SIZE && imageBytes <= DFU_CHUNK_SIZE
    ensures Wf(e, r.0)
    ensures r.1 == 0 || r.1 == -EIO
    ensures r.0.page == (s.page + 1) % TWO_32
    ensures r.0.totalwritebytes == s.totalwritebytes + if r.1 == 0 then imageBytes else 0
    ensures var addr := PageAddr(startSector, s.page);
      r.1 == 0 <==> e.dev.ProgramRc(addr, DFU_CHUNK_SIZE) == 0 && r.0.mem[addr..addr + imageBytes] == data[..imageBytes]
  {
    var addr := PageAddr(startSector, s.page);
    var ok := BurnVerified(e.dev, s.mem, addr, data, imageBytes);
    (s.(page := (s.page + 1) % TWO_32,
        mem := Burned(e.dev, s.mem, addr, data),
        totalwritebytes := s.totalwritebytes + if ok then imageBytes else 0),
     if ok then 0 else -EIO)
  }

  /** On a programmable page the write stores `data` there, changes nothing else, succeeds and is counted. */
  lemma WritePageProgrammable(e: Setting, s: Statics, imageBytes: nat, data: seq<Byte>, startSector: U32)
    requires Wf(e, s) && |data| == DFU_CHUNK_SIZE && imageBytes <= DFU_CHUNK_SIZE
    requires PageAddr(startSector, s.page) + DFU_CHUNK_SIZE <= |s.mem|
    requires PageAddr(startSector, s.page) !in e.dev.programFaults
    requires PageAddr(startSector, s.page) !in e.dev.lossyPrograms
    ensures WritePage(e, s, imageBytes, data, startSector).1 == 0
    ensures WritePage(e, s, imageBytes, data, startSector).0.mem == Overlay(s.mem, PageAddr(startSector, s.page), data)
    ensures WritePage(e, s, imageBytes, data, startSector).0.totalwritebytes == s.totalwritebytes + imageBytes
  {
    BurnPageVerified(e.dev, s.mem, PageAddr(startSector, s.page), data, imageBytes);
    BurnPage(e.dev, s.mem, PageAddr(startSector, s.page), data);
  }

  /** A page whose program call fails is reported as -EIO and not counted, and the flash is at most erased. */
  lemma WritePageFault(e: Setting, s: Statics, imageBytes: nat, data: seq<Byte>, startSector: U32)
    requires Wf(e, s) && |data| == DFU_CHUNK_SIZE && imageBytes <= DFU_CHUNK_SIZE
    requires PageAddr(startSector, s.page) in e.dev.programFaults
    ensures WritePage(e, s, imageBytes, data, startSector).1 == -EIO
    ensures WritePage(e, s, imageBytes, data, startSector).0.totalwritebytes == s.totalwritebytes
    ensures WritePage(e, s, imageBytes, data, startSector).0.mem
         == e.dev.Erased(s.mem, PageAddr(startSector, s.page), DFU_CHUNK_SIZE)
  {
  }

  /**
   * `file_read_flash`: reads up to 2048 bytes of the image into the buffer.
   * A failed read sets `status` to -1 and returns -1. A non-empty chunk is
   * written to the next page of the requested slot, whatever the write
   * reports, and fed to the running CRC; then `status` is 0 and so is the
   * result.
   */
  function ReadFlash(e: Setting, s: Statics): (r: (Statics, int))
    requires Wf(e, s)
    ensures Wf(e, r.0)
    ensures r.1 == 0 <==> s.pos < e.image.faultAt
    ensures r.1 != 0 ==> r.1 == -1 && r.0.status == -1 && r.0.mem == s.mem && r.0.pos == s.pos && r.0.page == s.page
    ensures r.0.state == s.state && r.0.chunkCnt == s.chunkCnt && r.0.chunkCheck == s.chunkCheck
    ensures r.0.offset == s.offset && r.0.fwImageSize == s.fwImageSize
    ensures r.1 == 0 ==> r.0.status == 0 && r.0.pos == s.pos + r.0.readbytes && 0 <= r.0.readbytes <= DFU_XFER_SIZE_2K
  {
    match Read(e.image, s.pos, DFU_XFER_SIZE_2K)
    case ReadFault => (s.(readbytes := -EIO, status := -1), -1)
    case ReadData(b) =>
      var t := Loaded(s, b);
      if |b| > 0 then
        var u := WritePage(e, t, |b|, t.buf, SlotBase(e.slot)).0;
        (u.(crc := e.crcUpdate(u.crc, b), status := 0), 0)
      else
        (t.(status := 0), 0)
  }

  /** The statics after `fs_read` delivered `b` into the buffer, before anything is written. */
  function Loaded(s: Statics, b: seq<Byte>): (t: Statics)
    requires |b| <= |s.buf|
  {
    s.(readbytes := |b|, pos := s.pos + |b|, buf := b + s.buf[|b|..], totalreadbytes := s.totalreadbytes + |b|)
  }

  /** `ReadFlash` when `fs_read` delivers a non-empty `b`. */
  lemma ReadFlashStores(e: Setting, s: Statics, b: seq<Byte>)
    requires Wf(e, s) && Read(e.image, s.pos, DFU_XFER_SIZE_2K) == ReadData(b) && |b| > 0
    ensures var u := WritePage(e, Loaded(s, b), |b|, Loaded(s, b).buf, SlotBase(e.slot)).0;
      ReadFlash(e, s) == (u.(crc := e.crcUpdate(u.crc, b), status := 0), 0)
  {
  }

  /** The result of one pass through the loop body: go round again, leave the loop, or return -1. */
  datatype Step = Continue | Leave | Fail

  /** The tail of every pass that goes round again: `offset += readbytes`, clear the buffer, `chunk_cnt++`. */
  function Advance(s: Statics): Statics {
    s.(offset := (s.offset + s.readbytes) % TWO_32, buf := Zeros(DFU_CHUNK_SIZE),
       chunkCnt := (s.chunkCnt + 1) % TWO_32)
  }

  /**
   * The last-chunk branch of the loop body: read and write the last chunk;
   * a failed read returns -1, otherwise the update is marked done (when
   * `status` is 0) and the loop is left.
   */
  function LastChunk(e: Setting, s: Statics): (r: (Statics, Step))
    requires Wf(e, s)
    ensures Wf(e, r.0) && Keeps(s, r.0)
  {
    var (t, rc) := ReadFlash(e, s);
    if rc != 0 then (t, Fail)
    else if t.status != 0 then (t, Leave)
    else (t.(state := FwUpgradeDone), Leave)
  }

  /**
   * The loop body after its first read: the first pass fails on a non-zero
   * `status`; the pass with `chunk_cnt == chunk_check - 1` (in 32-bit
   * arithmetic) is the last-chunk branch; any other pass leaves on a
   * non-zero `status`. A pass that does not leave advances `offset`, clears
   * the buffer and counts the chunk.
   */
  function Branch(e: Setting, s: Statics): (r: (Statics, Step))
    requires Wf(e, s)
    ensures Wf(e, r.0) && Keeps(s, r.0)
  {
    if s.chunkCnt == 0 then
      if s.status != 0 then (s, Fail) else (Advance(s), Continue)
    else if s.chunkCnt == (s.chunkCheck + 0xFFFF_FFFF) % TWO_32 then LastChunk(e, s)
    else if s.status != 0 then (s, Leave)
    else (Advance(s), Continue)
  }

  /** One pass through the loop body: every pass but the first starts by reading a chunk; a failed read returns -1. */
  function Pass(e: Setting, s: Statics): (r: (Statics, Step))
    requires Wf(e, s)
    ensures Wf(e, r.0) && Keeps(s, r.0)
  {
    var (t, rc) := if s.chunkCnt != 0 then ReadFlash(e, s) else (s, 0);
    if rc != 0 then (t, Fail) else Branch(e, t)
  }

  /** The loop never changes `chunk_check` or `fw_image_size`. */
  predicate Keeps(s: Statics, t: Statics) {
    t.chunkCheck == s.chunkCheck && t.fwImageSize == s.fwImageSize
  }

  /**
   * The loop `while (offset <= fw_image_size)` for at most `fuel` passes:
   * `None` when it is left, `Some(Returned(-1))` when it returns, and
   * `Some(OutOfFuel)` when `fuel` passes did not end it.
   */
  function Run(e: Setting, s: Statics, fuel: nat): (r: (Statics, Option<Outcome>))
    requires Wf(e, s)
    ensures Wf(e, r.0) && Keeps(s, r.0)
    ensures r.1 == None || r.1 == Some(Returned(-1)) || r.1 == Some(OutOfFuel)
    ensures r.1 == Some(OutOfFuel) ==> r.0.offset <= r.0.fwImageSize
    decreases fuel
  {
    if !(s.offset <= s.fwImageSize) then (s, None)
    else if fuel == 0 then (s, Some(OutOfFuel))
    else
      var (t, step) := Pass(e, s);
      match step
      case Fail => (t, Some(Returned(-1)))
      case Leave => (t, None)
      case Continue => Run(e, t, fuel - 1)
  }

  /**
   * What the statics hold once chunks 0..w-1 of the image have been
   * transferred from the state `s0`: pages 0..w-1 of the requested slot
   * written, their bytes fed to the CRC and counted as written.
   */
  ghost function Expected(e: Setting, s0: Statics, w: nat): (seq<Byte>, U32, int)
    requires |s0.mem| == e.dev.mem.Length && Transferable(e.image.data) && w <= ChunkCount(|e.image.data|)
  {
    var d := e.image.data;
    (Burn(e.dev, s0.mem, SlotBase(e.slot), d, w), CrcOver(e.crcUpdate, s0.crc, d, w),
     s0.totalwritebytes + Written(e.dev, s0.mem, SlotBase(e.slot), d, w))
  }

  /** `Expected` for every w, tabulated; the loop's invariant refers to the table. */
  datatype Plan = Plan(mem: seq<seq<Byte>>, crc: seq<U32>, written: seq<int>)

  /** `p` tabulates `Expected(e, s0, w)` for w in 0..C. */
  ghost predicate Follows(e: Setting, s0: Statics, p: Plan) {
    var C := ChunkCount(|e.image.data|);
    && |s0.mem| == e.dev.mem.Length && Transferable(e.image.data) && |e.image.data| < TWO_32
    && |p.mem| == C + 1 && |p.crc| == C + 1 && |p.written| == C + 1
    && forall w {:trigger Expected(e, s0, w)} :: 0 <= w <= C ==> (p.mem[w], p.crc[w], p.written[w]) == Expected(e, s0, w)
  }

  /** The table of `Expected`. */
  ghost function PlanOf(e: Setting, s0: Statics): (p: Plan)
    requires |s0.mem| == e.dev.mem.Length && Transferable(e.image.data) && |e.image.data| < TWO_32
    ensures Follows(e, s0, p)
  {
    var C := ChunkCount(|e.image.data|);
    Plan(seq(C + 1, w requires 0 <= w < C + 1 => Expected(e, s0, w).0),
         seq(C + 1, w requires 0 <= w < C + 1 => Expected(e, s0, w).1),
         seq(C + 1, w requires 0 <= w < C + 1 => Expected(e, s0, w).2))
  }

  /** The statics agree with row `w` of the plan, and the page counter is past page w-1. */
  ghost predicate Through(p: Plan, s: Statics, w: nat) {
    && w < |p.mem| && w < |p.crc| && w < |p.written|
    && s.page == w && s.mem == p.mem[w] && s.crc == p.crc[w] && s.totalwritebytes == p.written[w]
  }

  /**
   * The statics at the head of pass `k` of a loop started in `s0` on a
   * readable image of at least two chunks, when nothing has gone wrong:
   * chunks 0..w-1 (w = k - 1, or 0 on the first pass) have been read and
   * transferred as the plan says.
   */
  ghost predicate AtChunk(e: Setting, s0: Statics, p: Plan, s: Statics, k: nat) {
    var d := e.image.data;
    var w := if k == 0 then 0 else k - 1;
    && Wf(e, s) && Healthy(e.image) && Follows(e, s0, p) && k < ChunkCount(|d|)
    && s.chunkCnt == k && s.chunkCheck == ChunkCount(|d|) && s.fwImageSize == |d|
    && s.status == 0 && s.state == s0.state
    && (k == 0 ==> s.readbytes == 0)
    && s.pos == w * 2048 && s.offset == w * 2048
    && s.totalreadbytes == s0.totalreadbytes + w * 2048
    && Through(p, s, w)
  }

  /** Where the loop of `AtChunk` ends: the last row of the plan reached, the whole image read, and the update marked done. */
  ghost predicate Reached(e: Setting, s0: Statics, p: Plan, s: Statics) {
    && s.state == FwUpgradeDone && s.pos == |e.image.data|
    && s.totalreadbytes == s0.totalreadbytes + |e.image.data|
    && Through(p, s, ChunkCount(|e.image.data|))
  }

  /** What a transfer leaves behind: the state, the flash, the CRC and the two byte counters. */
  function Effect(s: Statics): (AppState, seq<Byte>, U32, int, int) {
    (s.state, s.mem, s.crc, s.totalwritebytes, s.totalreadbytes)
  }

  /**
   * The `Effect` of transferring the whole image, from the flash `mem0`,
   * the CRC `crc0` and the counters `written0` and `read0`: the update
   * marked done, every chunk written to the requested slot, fed to the CRC,
   * and counted as written and as read.
   */
  ghost function Goal(e: Setting, mem0: seq<Byte>, crc0: U32, written0: int, read0: int): (AppState, seq<Byte>, U32, int, int)
    requires |mem0| == e.dev.mem.Length && Transferable(e.image.data)
  {
    var d := e.image.data;
    var C := ChunkCount(|d|);
    (FwUpgradeDone, Burn(e.dev, mem0, SlotBase(e.slot), d, C), CrcOver(e.crcUpdate, crc0, d, C),
     written0 + Written(e.dev, mem0, SlotBase(e.slot), d, C), read0 + |d|)
  }

  /**
   * `file_read_flash` at the start of chunk `w` with pages 0..w-1 done:
   * the chunk is read whole and the statics move on to row w+1 of the plan.
   * The buffer must hold the previous chunk when `w` is the last one (its
   * page is padded from it); before a full chunk it may hold anything.
   */
  lemma ReadFlashChunk(e: Setting, s0: Statics, p: Plan, s: Statics, w: nat)
    requires Wf(e, s) && Healthy(e.image) && Follows(e, s0, p) && Through(p, s, w)
    requires w < ChunkCount(|e.image.data|)
    requires w + 1 < ChunkCount(|e.image.data|) || (0 < w && s.buf == Chunk(e.image.data, w - 1))
    requires s.pos == w * 2048
    ensures ReadFlash(e, s).1 == 0
    ensures var t := ReadFlash(e, s).0;
      && t.readbytes == |Chunk(e.image.data, w)| && t.pos == s.pos + t.readbytes
      && t.totalreadbytes == s.totalreadbytes + t.readbytes
      && (w + 1 < ChunkCount(|e.image.data|) ==> t.buf == Chunk(e.image.data, w))
      && Through(p, t, w + 1)
  {
    var d := e.image.data;
    var c := Chunk(d, w);
    var before := Expected(e, s0, w);
    var after := Expected(e, s0, w + 1);
    ReadChunk(e.image, w);
    var buf := c + s.buf[|c|..];
    if w + 1 < ChunkCount(|d|) {
      PageImageFull(d, w);
      assert buf == PageImage(d, w);
    } else {
      assert buf == PageImage(d, w);
    }
    var addr := PageAddr(SlotBase(e.slot), w);
    assert after.0 == Burned(e.dev, before.0, addr, buf);
    assert after.1 == e.crcUpdate(before.1, c);
  }

  /** A pass that goes round again hands the loop on to the next pass. */
  lemma RunContinues(e: Setting, s: Statics, fuel: nat)
    requires Wf(e, s) && s.offset <= s.fwImageSize && 0 < fuel && Pass(e, s).1 == Continue
    ensures Run(e, s, fuel) == Run(e, Pass(e, s).0, fuel - 1)
  {
  }

  /** A pass that leaves ends the loop. */
  lemma RunLeaves(e: Setting, s: Statics, fuel: nat)
    requires Wf(e, s) && s.offset <= s.fwImageSize && 0 < fuel && Pass(e, s).1 == Leave
    ensures Run(e, s, fuel) == (Pass(e, s).0, None)
  {
  }

  /** A pass that reads a chunk, is not the last-chunk pass and finds `status` 0 goes round again. */
  lemma PassReads(e: Setting, s: Statics)
    requires Wf(e, s) && s.chunkCnt != 0 && ReadFlash(e, s).1 == 0
    requires ReadFlash(e, s).0.chunkCnt != (ReadFlash(e, s).0.chunkCheck + 0xFFFF_FFFF) % TWO_32
    ensures Pass(e, s) == (Advance(ReadFlash(e, s).0), Continue)
  {
  }

  /** The first pass reads nothing and only moves on to pass 1. */
  lemma PassFirst(e: Setting, s0: Statics, p: Plan, s: Statics)
    requires AtChunk(e, s0, p, s, 0)
    ensures Pass(e, s).1 == Continue
    ensures AtChunk(e, s0, p, Pass(e, s).0, 1)
  {
    assert Pass(e, s) == (Advance(s), Continue);
  }

  /** A pass before the last one writes one full chunk and moves on to the next pass. */
  lemma PassMiddle(e: Setting, s0: Statics, p: Plan, s: Statics, k: nat)
    requires AtChunk(e, s0, p, s, k) && 0 < k && k + 1 < ChunkCount(|e.image.data|)
    ensures Pass(e, s).1 == Continue
    ensures AtChunk(e, s0, p, Pass(e, s).0, k + 1)
  {
    ReadFlashChunk(e, s0, p, s, k - 1);
    assert (s.chunkCheck + 0xFFFF_FFFF) % TWO_32 == s.chunkCheck - 1;
    PassReads(e, s);
  }

  /**
   * The pass with `chunk_cnt == chunk_check - 1` writes the second-to-last
   * chunk, then at once the last one, marks the update done and leaves.
   */
  lemma PassLast(e: Setting, s0: Statics, p: Plan, s: Statics)
    requires Transferable(e.image.data) && AtChunk(e, s0, p, s, ChunkCount(|e.image.data|) - 1)
    ensures Pass(e, s).1 == Leave
    ensures Reached(e, s0, p, Pass(e, s).0)
  {
    var C := ChunkCount(|e.image.data|);
    ReadFlashChunk(e, s0, p, s, C - 2);
    var t := ReadFlash(e, s).0;
    assert t.chunkCnt == (t.chunkCheck + 0xFFFF_FFFF) % TWO_32;
    ReadFlashChunk(e, s0, p, t, C - 1);
    var u := ReadFlash(e, t).0;
    assert Pass(e, s) == (u.(state := FwUpgradeDone), Leave);
  }

  /** Before the last pass, the loop goes on to the state of the next pass. */
  lemma NextPass(e: Setting, s0: Statics, p: Plan, s: Statics, k: nat, fuel: nat) returns (t: Statics)
    requires AtChunk(e, s0, p, s, k) && k + 1 < ChunkCount(|e.image.data|) && 0 < fuel
    ensures AtChunk(e, s0, p, t, k + 1) && Run(e, s, fuel) == Run(e, t, fuel - 1)
  {
    if k == 0 {
      PassFirst(e, s0, p, s);
    } else {
      PassMiddle(e, s0, p, s, k);
    }
    RunContinues(e, s, fuel);
    t := Pass(e, s).0;
  }

  /** What the loop's result says about the transfer: how it ended and the statics the transfer changes. */
  function Summary(r: (Statics, Option<Outcome>)): (Option<Outcome>, AppState, nat, int, U32, seq<Byte>, U32, int) {
    (r.1, r.0.state, r.0.pos, r.0.totalreadbytes, r.0.page, r.0.mem, r.0.crc, r.0.totalwritebytes)
  }

  /** The `Summary` of a loop that is left with the last row of the plan reached. */
  function Target(e: Setting, s0: Statics, p: Plan): (Option<Outcome>, AppState, nat, int, U32, seq<Byte>, U32, int)
    requires ChunkCount(|e.image.data|) < |p.mem| && ChunkCount(|e.image.data|) < |p.crc|
    requires ChunkCount(|e.image.data|) < |p.written| && ChunkCount(|e.image.data|) < TWO_32
  {
    var C := ChunkCount(|e.image.data|);
    (None, FwUpgradeDone, |e.image.data|, s0.totalreadbytes + |e.image.data|, C, p.mem[C], p.crc[C], p.written[C])
  }

  /** The last pass leaves the loop with the plan carried out. */
  lemma LastPass(e: Setting, s0: Statics, p: Plan, s: Statics, fuel: nat)
    requires Transferable(e.image.data) && AtChunk(e, s0, p, s, ChunkCount(|e.image.data|) - 1) && 0 < fuel
    ensures Summary(Run(e, s, fuel)) == Target(e, s0, p)
  {
    PassLast(e, s0, p, s);
    RunLeaves(e, s, fuel);
  }

  /** From pass `k` on, with fuel for the remaining passes, the loop carries out the rest of the plan and is left. */
  lemma {:induction false} RunFinishes(e: Setting, s0: Statics, p: Plan, s: Statics, k: nat, fuel: nat)
    requires AtChunk(e, s0, p, s, k) && fuel >= ChunkCount(|e.image.data|) - k
    ensures Follows(e, s0, p) && Summary(Run(e, s, fuel)) == Target(e, s0, p)
    decreases ChunkCount(|e.image.data|) - k
  {
    if k == ChunkCount(|e.image.data|) - 1 {
      LastPass(e, s0, p, s, fuel);
    } else {
      var t := NextPass(e, s0, p, s, k, fuel);
      RunFinishes(e, s0, p, t, k + 1, fuel - 1);
    }
  }

  /**
   * The statics the `GECKO_FW_UPGRADE` case sets up before the loop, on a
   * readable image of at least one chunk, when the statics were as the
   * program image initialises them.
   */
  predicate LoopReady(e: Setting, s: Statics) {
    && Wf(e, s) && Healthy(e.image) && DFU_CHUNK_SIZE <= |e.image.data| < TWO_32
    && s.fwImageSize == |e.image.data| && s.chunkCheck == ChunkCount(|e.image.data|)
    && s.offset == 0 && s.chunkCnt == 0 && s.status == 0 && s.pos == 0 && s.readbytes == 0 && s.page == 0
  }

  /**
   * The loop transfers an image of at least two chunks: given one pass per
   * chunk, it leaves with every chunk written to the slot, counted, fed to
   * the CRC and read, and the update marked done.
   */
  lemma TransferCompletes(e: Setting, s: Statics, fuel: nat)
    requires LoopReady(e, s) && Transferable(e.image.data) && fuel >= ChunkCount(|e.image.data|)
    ensures Run(e, s, fuel).1 == None
    ensures Run(e, s, fuel).0.pos == |e.image.data|
    ensures Effect(Run(e, s, fuel).0) == Goal(e, s.mem, s.crc, s.totalwritebytes, s.totalreadbytes)
  {
    var p := PlanOf(e, s);
    RunFinishes(e, s, p, s, 0, fuel);
    var last := Expected(e, s, ChunkCount(|e.image.data|));
  }

  /**
   * The statics of the loop on an image of exactly one chunk: `offset`
   * follows the read position, which stops at 2048, and `status` stays 0.
   * `readbytes` is 2048 only just after the chunk was read.
   */
  predicate Idle(e: Setting, s: Statics) {
    && Wf(e, s) && Healthy(e.image) && |e.image.data| == DFU_CHUNK_SIZE
    && s.fwImageSize == DFU_CHUNK_SIZE && s.chunkCheck == 1 && s.status == 0
    && s.offset == s.pos && (s.pos == 0 || s.pos == DFU_CHUNK_SIZE)
    && (s.pos == 0 ==> s.chunkCnt <= 1)
    && (s.readbytes == 0 || (s.pos == DFU_CHUNK_SIZE && s.chunkCnt == 2))
  }

  /** On a one-chunk image no pass ever leaves the loop: `chunk_cnt` never equals `chunk_check - 1 == 0` past the first pass. */
  lemma PassIdle(e: Setting, s: Statics)
    requires Idle(e, s)
    ensures Pass(e, s).1 == Continue && Idle(e, Pass(e, s).0)
  {
  }

  /** Hence the loop on a one-chunk image runs out of any fuel. */
  lemma {:induction false} RunIdle(e: Setting, s: Statics, fuel: nat)
    requires Idle(e, s)
    ensures Run(e, s, fuel).1 == Some(OutOfFuel)
    decreases fuel
  {
    if fuel > 0 {
      PassIdle(e, s);
      RunIdle(e, Pass(e, s).0, fuel - 1);
    }
  }

  /** An image of exactly 2048 bytes is never finished: the loop does not end. */
  lemma SingleChunkHangs(e: Setting, s: Statics, fuel: nat)
    requires LoopReady(e, s) && |e.image.data| == DFU_CHUNK_SIZE
    ensures Run(e, s, fuel).1 == Some(OutOfFuel)
  {
    RunIdle(e, s, fuel);
  }
}
