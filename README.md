# Gecko secondary-MCU firmware update, modelled in Dafny

This project models the A/B-slot firmware-update core of
`dfu_gecko/dfu_gecko_lib.c`. The core writes a new firmware image for a
secondary MCU (a Silicon Labs Pearl Gecko) into one of two flash slots. It
has five parts:

- **Image-header decoding** (`ImageHeader`). `deserialize_magic_hdr`
  decodes the MCUboot-style header little-endian at fixed offsets.
  `get_gecko_fw_version` does the same with a `memcpy` of the packed
  32-byte struct.
- **Slot decisions** (`SlotSelect`). `slot_version_cmp` is a three-way
  compare on (major, minor, revision). `get_oldest_slot` picks the slot to
  overwrite. `get_gecko_fw_version` reports the active slot. The flash reads
  each decision starts with become byte buffers passed in.
- **Digest handling** (`HexDigest` and the `GeckoDfu.Dfu` methods).
  `sha_hex_to_bin` turns the 40 ASCII-hex characters of the `.sha1` file
  into 20 bytes (base16 as in section 8 of RFC 4648, either letter case,
  nothing rejected). `get_gecko_sha1` gates that file on its length, and
  `compare_sha1` compares the digests byte by byte.
- **The chunk writer** (`GeckoDfu.Dfu` methods specified by `DfuLoop`
  functions).
  - `write_image_chunk_to_flash` keeps a static page cursor. It erases,
    programs and reads back 2048-byte pages.
  - `file_read_flash` reads the next chunk of the image, writes it to the
    requested slot and feeds it to the running CRC-32.
- **The orchestrator** (`GeckoDfu.Dfu.WriteImage`). `dfu_gecko_write_image`
  is a state machine:
  1. It opens both files and gates the image on size and digest.
  2. It counts the chunks and runs the chunk loop.
  3. It marks the update done and reboots.

The driver's file-scope statics become the fields of one `Dfu` object. Each
static function that changes them becomes a method with a `modifies` clause.

Each step of the chunk loop is proved equal to a pure function over a
snapshot of those statics (`DfuLoop.Statics`): `Pass`, `Run`, `ReadFlash` and
`WritePage`. The properties of the transfer are then proved about those
functions:

- every chunk lands, in file order, on pages 0..C-1 of the requested slot;
- nothing else in flash changes;
- every byte is counted as written and as read (the counters are unbounded
  here; see "Left out" for images of 2^31 bytes or more);
- the CRC runs over the image's byte stream;
- an image of exactly 2048 bytes never finishes.

`WriteImage` carries these properties up to the public entry point.

The other collaborators are modelled as follows:

- **Files** are a byte string with a position from which every read fails
  (`SourceFile.FileImage`). `fs_open` failing is an absent file (`None`).
- **Flash** is a class over a byte array (`FlashDevice.Flash`). Erased flash
  reads 0xFF, and faults are fixed per page address: an erase that fails, a
  program that fails, and a program that reports success but stores nothing.
- **SHA-1 and `crc32_ieee_update`** are functions held by the `Dfu` object,
  with no body assumed.
- **Running time.** `dfu_gecko_write_image` and the chunk loop may not
  terminate, so each takes a `fuel` bound. Running out of it is the outcome
  `OutOfFuel`.

The code behaves in several ways worth knowing. The model keeps each of them
as written:

- **The last page is padded with the previous chunk's tail.** On the
  last-chunk pass the code reads the chunk before the last, then reads the
  last chunk at once, with no `memset` in between. The last page is
  therefore padded with the tail of the previous chunk, not with zeros
  (`Transfer.PageImage`, `Transfer.LastPageNotZeroPadded`). The comment at
  line 366 says "zero pad".
- **An image of exactly 2048 bytes never finishes.** With one chunk,
  `chunk_cnt == chunk_check - 1 == 0` is never reached past the first pass,
  so the loop runs forever (`DfuLoop.SingleChunkHangs`).
- **A size read error slips through the size gate.** `get_gecko_fw_size`
  returns -1 through `uint32_t`, which becomes 0xFFFFFFFF
  (`GeckoDfu.Dfu.GetGeckoFwSize`, `GeckoDfu.Dfu.CheckImage`).
- **Write and erase failures are ignored.**
  - `file_read_flash` ignores the writer's result: it feeds the CRC and sets
    `status` to 0 anyway.
  - An erase failure only prints.
- **Bad hex is not rejected.** Non-hex characters go through unchecked
  `unsigned char` arithmetic (`HexDigest.NonHexAccepted`).
- **Ties are not broken.** `get_oldest_slot` returns -1 on a version tie,
  although the comment above it says a tie chooses slot 0
  (`SlotSelect.TieIsNotResolvedByBuild`).
- **The statics are never reset.** The statics `offset`, `chunk_cnt`,
  `state` and `fw_upgrade_done` keep their values between calls of
  `dfu_gecko_write_image`. `WriteImage`'s promises therefore start from the
  statics as the program image initialises them (`Fresh`).

## Model

| member | source | states |
|---|---|---|
| ImageHeader.Deserialize | dfu_gecko/dfu_gecko_lib.c:597-616 | the decoded header re-encodes to exactly the 28 bytes read, so no byte is lost or misplaced; `_pad1` keeps what the destination held |
| ImageHeader.DeserializeSerialize | dfu_gecko/dfu_gecko_lib.c:597-616 | decoding the little-endian layout of any header gives back magic, load address, header size, TLV size, image size, flags and the version fields; `_pad1` keeps what the destination held |
| ImageHeader.DeserializeReadsPrefix | dfu_gecko/dfu_gecko_lib.c:597-616 | the decoder reads no byte past offset 27: buffers agreeing on bytes 0..27 decode alike |
| ImageHeader.CopyHeader | dfu_gecko/dfu_gecko_lib.c:212-218 | the `memcpy` view of a 32-byte buffer re-encodes to exactly those 32 bytes |
| ImageHeader.CopyAgreesWithDeserialize | dfu_gecko/dfu_gecko_lib.c:597-616 | on a little-endian target the `memcpy` view and the decoder agree on every field the decoder writes |
| SlotSelect.SlotVersionCmp | dfu_gecko/dfu_gecko_lib.c:165-199 | 0 exactly when the first version is the newer release, 1 exactly when it is the older, -1 exactly when major, minor and revision are equal |
| SlotSelect.ReleaseKeyIsLexicographic | dfu_gecko/dfu_gecko_lib.c:165-199 | the release order used is the lexicographic order on (major, minor, revision), in both directions |
| SlotSelect.SlotVersionCmpSwap | dfu_gecko/dfu_gecko_lib.c:165-199 | swapping the arguments swaps the verdicts 0 and 1 and keeps -1 |
| SlotSelect.SlotVersionCmpIgnoresBuild | dfu_gecko/dfu_gecko_lib.c:165-199 | the build number never changes the verdict |
| SlotSelect.GetOldestSlot | dfu_gecko/dfu_gecko_lib.c:624-683 | only slot 0 valid gives 1; only slot 1 valid gives 0; neither valid gives 0; both valid gives the slot with the lower release, and -1 exactly on equal releases |
| SlotSelect.GetGeckoFwVersion | dfu_gecko/dfu_gecko_lib.c:201-268 | status -1 exactly when no slot holds `IMAGE_MAGIC` or both hold the same release; otherwise status 0 and the active slot is a valid one, the newer of two |
| SlotSelect.OldestIsNotActive | dfu_gecko/dfu_gecko_lib.c:624-683 | with the file's magic as `DFU_IMAGE_MAGIC`, whenever a slot is reported active the oldest slot is the other one, so the update never overwrites the running image |
| SlotSelect.OldestOfTwoReleases | dfu_gecko/dfu_gecko_lib.c:624-683 | two valid slots holding 1.2.3 and 1.2.4: slot 0 is the oldest |
| SlotSelect.TieIsNotResolvedByBuild | dfu_gecko/dfu_gecko_lib.c:617-683 | two valid slots differing only in build number give -1, not the 0 the comment promises |
| HexDigest.ShaHexToBin | dfu_gecko/dfu_gecko_lib.c:305-331 | `out[k]` is the pair value of characters 2k and 2k+1 for every full pair; an odd last character leaves its high half; no byte at or past ceil(len/2) changes |
| HexDigest.DecodeHex | dfu_gecko/dfu_gecko_lib.c:305-331 | one byte per pair of characters; where the second character gives a nibble below 16, as every hex digit does, the byte is the first nibble (mod 16) times 16 plus the second, so the bitwise OR acts as an addition |
| HexDigest.PairValueOfDigits | dfu_gecko/dfu_gecko_lib.c:310-327 | two hex digits of either case decode to 16 times the first digit's value plus the second's |
| HexDigest.DecodeHexEncode | dfu_gecko/dfu_gecko_lib.c:305-331 | decoding the base16 text of any byte string, upper or lower case, gives the string back |
| HexDigest.NibbleOfHexChar | dfu_gecko/dfu_gecko_lib.c:310-318 | each of the 22 hex digit characters gives its value |
| HexDigest.CaseInsensitive | dfu_gecko/dfu_gecko_lib.c:310-318 | 'a'..'f' and 'A'..'F' give the same nibble, 10..15 |
| HexDigest.NonHexAccepted | dfu_gecko/dfu_gecko_lib.c:310-318 | non-hex input is decoded, not rejected: "0g" decodes like "10", a space becomes 0xF0 |
| GeckoDfu.Dfu.GetGeckoSha1 | dfu_gecko/dfu_gecko_lib.c:334-345 | 0 exactly when the read yields 40 characters, and then the expected digest is their decoding; otherwise -1 with the expected digest unchanged |
| GeckoDfu.Dfu.CompareSha1 | dfu_gecko/dfu_gecko_lib.c:137-163 | 0 exactly when all 20 computed bytes equal the expected ones, -1 on any mismatch |
| GeckoDfu.Dfu.ReadImageChunk | dfu_gecko/dfu_gecko_lib.c:278 | `fs_read` of 2048 bytes: on success the buffer starts with the bytes read and keeps the rest, and the position advances; on a fault `readbytes` is -EIO and nothing else changes |
| GeckoDfu.Dfu.GetGeckoFwSize | dfu_gecko/dfu_gecko_lib.c:271-302 | on a readable file: reads it to its end, feeds every byte to SHA-1 and returns its length modulo 2^32; on a read error returns 0xFFFFFFFF with the digest unfinished |
| GeckoDfu.Dfu.ClearImageBuffer | dfu_gecko/dfu_gecko_lib.c:547 | the image buffer is all zeros |
| GeckoDfu.Dfu.WriteImageChunkToFlash | dfu_gecko/dfu_gecko_lib.c:347-381 | a page reset zeroes the page cursor, returns 0 and leaves the flash alone; otherwise the call is `DfuLoop.WritePage` on the statics |
| DfuLoop.WritePage | dfu_gecko/dfu_gecko_lib.c:347-381 | the page cursor advances by one (32-bit); the result is 0 exactly when the program call succeeds and the first `imageBytes` bytes at the page address read back equal to the data, -EIO otherwise; `totalwritebytes` grows by `imageBytes` exactly on success |
| DfuLoop.WritePageProgrammable | dfu_gecko/dfu_gecko_lib.c:347-381 | on a programmable page at `startSector + page * 2048` the call stores all 2048 bytes there, changes no other byte, returns 0 and counts `imageBytes`; an erase failure does not stop it, since the erase result is only printed |
| DfuLoop.WritePageFault | dfu_gecko/dfu_gecko_lib.c:362-370 | a failing program call returns -EIO and is not counted, and the page is at most erased |
| GeckoDfu.Dfu.FileReadFlash | dfu_gecko/dfu_gecko_lib.c:383-408 | the call is `DfuLoop.ReadFlash` on the statics |
| DfuLoop.ReadFlash | dfu_gecko/dfu_gecko_lib.c:383-408 | 0 exactly when the read succeeds, and then `status` is 0 whatever the writer reported; a failed read sets `status` to -1, returns -1 and leaves flash, position and page cursor alone; the loop counters are never touched |
| DfuLoop.ReadFlashChunk | dfu_gecko/dfu_gecko_lib.c:383-408 | on a readable image, the read at chunk w returns the whole chunk, writes its page to page w of the requested slot and feeds it to the CRC, as the transfer's plan prescribes |
| GeckoDfu.Dfu.WriteLastChunk | dfu_gecko/dfu_gecko_lib.c:524-537 | the call is `DfuLoop.LastChunk` on the statics |
| GeckoDfu.Dfu.ChunkBranch | dfu_gecko/dfu_gecko_lib.c:517-548 | the call is `DfuLoop.Branch` on the statics |
| GeckoDfu.Dfu.ChunkPass | dfu_gecko/dfu_gecko_lib.c:512-548 | the call is `DfuLoop.Pass` on the statics |
| GeckoDfu.Dfu.ChunkLoop | dfu_gecko/dfu_gecko_lib.c:511-549 | the loop is `DfuLoop.Run` on the statics |
| DfuLoop.PassFirst | dfu_gecko/dfu_gecko_lib.c:517-523 | the first pass reads nothing and goes round again |
| DfuLoop.PassMiddle | dfu_gecko/dfu_gecko_lib.c:512-548 | an in-between pass reads one chunk, writes its page and goes round again |
| DfuLoop.PassLast | dfu_gecko/dfu_gecko_lib.c:524-537 | the pass at `chunk_cnt == chunk_check - 1` reads twice, writes the last two pages, marks the update done and leaves |
| DfuLoop.LastPass | dfu_gecko/dfu_gecko_lib.c:524-537 | the loop leaves on its last pass with the whole plan carried out |
| DfuLoop.Run | dfu_gecko/dfu_gecko_lib.c:511-549 | the loop never changes `chunk_check` or `fw_image_size`; it ends only by being left, by returning -1, or (in the model) by running out of fuel with its condition `offset <= fw_image_size` still true |
| DfuLoop.RunFinishes | dfu_gecko/dfu_gecko_lib.c:511-549 | from any pass of a clean transfer, given fuel for the passes left, the loop reaches the end of the plan and is left |
| DfuLoop.TransferCompletes | dfu_gecko/dfu_gecko_lib.c:498-549 | from the statics the upgrade case sets up, an image of two chunks or more is transferred whole: pages 0..C-1 of the slot written in file order, C chunks fed to the CRC, counted as written and read, and the state `GECKO_FW_UPGRADE_DONE` |
| DfuLoop.PassIdle | dfu_gecko/dfu_gecko_lib.c:517-548 | on a one-chunk image every pass goes round again and keeps the loop idle |
| DfuLoop.RunIdle | dfu_gecko/dfu_gecko_lib.c:511-549 | an idle loop runs out of any fuel |
| DfuLoop.SingleChunkHangs | dfu_gecko/dfu_gecko_lib.c:498-549 | an image of exactly 2048 bytes never leaves the loop |
| Transfer.ChunkCount | dfu_gecko/dfu_gecko_lib.c:498-501 | `chunk_check` is the least number of 2048-byte chunks covering the image |
| Transfer.PageImageStartsWithChunk | dfu_gecko/dfu_gecko_lib.c:524-537 | every page starts with its chunk of the image; only the last page's tail is padding |
| Transfer.LastPagePadding | dfu_gecko/dfu_gecko_lib.c:524-537 | the bytes of the last page past its chunk are the image bytes one chunk earlier, the tail of the chunk before it, not the zeros the comment at line 366 announces |
| Transfer.LastPageNotZeroPadded | dfu_gecko/dfu_gecko_lib.c:366 | a 2049-byte image of 0xFF bytes pads its last page with 0xFF, not zeros |
| Transfer.PagesHoldImage | dfu_gecko/dfu_gecko_lib.c:511-549 | the pages laid end to end begin with the whole image |
| Transfer.BurnPrefix | dfu_gecko/dfu_gecko_lib.c:511-549 | with every page of the slot programmable, after w pages the slot holds pages 0..w-1 and every other byte is unchanged |
| Transfer.BurnCount | dfu_gecko/dfu_gecko_lib.c:378 | after w pages, `totalwritebytes` has counted min(w * 2048, size) bytes |
| Transfer.BurnIntact | dfu_gecko/dfu_gecko_lib.c:511-549 | after the whole transfer the slot holds the image byte for byte, nothing below the slot or past its C pages changes, and every image byte is counted as written |
| Transfer.CrcOverStream | dfu_gecko/dfu_gecko_lib.c:403 | for a streaming CRC update, the running CRC after w chunks is one update over the first w * 2048 bytes of the image (not the padded pages) |
| GeckoDfu.Dfu.CheckImage | dfu_gecko/dfu_gecko_lib.c:479-495 | on a readable image below 4 GiB read from its start: the size is the image's length, and 0 exactly when the image has at least 2048 bytes and the digest file announces its SHA-1, -1 otherwise; on a read error the size is 0xFFFFFFFF, which passes the size gate, so the verdict is 0 exactly when the digest file yields 40 characters that decode to the SHA-1 output as it stood, never finished over the image |
| GeckoDfu.Dfu.PrepareTransfer | dfu_gecko/dfu_gecko_lib.c:479-509 | passes exactly when `CheckImage` does; then the file is rewound, the byte counters are cleared, `chunk_check` is the chunk count, and the chunk loop is ready to start |
| GeckoDfu.Dfu.UpgradeCase | dfu_gecko/dfu_gecko_lib.c:476-551 | a refused image returns -1 with the flash untouched; an accepted 2048-byte image never finishes; an accepted image of two chunks or more, given one pass per chunk, is transferred whole (as `TransferCompletes`) |
| GeckoDfu.Dfu.Round | dfu_gecko/dfu_gecko_lib.c:463-569 | `GECKO_FW_UPGRADE_DONE` reboots and changes no static of the transfer; from the starting statics the first round refuses, hangs or completes as `UpgradeCase` says |
| GeckoDfu.Dfu.ResetCounters | dfu_gecko/dfu_gecko_lib.c:456-461 | the page cursor and the three byte counters are 0 and the flash is unchanged |
| GeckoDfu.Dfu.RunStates | dfu_gecko/dfu_gecko_lib.c:463-572 | from the starting statics: refused returns -1 with the flash untouched; a 2048-byte image runs out of fuel; an image of two chunks or more, with fuel enough, reboots with the transfer complete |
| GeckoDfu.Dfu.WriteImage | dfu_gecko/dfu_gecko_lib.c:411-573 | a missing file returns 1 with the flash untouched; from the initial statics, with a readable image below 4 GiB: an image under 2048 bytes or whose digest file does not announce its SHA-1 returns -1 with the flash untouched; a 2048-byte image never finishes; an image of two chunks or more is written to the requested slot, fed to the CRC and counted, and the device reboots |
| GeckoDfu.Dfu.constructor | dfu_gecko/dfu_gecko_lib.c:83-106 | the statics as the program image initialises them |

## Left out

- Console output (`printf`, `printk`, `LOG_*`) is not modelled; it has no effect on the state.
- `fs_open`, `fs_read`, `fs_seek` and `fs_close` are not modelled as file-system code. A file is its bytes plus the position from which reads fail, and `fs_open` failing is the absent value `None`. `fs_close` has no effect here.
- SHA-1 (mbedtls) and `crc32_ieee_update` are held as functions by `Dfu`. No property of either is assumed, except the streaming property that `Transfer.CrcOverStream` takes as its premise.
- The Zephyr flash driver becomes `FlashDevice.Flash`, a byte array with fixed per-page faults. `flash_read` never fails there: the code ignores its result.
- `k_sleep` and `sys_reboot` become the outcome `Rebooted`. Nothing after the reboot is modelled.
- The file-name table `dfu_files_mcu` is static data with no logic, so it is not modelled.
- `dfu_mcu_firmware_upgrade` (lines 575-581) is not modelled separately. It prints and then returns what `dfu_gecko_write_image` returns, which is `GeckoDfu.Dfu.WriteImage`.
- The file names copied with `strcpy` are not modelled. The files arrive already opened, or absent.
- `DFU_IMAGE_MAGIC` and the header length read by `get_oldest_slot` come from a header that is not part of this model. The magic is a parameter, and the buffer needs at least the 28 bytes the decoder reads. The slot addresses `DFU_SLOT0_FLASH_ADDR` and `DFU_SLOT1_FLASH_ADDR` matter only to the flash reads, which become the buffers passed in.
- SlotSelect.GetGeckoFwVersion: the function returns only the status. The active slot it prints is returned beside it as `activeSlot`.
- GeckoDfu.Dfu.WriteImage: `dfu_gecko_write_image` can loop forever, so the model takes a `fuel` bound on the rounds of its state machine and on the passes of each chunk loop. Running out of fuel is the outcome `OutOfFuel`, and the success promise needs fuel of at least the number of chunks.
- GeckoDfu.Dfu.WriteImage: the contract covers the first call from the initial statics. On a later call the stale `offset`, `chunk_cnt` and `state` make the code behave differently, and the model runs that behaviour without promising anything about it.
- GeckoDfu.Dfu.WriteImage: the transfer promise needs an image file readable to its end and below 4 GiB. For an image with a read fault `WriteImage` promises nothing; `GeckoDfu.Dfu.CheckImage` states the 0xFFFFFFFF size and the verdict that follows from it.
- GeckoDfu.Dfu.UpgradeCase: its promises assume entry with the image read from its start and the loop counters clear, as on the first round.
- DfuLoop.TransferCompletes: the whole-image promise (`Transfer.BurnIntact`) needs every page of the slot inside the flash and programmable. With faulty pages the model computes the resulting flash contents (`Transfer.Burn`) but proves nothing further about them.
- Transfer.BurnIntact: `FlashDevice.Flash` programs a page whether or not it was erased. On the NOR flash this driver targets, programming cannot turn 0-bits back into 1-bits. After a failed erase the real page can end up corrupt, the read-back would then report -EIO, and `file_read_flash` ignores that. The model's slot holds the image even after a failed erase, so `BurnIntact`, `DfuLoop.TransferCompletes` and `DfuLoop.WritePageProgrammable` do not exclude erase faults.
- DfuLoop.TransferCompletes: `readbytes`, `totalreadbytes` and `totalwritebytes` are C `int` in the source (lines 95-97) but unbounded integers in the model. For an image of 2^31 bytes or more, `totalreadbytes += readbytes` and `totalwritebytes += imageBytes` overflow a signed `int`, which C leaves undefined. The counts promised through `DfuLoop.Goal` hold as stated only below 2^31 bytes; the flash contents, the CRC and the state do not depend on the counters.
- Transfer.BurnCount: `Written` is an unbounded count; it equals C's `totalwritebytes` only while that stays below 2^31.
- Transfer.BurnIntact: its clause `Written(...) == |d|` is the unbounded count, which matches C's `int` counter only for images below 2^31 bytes.
- GeckoDfu.Dfu.WriteImage: the written and read byte counts it promises for images below 4 GiB are unbounded; for images of 2^31 bytes or more the C counters would overflow, so those two counts are modelled only below 2^31 bytes.
- DfuLoop.TransferCompletes: `fs_read` is taken never to return fewer bytes than asked before the end of the file. The chunk loop's offset and page bookkeeping relies on every read but the last returning 2048 bytes, and a short read on the real file system is not modelled.
- HexDigest.ShaHexToBin: plain `char` is taken as unsigned, as on the ARM targets this driver is built for. With a signed `char`, bytes of 0x80 and above would take the `- '0'` branch of `sha_hex_to_bin` and decode to other values.
- The flash driver's own behaviour on overlapping or unaligned erase is not modelled. An erase of a page inside the flash either succeeds or fails as a whole.
- `GECKO_INIT_STATE` is never entered by the code. Like any other unknown state, the model takes it to the default case, which does nothing.
