/// The A/B slot decisions of dfu_gecko/dfu_gecko_lib.c: the version
/// comparator `slot_version_cmp`, the oldest-slot choice `get_oldest_slot`
/// and the active-image report `get_gecko_fw_version`. The two flash reads
/// each decision starts with become the byte buffers passed in.
module SlotSelect {
  import opened Bytes
  import opened ImageHeader

  /**
   * The release a version names, as one number ordered like the triple
   * (major, minor, revision) read most significant first. The build number
   * takes no part.
   */
  function ReleaseKey(v: ImageVersion): nat {
    v.major * 0x100_0000 + v.minor * 0x1_0000 + v.revision
  }

  predicate SameRelease(v1: ImageVersion, v2: ImageVersion) {
    v1.major == v2.major && v1.minor == v2.minor && v1.revision == v2.revision
  }

  /** The lexicographic reading of "newer", field by field. */
  predicate LexNewer(v1: ImageVersion, v2: ImageVersion) {
    v1.major > v2.major
    || (v1.major == v2.major && v1.minor > v2.minor)
    || (v1.major == v2.major && v1.minor == v2.minor && v1.revision > v2.revision)
  }

  /**
   * `slot_version_cmp(ver1, ver2)`: 0 when `ver1` is the newer release,
   * 1 when `ver2` is, -1 when the two name the same release.
   */
  function SlotVersionCmp(v1: ImageVersion, v2: ImageVersion): (r: int)
    ensures r == 0 <==> ReleaseKey(v1) > ReleaseKey(v2)
    ensures r == 1 <==> ReleaseKey(v1) < ReleaseKey(v2)
    ensures r == -1 <==> SameRelease(v1, v2)
  {
    if v1.major > v2.major then 0
    else if v1.major < v2.major then 1
    else if v1.minor > v2.minor then 0
    else if v1.minor < v2.minor then 1
    else if v1.revision > v2.revision then 0
    else if v1.revision < v2.revision then 1
    else -1
  }

  /** The numeric key orders versions exactly as the field-by-field reading does. */
  lemma ReleaseKeyIsLexicographic(v1: ImageVersion, v2: ImageVersion)
    ensures ReleaseKey(v1) > ReleaseKey(v2) <==> LexNewer(v1, v2)
    ensures ReleaseKey(v1) == ReleaseKey(v2) <==> SameRelease(v1, v2)
  {
  }

  /** Swapping the arguments swaps the verdicts 0 and 1 and keeps the tie. */
  lemma SlotVersionCmpSwap(v1: ImageVersion, v2: ImageVersion)
    ensures SlotVersionCmp(v2, v1) == if SlotVersionCmp(v1, v2) == -1 then -1 else 1 - SlotVersionCmp(v1, v2)
  {
  }

  /** The build number never influences the comparison. */
  lemma SlotVersionCmpIgnoresBuild(v1: ImageVersion, v2: ImageVersion, b1: U32, b2: U32)
    ensures SlotVersionCmp(v1.(buildNum := b1), v2.(buildNum := b2)) == SlotVersionCmp(v1, v2)
  {
  }

  /** Slot validity: the decoded magic equals the configured sentinel. */
  predicate HasImage(buf: seq<Byte>, magic: U32)
    requires |buf| >= DECODED_SIZE
  {
    Deserialize(UNSET, buf).magic == magic
  }

  function VersionOf(buf: seq<Byte>): ImageVersion
    requires |buf| >= DECODED_SIZE
  {
    Deserialize(UNSET, buf).ver
  }

  /**
   * `get_oldest_slot`, given the header bytes read from slot 0 and slot 1
   * and the value of `DFU_IMAGE_MAGIC`. An invalid slot is the oldest; with
   * neither valid the answer is 0; with both valid the slot holding the
   * lower release is the oldest and a tie yields -1.
   */
  function GetOldestSlot(hdr0: seq<Byte>, hdr1: seq<Byte>, magic: U32): (r: int)
    requires |hdr0| >= DECODED_SIZE && |hdr1| >= DECODED_SIZE
    ensures HasImage(hdr0, magic) && !HasImage(hdr1, magic) ==> r == 1
    ensures !HasImage(hdr0, magic) && HasImage(hdr1, magic) ==> r == 0
    ensures !HasImage(hdr0, magic) && !HasImage(hdr1, magic) ==> r == 0
    ensures HasImage(hdr0, magic) && HasImage(hdr1, magic) ==>
      && (r == -1 <==> SameRelease(VersionOf(hdr0), VersionOf(hdr1)))
      && (r == 0 <==> ReleaseKey(VersionOf(hdr0)) < ReleaseKey(VersionOf(hdr1)))
      && (r == 1 <==> ReleaseKey(VersionOf(hdr0)) > ReleaseKey(VersionOf(hdr1)))
  {
    var slot0 := Deserialize(UNSET, hdr0);
    var slot1 := Deserialize(UNSET, hdr1);
    var slot0HasImage := slot0.magic == magic;
    var slot1HasImage := slot1.magic == magic;
    var oldest := if slot1HasImage then 0 else if slot0HasImage then 1 else 0;
    if slot0HasImage && slot1HasImage then
      var newest := SlotVersionCmp(slot0.ver, slot1.ver);
      if newest < 0 then -1
      else if newest == 1 then 0 else 1
    else if !slot0HasImage && !slot1HasImage then
      0
    else
      oldest
  }

  /** What `get_gecko_fw_version` returns, with the active slot it reports. */
  datatype VersionReport = VersionReport(status: int, activeSlot: int)

  predicate HasGeckoImage(buf: seq<Byte>)
    requires |buf| == IMAGE_HEADER_SIZE
  {
    CopyHeader(buf).magic == IMAGE_MAGIC
  }

  /**
   * `get_gecko_fw_version`, given the 32 header bytes of each slot. Status
   * 0 when at least one slot holds an image and no tie occurs, -1 otherwise;
   * the active slot is the only valid one, or the newer of two.
   */
  function GetGeckoFwVersion(hdr0: seq<Byte>, hdr1: seq<Byte>): (r: VersionReport)
    requires |hdr0| == IMAGE_HEADER_SIZE && |hdr1| == IMAGE_HEADER_SIZE
    ensures r.status == 0 || r.status == -1
    ensures r.status == -1 <==>
      (!HasGeckoImage(hdr0) && !HasGeckoImage(hdr1))
      || (HasGeckoImage(hdr0) && HasGeckoImage(hdr1)
          && SameRelease(CopyHeader(hdr0).ver, CopyHeader(hdr1).ver))
    ensures r.status == 0 ==>
      && (r.activeSlot == 0 || r.activeSlot == 1)
      && HasGeckoImage(if r.activeSlot == 0 then hdr0 else hdr1)
      && (HasGeckoImage(hdr0) && HasGeckoImage(hdr1) ==>
            ReleaseKey(CopyHeader(if r.activeSlot == 0 then hdr0 else hdr1).ver)
            > ReleaseKey(CopyHeader(if r.activeSlot == 0 then hdr1 else hdr0).ver))
  {
    var slot0 := CopyHeader(hdr0);
    var slot1 := CopyHeader(hdr1);
    var slot0HasImage := slot0.magic == IMAGE_MAGIC;
    var slot1HasImage := slot1.magic == IMAGE_MAGIC;
    var active := if slot1HasImage then 1 else if slot0HasImage then 0 else -1;
    if slot0HasImage && slot1HasImage then
      var newest := SlotVersionCmp(slot0.ver, slot1.ver);
      if newest < 0 then VersionReport(-1, newest) else VersionReport(0, newest)
    else if slot0HasImage || slot1HasImage then
      VersionReport(0, active)
    else
      VersionReport(-1, active)
  }

  /**
   * With the file's own magic as `DFU_IMAGE_MAGIC`, whenever
   * `get_gecko_fw_version` reports an active slot, `get_oldest_slot` picks
   * the other one: the update never overwrites the running image.
   */
  lemma OldestIsNotActive(hdr0: seq<Byte>, hdr1: seq<Byte>)
    requires |hdr0| == IMAGE_HEADER_SIZE && |hdr1| == IMAGE_HEADER_SIZE
    requires GetGeckoFwVersion(hdr0, hdr1).status == 0
    ensures GetOldestSlot(hdr0, hdr1, IMAGE_MAGIC) == 1 - GetGeckoFwVersion(hdr0, hdr1).activeSlot
  {
    CopyAgreesWithDeserialize(UNSET, hdr0);
    CopyAgreesWithDeserialize(UNSET, hdr1);
  }

  /** A slot whose header was written as `h` is valid exactly when `h.magic` matches. */
  lemma HasImageOfSerialized(h: ImageHeader, magic: U32)
    ensures HasImage(Serialize(h), magic) <==> h.magic == magic
    ensures VersionOf(Serialize(h)) == h.ver
  {
    DeserializeSerialize(UNSET, h);
  }

  /** Slot 0 at 1.2.3 and slot 1 at 1.2.4, both valid: slot 0 is the oldest. */
  lemma OldestOfTwoReleases(h0: ImageHeader, h1: ImageHeader, magic: U32)
    requires h0.magic == magic && h1.magic == magic
    requires h0.ver.major == 1 && h0.ver.minor == 2 && h0.ver.revision == 3
    requires h1.ver.major == 1 && h1.ver.minor == 2 && h1.ver.revision == 4
    ensures GetOldestSlot(Serialize(h0), Serialize(h1), magic) == 0
  {
    HasImageOfSerialized(h0, magic);
    HasImageOfSerialized(h1, magic);
  }

  /**
   * Two valid slots that differ only in build number: no slot is chosen,
   * although the comment above `get_oldest_slot` promises slot 0 on a tie.
   */
  lemma TieIsNotResolvedByBuild(h0: ImageHeader, h1: ImageHeader, magic: U32)
    requires h0.magic == magic && h1.magic == magic
    requires SameRelease(h0.ver, h1.ver) && h0.ver.buildNum != h1.ver.buildNum
    ensures GetOldestSlot(Serialize(h0), Serialize(h1), magic) == -1
  {
    HasImageOfSerialized(h0, magic);
    HasImageOfSerialized(h1, magic);
  }
}
