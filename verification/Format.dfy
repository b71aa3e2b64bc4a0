/** The container and its fixed manifest (src/format.rs). */
module Format {
  import opened Bytes
  import opened Library
  import opened Merkle

  const MAGIC: seq<byte> := [0x6D, 0x4F, 0x54, 0x41]
  const TRAILER: seq<byte> := [0x76, 0x6B, 0x34, 0x39, 0x36]
  const HEADER_LEN: nat := 8
  const TRAILER_LEN: nat := 5
  const APP_FORMAT_VER: byte := 2
  const BOOT_FORMAT_VER: byte := 3
  const HASH_ALGO_SHA256: byte := 0x12
  const MFLAG_FULL: byte := 1
  const MFLAG_SIGNED: byte := 2
  const MFLAG_BOOTLOADER: byte := 4
  const APPROVAL_NONE: Hash4 := [0xFF, 0xFF, 0xFF, 0xFF]
  const MFL: nat := 197
  const SIGNED_LEN: nat := 129
  const HW_ID_LEN: nat := 32
  const MAX_APPLICATION_BLOCK_SIZE: nat := 2048
  const BOOTLOADER_BLOCK_SIZE: nat := 1024
  const BOOTLOADER_IMAGE_SIZE: nat := 0xA000
  const CODEC_FULL: byte := 0
  const CODEC_SEQUENTIAL: byte := 1
  const CODEC_IN_PLACE: byte := 2
  const U32_LIMIT: nat := 0x1_0000_0000

  type U32 = x: int | 0 <= x < 0x1_0000_0000

  type Hash8 = s: seq<byte> | |s| == 8 witness Fill(8, 0)

  // ---- little-endian words ----

  /** `to_le_bytes` of a u32. */
  function Le32(v: U32): (s: seq<byte>)
    ensures |s| == 4
  {
    [v % 0x100, v / 0x100 % 0x100, v / 0x1_0000 % 0x100, v / 0x100_0000]
  }

  function Digits(a: int, b: int, c: int, d: int): int {
    a + 0x100 * b + 0x1_0000 * c + 0x100_0000 * d
  }

  /** src/format.rs:352-354 */
  function RdU32(s: seq<byte>, off: nat): U32
    requires off + 4 <= |s|
  {
    Digits(s[off], s[off + 1], s[off + 2], s[off + 3])
  }

  /** The number a byte string stands for, lowest byte first. */
  function LeValue(s: seq<byte>): nat {
    if s == [] then 0 else s[0] + 256 * LeValue(s[1..])
  }

  /** Words are little-endian. */
  lemma WordIsLe(s: seq<byte>, off: nat)
    requires off + 4 <= |s|
    ensures RdU32(s, off) == LeValue(s[off..off + 4])
  {
    var a, b, c, d := s[off], s[off + 1], s[off + 2], s[off + 3];
    LeFirst(a, [b, c, d]);
    LeFirst(b, [c, d]);
    LeFirst(c, [d]);
    LeFirst(d, []);
    hide LeValue;
    assert s[off..off + 4] == [a] + [b, c, d] && [b, c, d] == [b] + [c, d] && [c, d] == [c] + [d] && [d] == [d] + [];
  }

  lemma LeFirst(b: byte, rest: seq<byte>)
    ensures LeValue([b] + rest) == b + 256 * LeValue(rest) && LeValue([]) == 0
  {
    assert ([b] + rest)[1..] == rest;
  }

  lemma ReadWritten(v: U32, s: seq<byte>, off: nat)
    requires off + 4 <= |s| && s[off..off + 4] == Le32(v)
    ensures RdU32(s, off) == v
  {
    var d := s[off..off + 4];
    assert d[0] == s[off] && d[1] == s[off + 1] && d[2] == s[off + 2] && d[3] == s[off + 3];
    LeDigits(v);
  }

  lemma LeDigits(v: U32)
    ensures v == v % 0x100 + 0x100 * (v / 0x100 % 0x100) + 0x1_0000 * (v / 0x1_0000 % 0x100) +
            0x100_0000 * (v / 0x100_0000)
  {
    var a := v / 0x100;
    var b := a / 0x100;
    assert b == v / 0x1_0000 && b / 0x100 == v / 0x100_0000;
  }

  lemma WrittenRead(s: seq<byte>, off: nat)
    requires off + 4 <= |s|
    ensures Le32(RdU32(s, off)) == s[off..off + 4]
  {
    DigitsOf(s[off], s[off + 1], s[off + 2], s[off + 3]);
  }

  lemma DigitsOf(a: int, b: int, c: int, d: int)
    requires 0 <= a < 256 && 0 <= b < 256 && 0 <= c < 256 && 0 <= d < 256
    ensures var v := Digits(a, b, c, d);
            v % 0x100 == a && v / 0x100 % 0x100 == b && v / 0x1_0000 % 0x100 == c && v / 0x100_0000 == d
  {
    var y := c + 0x100 * d;
    var x := b + 0x100 * y;
    var v := Digits(a, b, c, d);
    assert v == a + 0x100 * x;
    assert v / 0x100 == x && x / 0x100 == y && v / 0x1_0000 == y && v / 0x100_0000 == d;
  }

  // ---- the manifest ----

  datatype Manifest = Manifest(
    formatVer: byte,
    flags: byte,
    hashAlgo: byte,
    targetId: U32,
    fwVersion: U32,
    imageSize: U32,
    payloadSize: U32,
    blockSizeLog2: byte,
    blockCount: nat,
    merkleRoot: Hash4,
    imageHash: Bytes32,
    codecId: byte,
    hwId: Bytes32,
    baseHash: Hash8,
    signer: Bytes32,
    signature: Bytes64,
    approval: Hash4
  ) {
    predicate IsFull() { flags % 2 == 1 }

    predicate IsSigned() { flags / 2 % 2 == 1 }

    predicate IsBootloader() { flags / 4 % 2 == 1 }

    function BlockSize(): (n: nat)
      ensures n >= 1
    {
      Pow2(blockSizeLog2)
    }

    function LeavesOff(): nat { HEADER_LEN + MFL }

    function PayloadOff(): nat { LeavesOff() + blockCount * 4 }

    function TotalSize(): nat { PayloadOff() + payloadSize + TRAILER_LEN }
  }

  datatype ParseError =
    | TooSmall
    | BadMagic
    | BadTotalSize
    | BadTrailer
    | BadFlags
    | BadFormatVersion
    | BadPayload
    | BadBlockSize
    | BadBlockCount
    | BadGeometry
    | BadBootloader

  /** The manifest fields at their offsets (src/format.rs:41-58, 303-321). */
  function ReadManifest(mf: seq<byte>): Manifest
    requires |mf| >= MFL && mf[19] < 64
  {
    Manifest(
      mf[0], mf[1], mf[2], RdU32(mf, 3), RdU32(mf, 7), RdU32(mf, 11), RdU32(mf, 15), mf[19],
      DivCeil(RdU32(mf, 15), Pow2(mf[19])),
      mf[20..24], mf[24..56], mf[56], mf[57..89], mf[89..97], mf[97..129], mf[129..193], mf[193..197])
  }

  /** src/format.rs:326-346; the image contract itself belongs to the bootloader checks. */
  predicate BootloaderValid(lib: Library, m: Manifest, payload: seq<byte>) {
    && m.hashAlgo == HASH_ALGO_SHA256
    && m.fwVersion != 0 && m.fwVersion != U32_LIMIT - 1 && m.fwVersion % 0x100 != 0
    && m.codecId == CODEC_FULL
    && m.imageSize == BOOTLOADER_IMAGE_SIZE && m.payloadSize == BOOTLOADER_IMAGE_SIZE
    && m.BlockSize() == BOOTLOADER_BLOCK_SIZE && m.blockCount == 40
    && m.baseHash == Fill(8, 0)
    && lib.bootloaderImageValid(payload, m.targetId, m.hwId, m.fwVersion)
  }

  /** src/format.rs:251-348 */
  function Parse(lib: Library, blob: seq<byte>): Result<Manifest, ParseError> {
    if |blob| < HEADER_LEN + MFL + TRAILER_LEN then Err(TooSmall)
    else if blob[..4] != MAGIC then Err(BadMagic)
    else if RdU32(blob, 4) != |blob| then Err(BadTotalSize)
    else if blob[|blob| - TRAILER_LEN..] != TRAILER then Err(BadTrailer)
    else
      var mf := blob[HEADER_LEN..];
      var formatVer, flags := mf[0], mf[1];
      if formatVer == APP_FORMAT_VER && !(flags / 4 % 2 == 0 && flags / 8 == 0) then Err(BadFlags)
      else if formatVer == BOOT_FORMAT_VER && flags != MFLAG_FULL + MFLAG_SIGNED + MFLAG_BOOTLOADER then Err(BadFlags)
      else if formatVer != APP_FORMAT_VER && formatVer != BOOT_FORMAT_VER then Err(BadFormatVersion)
      else if RdU32(mf, 15) == 0 then Err(BadPayload)
      else if formatVer == APP_FORMAT_VER && !(1 <= mf[19] <= 11) then Err(BadBlockSize)
      else if formatVer == BOOT_FORMAT_VER && mf[19] != 10 then Err(BadBlockSize)
      else
        var m := ReadManifest(mf);
        if !(1 <= m.blockCount <= 0xFFFF) then Err(BadBlockCount)
        else if m.TotalSize() != |blob| then Err(BadGeometry)
        else if m.IsBootloader() && !BootloaderValid(lib, m, blob[m.PayloadOff()..m.PayloadOff() + m.payloadSize]) then
          Err(BadBootloader)
        else Ok(m)
  }

  // ---- the container as the concatenation of its parts ----

  /** What the signature covers: every field up to the signer. */
  function SignedPart(m: Manifest): (s: seq<byte>)
    ensures |s| == SIGNED_LEN
  {
    [m.formatVer] + ([m.flags] + ([m.hashAlgo] + (Le32(m.targetId) + (Le32(m.fwVersion) + (Le32(m.imageSize)
    + (Le32(m.payloadSize) + ([m.blockSizeLog2] + (m.merkleRoot + (m.imageHash + ([m.codecId] + (m.hwId
    + (m.baseHash + m.signer))))))))))))
  }

  function ManifestBytes(m: Manifest): (s: seq<byte>)
    ensures |s| == MFL
  {
    SignedPart(m) + (m.signature + m.approval)
  }

  predicate Sizeable(leaves: seq<byte>, payload: seq<byte>) {
    HEADER_LEN + MFL + |leaves| + |payload| + TRAILER_LEN < U32_LIMIT
  }

  function ContainerBytes(m: Manifest, leaves: seq<byte>, payload: seq<byte>): (s: seq<byte>)
    requires Sizeable(leaves, payload)
    ensures |s| == HEADER_LEN + MFL + |leaves| + |payload| + TRAILER_LEN
  {
    MAGIC + (Le32(HEADER_LEN + MFL + |leaves| + |payload| + TRAILER_LEN)
    + (ManifestBytes(m) + (leaves + (payload + TRAILER))))
  }

  /** The next field of s stands at offset o. */
  lemma Peel(s: seq<byte>, o: nat, field: seq<byte>, rest: seq<byte>)
    requires o <= |s| && s[o..] == field + rest
    ensures o + |field| <= |s| && s[o..o + |field|] == field && s[o + |field|..] == rest
  {
    assert s[o..][..|field|] == field && s[o..][|field|..] == rest;
  }

  lemma PeelByte(s: seq<byte>, o: nat, b: byte, rest: seq<byte>)
    requires o <= |s| && s[o..] == [b] + rest
    ensures o < |s| && s[o] == b && s[o + 1..] == rest
  {
    Peel(s, o, [b], rest);
    assert s[o] == s[o..][0];
  }

  lemma PeelWord(s: seq<byte>, o: nat, v: U32, rest: seq<byte>)
    requires o <= |s| && s[o..] == Le32(v) + rest
    ensures o + 4 <= |s| && RdU32(s, o) == v && s[o + 4..] == rest
  {
    Peel(s, o, Le32(v), rest);
    ReadWritten(v, s, o);
  }

  /** Where the fields of a written manifest stand. */
  lemma ManifestFields(mf: seq<byte>, m: Manifest, more: seq<byte>)
    requires mf == ManifestBytes(m) + more
    ensures |mf| == 197 + |more| && mf[0] == m.formatVer && mf[1] == m.flags && mf[2] == m.hashAlgo
    ensures RdU32(mf, 3) == m.targetId && RdU32(mf, 7) == m.fwVersion && RdU32(mf, 11) == m.imageSize
    ensures RdU32(mf, 15) == m.payloadSize && mf[19] == m.blockSizeLog2 && mf[20..24] == m.merkleRoot
    ensures mf[24..56] == m.imageHash && mf[56] == m.codecId && mf[57..89] == m.hwId && mf[89..97] == m.baseHash
    ensures mf[97..129] == m.signer && mf[129..193] == m.signature && mf[193..197] == m.approval
  {
    hide Le32, RdU32;
    var r14 := m.signature + (m.approval + more);
    var r13 := m.signer + r14;
    var r12 := m.baseHash + r13;
    var r11 := m.hwId + r12;
    var r10 := [m.codecId] + r11;
    var r9 := m.imageHash + r10;
    var r8 := m.merkleRoot + r9;
    var r7 := [m.blockSizeLog2] + r8;
    var r6 := Le32(m.payloadSize) + r7;
    var r5 := Le32(m.imageSize) + r6;
    var r4 := Le32(m.fwVersion) + r5;
    var r3 := Le32(m.targetId) + r4;
    var r2 := [m.hashAlgo] + r3;
    var r1 := [m.flags] + r2;
    ManifestNested(m, more, r1, r8);
    assert mf[0..] == mf;
    hide ManifestBytes;
    PeelByte(mf, 0, m.formatVer, r1);
    PeelByte(mf, 1, m.flags, r2);
    PeelByte(mf, 2, m.hashAlgo, r3);
    PeelWord(mf, 3, m.targetId, r4);
    PeelWord(mf, 7, m.fwVersion, r5);
    PeelWord(mf, 11, m.imageSize, r6);
    PeelWord(mf, 15, m.payloadSize, r7);
    PeelByte(mf, 19, m.blockSizeLog2, r8);
    Peel(mf, 20, m.merkleRoot, r9);
    Peel(mf, 24, m.imageHash, r10);
    PeelByte(mf, 56, m.codecId, r11);
    Peel(mf, 57, m.hwId, r12);
    Peel(mf, 89, m.baseHash, r13);
    Peel(mf, 97, m.signer, r14);
    Peel(mf, 129, m.signature, m.approval + more);
    Peel(mf, 193, m.approval, more);
  }

  /** Reading a written manifest gives its fields back. */
  lemma ReadsManifest(mf: seq<byte>, m: Manifest, more: seq<byte>)
    requires mf == ManifestBytes(m) + more && m.blockSizeLog2 < 64
    requires m.blockCount == DivCeil(m.payloadSize, m.BlockSize())
    ensures ReadManifest(mf) == m
  {
    ManifestFields(mf, m, more);
    hide RdU32, ManifestBytes;
  }

  lemma ManifestNested(m: Manifest, more: seq<byte>, r1: seq<byte>, r8: seq<byte>)
    requires r8 == m.merkleRoot + (m.imageHash +
             ([m.codecId] + (m.hwId + (m.baseHash + (m.signer + (m.signature + (m.approval + more)))))))
    requires r1 == [m.flags] + ([m.hashAlgo] + (Le32(m.targetId) + (Le32(m.fwVersion) + (Le32(m.imageSize)
                   + (Le32(m.payloadSize) + ([m.blockSizeLog2] + r8))))))
    ensures ManifestBytes(m) + more == [m.formatVer] + r1
  {
  }

  lemma Glue(s: seq<byte>, a: nat, b: nat, c: nat)
    requires a <= b <= c <= |s|
    ensures s[a..b] + s[b..c] == s[a..c]
  {
  }

  lemma GlueByte(s: seq<byte>, a: nat, c: nat)
    requires a < c <= |s|
    ensures [s[a]] + s[a + 1..c] == s[a..c]
  {
  }

  lemma GlueWord(s: seq<byte>, a: nat, c: nat)
    requires a + 4 <= c <= |s|
    ensures Le32(RdU32(s, a)) + s[a + 4..c] == s[a..c]
  {
    WrittenRead(s, a);
    Glue(s, a, a + 4, c);
  }

  /** Writing what was read gives the 197 bytes back. */
  lemma WritesManifest(mf: seq<byte>)
    requires |mf| >= MFL && mf[19] < 64
    ensures ManifestBytes(ReadManifest(mf)) == mf[..MFL]
  {
    hide Le32, RdU32;
    Glue(mf, 89, 97, 129);
    Glue(mf, 57, 89, 129);
    GlueByte(mf, 56, 129);
    Glue(mf, 24, 56, 129);
    Glue(mf, 20, 24, 129);
    GlueByte(mf, 19, 129);
    GlueWord(mf, 15, 129);
    GlueWord(mf, 11, 129);
    GlueWord(mf, 7, 129);
    GlueWord(mf, 3, 129);
    GlueByte(mf, 2, 129);
    GlueByte(mf, 1, 129);
    GlueByte(mf, 0, 129);
    SignedIsPrefix(mf);
    Glue(mf, 129, 193, 197);
    Glue(mf, 0, 129, 197);
  }

  lemma SignedIsPrefix(mf: seq<byte>)
    requires |mf| >= MFL && mf[19] < 64
    requires mf[0..129] ==
             [mf[0]] + ([mf[1]] + ([mf[2]] + (Le32(RdU32(mf, 3)) + (Le32(RdU32(mf, 7)) + (Le32(RdU32(mf, 11))
             + (Le32(RdU32(mf, 15)) + ([mf[19]] + (mf[20..24] + (mf[24..56] + ([mf[56]]
             + (mf[57..89] + (mf[89..97] + mf[97..129]))))))))))))
    ensures SignedPart(ReadManifest(mf)) == mf[0..129]
  {
  }

  // ---- parsing and building are inverse ----

  /** The manifests of application containers. */
  predicate AppManifest(m: Manifest) {
    && m.formatVer == APP_FORMAT_VER
    && m.flags / 4 == 0
    && m.payloadSize != 0
    && 1 <= m.blockSizeLog2 <= 11
    && m.blockCount == DivCeil(m.payloadSize, m.BlockSize())
    && 1 <= m.blockCount <= 0xFFFF
  }

  lemma ContainerParts(m: Manifest, leaves: seq<byte>, payload: seq<byte>)
    requires Sizeable(leaves, payload)
    ensures var blob := ContainerBytes(m, leaves, payload);
            && blob[..4] == MAGIC && RdU32(blob, 4) == |blob|
            && blob[HEADER_LEN..] == ManifestBytes(m) + (leaves + (payload + TRAILER))
            && blob[HEADER_LEN + MFL..HEADER_LEN + MFL + |leaves|] == leaves
            && blob[HEADER_LEN + MFL + |leaves|..HEADER_LEN + MFL + |leaves| + |payload|] == payload
            && blob[|blob| - TRAILER_LEN..] == TRAILER
  {
    hide ManifestBytes;
    var blob := ContainerBytes(m, leaves, payload);
    var mf := ManifestBytes(m) + (leaves + (payload + TRAILER));
    assert blob[0..] == blob;
    Peel(blob, 0, MAGIC, Le32(|blob|) + mf);
    PeelWord(blob, 4, |blob|, mf);
    Peel(blob, HEADER_LEN, ManifestBytes(m), leaves + (payload + TRAILER));
    Peel(blob, HEADER_LEN + MFL, leaves, payload + TRAILER);
    Peel(blob, HEADER_LEN + MFL + |leaves|, payload, TRAILER);
  }

  /** Every well-formed application container parses, to exactly the manifest it was written from. */
  lemma ParseAccepts(lib: Library, m: Manifest, leaves: seq<byte>, payload: seq<byte>)
    requires Sizeable(leaves, payload) && AppManifest(m)
    requires |leaves| == 4 * m.blockCount && |payload| == m.payloadSize
    ensures Parse(lib, ContainerBytes(m, leaves, payload)) == Ok(m)
  {
    hide ManifestBytes, ContainerBytes, Le32, RdU32, BootloaderValid;
    var blob := ContainerBytes(m, leaves, payload);
    var mf := blob[HEADER_LEN..];
    ContainerParts(m, leaves, payload);
    ReadsManifest(mf, m, leaves + (payload + TRAILER));
    ReadsLog2(mf, m, leaves + (payload + TRAILER));
  }

  /** The manifests of bootloader containers. */
  predicate BootManifest(m: Manifest) {
    && m.formatVer == 3 && m.flags == 7 && m.hashAlgo == 0x12
    && m.fwVersion != 0 && m.fwVersion != 0xFFFF_FFFF && m.fwVersion % 0x100 != 0
    && m.codecId == 0
    && m.imageSize == 0xA000 && m.payloadSize == 0xA000 && m.blockSizeLog2 == 10 && m.blockCount == 40
    && m.baseHash == [0, 0, 0, 0, 0, 0, 0, 0]
  }

  lemma BootGeometry()
    ensures Pow2(10) == 1024 && DivCeil(0xA000, 1024) == 40
  {
    assert Pow2(4) == 16;
    assert Pow2(8) == 256;
  }

  lemma BootIs(lib: Library, m: Manifest, payload: seq<byte>)
    requires m.IsBootloader() && m.formatVer == BOOT_FORMAT_VER
    requires m.flags == MFLAG_FULL + MFLAG_SIGNED + MFLAG_BOOTLOADER
    requires m.blockSizeLog2 == 10
    ensures BootloaderValid(lib, m, payload) <==>
            BootManifest(m) && lib.bootloaderImageValid(payload, m.targetId, m.hwId, m.fwVersion)
  {
    BootGeometry();
    assert Fill(8, 0) == [0, 0, 0, 0, 0, 0, 0, 0];
  }

  /** A bootloader container parses when its manifest is exactly such and the image meets its contract. */
  lemma ParseAcceptsBootloader(lib: Library, m: Manifest, leaves: seq<byte>, payload: seq<byte>)
    requires BootManifest(m) && |leaves| == 160 && |payload| == 0xA000
    requires lib.bootloaderImageValid(payload, m.targetId, m.hwId, m.fwVersion)
    ensures Sizeable(leaves, payload) && Parse(lib, ContainerBytes(m, leaves, payload)) == Ok(m)
  {
    hide ManifestBytes, ContainerBytes, Le32, RdU32, BootloaderValid;
    var blob := ContainerBytes(m, leaves, payload);
    var mf := blob[HEADER_LEN..];
    BootGeometry();
    ContainerParts(m, leaves, payload);
    ReadsManifest(mf, m, leaves + (payload + TRAILER));
    ReadsLog2(mf, m, leaves + (payload + TRAILER));
    BootIs(lib, m, payload);
  }

  lemma ReadsLog2(mf: seq<byte>, m: Manifest, more: seq<byte>)
    requires mf == ManifestBytes(m) + more
    ensures |mf| > 19 && mf[19] == m.blockSizeLog2
  {
    assert mf[19] == SignedPart(m)[19];
  }

  lemma ParsedFacts(lib: Library, blob: seq<byte>)
    requires Parse(lib, blob).Ok?
    ensures |blob| >= HEADER_LEN + MFL + TRAILER_LEN && blob[..4] == MAGIC && RdU32(blob, 4) == |blob|
    ensures blob[|blob| - TRAILER_LEN..] == TRAILER && blob[HEADER_LEN..][19] < 64
    ensures Parse(lib, blob).value == ReadManifest(blob[HEADER_LEN..]) && Parse(lib, blob).value.TotalSize() == |blob|
  {
    hide RdU32, BootloaderValid;
  }

  /** What parses is an application manifest or a valid bootloader manifest, told apart by the bootloader flag. */
  lemma ParsedManifest(lib: Library, blob: seq<byte>)
    requires Parse(lib, blob).Ok?
    ensures var m := Parse(lib, blob).value;
            && (!m.IsBootloader() <==> AppManifest(m))
            && (m.IsBootloader() ==>
                  && m.formatVer == BOOT_FORMAT_VER && m.flags == MFLAG_FULL + MFLAG_SIGNED + MFLAG_BOOTLOADER
                  && m.PayloadOff() + m.payloadSize <= |blob|
                  && BootloaderValid(lib, m, blob[m.PayloadOff()..m.PayloadOff() + m.payloadSize]))
            && (m.IsBootloader() ==>
                  && BootManifest(m)
                  && lib.bootloaderImageValid(blob[m.PayloadOff()..m.PayloadOff() + m.payloadSize], m.targetId, m.hwId,
                                              m.fwVersion))
  {
    hide RdU32, BootloaderValid;
    var m := Parse(lib, blob).value;
    if m.IsBootloader() {
      BootIs(lib, m, blob[m.PayloadOff()..m.PayloadOff() + m.payloadSize]);
    }
  }

  /** The containers there are. */
  ghost predicate IsContainer(lib: Library, blob: seq<byte>, m: Manifest, leaves: seq<byte>, payload: seq<byte>) {
    && Sizeable(leaves, payload) && blob == ContainerBytes(m, leaves, payload)
    && |leaves| == 4 * m.blockCount && |payload| == m.payloadSize
    && (AppManifest(m) || (BootManifest(m) && lib.bootloaderImageValid(payload, m.targetId, m.hwId, m.fwVersion)))
  }

  /** Exactly the containers parse. */
  lemma ParsesExactly(lib: Library, blob: seq<byte>)
    ensures Parse(lib, blob).Ok? <==>
            exists m: Manifest, leaves: seq<byte>, payload: seq<byte> :: IsContainer(lib, blob, m, leaves, payload)
  {
    hide ManifestBytes, ContainerBytes, Parse;
    if Parse(lib, blob).Ok? {
      var m := Parse(lib, blob).value;
      ParsedManifest(lib, blob);
      ParseIsExact(lib, blob);
      var leaves, payload := blob[m.LeavesOff()..m.PayloadOff()], blob[m.PayloadOff()..m.PayloadOff() + m.payloadSize];
      assert IsContainer(lib, blob, m, leaves, payload);
    }
    if m: Manifest, leaves: seq<byte>, payload: seq<byte> :| IsContainer(lib, blob, m, leaves, payload) {
      if AppManifest(m) {
        ParseAccepts(lib, m, leaves, payload);
      } else {
        ParseAcceptsBootloader(lib, m, leaves, payload);
      }
    }
  }

  lemma ContainerFromParts(m: Manifest, blob: seq<byte>, po: nat, e: nat)
    requires HEADER_LEN + MFL <= po <= e <= |blob| < U32_LIMIT && e + TRAILER_LEN == |blob|
    requires blob[..4] == MAGIC && blob[4..8] == Le32(|blob|) && blob[e..] == TRAILER
    requires blob[HEADER_LEN..][..MFL] == ManifestBytes(m)
    ensures Sizeable(blob[HEADER_LEN + MFL..po], blob[po..e])
    ensures blob == ContainerBytes(m, blob[HEADER_LEN + MFL..po], blob[po..e])
  {
    hide ManifestBytes, Le32;
    var body := HEADER_LEN + MFL;
    assert blob[HEADER_LEN..][..MFL] == blob[HEADER_LEN..body];
    Behind(blob, po, e);
    Behind(blob, body, po);
    Behind(blob, HEADER_LEN, body);
    Behind(blob, 4, HEADER_LEN);
    Behind(blob, 0, 4);
    assert blob[0..] == blob && blob[0..4] == blob[..4];
  }

  lemma Behind(s: seq<byte>, a: nat, b: nat)
    requires a <= b <= |s|
    ensures s[a..] == s[a..b] + s[b..]
  {
  }

  /** Whatever parses is the container of the parsed manifest and its own leaves and payload. */
  lemma ParseIsExact(lib: Library, blob: seq<byte>)
    requires Parse(lib, blob).Ok?
    ensures var m := Parse(lib, blob).value;
            && m.LeavesOff() <= m.PayloadOff() && m.PayloadOff() + m.payloadSize + TRAILER_LEN == |blob| < U32_LIMIT
            && blob == ContainerBytes(m, blob[m.LeavesOff()..m.PayloadOff()],
               blob[m.PayloadOff()..m.PayloadOff() + m.payloadSize])
  {
    hide Parse, ReadManifest, ManifestBytes, SignedPart, Le32, RdU32;
    ParsedFacts(lib, blob);
    var m := Parse(lib, blob).value;
    var mf := blob[HEADER_LEN..];
    WritesManifest(mf);
    WrittenRead(blob, 4);
    ContainerFromParts(m, blob, m.PayloadOff(), m.PayloadOff() + m.payloadSize);
  }

  lemma MarkersAre()
    ensures MAGIC == Ascii("mOTA") && TRAILER == Ascii("vk496")
  {
  }
}
