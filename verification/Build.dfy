/** Building a container (src/build.rs:57-198). */
module Build {
  import opened Bytes
  import opened Library
  import opened Merkle
  import opened Format
  import opened Endf
  import opened Encode
  import opened InplacePlan
  import opened Verify

  datatype PatchType = Sequential | InPlace

  datatype BuildOpts = BuildOpts(
    fw: seq<byte>,
    base: Option<seq<byte>>,
    patchType: PatchType,
    inplaceMemory: Option<U32>,
    segmentSize: U32,
    targetId: Option<U32>,
    fwVersion: Option<U32>,
    hwId: Option<seq<byte>>,
    signSeed: Option<Bytes32>,
    blockSize: U32,
    force: bool
  )

  datatype BuildError =
    | BadBlockSizeOption
    | BaseWithoutEndf
    | CrossHardware
    | Planning(planError: PlanError)
    | InvalidBlockCount
    | TooLarge

  datatype Built = Built(bytes: seq<byte>, manifest: Manifest, inplaceMemory: Option<U32>)

  function GetOr<T>(o: Option<T>, default: T): T {
    match o
    case Some(x) => x
    case None => default
  }

  /** `31 - leading_zeros`. */
  function Log2(n: nat): nat {
    if n < 2 then 0 else 1 + Log2(n / 2)
  }

  predicate IsPowerOfTwo(n: nat) {
    n > 0 && Pow2(Log2(n)) == n
  }

  lemma {:induction false} Log2Bounds(n: nat, k: nat)
    requires 1 <= n <= Pow2(k)
    ensures Log2(n) <= k
  {
    if n >= 2 {
      if k == 0 {
        assert false;
      } else {
        Log2Bounds(n / 2, k - 1);
      }
    }
  }

  /** src/build.rs:66-71: explicit options win over the firmware's own trailer. */
  function IdentOf(lib: Library, o: BuildOpts): FwIdent {
    var own := ParseIdent(lib, o.fw);
    FwIdent(GetOr(o.fwVersion, own.fwVersion), GetOr(o.targetId, own.targetId), GetOr(o.hwId, own.hwId))
  }

  /** The target image: the firmware with an identity trailer. */
  function ImageOf(lib: Library, o: BuildOpts): seq<byte> {
    if HasEndf(lib, o.fw) then o.fw else o.fw + TrailerBytes(lib, o.fw, IdentOf(lib, o))
  }

  // ---- the manifest array ----

  /** Zero bytes up to the manifest's length follow what is filled in. */
  ghost predicate FilledUpTo(mf: seq<byte>, done: seq<byte>) {
    |done| <= MFL && mf == done + Fill(MFL - |done|, 0)
  }

  /** `mf[off..off + n].copy_from_slice(data)` at the end of the filled part. */
  method FillField(mf: array<byte>, ghost done: seq<byte>, off: nat, data: seq<byte>)
    requires mf.Length == MFL && FilledUpTo(mf[..], done) && off == |done| && off + |data| <= MFL
    modifies mf
    ensures FilledUpTo(mf[..], done + data)
  {
    ghost var before := mf[..];
    for i := 0 to |data|
      invariant forall k :: 0 <= k < MFL ==> mf[k] == if off <= k < off + i then data[k - off] else before[k]
    {
      mf[off + i] := data[i];
    }
    assert mf[..] == done + data + Fill(MFL - |done| - |data|, 0);
  }

  lemma ZerosAre(mf: seq<byte>, done: seq<byte>, n: nat)
    requires FilledUpTo(mf, done) && |done| + n <= MFL
    ensures FilledUpTo(mf, done + Fill(n, 0))
  {
    assert done + Fill(MFL - |done|, 0) == done + Fill(n, 0) + Fill(MFL - |done| - n, 0);
  }

  lemma HwFilled(mf: seq<byte>, done: seq<byte>, hw: seq<byte>)
    requires |done| + HW_ID_LEN <= MFL && FilledUpTo(mf, done + hw[..Min(|hw|, HW_ID_LEN)])
    ensures FilledUpTo(mf, done + HwField(hw))
  {
    var n := Min(|hw|, HW_ID_LEN);
    ZerosAre(mf, done + hw[..n], HW_ID_LEN - n);
    assert done + hw[..n] + Fill(HW_ID_LEN - n, 0) == done + HwField(hw);
  }

  /** The manifest a seed turns m into. */
  function SignedManifest(lib: Library, m: Manifest, seed: Option<Bytes32>): Manifest {
    match seed
    case None => m
    case Some(s) =>
      var keyed := m.(signer := lib.publicFromSeed(s));
      keyed.(signature := lib.sign(s, SignedPart(keyed)))
  }

  /** src/build.rs:104-125 */
  method AssembleManifest(lib: Library, m: Manifest, hw: seq<byte>, seed: Option<Bytes32>) returns (bytes: seq<byte>)
    requires m.hwId == HwField(hw) && m.signer == Fill(32, 0) && m.signature == Fill(64, 0)
    ensures bytes == ManifestBytes(SignedManifest(lib, m, seed))
  {
    hide FilledUpTo, Le32, SignedPart, ManifestBytes, HwField;
    var mf := new byte[MFL](_ => 0);
    ghost var d: seq<byte> := [];
    NothingFilled(mf[..]);
    FillField(mf, d, 0, [m.formatVer]);
    d := d + [m.formatVer];
    FillField(mf, d, 1, [m.flags]);
    d := d + [m.flags];
    FillField(mf, d, 2, [m.hashAlgo]);
    d := d + [m.hashAlgo];
    FillField(mf, d, 3, Le32(m.targetId));
    d := d + Le32(m.targetId);
    FillField(mf, d, 7, Le32(m.fwVersion));
    d := d + Le32(m.fwVersion);
    FillField(mf, d, 11, Le32(m.imageSize));
    d := d + Le32(m.imageSize);
    FillField(mf, d, 15, Le32(m.payloadSize));
    d := d + Le32(m.payloadSize);
    FillField(mf, d, 19, [m.blockSizeLog2]);
    d := d + [m.blockSizeLog2];
    FillField(mf, d, 20, m.merkleRoot);
    d := d + m.merkleRoot;
    FillField(mf, d, 24, m.imageHash);
    d := d + m.imageHash;
    FillField(mf, d, 56, [m.codecId]);
    d := d + [m.codecId];
    FillField(mf, d, 57, hw[..Min(|hw|, HW_ID_LEN)]);
    HwFilled(mf[..], d, hw);
    d := d + m.hwId;
    FillField(mf, d, 89, m.baseHash);
    d := d + m.baseHash;
    ghost var signed := SignedManifest(lib, m, seed);
    if seed.Some? {
      var signer := lib.publicFromSeed(seed.value);
      FillField(mf, d, 97, signer);
      d := d + signer;
      SignedIs(m.(signer := signer), mf[..], d);
      var signature := lib.sign(seed.value, mf[..SIGNED_LEN]);
      FillField(mf, d, 129, signature);
      d := d + signature;
      SignatureNotSigned(m.(signer := signer), signature);
    } else {
      ZerosAre(mf[..], d, 32);
      d := d + m.signer;
      SignedIs(m, mf[..], d);
      ZerosAre(mf[..], d, 64);
      d := d + m.signature;
    }
    FillField(mf, d, 193, m.approval);
    d := d + m.approval;
    bytes := mf[..];
    AllFilled(bytes, d);
    ManifestIs(signed, d);
  }

  lemma SignatureNotSigned(m: Manifest, signature: Bytes64)
    ensures SignedPart(m.(signature := signature)) == SignedPart(m)
  {
  }

  lemma NothingFilled(mf: seq<byte>)
    requires |mf| == MFL && forall i :: 0 <= i < MFL ==> mf[i] == 0
    ensures FilledUpTo(mf, [])
  {
  }

  lemma AllFilled(mf: seq<byte>, done: seq<byte>)
    requires FilledUpTo(mf, done) && |done| == MFL
    ensures mf == done
  {
  }

  lemma SignedIs(m: Manifest, mf: seq<byte>, done: seq<byte>)
    requires FilledUpTo(mf, done)
    requires done == [] + [m.formatVer] + [m.flags] + [m.hashAlgo] + Le32(m.targetId) + Le32(m.fwVersion)
                     + Le32(m.imageSize) + Le32(m.payloadSize) + [m.blockSizeLog2] + m.merkleRoot + m.imageHash
                     + [m.codecId] + m.hwId + m.baseHash + m.signer
    ensures done == SignedPart(m) && |mf| >= SIGNED_LEN && mf[..SIGNED_LEN] == SignedPart(m)
  {
    hide Le32;
  }

  lemma ManifestIs(m: Manifest, done: seq<byte>)
    requires done == SignedPart(m) + m.signature + m.approval
    ensures done == ManifestBytes(m)
  {
    hide SignedPart;
  }

  // ---- deltas ----

  datatype Payload = Payload(codec: byte, bytes: seq<byte>, baseHash: Hash8, plan: Option<Plan>)

  function OptsOf(o: BuildOpts): PlanOpts {
    PlanOpts(o.segmentSize, o.inplaceMemory)
  }

  /** The payload is the target image itself, or a patch whose decoder makes the target image out of the base. */
  ghost predicate Delivers(lib: Library, o: BuildOpts, image: seq<byte>, p: Payload) {
    match o.base
    case None => p.codec == CODEC_FULL && p.bytes == image && p.baseHash == Fill(8, 0) && p.plan.None?
    case Some(base) =>
      && HasEndf(lib, base)
      && p.baseHash == lib.Mh(8, base[..|base| - ENDF_LEN])
      && (o.force || ParseIdent(lib, base).hwId == IdentOf(lib, o).hwId)
      && match o.patchType {
           case Sequential =>
             p.codec == CODEC_SEQUENTIAL && p.plan.None? && DecodeSequential(base, p.bytes) == Some(image)
           case InPlace =>
             && p.codec == CODEC_IN_PLACE && p.plan.Some?
             && PlanInplace(lib, OptsOf(o), base, image) == Ok(p.plan.value)
             && PatchesInPlace(base, image, p.plan.value.memory, p.bytes)
         }
  }

  /** The reasons to refuse a delta. */
  function DeltaRefused(lib: Library, o: BuildOpts, image: seq<byte>): Option<BuildError> {
    match o.base
    case None => None
    case Some(base) =>
      if !HasEndf(lib, base) then Some(BaseWithoutEndf)
      else if !o.force && ParseIdent(lib, base).hwId != IdentOf(lib, o).hwId then Some(CrossHardware)
      else if o.patchType.InPlace? && PlanInplace(lib, OptsOf(o), base, image).Err? then
        Some(Planning(PlanInplace(lib, OptsOf(o), base, image).error))
      else None
  }

  /** A delta can be made: the base carries its trailer, the hardware agrees or is forced to, and for an in-place
      patch both layout records parse and there is a window to plan. */
  ghost predicate DeltaPossible(lib: Library, o: BuildOpts, image: seq<byte>) {
    match o.base
    case None => true
    case Some(base) =>
      && HasEndf(lib, base)
      && (o.force || ParseIdent(lib, base).hwId == IdentOf(lib, o).hwId)
      && (o.patchType.InPlace? ==>
            var baseLayout, layout := ParseNrf52Layout(lib, base), ParseNrf52Layout(lib, image);
            && baseLayout.Ok? && layout.Ok?
            && Plannable(OptsOf(o), baseLayout.value, layout.value, |base|, |image|))
  }

  lemma DeltaExactly(lib: Library, o: BuildOpts, image: seq<byte>)
    ensures DeltaRefused(lib, o, image).None? <==> DeltaPossible(lib, o, image)
  {
    if o.base.Some? {
      PlannedExactly(lib, OptsOf(o), o.base.value, image);
    }
    hide PlanInplace, HasEndf, ParseIdent, IdentOf, ParseNrf52Layout, Plannable;
  }

  /** src/build.rs:154-198 */
  method BuildDelta(lib: Library, o: BuildOpts, ident: FwIdent, image: seq<byte>, baseFw: seq<byte>)
    returns (r: Result<Payload, BuildError>)
    requires o.base == Some(baseFw) && ident == IdentOf(lib, o)
    ensures DeltaRefused(lib, o, image) == match r { case Ok(_) => None case Err(e) => Some(e) }
    ensures r.Ok? <==> DeltaPossible(lib, o, image)
    ensures r.Ok? ==> Delivers(lib, o, image, r.value)
  {
    hide DecodeSequential, PlanInplace, PatchesInPlace, HasEndf, ParseIdent, IdentOf, DeltaPossible;
    DeltaExactly(lib, o, image);
    if !HasEndf(lib, baseFw) {
      return Err(BaseWithoutEndf);
    }
    var baseIdent := ParseIdent(lib, baseFw);
    if !o.force && baseIdent.hwId != ident.hwId {
      return Err(CrossHardware);
    }
    TrailedLength(lib, baseFw);
    var baseImage, baseHash := EnsureEndf(lib, baseFw, baseIdent);
    match o.patchType {
      case Sequential =>
        var patch := EncodeSequential(baseImage, image);
        r := Ok(Payload(CODEC_SEQUENTIAL, patch, baseHash, None));
      case InPlace =>
        var planned := PlanInplace(lib, OptsOf(o), baseImage, image);
        if planned.Err? {
          return Err(Planning(planned.error));
        }
        var plan := planned.value;
        PlanSuitsEncoder(lib, OptsOf(o), baseImage, image);
        var patch := EncodeInPlace(baseImage, image, plan.memory, o.segmentSize);
        r := Ok(Payload(CODEC_IN_PLACE, patch, baseHash, Some(plan)));
    }
  }

  lemma TrailedLength(lib: Library, image: seq<byte>)
    ensures HasEndf(lib, image) ==> |image| >= ENDF_LEN
  {
  }

  lemma PlanSuitsEncoder(lib: Library, o: PlanOpts, baseImage: seq<byte>, image: seq<byte>)
    requires PlanInplace(lib, o, baseImage, image).Ok?
    ensures var memory := PlanInplace(lib, o, baseImage, image).value.memory;
            && o.segmentSize > 0 && memory % o.segmentSize == 0 && memory >= 2 * o.segmentSize && |image| <= memory
  {
    PlannedWindowFits(lib, o, baseImage, image, 0);
  }

  // ---- the container ----

  /** What the manifest of a built container says. The size of the image is written with a wrapping cast: it is
      the true one exactly below 2^32 bytes, which a full image and an in-place target always are. */
  ghost predicate Describes(lib: Library, o: BuildOpts, image: seq<byte>, p: Payload, m: Manifest) {
    var ident := IdentOf(lib, o);
    && m.formatVer == APP_FORMAT_VER && m.hashAlgo == HASH_ALGO_SHA256
    && (m.IsFull() <==> o.base.None?) && (m.IsSigned() <==> o.signSeed.Some?) && !m.IsBootloader()
    && m.targetId == ident.targetId && m.fwVersion == ident.fwVersion && m.hwId == HwField(ident.hwId)
    && m.imageSize == AsU32(|image|) && m.imageHash == lib.sha256(image)
    && (m.imageSize == |image| <==> |image| < U32_LIMIT)
    && (o.base.None? || o.patchType.InPlace? ==> m.imageSize == |image|)
    && m.payloadSize == |p.bytes| && m.codecId == p.codec && m.baseHash == p.baseHash
    && m.BlockSize() == o.blockSize
    && m.signer == (if o.signSeed.Some? then lib.publicFromSeed(o.signSeed.value) else Fill(32, 0))
    && m.approval == APPROVAL_NONE
  }

  /** The container of a payload: everything in it agrees with everything else. */
  lemma ContainerIsSound(lib: Library, m: Manifest, payload: seq<byte>, seed: Option<Bytes32>, unsigned: Manifest)
    requires AppManifest(m) && |payload| == m.payloadSize && m.approval == APPROVAL_NONE
    requires m == SignedManifest(lib, unsigned, seed) && (m.IsSigned() ==> seed.Some?)
    requires m.merkleRoot == MerkleRoot(lib, LeafHashes(lib, payload, m.BlockSize()))
    requires m.IsFull() ==> m.imageHash == lib.sha256(payload)
    requires Sizeable(Flatten(LeafHashes(lib, payload, m.BlockSize())), payload)
    ensures var leaves := Flatten(LeafHashes(lib, payload, m.BlockSize()));
            var bytes := ContainerBytes(m, leaves, payload);
            && Parse(lib, bytes) == Ok(m) && PayloadOf(lib, bytes) == payload
            && (lib.SignsSoundly() ==> Sound(lib, bytes))
  {
    hide Parse, ManifestBytes, LeafHashes, MerkleRoot, SignedPart, ContainerBytes, RdU32, DivCeil;
    var hashes := LeafHashes(lib, payload, m.BlockSize());
    var leaves := Flatten(hashes);
    var bytes := ContainerBytes(m, leaves, payload);
    LeavesAreBlocks(lib, payload, m.BlockSize());
    ParseAccepts(lib, m, leaves, payload);
    ContainerParts(m, leaves, payload);
    assert StoredLeaves(lib, bytes) == leaves && PayloadOf(lib, bytes) == payload;
    ChunksOfFlattened(hashes);
    if lib.SignsSoundly() && m.IsSigned() {
      SignedRegion(m, leaves, payload);
      SignatureNotSigned(unsigned.(signer := m.signer), m.signature);
      assert lib.verifies(lib.publicFromSeed(seed.value), SignedPart(m), lib.sign(seed.value, SignedPart(m)));
    }
  }

  lemma SignedRegion(m: Manifest, leaves: seq<byte>, payload: seq<byte>)
    requires Sizeable(leaves, payload)
    ensures var bytes := ContainerBytes(m, leaves, payload);
            |bytes| >= HEADER_LEN + SIGNED_LEN && bytes[HEADER_LEN..HEADER_LEN + SIGNED_LEN] == SignedPart(m)
  {
    hide SignedPart, Le32;
    var bytes := ContainerBytes(m, leaves, payload);
    ContainerParts(m, leaves, payload);
    assert bytes[HEADER_LEN..HEADER_LEN + SIGNED_LEN] == bytes[HEADER_LEN..][..SIGNED_LEN];
  }

  predicate BlockSizeOk(blockSize: U32) {
    1 < blockSize <= MAX_APPLICATION_BLOCK_SIZE && IsPowerOfTwo(blockSize)
  }

  lemma BlockSizeLog(blockSize: U32)
    requires BlockSizeOk(blockSize)
    ensures 1 <= Log2(blockSize) <= 11 && Pow2(Log2(blockSize)) == blockSize
  {
    assert Pow2(4) == 16 && Pow2(8) == 256;
    assert Pow2(11) == 2048;
    Log2Bounds(blockSize, 11);
  }

  /** src/build.rs:104-125, the field values before signing. */
  function UnsignedManifest(lib: Library, o: BuildOpts, image: seq<byte>, p: Payload, root: Hash4,
                            blockCount: nat): Manifest
    requires BlockSizeOk(o.blockSize) && |p.bytes| < U32_LIMIT
  {
    BlockSizeLog(o.blockSize);
    var ident := IdentOf(lib, o);
    Manifest(
      APP_FORMAT_VER,
      (if p.codec == CODEC_FULL then MFLAG_FULL else 0) + (if o.signSeed.Some? then MFLAG_SIGNED else 0),
      HASH_ALGO_SHA256, ident.targetId, ident.fwVersion, AsU32(|image|), |p.bytes|, Log2(o.blockSize), blockCount,
      root, lib.sha256(image), p.codec, HwField(ident.hwId), p.baseHash, Fill(32, 0), Fill(64, 0), APPROVAL_NONE)
  }

  lemma ManifestDescribes(lib: Library, o: BuildOpts, image: seq<byte>, p: Payload, root: Hash4, blockCount: nat)
    requires BlockSizeOk(o.blockSize) && 0 < |p.bytes| < U32_LIMIT && Delivers(lib, o, image, p)
    requires blockCount == DivCeil(|p.bytes|, o.blockSize) && 1 <= blockCount <= 0xFFFF
    ensures var m := SignedManifest(lib, UnsignedManifest(lib, o, image, p, root, blockCount), o.signSeed);
            AppManifest(m) && Describes(lib, o, image, p, m) && m.merkleRoot == root && m.blockCount == blockCount
  {
    hide IdentOf, HwField, HasEndf, ParseIdent, PlanInplace, DecodeSequential, PatchesInPlace, Pow2, SignedPart;
    BlockSizeLog(o.blockSize);
    if o.base.Some? && o.patchType.InPlace? {
      TargetMustFit(o.base.value, image, p.plan.value.memory, p.bytes);
    }
  }

  /** The reasons to refuse a payload once it is made. */
  function PayloadRefused(o: BuildOpts, p: Payload): Option<BuildError>
    requires o.blockSize > 0
  {
    var blockCount := DivCeil(|p.bytes|, o.blockSize);
    var total := HEADER_LEN + MFL + 4 * blockCount + |p.bytes| + TRAILER_LEN;
    if !(1 <= blockCount <= 0xFFFF) then Some(InvalidBlockCount)
    else if total >= U32_LIMIT then Some(TooLarge)
    else match p.plan
    case None => None
    case Some(plan) =>
      match ValidateStagingFit(plan, total)
      case None => None
      case Some(e) => Some(Planning(e))
  }

  /** A payload makes a container: some blocks but not too many, a length below 2^32, and room for staging. */
  predicate Packable(o: BuildOpts, p: Payload)
    requires o.blockSize > 0
  {
    var blocks := DivCeil(|p.bytes|, o.blockSize);
    var total := 8 + 197 + 4 * blocks + |p.bytes| + 5;
    && 1 <= blocks <= 65535
    && total < 0x1_0000_0000
    && (p.plan.Some? ==> StagingFits(p.plan.value, total))
  }

  lemma PackedExactly(o: BuildOpts, p: Payload)
    requires o.blockSize > 0
    requires p.plan.Some? && p.plan.value.baseLayout.Some? ==> p.plan.value.baseLayout.value.Valid()
    ensures PayloadRefused(o, p).None? <==> Packable(o, p)
  {
    hide ValidateStagingFit, StagingFits, DivCeil;
    var total := 8 + 197 + 4 * DivCeil(|p.bytes|, o.blockSize) + |p.bytes| + 5;
    if total < U32_LIMIT && p.plan.Some? {
      StagedExactly(p.plan.value, total);
    }
  }

  lemma DeliveredPlan(lib: Library, o: BuildOpts, image: seq<byte>, p: Payload)
    requires Delivers(lib, o, image, p) && p.plan.Some? && p.plan.value.baseLayout.Some?
    ensures p.plan.value.baseLayout.value.Valid()
  {
    var base := o.base.value;
    PlannedWindowIs(lib, OptsOf(o), base, image);
    ParsedIsValid(lib, base);
    hide HasEndf, ParseIdent, IdentOf, DecodeSequential, PatchesInPlace, PlanInplace, ParseNrf52Layout;
  }

  /** The block sizes a build takes. */
  lemma BlockSizesAre(blockSize: U32)
    ensures BlockSizeOk(blockSize) <==> blockSize in {2, 4, 8, 16, 32, 64, 128, 256, 512, 1024, 2048}
  {
    if BlockSizeOk(blockSize) {
      BlockSizeLog(blockSize);
      PowersAre(Log2(blockSize));
    } else if blockSize in {2, 4, 8, 16, 32, 64, 128, 256, 512, 1024, 2048} {
      PowersAre(0);
      LogsAre(blockSize);
    }
  }

  lemma PowersAre(k: nat)
    ensures Pow2(0) == 1 && Pow2(1) == 2 && Pow2(2) == 4 && Pow2(3) == 8 && Pow2(4) == 16 && Pow2(5) == 32
    ensures Pow2(6) == 64 && Pow2(7) == 128 && Pow2(8) == 256 && Pow2(9) == 512 && Pow2(10) == 1024 && Pow2(11) == 2048
  {
    assert Pow2(4) == 16;
    assert Pow2(8) == 256;
  }

  lemma {:induction false} LogsAre(n: nat)
    requires n in {1, 2, 4, 8, 16, 32, 64, 128, 256, 512, 1024, 2048}
    ensures Pow2(Log2(n)) == n
  {
    if n >= 2 {
      LogsAre(n / 2);
    }
  }

  /** Explicit options win over the firmware's own trailer, which wins over nothing. */
  lemma OptionsWin(lib: Library, o: BuildOpts)
    ensures var ident, trailed, n := IdentOf(lib, o), HasEndf(lib, o.fw), |o.fw|;
            && (trailed ==> n >= 56)
            && ident.fwVersion == (if o.fwVersion.Some? then o.fwVersion.value
                                   else if trailed then RdU32(o.fw, n - 40) else 0)
            && ident.targetId == (if o.targetId.Some? then o.targetId.value
                                  else if trailed then RdU32(o.fw, n - 36) else 0)
            && ident.hwId == (if o.hwId.Some? then o.hwId.value
                              else if trailed then lib.utf8Lossy(UntilNul(o.fw[n - 32..])) else [])
  {
    hide UntilNul;
    TrailedLength(lib, o.fw);
    if HasEndf(lib, o.fw) {
      var n := |o.fw| - ENDF_LEN;
      assert o.fw[n..][24..24 + HW_ID_LEN] == o.fw[n + 24..];
    }
    hide HasEndf;
  }

  /** The reasons to refuse a build, in the order the source meets them; the parse of the finished bytes is
      not among them. */
  function Refused(lib: Library, o: BuildOpts, payload: Option<Payload>): Option<BuildError> {
    var image := ImageOf(lib, o);
    if !BlockSizeOk(o.blockSize) then Some(BadBlockSizeOption)
    else if DeltaRefused(lib, o, image).Some? then DeltaRefused(lib, o, image)
    else match payload
    case None => None
    case Some(p) => PayloadRefused(o, p)
  }

  /** What a built container is: it parses to its manifest, the manifest tells the truth about a payload that
      delivers the target image, nothing is wrong with it, and an in-place update fits beside it in flash. */
  ghost predicate Genuine(lib: Library, o: BuildOpts, built: Built, p: Payload) {
    var image := ImageOf(lib, o);
    && Parse(lib, built.bytes) == Ok(built.manifest)
    && PayloadOf(lib, built.bytes) == p.bytes
    && Delivers(lib, o, image, p)
    && Describes(lib, o, image, p, built.manifest)
    && (lib.SignsSoundly() ==> Sound(lib, built.bytes))
    && built.inplaceMemory == (if p.plan.Some? then Some(p.plan.value.memory) else None)
    && (p.plan.Some? ==> ValidateStagingFit(p.plan.value, |built.bytes|).None?)
  }

  /** What became of a build that got as far as the payload p, or not that far: an error is the first reason to
      refuse, and a payload delivers. */
  ghost predicate Accounts(lib: Library, o: BuildOpts, r: Result<Built, BuildError>, p: Option<Payload>) {
    && Refused(lib, o, p) == (match r { case Ok(_) => None case Err(e) => Some(e) })
    && (p.Some? ==> Delivers(lib, o, ImageOf(lib, o), p.value))
    && (r.Ok? ==> p.Some? && Genuine(lib, o, r.value, p.value))
  }

  /** src/build.rs:57-150 */
  method Build(lib: Library, o: BuildOpts) returns (r: Result<Built, BuildError>)
    ensures exists p :: Accounts(lib, o, r, p)
    ensures r.Ok? ==> BlockSizeOk(o.blockSize) && DeltaPossible(lib, o, ImageOf(lib, o))
    ensures BlockSizeOk(o.blockSize) && DeltaPossible(lib, o, ImageOf(lib, o)) ==>
              exists p :: Delivers(lib, o, ImageOf(lib, o), p) && (r.Ok? <==> Packable(o, p))
    ensures o.base.None? ==>
              (r.Ok? <==> BlockSizeOk(o.blockSize) &&
                          Packable(o, Payload(CODEC_FULL, ImageOf(lib, o), Fill(8, 0), None)))
  {
    hide DeltaRefused, Genuine, IdentOf, HasEndf, BlockSizeOk, PayloadRefused, Packable, ParseIdent,
         ParseNrf52Layout, Plannable;
    if !BlockSizeOk(o.blockSize) {
      r := Err(BadBlockSizeOption);
      assert Accounts(lib, o, r, None);
      return;
    }
    var ident := IdentOf(lib, o);
    var image, _ := EnsureEndf(lib, o.fw, ident);
    var chosen := ChoosePayload(lib, o, ident, image);
    if chosen.Err? {
      r := Err(chosen.error);
      assert Accounts(lib, o, r, None);
      return;
    }
    r := FinishBuild(lib, o, ident, image, chosen.value);
    assert Accounts(lib, o, r, Some(chosen.value));
  }

  /** src/build.rs:78-90 */
  method ChoosePayload(lib: Library, o: BuildOpts, ident: FwIdent, image: seq<byte>)
    returns (r: Result<Payload, BuildError>)
    requires ident == IdentOf(lib, o)
    ensures DeltaRefused(lib, o, image) == match r { case Ok(_) => None case Err(e) => Some(e) }
    ensures r.Ok? <==> DeltaPossible(lib, o, image)
    ensures r.Ok? ==> Delivers(lib, o, image, r.value)
  {
    hide Delivers, DeltaRefused, IdentOf, DeltaPossible;
    DeltaExactly(lib, o, image);
    match o.base {
      case None =>
        var payload := Payload(CODEC_FULL, image, Fill(8, 0), None);
        FullDelivers(lib, o, image, payload);
        r := Ok(payload);
      case Some(baseFw) =>
        r := BuildDelta(lib, o, ident, image, baseFw);
    }
  }

  /** src/build.rs:93-149 */
  method FinishBuild(lib: Library, o: BuildOpts, ident: FwIdent, image: seq<byte>,
                     payload: Payload) returns (r: Result<Built, BuildError>)
    requires BlockSizeOk(o.blockSize) && ident == IdentOf(lib, o) && image == ImageOf(lib, o) &&
             Delivers(lib, o, image, payload)
    ensures PayloadRefused(o, payload) == match r { case Ok(_) => None case Err(e) => Some(e) }
    ensures r.Ok? <==> Packable(o, payload)
    ensures r.Ok? ==> Genuine(lib, o, r.value, payload)
  {
    hide Delivers, Describes, Sound, Parse, IdentOf, HasEndf, ParseIdent, IsPowerOfTwo, LeafHashes, ValidateStagingFit,
         PayloadOf, Flatten, Packable;
    if payload.plan.Some? && payload.plan.value.baseLayout.Some? {
      DeliveredPlan(lib, o, image, payload);
    }
    PackedExactly(o, payload);
    var leaves := LeafHashes(lib, payload.bytes, o.blockSize);
    var blockCount := |leaves|;
    LeavesAreBlocks(lib, payload.bytes, o.blockSize);
    if !(1 <= blockCount <= 0xFFFF) {
      return Err(InvalidBlockCount);
    }
    var root := RootOf(lib, leaves);
    var leavesBytes := Flatten(leaves);
    FlattenLength(leaves);
    var total := HEADER_LEN + MFL + |leavesBytes| + |payload.bytes| + TRAILER_LEN;
    if total >= U32_LIMIT {
      return Err(TooLarge);
    }
    if payload.plan.Some? {
      var fit := ValidateStagingFit(payload.plan.value, total);
      if fit.Some? {
        return Err(Planning(fit.value));
      }
    }
    var built := Package(lib, o, ident, image, payload, root, leaves, total);
    r := Ok(built);
  }

  /** src/build.rs:103-149: manifest and container. */
  method Package(lib: Library, o: BuildOpts, ident: FwIdent, image: seq<byte>, payload: Payload, root: Hash4,
                 leaves: seq<Hash4>, total: nat)
    returns (built: Built)
    requires BlockSizeOk(o.blockSize) && ident == IdentOf(lib, o) && Delivers(lib, o, image, payload)
    requires leaves == LeafHashes(lib, payload.bytes, o.blockSize) && root == MerkleRoot(lib, leaves)
    requires 1 <= |leaves| == DivCeil(|payload.bytes|, o.blockSize) <= 0xFFFF
    requires total == HEADER_LEN + MFL + 4 * |leaves| + |payload.bytes| + TRAILER_LEN < U32_LIMIT
    ensures Parse(lib, built.bytes) == Ok(built.manifest) && PayloadOf(lib, built.bytes) == payload.bytes
    ensures Describes(lib, o, image, payload, built.manifest) && (lib.SignsSoundly() ==> Sound(lib, built.bytes))
    ensures built.inplaceMemory == (if payload.plan.Some? then Some(payload.plan.value.memory) else None)
    ensures |built.bytes| == total
  {
    hide Delivers, Describes, Sound, Parse, IdentOf, IsPowerOfTwo, LeafHashes, UnsignedManifest, SignedManifest,
         ContainerBytes, ManifestBytes, AppManifest, PayloadOf, Flatten, MerkleRoot;
    var unsigned := UnsignedManifest(lib, o, image, payload, root, |leaves|);
    UnsignedFields(lib, o, image, payload, root, |leaves|);
    var mf := AssembleManifest(lib, unsigned, ident.hwId, o.signSeed);
    ghost var m := SignedManifest(lib, unsigned, o.signSeed);
    SomePayload(payload.bytes, o.blockSize);
    ManifestDescribes(lib, o, image, payload, root, |leaves|);

    var leavesBytes := Flatten(leaves);
    FlattenLength(leaves);
    var bytes := MAGIC;
    bytes := bytes + Le32(total);
    bytes := bytes + mf;
    bytes := bytes + leavesBytes;
    bytes := bytes + payload.bytes;
    bytes := bytes + TRAILER;
    BytesAreContainer(m, leavesBytes, payload.bytes, bytes);
    DescribedPayload(lib, o, image, payload, m);
    ContainerIsSound(lib, m, payload.bytes, o.signSeed, unsigned);

    // The source returns an error if its own output does not parse; it always does.
    assert Parse(lib, bytes).Ok?;
    built := Built(bytes, Parse(lib, bytes).value,
                   if payload.plan.Some? then Some(payload.plan.value.memory) else None);
  }

  lemma FullDelivers(lib: Library, o: BuildOpts, image: seq<byte>, p: Payload)
    requires o.base.None? && p == Payload(CODEC_FULL, image, Fill(8, 0), None)
    ensures Delivers(lib, o, image, p) && DeltaRefused(lib, o, image).None?
  {
  }

  lemma FlattenLength(leaves: seq<Hash4>)
    ensures |Flatten(leaves)| == 4 * |leaves|
  {
  }

  lemma SomePayload(payload: seq<byte>, blockSize: nat)
    requires blockSize > 0 && DivCeil(|payload|, blockSize) >= 1
    ensures |payload| > 0
  {
    if |payload| == 0 {
      DivideUnique(blockSize - 1, blockSize, 0, blockSize - 1);
    }
  }

  lemma UnsignedFields(lib: Library, o: BuildOpts, image: seq<byte>, p: Payload, root: Hash4, blockCount: nat)
    requires BlockSizeOk(o.blockSize) && |p.bytes| < U32_LIMIT
    ensures var m := UnsignedManifest(lib, o, image, p, root, blockCount);
            m.hwId == HwField(IdentOf(lib, o).hwId) && m.signer == Fill(32, 0) && m.signature == Fill(64, 0)
  {
  }

  lemma BytesAreContainer(m: Manifest, leaves: seq<byte>, payload: seq<byte>, bytes: seq<byte>)
    requires Sizeable(leaves, payload)
    requires bytes == MAGIC + Le32(HEADER_LEN + MFL + |leaves| + |payload| + TRAILER_LEN) + ManifestBytes(m) + leaves +
             payload + TRAILER
    ensures bytes == ContainerBytes(m, leaves, payload)
  {
    hide Le32, ManifestBytes;
  }

  lemma DescribedPayload(lib: Library, o: BuildOpts, image: seq<byte>, p: Payload, m: Manifest)
    requires Describes(lib, o, image, p, m) && Delivers(lib, o, image, p)
    ensures m.BlockSize() == o.blockSize && |p.bytes| == m.payloadSize && m.approval == APPROVAL_NONE
    ensures (m.IsSigned() <==> o.signSeed.Some?) && (m.IsFull() ==> m.imageHash == lib.sha256(p.bytes))
  {
    hide IdentOf, HasEndf, ParseIdent, HwField, DecodeSequential, PatchesInPlace, PlanInplace;
  }

  // ---- the update on the device ----

  /** The flash after the payload of a container has been applied in place to its lowest `memory` bytes. */
  function AppliedFlash(flash: seq<byte>, memory: nat, payload: seq<byte>): Option<seq<byte>>
    requires memory <= |flash|
  {
    match DecodeInPlace(flash[..memory], payload)
    case None => None
    case Some(window) => Some(window + flash[memory..])
  }

  /** What a built in-place update does to the flash it shares with its own staged container, whatever stands
      above the base: the target image of the declared hash ends up at the bottom, and the part of the flash
      charged to the container is untouched throughout. */
  lemma UpdateKeepsContainer(lib: Library, o: BuildOpts, built: Built, p: Payload, flash: seq<byte>)
    requires Genuine(lib, o, built, p) && o.base.Some? && o.patchType.InPlace? && SharedSpan(p.plan.value).Some?
    requires |flash| == SharedSpan(p.plan.value).value.1 - SharedSpan(p.plan.value).value.0 && o.base.value <= flash
    ensures var image, plan := ImageOf(lib, o), p.plan.value;
            && StagedSize(IsHybrid(plan), |built.bytes|).Ok?
            && var staged := StagedSize(IsHybrid(plan), |built.bytes|).value;
            && plan.memory <= |flash| - staged && |image| <= plan.memory
            && var after := AppliedFlash(flash, plan.memory, PayloadOf(lib, built.bytes));
            && after.Some? && |after.value| == |flash|
            && after.value[..|image|] == image && lib.sha256(image) == built.manifest.imageHash
            && after.value[|flash| - staged..] == flash[|flash| - staged..]
  {
    hide PlanInplace, DecodeInPlace, PatchesInPlace, PayloadOf, Parse, ReadManifest, StagedSize, IdentOf, HasEndf,
         ParseIdent, HwField, Sound, ParseNrf52Layout, AppliedFlash;
    var base, image, plan := o.base.value, ImageOf(lib, o), p.plan.value;
    ParsedFacts(lib, built.bytes);
    PlannedWindowIs(lib, OptsOf(o), base, image);
    ParsedIsValid(lib, base);
    StagingIsDisjoint(plan, |built.bytes|);
    FlashPatched(flash, base, image, plan.memory, p.bytes);
    var after := AppliedFlash(flash, plan.memory, p.bytes).value;
    BackPart(after, flash, plan.memory, |flash| - StagedSize(IsHybrid(plan), |built.bytes|).value);
  }

  /** Applying a patch to the window leaves its target at the bottom and everything above the window alone. */
  lemma FlashPatched(flash: seq<byte>, base: seq<byte>, image: seq<byte>, memory: nat, payload: seq<byte>)
    requires base <= flash && memory <= |flash| && PatchesInPlace(base, image, memory, payload)
    ensures |image| <= memory
    ensures var after := AppliedFlash(flash, memory, payload);
            && after.Some? && |after.value| == |flash|
            && after.value[..|image|] == image && after.value[memory..] == flash[memory..]
  {
    hide DecodeInPlace;
    var window := flash[..memory];
    assert base[..Min(|base|, |window|)] <= window;
    TargetMustFit(base, image, memory, payload);
    var after := DecodeInPlace(window, payload).value + flash[memory..];
    assert after[..|image|] == DecodeInPlace(window, payload).value[..|image|];
  }

  lemma BackPart(a: seq<byte>, b: seq<byte>, from: nat, at: int)
    requires |a| == |b| && from <= at <= |a| && a[from..] == b[from..]
    ensures a[at..] == b[at..]
  {
    assert a[at..] == a[from..][at - from..] && b[at..] == b[from..][at - from..];
  }
}
