/** The firmware identity trailer and the authenticated nRF52 layout record in front of it (src/endf.rs). */
module Endf {
  import opened Bytes
  import opened Library
  import opened Format

  const ENDF_MAGIC: seq<byte> := [0x45, 0x6E, 0x64, 0x46]
  const ENDF_LEN: nat := 56
  const APP_BASE_S140_V6: nat := 0x0002_6000
  const APP_BASE_S140_V7: nat := 0x0002_7000
  const EXTRAFS_START: nat := 0x000D_4000
  const BOOT_SCRATCH_START: nat := 0x000E_0000
  const APP_END: nat := 0x000E_D000
  const LAYOUT_MAGIC: seq<byte> := [0x6D, 0x4F, 0x54, 0x41, 0x4C, 0x61, 0x79, 0x31]
  const LAYOUT_VERSION: byte := 1
  const LAYOUT_LEN: nat := 24

  datatype FwIdent = FwIdent(fwVersion: U32, targetId: U32, hwId: seq<byte>)

  // ---- the identity trailer ----

  /** src/endf.rs:198-204 */
  predicate HasEndf(lib: Library, image: seq<byte>) {
    |image| >= ENDF_LEN &&
    var n := |image| - ENDF_LEN;
    var (body, t) := (image[..n], image[n..]);
    t[..4] == ENDF_MAGIC && RdU32(t, 4) == |body| && lib.Mh(8, body) == t[8..16]
  }

  /** The bytes of a NUL-padded field up to the first NUL. */
  function UntilNul(s: seq<byte>): (r: seq<byte>)
    ensures r <= s && 0 !in r
    ensures |r| < |s| ==> s[|r|] == 0
  {
    if s == [] || s[0] == 0 then [] else
    assert s == [s[0]] + s[1..];
    [s[0]] + UntilNul(s[1..])
  }

  /** src/endf.rs:207-217 */
  function ParseIdent(lib: Library, image: seq<byte>): FwIdent {
    if !HasEndf(lib, image) then FwIdent(0, 0, [])
    else
      var t := image[|image| - ENDF_LEN..];
      FwIdent(RdU32(t, 16), RdU32(t, 20), lib.utf8Lossy(UntilNul(t[24..24 + HW_ID_LEN])))
  }

  /** A text field of 32 bytes: cut off or padded with NUL. */
  function HwField(hw: seq<byte>): (s: Bytes32)
    ensures s == hw[..Min(|hw|, HW_ID_LEN)] + Fill(HW_ID_LEN - Min(|hw|, HW_ID_LEN), 0)
  {
    var n := Min(|hw|, HW_ID_LEN);
    hw[..n] + Fill(HW_ID_LEN - n, 0)
  }

  /** `len as u32` wraps. */
  function AsU32(n: nat): U32 { n % U32_LIMIT }

  function TrailerBytes(lib: Library, body: seq<byte>, ident: FwIdent): (t: seq<byte>)
    ensures |t| == ENDF_LEN
  {
    ENDF_MAGIC + (Le32(AsU32(|body|)) + (lib.Mh(8, body)
    + (Le32(ident.fwVersion) + (Le32(ident.targetId) + HwField(ident.hwId)))))
  }

  /** src/endf.rs:221-240 */
  method EnsureEndf(lib: Library, image: seq<byte>, ident: FwIdent) returns (out: seq<byte>, bodyHash: Hash8)
    ensures HasEndf(lib, image) ==> out == image
    ensures !HasEndf(lib, image) ==> out == image + TrailerBytes(lib, image, ident)
    ensures bodyHash == lib.Mh(8, if HasEndf(lib, image) then image[..|image| - ENDF_LEN] else image)
  {
    if HasEndf(lib, image) {
      var t := image[|image| - ENDF_LEN..];
      return image, t[8..16];
    }
    bodyHash := lib.Mh(8, image);
    out := image;
    out := out + ENDF_MAGIC;
    out := out + Le32(AsU32(|image|));
    out := out + bodyHash;
    out := out + Le32(ident.fwVersion);
    out := out + Le32(ident.targetId);
    var n := Min(|ident.hwId|, HW_ID_LEN);
    var hwField := ident.hwId[..n] + Fill(HW_ID_LEN - n, 0);
    out := out + hwField;
    Appended(lib, image, ident, out);
  }

  lemma Appended(lib: Library, image: seq<byte>, ident: FwIdent, out: seq<byte>)
    requires out == image + ENDF_MAGIC + Le32(AsU32(|image|)) + lib.Mh(8, image) + Le32(ident.fwVersion) +
             Le32(ident.targetId)
                    + HwField(ident.hwId)
    ensures out == image + TrailerBytes(lib, image, ident)
  {
    hide Le32;
  }

  /** A written trailer is recognised, and read back, exactly when the body length fits its 32-bit field. */
  lemma TrailerRecognised(lib: Library, body: seq<byte>, ident: FwIdent)
    ensures HasEndf(lib, body + TrailerBytes(lib, body, ident)) <==> |body| < U32_LIMIT
    ensures |body| < U32_LIMIT ==>
              ParseIdent(lib, body + TrailerBytes(lib, body, ident)) ==
              FwIdent(ident.fwVersion, ident.targetId, lib.utf8Lossy(UntilNul(HwField(ident.hwId))))
  {
    hide TrailerBytes, RdU32, UntilNul, HwField;
    var image := body + TrailerBytes(lib, body, ident);
    var t := image[|image| - ENDF_LEN..];
    assert t == TrailerBytes(lib, body, ident) && image[..|image| - ENDF_LEN] == body;
    TrailerFields(lib, body, ident, t);
  }

  lemma TrailerFields(lib: Library, body: seq<byte>, ident: FwIdent, t: seq<byte>)
    requires t == TrailerBytes(lib, body, ident)
    ensures t[..4] == ENDF_MAGIC && RdU32(t, 4) == AsU32(|body|) && t[8..16] == lib.Mh(8, body)
    ensures RdU32(t, 16) == ident.fwVersion && RdU32(t, 20) == ident.targetId && t[24..56] == HwField(ident.hwId)
  {
    hide Le32, RdU32;
    var r5 := HwField(ident.hwId);
    var r4 := Le32(ident.targetId) + r5;
    var r3 := Le32(ident.fwVersion) + r4;
    var r2 := lib.Mh(8, body) + r3;
    var r1 := Le32(AsU32(|body|)) + r2;
    assert t[0..] == t;
    Peel(t, 0, ENDF_MAGIC, r1);
    PeelWord(t, 4, AsU32(|body|), r2);
    Peel(t, 8, lib.Mh(8, body), r3);
    PeelWord(t, 16, ident.fwVersion, r4);
    PeelWord(t, 20, ident.targetId, r5);
    assert r5 + [] == r5;
    Peel(t, 24, HwField(ident.hwId), []);
  }

  // ---- the layout record ----

  datatype Nrf52Layout = Nrf52Layout(appBase: U32, linkedAppEnd: U32, stageCeiling: U32, flags: byte) {
    predicate SdBacked() { flags % 2 == 1 }

    predicate UsesInternalExtrafs() { flags / 2 % 2 == 1 }

    predicate QspiBacked() { flags / 4 % 2 == 1 }

    predicate BootloaderScratch() { flags / 8 % 2 == 1 }

    predicate HybridRam() { flags / 16 % 2 == 1 }

    predicate AutoStore() { flags / 32 % 2 == 1 }

    predicate ExternalBacked() { SdBacked() || QspiBacked() }

    /** src/endf.rs:56-62 */
    function ApplicationCeiling(): U32 {
      if BootloaderScratch() then linkedAppEnd else APP_END
    }

    /** src/endf.rs:64-147 */
    predicate Valid() {
      && (appBase == APP_BASE_S140_V6 || appBase == APP_BASE_S140_V7)
      && (linkedAppEnd == EXTRAFS_START || linkedAppEnd == BOOT_SCRATCH_START || linkedAppEnd == APP_END)
      && (stageCeiling == EXTRAFS_START || stageCeiling == APP_END)
      && appBase < linkedAppEnd <= APP_END
      && flags / 64 == 0
      && !(SdBacked() && QspiBacked())
      && !(ExternalBacked() && UsesInternalExtrafs())
      && (AutoStore() ==> !ExternalBacked() && !UsesInternalExtrafs())
      && (HybridRam() ==>
            !ExternalBacked() && !UsesInternalExtrafs() && linkedAppEnd == APP_END && stageCeiling == APP_END)
      && (if BootloaderScratch() then QspiBacked() && !SdBacked() && linkedAppEnd == BOOT_SCRATCH_START
          else linkedAppEnd != BOOT_SCRATCH_START)
      && stageCeiling == (if ExternalBacked() then APP_END
                          else if UsesInternalExtrafs() then EXTRAFS_START
                          else APP_END)
    }
  }

  datatype LayoutError = BadLayoutVersion | BadLayoutLength | BadLayoutGeometry

  function LayoutBytes(l: Nrf52Layout): (s: seq<byte>)
    ensures |s| == LAYOUT_LEN
  {
    LAYOUT_MAGIC + ([LAYOUT_VERSION] + ([l.flags] + ([LAYOUT_LEN % 256] + ([LAYOUT_LEN / 256] +
    (Le32(l.appBase) + (Le32(l.linkedAppEnd) + Le32(l.stageCeiling)))))))
  }

  /** src/endf.rs:151-162 */
  method BuildNrf52Layout(l: Nrf52Layout) returns (r: Result<seq<byte>, LayoutError>)
    ensures r == if l.Valid() then Ok(LayoutBytes(l)) else Err(BadLayoutGeometry)
  {
    if !l.Valid() {
      return Err(BadLayoutGeometry);
    }
    var out := Fill(LAYOUT_LEN, 0);
    out := LAYOUT_MAGIC + out[8..];
    out := out[8 := LAYOUT_VERSION];
    out := out[9 := l.flags];
    out := out[..10] + [LAYOUT_LEN % 256, LAYOUT_LEN / 256] + out[12..];
    out := out[..12] + Le32(l.appBase) + out[16..];
    out := out[..16] + Le32(l.linkedAppEnd) + out[20..];
    out := out[..20] + Le32(l.stageCeiling);
    RecordFilled(l, out);
    r := Ok(out);
  }

  lemma RecordFilled(l: Nrf52Layout, out: seq<byte>)
    requires |out| == LAYOUT_LEN && out[..8] == LAYOUT_MAGIC && out[8] == LAYOUT_VERSION && out[9] == l.flags
    requires out[10] == LAYOUT_LEN % 256 && out[11] == LAYOUT_LEN / 256
    requires out[12..16] == Le32(l.appBase) && out[16..20] == Le32(l.linkedAppEnd) &&
             out[20..24] == Le32(l.stageCeiling)
    ensures out == LayoutBytes(l)
  {
    hide Le32;
    assert out == out[..8] + ([out[8]] + ([out[9]] + ([out[10]] + ([out[11]]
                  + (out[12..16] + (out[16..20] + out[20..24]))))));
  }

  /** src/endf.rs:168-195 */
  function ParseNrf52Layout(lib: Library, image: seq<byte>): Result<Option<Nrf52Layout>, LayoutError> {
    if !HasEndf(lib, image) || |image| < ENDF_LEN + LAYOUT_LEN then Ok(None)
    else
      var start := |image| - ENDF_LEN - LAYOUT_LEN;
      var record := image[start..start + LAYOUT_LEN];
      if record[..8] != LAYOUT_MAGIC then Ok(None)
      else if record[8] != LAYOUT_VERSION then Err(BadLayoutVersion)
      else if Digits(record[10], record[11], 0, 0) != LAYOUT_LEN then Err(BadLayoutLength)
      else
        var l := Nrf52Layout(RdU32(record, 12), RdU32(record, 16), RdU32(record, 20), record[9]);
        if l.Valid() then Ok(Some(l)) else Err(BadLayoutGeometry)
  }

  lemma RecordFields(l: Nrf52Layout, s: seq<byte>)
    requires s == LayoutBytes(l)
    ensures s[..8] == LAYOUT_MAGIC && s[8] == LAYOUT_VERSION && s[9] == l.flags && s[10] == LAYOUT_LEN % 256 &&
            s[11] == 0
    ensures RdU32(s, 12) == l.appBase && RdU32(s, 16) == l.linkedAppEnd && RdU32(s, 20) == l.stageCeiling
  {
    hide Le32, RdU32;
    var r7 := Le32(l.stageCeiling) + [];
    var r6 := Le32(l.linkedAppEnd) + r7;
    var r5 := Le32(l.appBase) + r6;
    var r4 := [LAYOUT_LEN / 256] + r5;
    var r3 := [LAYOUT_LEN % 256] + r4;
    var r2 := [l.flags] + r3;
    var r1 := [LAYOUT_VERSION] + r2;
    assert Le32(l.stageCeiling) + [] == Le32(l.stageCeiling);
    assert s[0..] == s;
    Peel(s, 0, LAYOUT_MAGIC, r1);
    PeelByte(s, 8, LAYOUT_VERSION, r2);
    PeelByte(s, 9, l.flags, r3);
    PeelByte(s, 10, LAYOUT_LEN % 256, r4);
    PeelByte(s, 11, LAYOUT_LEN / 256, r5);
    PeelWord(s, 12, l.appBase, r6);
    PeelWord(s, 16, l.linkedAppEnd, r7);
    PeelWord(s, 20, l.stageCeiling, []);
  }

  /** A record built into a body is found again behind any trailer, and an invalid one is refused: the record
      is never mistaken for a legacy image without one. */
  lemma LayoutRoundTrip(lib: Library, body: seq<byte>, l: Nrf52Layout, ident: FwIdent)
    requires |body| + LAYOUT_LEN < U32_LIMIT
    ensures var whole := body + LayoutBytes(l);
            ParseNrf52Layout(lib, whole + TrailerBytes(lib, whole, ident)) ==
            if l.Valid() then Ok(Some(l)) else Err(BadLayoutGeometry)
  {
    var whole := body + LayoutBytes(l);
    var image := whole + TrailerBytes(lib, whole, ident);
    TrailerRecognised(lib, whole, ident);
    var start := |image| - ENDF_LEN - LAYOUT_LEN;
    assert image[start..start + LAYOUT_LEN] == LayoutBytes(l);
    RecordFields(l, LayoutBytes(l));
    hide HasEndf, LayoutBytes, TrailerBytes, RdU32;
  }

  /** The accepted layouts are exactly these: one external store, with or without the bootloader scratch area,
      the internal ExtraFS layout, and the exclusive internal layout with its two optional capabilities. */
  lemma ValidProfiles(l: Nrf52Layout)
    ensures l.Valid() <==>
            && l.appBase in {APP_BASE_S140_V6, APP_BASE_S140_V7}
            && (|| (&& l.flags in {0x01, 0x04, 0x00, 0x20} && l.linkedAppEnd in {EXTRAFS_START, APP_END}
                    && l.stageCeiling == APP_END)
                || (l.flags == 0x0C && l.linkedAppEnd == BOOT_SCRATCH_START && l.stageCeiling == APP_END)
                || (l.flags == 0x02 && l.linkedAppEnd in {EXTRAFS_START, APP_END} && l.stageCeiling == EXTRAFS_START)
                || (l.flags in {0x10, 0x30} && l.linkedAppEnd == APP_END && l.stageCeiling == APP_END))
  {
    SixBits(l.flags);
  }

  lemma SixBits(n: nat)
    ensures n == n % 2 + 2 * (n / 2 % 2) + 4 * (n / 4 % 2) + 8 * (n / 8 % 2) + 16 * (n / 16 % 2) + 32 * (n / 32 % 2) +
            64 * (n / 64)
  {
    var a := n / 2;
    var b := a / 2;
    var c := b / 2;
    var d := c / 2;
    var e := d / 2;
    assert b == n / 4;
    assert c == n / 8;
    assert d == n / 16;
    assert e == n / 32;
    assert e / 2 == n / 64;
  }

  /** In every accepted layout both ceilings lie above the application base, internal staging never exceeds
      the application workspace, and a hybrid layout stages internally up to the end of application flash. */
  lemma ValidGeometry(l: Nrf52Layout)
    requires l.Valid()
    ensures l.appBase < l.stageCeiling <= APP_END && l.appBase < l.ApplicationCeiling() <= APP_END
    ensures l.appBase < Min(l.linkedAppEnd, l.stageCeiling)
    ensures !l.ExternalBacked() ==> l.stageCeiling <= l.ApplicationCeiling() == APP_END
    ensures l.HybridRam() ==> !l.ExternalBacked() && l.stageCeiling == APP_END
  {
  }

  lemma MarkersAre()
    ensures ENDF_MAGIC == Ascii("EndF") && LAYOUT_MAGIC == Ascii("mOTALay1")
  {
  }

  /** Exactly these images carry a trailer: a body below 2^32 bytes and a trailer made for it. */
  lemma TrailedExactly(lib: Library, image: seq<byte>)
    ensures HasEndf(lib, image) <==> exists body: seq<byte>, ident: FwIdent :: Trailed(lib, image, body, ident)
  {
    hide TrailerBytes;
    if HasEndf(lib, image) {
      var n := |image| - ENDF_LEN;
      var t := image[n..];
      var ident := FwIdent(RdU32(t, 16), RdU32(t, 20), t[24..56]);
      hide RdU32;
      TrailerOf(lib, image[..n], t);
      assert image == image[..n] + t;
      assert Trailed(lib, image, image[..n], ident);
    }
    if body: seq<byte>, ident: FwIdent :| Trailed(lib, image, body, ident) {
      TrailerRecognised(lib, body, ident);
    }
  }

  ghost predicate Trailed(lib: Library, image: seq<byte>, body: seq<byte>, ident: FwIdent) {
    |body| < 0x1_0000_0000 && image == body + TrailerBytes(lib, body, ident)
  }

  lemma TrailerOf(lib: Library, body: seq<byte>, t: seq<byte>)
    requires |t| == ENDF_LEN && t[..4] == ENDF_MAGIC && RdU32(t, 4) == |body| && lib.Mh(8, body) == t[8..16]
    ensures t == TrailerBytes(lib, body, FwIdent(RdU32(t, 16), RdU32(t, 20), t[24..56]))
  {
    assert AsU32(|body|) == RdU32(t, 4);
    hide *;
    WrittenRead(t, 4);
    WrittenRead(t, 16);
    WrittenRead(t, 20);
    var hw := t[24..56];
    WholeField(hw);
    SixParts(t);
    TrailerIs(lib, body, FwIdent(RdU32(t, 16), RdU32(t, 20), hw));
  }

  lemma WholeField(hw: seq<byte>)
    requires |hw| == 32
    ensures HwField(hw) == hw
  {
    assert hw[..32] + Fill(0, 0) == hw;
  }

  lemma SixParts(t: seq<byte>)
    requires |t| == 56
    ensures t == t[..4] + (t[4..8] + (t[8..16] + (t[16..20] + (t[20..24] + t[24..56]))))
  {
    Behind(t, 20, 24);
    Behind(t, 16, 20);
    Behind(t, 8, 16);
    Behind(t, 4, 8);
    assert t[24..] == t[24..56] && t == t[..4] + t[4..];
  }

  lemma TrailerIs(lib: Library, body: seq<byte>, ident: FwIdent)
    ensures TrailerBytes(lib, body, ident) ==
            ENDF_MAGIC + (Le32(AsU32(|body|)) + (lib.Mh(8, body)
            + (Le32(ident.fwVersion) + (Le32(ident.targetId) + HwField(ident.hwId)))))
  {
  }

  /** What becomes of the 24 bytes in front of a trailer. Only what starts with the record's own marker is a
      record; then version, length and geometry must be right, and it is never passed over as a legacy image. */
  lemma RecordOutcomes(lib: Library, body: seq<byte>, record: seq<byte>, ident: FwIdent)
    requires |record| == 24 && |body| + 24 < U32_LIMIT
    ensures var whole := body + record;
            var l := Nrf52Layout(RdU32(record, 12), RdU32(record, 16), RdU32(record, 20), record[9]);
            var low: int, high: int := record[10], record[11];
            ParseNrf52Layout(lib, whole + TrailerBytes(lib, whole, ident)) ==
            if record[..8] != LAYOUT_MAGIC then Ok(None)
            else if record[8] != 1 then Err(BadLayoutVersion)
            else if low + 256 * high != 24 then Err(BadLayoutLength)
            else if !l.Valid() then Err(BadLayoutGeometry)
            else Ok(Some(l))
  {
    var whole := body + record;
    var image := whole + TrailerBytes(lib, whole, ident);
    TrailerRecognised(lib, whole, ident);
    var start := |image| - ENDF_LEN - LAYOUT_LEN;
    assert image[start..start + LAYOUT_LEN] == record;
    hide HasEndf, TrailerBytes, RdU32;
  }

  /** Without a trailer, or with a body too short for a record, an image has none. */
  lemma NoRecord(lib: Library, image: seq<byte>)
    requires !HasEndf(lib, image) || |image| < 80
    ensures ParseNrf52Layout(lib, image) == Ok(None)
  {
    hide HasEndf;
  }

  /** What the accepted profiles mean: where writing has to stop, where the container is staged, and whether part
      of it may wait in memory. */
  lemma ProfilesMean(l: Nrf52Layout)
    requires l.Valid()
    ensures l.ApplicationCeiling() == if l.flags == 0x0C then 0x000E_0000 else 0x000E_D000
    ensures l.ExternalBacked() <==> l.flags in {0x01, 0x04, 0x0C}
    ensures l.HybridRam() <==> l.flags in {0x10, 0x30}
  {
    ValidProfiles(l);
    SixBits(l.flags);
  }
}
