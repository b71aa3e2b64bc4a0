/** Choosing the in-place apply window and fitting the staged container beside it (src/build.rs:200-384). */
module InplacePlan {
  import opened Bytes
  import opened Library
  import opened Format
  import opened Endf
  import opened Encode

  const FALLBACK_INPLACE_MEMORY: nat := 0x0009_8000
  const INPLACE_SEGMENT: nat := 4096
  const HYBRID_RAM_SIZE: nat := 0x1_0000
  const U64_LIMIT: nat := 0x1_0000_0000_0000_0000

  datatype PlanError =
    | ZeroSegment
    | MemoryOverflow
    | LayoutRecord(layoutError: LayoutError)
    | ImageTooLarge
    | InvalidLayout
    | CrossSoftDevice
    | SegmentNotPage
    | MisalignedMemory
    | MemoryTooSmall(minimum: nat)
    | ExceedsWorkspace
    | HybridSuffix
    | StagingOverlap

  // ---- the least window ----

  /** `checked_add(seg - 1)`, then rounded down: src/build.rs:208-213. */
  function Align(n: nat, seg: nat): Result<nat, PlanError>
    requires seg > 0
  {
    if n + (seg - 1) >= U64_LIMIT then Err(MemoryOverflow) else Ok((n + (seg - 1)) / seg * seg)
  }

  /** src/build.rs:205-219 */
  function MinimumInplaceMemory(baseLen: nat, targetLen: nat, seg: U32): Result<U32, PlanError> {
    if seg == 0 then Err(ZeroSegment) else
    match Align(baseLen, seg)
    case Err(e) => Err(e)
    case Ok(alignedBase) =>
      if alignedBase + 2 * seg >= U64_LIMIT then Err(MemoryOverflow) else
      match Align(targetLen, seg)
      case Err(e) => Err(e)
      case Ok(target) =>
        var memory := Max(alignedBase + 2 * seg, target);
        if memory >= U32_LIMIT then Err(MemoryOverflow) else Ok(memory)
  }

  /** A window of this size is whole segments, holds the target, and leaves the whole base below the end of
      memory after the shift the encoder will choose. */
  ghost predicate FitsWindow(memory: nat, baseLen: nat, targetLen: nat, seg: nat)
    requires seg > 0
  {
    && memory % seg == 0
    && targetLen <= memory
    && CalcShift(memory, seg, 2 * seg, baseLen) + baseLen <= memory
  }

  lemma CeilBound(n: nat, d: nat, q: nat)
    requires d > 0
    ensures n <= q * d <==> DivCeil(n, d) <= q
  {
    var c := DivCeil(n, d);
    if c <= q {
      MulMono(c, q, d);
    } else {
      MulMono(q + 1, c, d);
    }
  }

  /** The shift leaves the base whole exactly from two segments above the rounded base on. */
  lemma ShiftLeavesBase(q: nat, seg: nat, baseLen: nat)
    requires seg > 0
    ensures CalcShift(q * seg, seg, 2 * seg, baseLen) + baseLen <= q * seg <==> q >= DivCeil(baseLen, seg) + 2
  {
    var b := DivCeil(baseLen, seg);
    ExactCeil(q, seg);
    if q >= b + 2 {
      MulMono(2, q - b, seg);
      assert (q - b) * seg + b * seg == q * seg;
    } else {
      if q >= b { MulMono(q - b, 1, seg); }
      CeilBound(baseLen, seg, if q >= 2 then q - 2 else 0);
      if q >= 2 {
        assert (q - 2) * seg + 2 * seg == q * seg;
      } else {
        MulMono(q, 1, seg);
      }
    }
  }

  /** With room for it, the shift is whole segments and the largest such shift that leaves the base whole. */
  lemma ShiftIsLargest(q: nat, seg: nat, baseLen: nat, k: nat)
    requires seg > 0 && q >= DivCeil(baseLen, seg) + 2
    ensures CalcShift(q * seg, seg, 2 * seg, baseLen) == (q - DivCeil(baseLen, seg)) * seg
    ensures k * seg + baseLen <= q * seg <==> k * seg <= CalcShift(q * seg, seg, 2 * seg, baseLen)
  {
    var b := DivCeil(baseLen, seg);
    ExactCeil(q, seg);
    MulMono(2, q - b, seg);
    SameOrder(k, q - b, seg);
    if k <= q {
      CeilBound(baseLen, seg, q - k);
      assert (q - k) * seg + k * seg == q * seg;
    } else {
      MulMono(q + 1, k, seg);
    }
  }

  /** A window fits exactly when it is whole segments and no smaller than this. */
  function LeastWindow(baseLen: nat, targetLen: nat, seg: nat): nat
    requires seg > 0
  {
    Max(DivCeil(baseLen, seg) + 2, DivCeil(targetLen, seg)) * seg
  }

  lemma FitsFromLeast(baseLen: nat, targetLen: nat, seg: nat, memory: nat)
    requires seg > 0
    ensures FitsWindow(memory, baseLen, targetLen, seg) <==>
            memory % seg == 0 && memory >= LeastWindow(baseLen, targetLen, seg)
    ensures LeastWindow(baseLen, targetLen, seg) % seg == 0
  {
    hide CalcShift, DivCeil;
    var q := Max(DivCeil(baseLen, seg) + 2, DivCeil(targetLen, seg));
    WholeSegments(q, seg);
    if memory % seg == 0 {
      var k := memory / seg;
      assert memory == k * seg;
      WholeWindowFits(baseLen, targetLen, seg, k);
      SameOrder(q, k, seg);
    }
  }

  /** A window of k segments fits exactly from the least number of segments on. */
  lemma WholeWindowFits(baseLen: nat, targetLen: nat, seg: nat, k: nat)
    requires seg > 0
    ensures FitsWindow(k * seg, baseLen, targetLen, seg) <==>
            k >= Max(DivCeil(baseLen, seg) + 2, DivCeil(targetLen, seg))
  {
    hide CalcShift, DivCeil;
    WholeSegments(k, seg);
    ShiftLeavesBase(k, seg, baseLen);
    CeilBound(targetLen, seg, k);
  }

  /** The computation finds the least fitting window, and is refused exactly when that needs more than 32
      bits: no 64-bit overflow refuses a window that would do. */
  lemma MinimumIsLeast(baseLen: nat, targetLen: nat, seg: U32)
    requires seg > 0
    ensures var least := LeastWindow(baseLen, targetLen, seg);
            MinimumInplaceMemory(baseLen, targetLen, seg) ==
              if least < U32_LIMIT then Ok(least) else Err(MemoryOverflow)
  {
    var b, t := DivCeil(baseLen, seg), DivCeil(targetLen, seg);
    AlignIs(baseLen, seg);
    AlignIs(targetLen, seg);
    assert (b + 2) * seg == b * seg + 2 * seg;
    LeastOfBoth(b + 2, t, seg);
    hide Align, DivCeil;
  }

  lemma WholeSegments(q: nat, seg: nat)
    requires seg > 0
    ensures q * seg % seg == 0
  {
    ExactCeil(q, seg);
    var n := q * seg;
    if n % seg != 0 {
      assert n / seg * seg < n < n / seg * seg + seg;
      if n / seg < q { MulMono(n / seg + 1, q, seg); } else { MulMono(q, n / seg, seg); }
    }
  }

  lemma SameOrder(q: nat, k: nat, seg: nat)
    requires seg > 0
    ensures k * seg >= q * seg <==> k >= q
  {
    if k >= q { MulMono(q, k, seg); } else { MulMono(k + 1, q, seg); }
  }

  lemma LeastOfBoth(a: nat, t: nat, seg: nat)
    ensures Max(a, t) * seg == Max(a * seg, t * seg)
  {
    if a <= t { MulMono(a, t, seg); } else { MulMono(t, a, seg); }
  }

  lemma AlignIs(n: nat, seg: U32)
    requires seg > 0
    ensures Align(n, seg) == if n + (seg - 1) >= U64_LIMIT then Err(MemoryOverflow) else Ok(DivCeil(n, seg) * seg)
    ensures DivCeil(n, seg) * seg >= n
  {
  }

  // ---- the plan ----

  datatype PlanOpts = PlanOpts(segmentSize: U32, inplaceMemory: Option<U32>)

  datatype Plan = Plan(memory: U32, baseLayout: Option<Nrf52Layout>, legacyAuto: bool)

  /** src/build.rs:221-231: the subtraction is a checked one. */
  function ImageFitsLayout(imageLen: nat, layout: Nrf52Layout): Option<PlanError> {
    var ceiling := Min(layout.linkedAppEnd, layout.stageCeiling);
    if ceiling < layout.appBase then Some(InvalidLayout)
    else if imageLen > ceiling - layout.appBase then Some(ImageTooLarge)
    else None
  }

  /** src/build.rs:241-262: the checks on both layout records. */
  function CheckLayouts(o: PlanOpts, baseLayout: Option<Nrf52Layout>, targetLayout: Option<Nrf52Layout>, baseLen: nat,
                        targetLen: nat)
    : Option<PlanError>
  {
    if baseLayout.Some? && ImageFitsLayout(baseLen, baseLayout.value).Some? then
      ImageFitsLayout(baseLen, baseLayout.value)
    else if targetLayout.Some? && ImageFitsLayout(targetLen, targetLayout.value).Some? then
      ImageFitsLayout(targetLen, targetLayout.value)
    else if baseLayout.Some? && targetLayout.Some? && baseLayout.value.appBase != targetLayout.value.appBase then
      Some(CrossSoftDevice)
    else if baseLayout.Some? && o.segmentSize != INPLACE_SEGMENT then Some(SegmentNotPage)
    else None
  }

  /** src/build.rs:302-325: the window inside the running layout's workspace. */
  function CheckWorkspace(memory: U32, layout: Nrf52Layout, targetLen: nat): Option<PlanError> {
    if layout.ApplicationCeiling() < layout.appBase then Some(InvalidLayout)
    else
      var applySpan := layout.ApplicationCeiling() - layout.appBase;
      if !layout.ExternalBacked() && layout.stageCeiling < layout.appBase then Some(InvalidLayout)
      else
        var workspaceSpan := if layout.ExternalBacked() then applySpan else layout.stageCeiling - layout.appBase;
        if memory > workspaceSpan then Some(ExceedsWorkspace)
        else if targetLen > applySpan then Some(ImageTooLarge)
        else None
  }

  /** src/build.rs:263-332: sizing, once the layouts are known. */
  function SizeWindow(o: PlanOpts, baseLayout: Option<Nrf52Layout>, targetLayout: Option<Nrf52Layout>, baseLen: nat,
                      targetLen: nat)
    : Result<Plan, PlanError>
    requires o.segmentSize != 0
  {
    match MinimumInplaceMemory(baseLen, targetLen, o.segmentSize)
    case Err(e) => Err(e)
    case Ok(minimum) =>
      var layoutAuto := baseLayout.Some? && targetLayout.Some?;
      var (memory, legacyAuto) :=
        if o.inplaceMemory.Some? then (o.inplaceMemory.value, false)
        else if layoutAuto then (minimum, false)
        else (FALLBACK_INPLACE_MEMORY, true);
      if memory == 0 || memory % o.segmentSize != 0 then Err(MisalignedMemory)
      else if memory < minimum then Err(MemoryTooSmall(minimum))
      else if legacyAuto && o.segmentSize != INPLACE_SEGMENT then Err(SegmentNotPage)
      else if baseLayout.Some? && CheckWorkspace(memory, baseLayout.value, targetLen).Some? then
        Err(CheckWorkspace(memory, baseLayout.value, targetLen).value)
      else Ok(Plan(memory, baseLayout, legacyAuto))
  }

  /** src/build.rs:233-332 */
  function PlanInplace(lib: Library, o: PlanOpts, baseImage: seq<byte>, targetImage: seq<byte>)
    : Result<Plan, PlanError>
  {
    if o.segmentSize == 0 then Err(ZeroSegment) else
    match ParseNrf52Layout(lib, baseImage)
    case Err(e) => Err(LayoutRecord(e))
    case Ok(baseLayout) =>
      match ParseNrf52Layout(lib, targetImage)
      case Err(e) => Err(LayoutRecord(e))
      case Ok(targetLayout) =>
        match CheckLayouts(o, baseLayout, targetLayout, |baseImage|, |targetImage|)
        case Some(e) => Err(e)
        case None => SizeWindow(o, baseLayout, targetLayout, |baseImage|, |targetImage|)
  }

  /** Every planned window is one in which the encoder keeps the whole base and the target fits, so its own
      conditions hold; automatic sizing from authenticated layouts chooses the least such window. */
  lemma PlannedWindowFits(lib: Library, o: PlanOpts, baseImage: seq<byte>, targetImage: seq<byte>, other: nat)
    requires PlanInplace(lib, o, baseImage, targetImage).Ok?
    ensures var plan := PlanInplace(lib, o, baseImage, targetImage).value;
            && o.segmentSize > 0 && plan.memory >= 2 * o.segmentSize
            && FitsWindow(plan.memory, |baseImage|, |targetImage|, o.segmentSize)
            && (o.inplaceMemory.None? && !plan.legacyAuto ==>
                  FitsWindow(other, |baseImage|, |targetImage|, o.segmentSize) ==> plan.memory <= other)
  {
    hide CalcShift, ParseNrf52Layout, FitsWindow, CheckLayouts, CheckWorkspace, LeastWindow, MinimumInplaceMemory;
    var plan := PlanInplace(lib, o, baseImage, targetImage).value;
    var seg := o.segmentSize;
    MinimumIsLeast(|baseImage|, |targetImage|, seg);
    FitsFromLeast(|baseImage|, |targetImage|, seg, plan.memory);
    FitsFromLeast(|baseImage|, |targetImage|, seg, other);
    LeastIsTwo(|baseImage|, |targetImage|, seg);
  }

  lemma LeastIsTwo(baseLen: nat, targetLen: nat, seg: nat)
    requires seg > 0
    ensures LeastWindow(baseLen, targetLen, seg) >= 2 * seg
  {
    MulMono(2, Max(DivCeil(baseLen, seg) + 2, DivCeil(targetLen, seg)), seg);
  }

  /** The end of the flash that a window may use. */
  function Workspace(l: Nrf52Layout): U32 {
    if l.ExternalBacked() then l.ApplicationCeiling() else l.stageCeiling
  }

  lemma LayoutsChecked(o: PlanOpts, baseLayout: Option<Nrf52Layout>, targetLayout: Option<Nrf52Layout>, baseLen: nat,
                       targetLen: nat)
    requires baseLayout.Some? ==> baseLayout.value.Valid()
    requires targetLayout.Some? ==> targetLayout.value.Valid()
    ensures CheckLayouts(o, baseLayout, targetLayout, baseLen, targetLen) != Some(InvalidLayout)
    ensures CheckLayouts(o, baseLayout, targetLayout, baseLen, targetLen).None? && baseLayout.Some? ==>
              var l := baseLayout.value;
              o.segmentSize == INPLACE_SEGMENT && l.appBase + baseLen <= Min(l.linkedAppEnd, l.stageCeiling)
  {
    if baseLayout.Some? { ValidGeometry(baseLayout.value); }
    if targetLayout.Some? { ValidGeometry(targetLayout.value); }
  }

  lemma WindowSized(o: PlanOpts, baseLayout: Option<Nrf52Layout>, targetLayout: Option<Nrf52Layout>, baseLen: nat,
                    targetLen: nat)
    requires o.segmentSize != 0 && (baseLayout.Some? ==> baseLayout.value.Valid())
    ensures SizeWindow(o, baseLayout, targetLayout, baseLen, targetLen) != Err(InvalidLayout)
    ensures SizeWindow(o, baseLayout, targetLayout, baseLen, targetLen).Ok? && baseLayout.Some? ==>
              var plan := SizeWindow(o, baseLayout, targetLayout, baseLen, targetLen).value;
              var l := baseLayout.value;
              && plan.baseLayout == baseLayout
              && l.appBase + plan.memory <= Workspace(l) <= APP_END
              && l.appBase + targetLen <= l.ApplicationCeiling()
  {
    if baseLayout.Some? { ValidGeometry(baseLayout.value); }
    MinimumIsLeast(baseLen, targetLen, o.segmentSize);
    hide MinimumInplaceMemory, LeastWindow;
  }

  /** A planned window lies inside the workspace of the running layout, and so does the target; the checked
      subtractions of the layout's bounds never fail, because only valid layouts get that far. */
  lemma PlannedWindowInWorkspace(lib: Library, o: PlanOpts, baseImage: seq<byte>, targetImage: seq<byte>)
    ensures PlanInplace(lib, o, baseImage, targetImage) != Err(InvalidLayout)
    ensures PlanInplace(lib, o, baseImage, targetImage).Ok? &&
            PlanInplace(lib, o, baseImage, targetImage).value.baseLayout.Some? ==>
              var plan := PlanInplace(lib, o, baseImage, targetImage).value;
              var l := plan.baseLayout.value;
              && l.Valid() && o.segmentSize == INPLACE_SEGMENT
              && l.appBase + plan.memory <= Workspace(l) <= APP_END
              && l.appBase + |targetImage| <= l.ApplicationCeiling()
              && l.appBase + |baseImage| <= Min(l.linkedAppEnd, l.stageCeiling)
  {
    ParsedIsValid(lib, baseImage);
    ParsedIsValid(lib, targetImage);
    hide ParseNrf52Layout, CheckLayouts, SizeWindow;
    if o.segmentSize != 0 && ParseNrf52Layout(lib, baseImage).Ok? && ParseNrf52Layout(lib, targetImage).Ok? {
      var base, target := ParseNrf52Layout(lib, baseImage).value, ParseNrf52Layout(lib, targetImage).value;
      LayoutsChecked(o, base, target, |baseImage|, |targetImage|);
      WindowSized(o, base, target, |baseImage|, |targetImage|);
      BaseLayoutKept(o, base, target, |baseImage|, |targetImage|);
    }
  }

  /** Which window is planned: an explicit one as given, the least one when both images carry a layout, and
      otherwise the legacy default in whole flash pages. Two layouts must agree on the application's address. */
  lemma PlannedWindowIs(lib: Library, o: PlanOpts, baseImage: seq<byte>, targetImage: seq<byte>)
    requires PlanInplace(lib, o, baseImage, targetImage).Ok?
    ensures var plan := PlanInplace(lib, o, baseImage, targetImage).value;
            && ParseNrf52Layout(lib, baseImage) == Ok(plan.baseLayout) && ParseNrf52Layout(lib, targetImage).Ok?
            && var targetLayout := ParseNrf52Layout(lib, targetImage).value;
               && (plan.baseLayout.Some? && targetLayout.Some? ==>
                     plan.baseLayout.value.appBase == targetLayout.value.appBase)
               && (plan.legacyAuto <==> o.inplaceMemory.None? && !(plan.baseLayout.Some? && targetLayout.Some?))
               && (plan.legacyAuto ==> plan.memory == FALLBACK_INPLACE_MEMORY && o.segmentSize == INPLACE_SEGMENT)
               && (o.inplaceMemory.Some? ==> plan.memory == o.inplaceMemory.value)
               && (o.inplaceMemory.None? && !plan.legacyAuto ==>
                     Ok(plan.memory) == MinimumInplaceMemory(|baseImage|, |targetImage|, o.segmentSize))
  {
    hide ParseNrf52Layout, MinimumInplaceMemory, ImageFitsLayout, CheckWorkspace;
  }

  lemma BaseLayoutKept(o: PlanOpts, baseLayout: Option<Nrf52Layout>, targetLayout: Option<Nrf52Layout>, baseLen: nat,
                       targetLen: nat)
    requires o.segmentSize != 0
    ensures SizeWindow(o, baseLayout, targetLayout, baseLen, targetLen).Ok? ==>
              SizeWindow(o, baseLayout, targetLayout, baseLen, targetLen).value.baseLayout == baseLayout
  {
  }

  lemma ParsedIsValid(lib: Library, image: seq<byte>)
    ensures ParseNrf52Layout(lib, image).Ok? && ParseNrf52Layout(lib, image).value.Some? ==>
              ParseNrf52Layout(lib, image).value.value.Valid()
  {
    hide HasEndf, RdU32;
  }

  // ---- when a plan is accepted ----

  /** The window to plan: as asked for, the least one when both images carry a layout, or the legacy default. */
  function ChosenWindow(o: PlanOpts, baseLayout: Option<Nrf52Layout>, targetLayout: Option<Nrf52Layout>, baseLen: nat,
                        targetLen: nat): nat
    requires o.segmentSize > 0
  {
    if o.inplaceMemory.Some? then o.inplaceMemory.value
    else if baseLayout.Some? && targetLayout.Some? then LeastWindow(baseLen, targetLen, o.segmentSize)
    else 0x0009_8000
  }

  /** Where the bootloader has to stop writing: the scratch area, or the end of application flash. */
  function WriteLimit(l: Nrf52Layout): nat {
    if l.flags / 8 % 2 == 1 then l.linkedAppEnd else 0x000E_D000
  }

  /** The container is staged outside internal flash: on an SD card or in QSPI flash. */
  predicate StagedOutside(l: Nrf52Layout) {
    l.flags % 2 == 1 || l.flags / 4 % 2 == 1
  }

  /** An image lies below what it was linked for and below the staging area. */
  predicate LiesBelow(l: Nrf52Layout, length: nat) {
    l.appBase + length <= l.linkedAppEnd && l.appBase + length <= l.stageCeiling
  }

  /** The layouts agree with both images and with each other. */
  predicate LayoutsSuit(baseLayout: Option<Nrf52Layout>, targetLayout: Option<Nrf52Layout>, baseLen: nat,
                        targetLen: nat) {
    && (baseLayout.Some? ==> LiesBelow(baseLayout.value, baseLen))
    && (targetLayout.Some? ==> LiesBelow(targetLayout.value, targetLen))
    && (baseLayout.Some? && targetLayout.Some? ==> baseLayout.value.appBase == targetLayout.value.appBase)
  }

  /** Segments are flash pages where a layout or the legacy default says so. */
  predicate SegmentSuits(o: PlanOpts, baseLayout: Option<Nrf52Layout>, targetLayout: Option<Nrf52Layout>) {
    && o.segmentSize > 0
    && (baseLayout.Some? ==> o.segmentSize == 4096)
    && (o.inplaceMemory.None? && !(baseLayout.Some? && targetLayout.Some?) ==> o.segmentSize == 4096)
  }

  /** The window and the target fit what the running layout leaves free. */
  predicate WorkspaceHolds(l: Nrf52Layout, memory: nat, targetLen: nat) {
    && l.appBase + memory <= (if StagedOutside(l) then WriteLimit(l) else l.stageCeiling)
    && l.appBase + targetLen <= WriteLimit(l)
  }

  /** Everything a plan asks of a window. */
  ghost predicate Plannable(o: PlanOpts, baseLayout: Option<Nrf52Layout>, targetLayout: Option<Nrf52Layout>,
                            baseLen: nat, targetLen: nat)
  {
    && SegmentSuits(o, baseLayout, targetLayout)
    && LayoutsSuit(baseLayout, targetLayout, baseLen, targetLen)
    && var memory := ChosenWindow(o, baseLayout, targetLayout, baseLen, targetLen);
       && 0 < memory < 0x1_0000_0000
       && FitsWindow(memory, baseLen, targetLen, o.segmentSize)
       && (baseLayout.Some? ==> WorkspaceHolds(baseLayout.value, memory, targetLen))
  }

  lemma ChecksAreSuits(o: PlanOpts, baseLayout: Option<Nrf52Layout>, targetLayout: Option<Nrf52Layout>, baseLen: nat,
                       targetLen: nat)
    requires (baseLayout.Some? ==> baseLayout.value.Valid()) && (targetLayout.Some? ==> targetLayout.value.Valid())
    ensures CheckLayouts(o, baseLayout, targetLayout, baseLen, targetLen).None? <==>
            LayoutsSuit(baseLayout, targetLayout, baseLen, targetLen) && (baseLayout.Some? ==> o.segmentSize == 4096)
  {
    if baseLayout.Some? { ValidGeometry(baseLayout.value); }
    if targetLayout.Some? { ValidGeometry(targetLayout.value); }
  }

  lemma WorkspaceIs(memory: U32, l: Nrf52Layout, targetLen: nat)
    requires l.Valid()
    ensures CheckWorkspace(memory, l, targetLen).None? <==> WorkspaceHolds(l, memory, targetLen)
  {
    ValidGeometry(l);
  }

  lemma SizedExactly(o: PlanOpts, baseLayout: Option<Nrf52Layout>, targetLayout: Option<Nrf52Layout>, baseLen: nat,
                     targetLen: nat)
    requires o.segmentSize != 0 && (baseLayout.Some? ==> baseLayout.value.Valid())
    ensures var memory := ChosenWindow(o, baseLayout, targetLayout, baseLen, targetLen);
            var legacy := o.inplaceMemory.None? && !(baseLayout.Some? && targetLayout.Some?);
            var fits := && 0 < memory < 0x1_0000_0000 && FitsWindow(memory, baseLen, targetLen, o.segmentSize)
                        && (legacy ==> o.segmentSize == 4096)
                        && (baseLayout.Some? ==> WorkspaceHolds(baseLayout.value, memory, targetLen));
            && (SizeWindow(o, baseLayout, targetLayout, baseLen, targetLen).Ok? <==> fits)
            && (fits ==> SizeWindow(o, baseLayout, targetLayout, baseLen, targetLen) ==
                         Ok(Plan(memory, baseLayout, legacy)))
  {
    var seg, memory := o.segmentSize, ChosenWindow(o, baseLayout, targetLayout, baseLen, targetLen);
    MinimumIsLeast(baseLen, targetLen, seg);
    FitsFromLeast(baseLen, targetLen, seg, memory);
    LeastIsTwo(baseLen, targetLen, seg);
    hide MinimumInplaceMemory, LeastWindow, FitsWindow, CheckWorkspace, WorkspaceHolds;
    if baseLayout.Some? && memory < U32_LIMIT {
      WorkspaceIs(memory, baseLayout.value, targetLen);
    }
  }

  /** A plan is accepted exactly when both layout records parse and everything asked of the window holds; then it
      is that window. */
  lemma PlannedExactly(lib: Library, o: PlanOpts, baseImage: seq<byte>, targetImage: seq<byte>)
    ensures var base, target := ParseNrf52Layout(lib, baseImage), ParseNrf52Layout(lib, targetImage);
            var plannable :=
              base.Ok? && target.Ok? && Plannable(o, base.value, target.value, |baseImage|, |targetImage|);
            && (PlanInplace(lib, o, baseImage, targetImage).Ok? <==> plannable)
            && (plannable ==>
                  var memory := ChosenWindow(o, base.value, target.value, |baseImage|, |targetImage|);
                  PlanInplace(lib, o, baseImage, targetImage) ==
                  Ok(Plan(memory, base.value, o.inplaceMemory.None? && !(base.value.Some? && target.value.Some?))))
  {
    ParsedIsValid(lib, baseImage);
    ParsedIsValid(lib, targetImage);
    hide ParseNrf52Layout, CheckLayouts, SizeWindow, LayoutsSuit, WorkspaceHolds, FitsWindow, ChosenWindow;
    var base, target := ParseNrf52Layout(lib, baseImage), ParseNrf52Layout(lib, targetImage);
    if o.segmentSize != 0 && base.Ok? && target.Ok? {
      ChecksAreSuits(o, base.value, target.value, |baseImage|, |targetImage|);
      SizedExactly(o, base.value, target.value, |baseImage|, |targetImage|);
    }
  }

  // ---- staging ----

  const PAGE: nat := INPLACE_SEGMENT

  function PageRoundUp(value: nat): Result<nat, PlanError> {
    if value + (PAGE - 1) >= U64_LIMIT then Err(MemoryOverflow) else Ok((value + (PAGE - 1)) / PAGE * PAGE)
  }

  /** What the container costs in flash: src/build.rs:344-371. */
  function StagedSize(hybrid: bool, total: nat): Result<nat, PlanError> {
    if !hybrid then PageRoundUp(total) else
    var overflow := if total >= HYBRID_RAM_SIZE then total - HYBRID_RAM_SIZE else 0;
    match PageRoundUp(overflow)
    case Err(e) => Err(e)
    case Ok(rounded) =>
      var flashCharge := Max(rounded, PAGE);
      if flashCharge < total && total - flashCharge > HYBRID_RAM_SIZE then Err(HybridSuffix) else Ok(flashCharge)
  }

  /** The flash span the window and the container share, when there is one to respect. */
  function SharedSpan(plan: Plan): Option<(nat, nat)> {
    match plan.baseLayout
    case Some(l) => if l.ExternalBacked() then None else Some((l.appBase, l.stageCeiling))
    case None => if plan.legacyAuto then Some((APP_BASE_S140_V7, EXTRAFS_START)) else None
  }

  function IsHybrid(plan: Plan): bool {
    plan.baseLayout.Some? && plan.baseLayout.value.HybridRam()
  }

  /** src/build.rs:334-384 */
  function ValidateStagingFit(plan: Plan, total: nat): Option<PlanError> {
    match SharedSpan(plan)
    case None => None
    case Some((lo, hi)) =>
      if hi < lo then Some(InvalidLayout) else
      match StagedSize(IsHybrid(plan), total)
      case Err(e) => Some(e)
      case Ok(staged) => if plan.memory + staged > hi - lo then Some(StagingOverlap) else None
  }

  /** The flash charge is whole pages. Without retained RAM it is the least that holds the container; with it
      the least positive charge that leaves at most 64 KiB for RAM, so the check on the RAM part never fails. */
  lemma StagedSizeIsLeast(hybrid: bool, total: nat, other: nat)
    requires total + PAGE <= U64_LIMIT
    ensures StagedSize(hybrid, total).Ok?
    ensures var staged := StagedSize(hybrid, total).value;
            && staged % PAGE == 0
            && (hybrid ==> staged >= PAGE && total <= staged + HYBRID_RAM_SIZE)
            && (!hybrid ==> total <= staged)
            && (other % PAGE == 0 ==>
                  (if hybrid then other > 0 && total <= other + HYBRID_RAM_SIZE else total <= other) ==>
                    staged <= other)
  {
  }

  /** The window and the flash part of the container fit the span they share, if they share one. */
  predicate StagingFits(plan: Plan, total: nat)
    requires total + PAGE <= U64_LIMIT
  {
    match plan.baseLayout
    case Some(l) =>
      StagedOutside(l) || l.appBase + plan.memory + FlashPart(l.flags / 16 % 2 == 1, total) <= l.stageCeiling
    case None => plan.legacyAuto ==> 0x0002_7000 + plan.memory + FlashPart(false, total) <= 0x000D_4000
  }

  /** What the container takes up in flash: whole pages, in hybrid mode all but 64 KiB and at least one page. */
  function FlashPart(hybrid: bool, total: nat): nat {
    if !hybrid then DivCeil(total, 4096) * 4096
    else if total <= 0x1_0000 + 4096 then 4096
    else DivCeil(total - 0x1_0000, 4096) * 4096
  }

  /** Staging is accepted exactly when it fits. */
  lemma StagedExactly(plan: Plan, total: nat)
    requires total + PAGE <= U64_LIMIT && (plan.baseLayout.Some? ==> plan.baseLayout.value.Valid())
    ensures ValidateStagingFit(plan, total).None? <==> StagingFits(plan, total)
  {
    FlashPartIs(IsHybrid(plan), total);
    if plan.baseLayout.Some? { ValidGeometry(plan.baseLayout.value); }
    hide StagedSize, FlashPart;
  }

  lemma FlashPartIs(hybrid: bool, total: nat)
    requires total + PAGE <= U64_LIMIT
    ensures StagedSize(hybrid, total) == Ok(FlashPart(hybrid, total))
  {
  }

  /** When staging is accepted inside a shared span, the window at its bottom and the container's flash part at
      its top do not meet; when only overlap is the matter, it is refused only because they would. */
  lemma StagingIsDisjoint(plan: Plan, total: nat)
    requires total + PAGE <= U64_LIMIT && (plan.baseLayout.Some? ==> plan.baseLayout.value.Valid())
    requires SharedSpan(plan).Some?
    ensures var (lo, hi) := SharedSpan(plan).value;
            var staged := StagedSize(IsHybrid(plan), total).value;
            && StagedSize(IsHybrid(plan), total).Ok? && lo < hi
            && (ValidateStagingFit(plan, total).None? <==> lo + plan.memory <= hi - staged)
            && ValidateStagingFit(plan, total) in {None, Some(StagingOverlap)}
  {
    StagedSizeIsLeast(IsHybrid(plan), total, 0);
    if plan.baseLayout.Some? { ValidGeometry(plan.baseLayout.value); }
    hide StagedSize;
  }
}
