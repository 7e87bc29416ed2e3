/** Which pages an image asks for, and why those requests are safe (kernel/src/process/load_plan.rs, stack.rs). */
module LoadPlans {
  import opened Prelude
  import opened Layout
  import opened Elf

  datatype AddressSpaceError = InvalidUserRange | ImageOutsideUserSpace | StackOverlapsGuard

  datatype LoadPlanError =
    | AddressSpace(error: AddressSpaceError)
    | SegmentOverlap
    | WritableExecutableSegment
    | InvalidEntry
    | TooManySegments

  /** The pages a range touches, as a page-aligned range. */
  function SpanOf(range: VirtRange): (span: VirtRange)
    ensures span.start % PAGE == 0 && span.end % PAGE == 0
    ensures span.start <= range.start < span.start + PAGE
    ensures range.end <= span.end < range.end + PAGE
  {
    VirtRange(PageBase(range.start), PageBase(range.end + PAGE - 1))
  }

  function MapSpan(s: LoadSegment): Result<VirtRange, LoadPlanError> {
    if U64 <= s.range.end + PAGE - 1 || SpanOf(s.range).end < SpanOf(s.range).start
    then Err(AddressSpace(InvalidUserRange))
    else Ok(SpanOf(s.range))
  }

  function ValidateUserRange(range: VirtRange): Option<AddressSpaceError> {
    if !range.IsUser() then Some(InvalidUserRange)
    else if POLICY_GUARD_START < range.end && range.start < POLICY_STACK_START then Some(StackOverlapsGuard)
    else None
  }

  function ValidateImageRange(range: VirtRange): Option<AddressSpaceError> {
    if ValidateUserRange(range).Some? then ValidateUserRange(range)
    else if range.start < USER_IMAGE_BASE || POLICY_STACK_START <= range.start then Some(ImageOutsideUserSpace)
    else None
  }

  /** Segment `i` shares a page with an earlier one. */
  predicate SharesPage(segments: seq<LoadSegment>, i: nat)
    requires i < |segments|
  {
    exists j | 0 <= j < i :: Overlap(SpanOf(segments[i].range), SpanOf(segments[j].range))
  }

  /** Why segment `i` is refused, if it is; the checks are tried in this order. */
  function PlanFault(segments: seq<LoadSegment>, i: nat): Option<LoadPlanError>
    requires i < |segments|
  {
    var s := segments[i];
    if MapSpan(s).Err? then Some(MapSpan(s).error)
    else if ValidateImageRange(SpanOf(s.range)).Some? then
      Some(AddressSpace(ValidateImageRange(SpanOf(s.range)).value))
    else if s.Writable() && s.Executable() then Some(WritableExecutableSegment)
    else if SharesPage(segments, i) then Some(SegmentOverlap)
    else None
  }

  predicate Placeable(segments: seq<LoadSegment>, n: nat)
    requires n <= |segments|
  {
    forall i | 0 <= i < n :: PlanFault(segments, i).None?
  }

  predicate EntersCode(segments: seq<LoadSegment>, n: nat, entry: nat)
    requires n <= |segments|
  {
    exists i | 0 <= i < n :: segments[i].Executable() && SpanOf(segments[i].range).Contains(entry)
  }

  predicate Plannable(image: ElfImage) {
    && |image.segments| <= MAX_SEGMENTS
    && Placeable(image.segments, |image.segments|)
    && EntersCode(image.segments, |image.segments|, image.entry)
  }

  function MappingOf(s: LoadSegment): SegmentMapping {
    SegmentMapping(SpanOf(s.range), s.flags)
  }

  function Mappings(segments: seq<LoadSegment>): (mappings: seq<SegmentMapping>)
    ensures |mappings| == |segments|
  {
    seq(|segments|, i requires 0 <= i < |segments| => MappingOf(segments[i]))
  }

  /** The fault reported is that of the first segment with one. */
  predicate PlanRefusedFor(image: ElfImage, e: LoadPlanError) {
    if MAX_SEGMENTS < |image.segments| then e == TooManySegments
    else if Placeable(image.segments, |image.segments|) then e == LoadPlanError.InvalidEntry
    else exists i | 0 <= i < |image.segments| :: FirstRefused(image.segments, i, e)
  }

  predicate FirstRefused(segments: seq<LoadSegment>, i: nat, e: LoadPlanError)
    requires i < |segments|
  {
    Placeable(segments, i) && PlanFault(segments, i) == Some(e)
  }

  /** An image cannot be planned for one reason only. */
  lemma PlanRefusalUnique(image: ElfImage, e: LoadPlanError, f: LoadPlanError)
    requires PlanRefusedFor(image, e) && PlanRefusedFor(image, f)
    ensures e == f
  {
    var all := image.segments;
    if |all| <= MAX_SEGMENTS && !Placeable(all, |all|) {
      var i :| 0 <= i < |all| && FirstRefused(all, i, e);
      var j :| 0 <= j < |all| && FirstRefused(all, j, f);
      assert PlanFault(all, i).Some? && PlanFault(all, j).Some?;
    }
  }

  method OverlapsPrior(span: VirtRange, prior: seq<SegmentMapping>) returns (b: bool)
    ensures b <==> exists j | 0 <= j < |prior| :: Overlap(span, prior[j].range)
  {
    for j := 0 to |prior|
      invariant forall k | 0 <= k < j :: !Overlap(span, prior[k].range)
    {
      if Overlap(span, prior[j].range) {
        return true;
      }
    }
    return false;
  }

  /** The checks of one segment against the mappings planned so far. */
  method PlanSegment(segments: seq<LoadSegment>, i: nat, prior: seq<SegmentMapping>)
    returns (r: Result<VirtRange, LoadPlanError>)
    requires i < |segments| && prior == Mappings(segments[..i])
    ensures r == if PlanFault(segments, i).Some? then Err(PlanFault(segments, i).value) else Ok(SpanOf(segments[i].range))
  {
    var s := segments[i];
    var mapped := MapSpan(s);
    if mapped.Err? {
      return mapped;
    }
    var fault := ValidateImageRange(mapped.value);
    if fault.Some? {
      return Err(AddressSpace(fault.value));
    }
    if s.Writable() && s.Executable() {
      return Err(WritableExecutableSegment);
    }
    var overlaps := OverlapsPrior(mapped.value, prior);
    assert forall j | 0 <= j < i :: prior[j].range == SpanOf(segments[j].range);
    if overlaps {
      return Err(SegmentOverlap);
    }
    return mapped;
  }

  lemma PlanGrows(segments: seq<LoadSegment>, n: nat, entry: nat)
    requires n < |segments| && Placeable(segments, n) && PlanFault(segments, n).None?
    ensures Placeable(segments, n + 1)
    ensures Mappings(segments[..n + 1]) == Mappings(segments[..n]) + [MappingOf(segments[n])]
    ensures EntersCode(segments, n + 1, entry) <==>
            EntersCode(segments, n, entry) || (segments[n].Executable() && SpanOf(segments[n].range).Contains(entry))
  {
  }

  method BuildPlan(image: ElfImage) returns (r: Result<LoadPlan, LoadPlanError>)
    ensures r.Ok? <==> Plannable(image)
    ensures r.Ok? ==> r.value == LoadPlan(image.entry, Mappings(image.segments))
    ensures r.Err? ==> PlanRefusedFor(image, r.error)
  {
    var all := image.segments;
    if MAX_SEGMENTS < |all| {
      return Err(TooManySegments);
    }
    var segments: seq<SegmentMapping> := [];
    var entryExecutable := false;
    for index := 0 to |all|
      invariant segments == Mappings(all[..index]) && Placeable(all, index)
      invariant entryExecutable <==> EntersCode(all, index, image.entry)
    {
      var span := PlanSegment(all, index, segments);
      if span.Err? {
        assert FirstRefused(all, index, span.error);
        return Err(span.error);
      }
      PlanGrows(all, index, image.entry);
      if all[index].Executable() && span.value.Contains(image.entry) {
        entryExecutable := true;
      }
      segments := segments + [SegmentMapping(span.value, all[index].flags)];
    }
    assert all[..|all|] == all;
    if !entryExecutable {
      return Err(LoadPlanError.InvalidEntry);
    }
    return Ok(LoadPlan(image.entry, segments));
  }

  /** What the mapper may rely on: aligned, non-empty, user-only, pairwise disjoint spans, none of them writable code. */
  predicate SafeMapping(m: SegmentMapping) {
    && m.range.start % PAGE == 0 && m.range.end % PAGE == 0
    && USER_IMAGE_BASE <= m.range.start < m.range.end <= POLICY_GUARD_START
    && !(m.flags % 2 == 1 && m.flags / 2 % 2 == 1)
  }

  predicate Disjoint(mappings: seq<SegmentMapping>) {
    forall i, j | 0 <= i < j < |mappings| :: !Overlap(mappings[j].range, mappings[i].range)
  }

  predicate SafePlan(plan: LoadPlan) {
    && (forall m | m in plan.segments :: SafeMapping(m))
    && Disjoint(plan.segments)
    && exists i | 0 <= i < |plan.segments| ::
         plan.segments[i].flags % 2 == 1 && plan.segments[i].range.Contains(plan.entry)
  }

  lemma SpanSafe(segments: seq<LoadSegment>, i: nat, length: nat)
    requires i < |segments| && PlanFault(segments, i).None? && SegmentInside(segments[i], length)
    ensures SafeMapping(MappingOf(segments[i]))
  {
  }

  lemma SpansDisjoint(segments: seq<LoadSegment>)
    requires Placeable(segments, |segments|)
    ensures Disjoint(Mappings(segments))
  {
    forall i, j | 0 <= i < j < |segments|
      ensures !Overlap(Mappings(segments)[j].range, Mappings(segments)[i].range)
    {
      assert PlanFault(segments, j).None?;
    }
  }

  lemma OneSpan(mappings: seq<SegmentMapping>, i: nat, j: nat, address: nat)
    requires Disjoint(mappings) && i < |mappings| && j < |mappings|
    requires mappings[i].range.Contains(address) && mappings[j].range.Contains(address)
    ensures i == j
  {
  }

  /** Every file that parses and plans gives a safe plan. */
  lemma PlanIsSafe(bytes: seq<Byte>)
    requires Accepts(bytes) && Plannable(Decoded(bytes))
    ensures SafePlan(LoadPlan(EntryOf(bytes), Mappings(Decoded(bytes).segments)))
  {
    var segments := Decoded(bytes).segments;
    SegmentsSound(bytes, TableCount(bytes));
    forall m | m in Mappings(segments) ensures SafeMapping(m) {
      var i :| 0 <= i < |segments| && m == Mappings(segments)[i];
      SpanSafe(segments, i, |bytes|);
    }
    SpansDisjoint(segments);
    var i :| 0 <= i < |segments| && segments[i].Executable() && SpanOf(segments[i].range).Contains(EntryOf(bytes));
    assert Mappings(segments)[i].range.Contains(EntryOf(bytes));
  }

  /** The entry point is inside the unrounded bytes of code that cannot be written, which no single check states. */
  lemma EntryIsCode(bytes: seq<Byte>)
    requires Accepts(bytes) && Plannable(Decoded(bytes))
    ensures exists i | 0 <= i < |Decoded(bytes).segments| ::
              var s := Decoded(bytes).segments[i];
              s.Executable() && !s.Writable() && s.range.Contains(EntryOf(bytes))
  {
    var segments, entry := Decoded(bytes).segments, EntryOf(bytes);
    SegmentsSound(bytes, TableCount(bytes));
    SpansDisjoint(segments);
    var i :| 0 <= i < |segments| && segments[i].range.Contains(entry);
    var j :| 0 <= j < |segments| && segments[j].Executable() && SpanOf(segments[j].range).Contains(entry);
    OneSpan(Mappings(segments), i, j, entry);
    assert segments[i] in segments;
  }

  // ----- which images can be planned -----

  /** The page that begins at an address holds bytes of the range. */
  predicate Touches(range: VirtRange, page: nat) {
    range.start < page + PAGE && page < range.end
  }

  /** Two segments that are not empty share a page exactly when their page ranges overlap. */
  lemma SharedPageIff(a: VirtRange, b: VirtRange)
    requires a.start < a.end && b.start < b.end
    ensures Overlap(SpanOf(a), SpanOf(b)) <==> exists page: nat | page % PAGE == 0 :: Touches(a, page) && Touches(b, page)
  {
    if Overlap(SpanOf(a), SpanOf(b)) {
      var page := if SpanOf(a).start <= SpanOf(b).start then SpanOf(b).start else SpanOf(a).start;
      assert Touches(a, page) && Touches(b, page);
    }
  }

  /** Segment `i` shares a page with an earlier segment. */
  ghost predicate MeetsEarlier(segments: seq<LoadSegment>, i: nat)
    requires i < |segments|
  {
    exists j | 0 <= j < i :: Meet(segments[i].range, segments[j].range)
  }

  ghost predicate Meet(a: VirtRange, b: VirtRange) {
    exists page: nat | page % PAGE == 0 :: Touches(a, page) && Touches(b, page)
  }

  ghost predicate AllFilled(segments: seq<LoadSegment>) {
    forall s | s in segments :: s.range.start < s.range.end
  }

  lemma SharesPageIff(segments: seq<LoadSegment>, i: nat)
    requires i < |segments| && AllFilled(segments)
    ensures SharesPage(segments, i) <==> MeetsEarlier(segments, i)
  {
    forall j | 0 <= j < i
      ensures Overlap(SpanOf(segments[i].range), SpanOf(segments[j].range)) <==> Meet(segments[i].range, segments[j].range)
    {
      assert segments[i] in segments && segments[j] in segments;
      SharedPageIff(segments[i].range, segments[j].range);
    }
    if SharesPage(segments, i) {
      var j :| 0 <= j < i && Overlap(SpanOf(segments[i].range), SpanOf(segments[j].range));
      assert Meet(segments[i].range, segments[j].range);
    }
    if MeetsEarlier(segments, i) {
      var j :| 0 <= j < i && Meet(segments[i].range, segments[j].range);
      assert Overlap(SpanOf(segments[i].range), SpanOf(segments[j].range));
    }
  }

  /** Why a segment is refused, in numbers: outside user space, over the guard page, outside the image area, W and X, or in a used page. */
  lemma PlanFaultIs(segments: seq<LoadSegment>, i: nat)
    requires i < |segments| && AllFilled(segments)
    ensures var s := segments[i];
            PlanFault(segments, i) ==
              if s.range.start < 0x1_0000 || 0xffff_8000_0000_0000 < s.range.end then Some(AddressSpace(InvalidUserRange))
              else if 0xffff_7fff_ffee_f000 < s.range.end && s.range.start < 0xffff_7fff_ffef_0000
              then Some(AddressSpace(StackOverlapsGuard))
              else if s.range.start < 0x11_0000 || 0xffff_7fff_ffef_0000 <= s.range.start then Some(AddressSpace(ImageOutsideUserSpace))
              else if s.flags % 2 == 1 && s.flags / 2 % 2 == 1 then Some(WritableExecutableSegment)
              else if MeetsEarlier(segments, i) then Some(SegmentOverlap)
              else None
  {
    assert segments[i] in segments;
    SharesPageIff(segments, i);
  }

  /** The segment lies between the image base and the guard page, and is not both writable and executable. */
  predicate WellPlaced(s: LoadSegment) {
    && 0x11_0000 <= s.range.start && s.range.end <= 0xffff_7fff_ffee_f000
    && !(s.flags % 2 == 1 && s.flags / 2 % 2 == 1)
  }

  /**
   * An image can be planned exactly when it has at most 8 segments, each well placed, no two of them in one page, and
   * its entry point is in a page of an executable one.
   */
  lemma PlannableIff(image: ElfImage)
    requires AllFilled(image.segments)
    ensures Plannable(image) <==>
      && |image.segments| <= 8
      && (forall i | 0 <= i < |image.segments| :: WellPlaced(image.segments[i]) && !MeetsEarlier(image.segments, i))
      && exists i | 0 <= i < |image.segments| ::
           image.segments[i].flags % 2 == 1 && Touches(image.segments[i].range, PageBase(image.entry))
  {
    var all := image.segments;
    forall i | 0 <= i < |all|
      ensures PlanFault(all, i).None? <==> WellPlaced(all[i]) && !MeetsEarlier(all, i)
      ensures SpanOf(all[i].range).Contains(image.entry) <==> Touches(all[i].range, PageBase(image.entry))
    {
      assert all[i] in all;
      PlanFaultIs(all, i);
    }
  }

  /** No page of a safe plan is a mapped stack page or the guard page below it. */
  lemma ImageOffStack(plan: LoadPlan, m: SegmentMapping, page: nat)
    requires SafePlan(plan) && m in plan.segments && m.range.start <= page < m.range.end
    ensures page + PAGE <= STACK_GUARD_START && page < STACK_START
  {
    assert SafeMapping(m);
  }

  function StackPageList(): (pages: seq<nat>)
    ensures |pages| == STACK_PAGES
  {
    seq(STACK_PAGES, i => STACK_START + i * PAGE)
  }

  /** The stack has sixteen pages, from its lowest to the one below its top. */
  lemma StackPagesAre(page: nat)
    ensures page in StackPageList() <==> page % 0x1000 == 0 && 0xffff_7fff_fffe_f000 <= page < 0xffff_7fff_ffff_f000
  {
    if page % 0x1000 == 0 && 0xffff_7fff_fffe_f000 <= page < 0xffff_7fff_ffff_f000 {
      var i := (page - STACK_START) / PAGE;
      assert StackPageList()[i] == page;
    }
  }

  datatype StackPlanError = InvalidRange | InvalidPage

  /** The stack plan is always the sixteen pages below the mapped stack top. */
  method BuildStackPlan() returns (r: Result<StackPlan, StackPlanError>)
    ensures r == Ok(StackPlan(StackPageList(), STACK_TOP))
  {
    var pages: seq<nat> := [];
    var address := STACK_START;
    while address < STACK_TOP
      invariant |pages| <= STACK_PAGES && address == STACK_START + |pages| * PAGE
      invariant forall i | 0 <= i < |pages| :: pages[i] == STACK_START + i * PAGE
    {
      if address % PAGE != 0 {
        assert false;
        return Err(InvalidPage);
      }
      pages := pages + [address];
      address := address + PAGE;
    }
    if |pages| != STACK_PAGES {
      assert false;
      return Err(InvalidRange);
    }
    assert pages == StackPageList();
    return Ok(StackPlan(pages, STACK_TOP));
  }
}
