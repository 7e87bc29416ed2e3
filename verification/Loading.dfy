/** From the bytes of an executable to a populated address space (kernel/src/process/ramdisk_image.rs, arch/x86_64/process_loader.rs). */
module Loading {
  import opened Prelude
  import Bindings
  import opened Layout
  import E = Elf
  import opened LoadPlans
  import opened PageMaps
  import opened AddressSpaces
  import opened Population

  datatype ImageError = ElfFault(error: E.ElfError) | PlanFaulty(fault: LoadPlanError) | StackFault | ContextFault

  /** Why an address space was not built and filled. */
  datatype FillError = BuildFailed(error: BuildError) | PopulateFailed(fault: PopulationError)

  datatype RootError = RootUnaligned | AllocationFailed | PhysicalAddressOverflow

  datatype ProcessLoadError = RootFault(root: RootError) | MappingFault(mapping: MappingError) | ImageFault(fault: PopulationError)

  /** A page-table root, the mapping under it and the pages that were built. */
  datatype LoadedProcess = LoadedProcess(root: nat, pages: map<nat, PageEntry>, space: BuiltAddressSpace)

  predicate Executable(bytes: seq<Byte>) {
    E.Accepts(bytes) && Plannable(E.Decoded(bytes))
  }

  /** The image of an executable, and the address space planned for it. */
  function ImageOf(bytes: seq<Byte>): ElfImage
    requires Executable(bytes)
  {
    E.Decoded(bytes)
  }

  function PlannedImage(bytes: seq<Byte>, id: nat): ProcessImage
    requires Executable(bytes)
  {
    ProcessImage(id, LoadPlan(ImageOf(bytes).entry, Mappings(ImageOf(bytes).segments)), StackPlan(StackPageList(), STACK_TOP))
  }

  /** What is planned for an executable: its entry point, a mapping for each of its segments and the stack, in the given space. */
  lemma PlannedImageIs(bytes: seq<Byte>, id: nat)
    requires Executable(bytes)
    ensures var image, planned := E.Decoded(bytes), PlannedImage(bytes, id);
            && planned.addressSpace == id && planned.plan.entry == E.EntryOf(bytes) && planned.stack.initialRsp == 0xffff_7fff_ffff_f000
            && planned.stack.pages == StackPageList() && |planned.plan.segments| == |image.segments|
            && forall k | 0 <= k < |image.segments| ::
                 && planned.plan.segments[k].range == SpanOf(image.segments[k].range)
                 && planned.plan.segments[k].flags == image.segments[k].flags
  {
  }

  /** An entry point in user space and an aligned stack pointer in the mapped stack. */
  predicate ContextValid(entry: nat, rsp: nat) {
    USER_SPACE_START <= entry < KERNEL_SPACE_START && STACK_START <= rsp <= STACK_TOP && rsp % 16 == 0
  }

  /** The initial context that is checked here is one that a launch can be made of. */
  lemma ContextLaunches(root: nat, id: nat, entry: nat, rsp: nat)
    ensures ContextValid(entry, rsp) <==> Bindings.PrepareLaunch(root, id, entry, rsp).Some?
  {
  }

  /** The parser's complaint about a file it refuses, else the planner's. */
  ghost predicate ImageRefusedFor(bytes: seq<Byte>, e: ImageError) {
    match e
    case ElfFault(error) => !E.Accepts(bytes) && E.RefusedFor(bytes, error)
    case PlanFaulty(fault) => E.Accepts(bytes) && PlanRefusedFor(E.Decoded(bytes), fault)
    case _ => false
  }

  lemma ImageRefusalUnique(bytes: seq<Byte>, e: ImageError, f: ImageError)
    requires ImageRefusedFor(bytes, e) && ImageRefusedFor(bytes, f)
    ensures e == f
  {
    match e
    case ElfFault(x) => E.RefusalUnique(bytes, x, f.error);
    case PlanFaulty(x) => PlanRefusalUnique(E.Decoded(bytes), x, f.fault);
  }

  /** Parse, plan, lay out the stack, check the initial context. */
  method BuildProcessImage(bytes: seq<Byte>, id: nat) returns (r: Result<ProcessImage, ImageError>)
    requires |bytes| < U64
    ensures r.Ok? <==> Executable(bytes)
    ensures r.Ok? ==> r.value == PlannedImage(bytes, id)
    ensures r.Err? ==> ImageRefusedFor(bytes, r.error)
  {
    var image := E.Parse(bytes);
    if image.Err? {
      return Err(ElfFault(image.error));
    }
    var plan := BuildPlan(image.value);
    if plan.Err? {
      return Err(PlanFaulty(plan.error));
    }
    var stack := BuildStackPlan();
    if stack.Err? {
      assert false;
      return Err(StackFault);
    }
    ExecutableIsSound(bytes);
    var entry, rsp := plan.value.entry, stack.value.initialRsp;
    if !ContextValid(entry, rsp) {
      assert false;
      return Err(ContextFault);
    }
    return Ok(ProcessImage(id, plan.value, stack.value));
  }

  lemma EntryInSpan(plan: LoadPlan)
    requires SafePlan(plan)
    ensures USER_IMAGE_BASE <= plan.entry < POLICY_GUARD_START
  {
    var i :| 0 <= i < |plan.segments| && plan.segments[i].range.Contains(plan.entry);
    assert plan.segments[i].range.Contains(plan.entry) && SafeMapping(plan.segments[i]);
  }

  lemma SoundImage(image: ElfImage)
    requires forall s | s in image.segments :: E.SegmentInside(s, |image.bytes|)
    requires SafePlan(LoadPlan(image.entry, Mappings(image.segments)))
    ensures Sound(image) && Ordered(Mappings(image.segments)) && ContextValid(image.entry, STACK_TOP)
  {
    EntryInSpan(LoadPlan(image.entry, Mappings(image.segments)));
    assert forall m | m in Mappings(image.segments) :: SafeMapping(m);
  }

  lemma ExecutableIsSound(bytes: seq<Byte>)
    requires Executable(bytes)
    ensures Sound(ImageOf(bytes)) && Ordered(Mappings(ImageOf(bytes).segments))
    ensures ContextValid(ImageOf(bytes).entry, STACK_TOP)
  {
    PlanIsSafe(bytes);
    E.SegmentsSound(bytes, E.TableCount(bytes));
    SoundImage(ImageOf(bytes));
  }

  /** The byte a user access to an address finds, through the page mapping and the frame behind it. */
  function VirtualByte(pages: map<nat, PageEntry>, frames: map<nat, seq<Byte>>, address: nat): Option<Byte> {
    var base := PageBase(address);
    if base in pages && pages[base].frame in frames && address - base < |frames[pages[base].frame]|
    then Some(frames[pages[base].frame][address - base]) else None
  }

  lemma BuiltPage(before: map<nat, PageEntry>, after: map<nat, PageEntry>, b: BuiltAddressSpace, c: nat)
    requires Built(before, after, b) && c < |b.load.pages|
    ensures b.load.pages[c].virtual in after && after[b.load.pages[c].virtual].frame == b.load.pages[c].physical
  {
  }

  /** A loaded image page reads, byte for byte, as the image says. */
  lemma PageLoaded(pages: map<nat, PageEntry>, frames: map<nat, seq<Byte>>, image: ElfImage, p: MappedPage, x: nat)
    requires Sound(image) && PageDone(image, p, frames) && x < PAGE && p.virtual % PAGE == 0
    requires p.virtual in pages && pages[p.virtual].frame == p.physical
    ensures var v := p.virtual + x;
            VirtualByte(pages, frames, v).Some? && Means(image, v, VirtualByte(pages, frames, v).value)
  {
    PageByte(image, p, frames, x);
    ByteInPage(pages, frames, p.virtual, x);
  }

  lemma PageByte(image: ElfImage, p: MappedPage, frames: map<nat, seq<Byte>>, x: nat)
    requires Sound(image) && PageDone(image, p, frames) && x < PAGE
    ensures p.physical in frames && |frames[p.physical]| == PAGE && Means(image, p.virtual + x, frames[p.physical][x])
  {
  }

  lemma ByteInPage(pages: map<nat, PageEntry>, frames: map<nat, seq<Byte>>, base: nat, x: nat)
    requires base % PAGE == 0 && x < PAGE && base in pages && pages[base].frame in frames && |frames[pages[base].frame]| == PAGE
    ensures VirtualByte(pages, frames, base + x) == Some(frames[pages[base].frame][x])
  {
    PageBaseUnique(base + x, base);
  }

  /** Every address of every segment reads as the program headers say, under the segment's permission. */
  lemma SegmentLoaded(before: map<nat, PageEntry>, after: map<nat, PageEntry>, frames: map<nat, seq<Byte>>,
                      image: ElfImage, b: BuiltAddressSpace, k: nat, address: nat)
    requires Sound(image) && Built(before, after, b) && b.image.plan == LoadPlan(image.entry, Mappings(image.segments))
    requires Populated(image, b, frames)
    requires k < |image.segments| && image.segments[k].range.Contains(address)
    ensures VirtualByte(after, frames, address) == Some(SegmentByte(image, k, address))
    ensures Grants(after[PageBase(address)].flags, image.segments[k].flags)
  {
    SegmentAccess(before, after, b, k, address);
    var c := PageHolding(image, b.load.pages, k, address);
    BuiltPage(before, after, b, c);
    PageLoaded(after, frames, image, b.load.pages[c], address - PageBase(address));
  }

  /** The load page that holds an address of a segment. */
  lemma PageHolding(image: ElfImage, load: seq<MappedPage>, k: nat, address: nat) returns (c: nat)
    requires Ordered(Mappings(image.segments)) && Virtuals(load) == PageList(Mappings(image.segments))
    requires Distinct(Virtuals(load)) && k < |image.segments| && image.segments[k].range.Contains(address)
    ensures c < |load| && load[c].virtual == PageBase(address)
  {
    var mappings := Mappings(image.segments);
    var j := SpanPage(mappings[k].range, address);
    PagePlaced(load, mappings, k, j);
    c := |FirstPages(mappings, k)| + j;
  }

  ghost predicate Padding(image: ElfImage, address: nat)
    requires Ordered(Mappings(image.segments))
  {
    && PageBase(address) in PageList(Mappings(image.segments))
    && forall k | 0 <= k < |image.segments| :: !image.segments[k].range.Contains(address)
  }

  /** The rest of every image page is zero. */
  lemma PaddingLoaded(before: map<nat, PageEntry>, after: map<nat, PageEntry>, frames: map<nat, seq<Byte>>,
                      image: ElfImage, b: BuiltAddressSpace, address: nat)
    requires Sound(image) && Built(before, after, b) && b.image.plan == LoadPlan(image.entry, Mappings(image.segments))
    requires Populated(image, b, frames) && Padding(image, address)
    ensures VirtualByte(after, frames, address) == Some(0)
  {
    var c :| 0 <= c < |b.load.pages| && Virtuals(b.load.pages)[c] == PageBase(address);
    BuiltPage(before, after, b, c);
    PageLoaded(after, frames, image, b.load.pages[c], address - PageBase(address));
  }

  lemma StackLoaded(before: map<nat, PageEntry>, after: map<nat, PageEntry>, frames: map<nat, seq<Byte>>,
                    image: ElfImage, b: BuiltAddressSpace, address: nat)
    requires Sound(image) && Built(before, after, b) && Populated(image, b, frames)
    requires STACK_START <= address < STACK_TOP
    ensures VirtualByte(after, frames, address) == Some(0)
    ensures after[PageBase(address)].flags == MappingFlags(true, false)
  {
    var base := PageBase(address);
    StackPageOf(before, after, b, base);
    var i := (base - STACK_START) / PAGE;
    assert frames[b.stackPages[i].physical] == Zeros(PAGE);
    ByteInPage(after, frames, base, address - base);
  }

  /** The stack page at an aligned address of the stack. */
  lemma StackPageOf(before: map<nat, PageEntry>, after: map<nat, PageEntry>, b: BuiltAddressSpace, base: nat)
    requires Built(before, after, b) && base % PAGE == 0 && STACK_START <= base < STACK_TOP
    ensures var i := (base - STACK_START) / PAGE;
            i < |b.stackPages| && base in after && after[base] == PageEntry(b.stackPages[i].physical, READ_WRITE)
  {
    var i := (base - STACK_START) / PAGE;
    assert StackPageList()[i] == base;
    assert b.stackPages[i].virtual == Virtuals(b.stackPages)[i];
  }

  /** What a loaded process finds in its memory. */
  ghost predicate Faithful(image: ElfImage, pages: map<nat, PageEntry>, frames: map<nat, seq<Byte>>)
    requires Sound(image)
  {
    && (forall k, v | 0 <= k < |image.segments| && image.segments[k].range.Contains(v) ::
         && VirtualByte(pages, frames, v) == Some(SegmentByte(image, k, v))
         && (pages[PageBase(v)].flags.writable <==> image.segments[k].flags / 2 % 2 == 1)
         && (pages[PageBase(v)].flags.executable <==> image.segments[k].flags % 2 == 1))
    && (forall v | Ordered(Mappings(image.segments)) && Padding(image, v) :: VirtualByte(pages, frames, v) == Some(0))
    && (forall v | STACK_START <= v < STACK_TOP ::
         VirtualByte(pages, frames, v) == Some(0) && pages[PageBase(v)].flags == MappingFlags(true, false))
  }

  /** The supply has a frame for each of these placements. */
  ghost predicate Affords(b: Backend, low: nat, high: nat) {
    forall i | low <= i < high :: Cost(b, i) < |b.supply|
  }

  /** The direct map reaches the frames that these placements will be given. */
  ghost predicate FramesReached(memory: PhysicalMemory, b: Backend, low: nat, high: nat)
    requires Affords(b, low, high)
  {
    forall i | low <= i < high :: memory.Reaches(b.supply[Cost(b, i)], PAGE)
  }

  /** How building and filling end, from what the mapper holds, what its backend will do and what the direct map reaches. */
  ghost function FillResultOf(memory: PhysicalMemory, b: Backend, id: nat, image: ProcessImage): Option<FillError>
    requires Ordered(image.plan.segments)
  {
    var n, all := |PageList(image.plan.segments)|, |Wanted(image)|;
    match BuildOutcome(b, id, image)
    case Some(e) => Some(BuildFailed(e))
    case None =>
      BuildAffords(b, id, image);
      if !FramesReached(memory, b, 0, n) then Some(PopulateFailed(PopulateImageError(FileRangeInvalid)))
      else if !FramesReached(memory, b, n, all) then Some(PopulateFailed(StackWriteFailed))
      else None
  }

  lemma BuildAffords(b: Backend, id: nat, image: ProcessImage)
    requires Ordered(image.plan.segments) && BuildOutcome(b, id, image).None?
    ensures Affords(b, 0, |Wanted(image)|)
  {
    BuildSucceedsIff(b, id, image);
    forall i | 0 <= i < |Wanted(image)| ensures Cost(b, i) < |b.supply| {
      CostGrows(b, i, |Wanted(image)|);
    }
  }

  /** These pages got the frames from placement `first` on. */
  ghost predicate ExactFrom(b: Backend, pages: seq<MappedPage>, first: nat) {
    Affords(b, first, first + |pages|) && forall i | 0 <= i < |pages| :: pages[i].physical == b.supply[Cost(b, first + i)]
  }

  lemma ExactParts(b: Backend, load: seq<MappedPage>, stack: seq<MappedPage>)
    requires Exact(b, load + stack)
    ensures ExactFrom(b, load, 0) && ExactFrom(b, stack, |load|) && Affords(b, 0, |load| + |stack|)
  {
    forall i | 0 <= i < |load| ensures load[i].physical == b.supply[Cost(b, 0 + i)] {
      assert (load + stack)[i] == load[i];
    }
    forall i | 0 <= i < |stack| ensures stack[i].physical == b.supply[Cost(b, |load| + i)] {
      assert (load + stack)[|load| + i] == stack[i];
    }
  }

  lemma ReachedFrom(memory: PhysicalMemory, b: Backend, pages: seq<MappedPage>, first: nat)
    requires ExactFrom(b, pages, first)
    ensures AllReached(memory, pages) <==> FramesReached(memory, b, first, first + |pages|)
  {
    if AllReached(memory, pages) {
      forall i | first <= i < first + |pages| ensures memory.Reaches(b.supply[Cost(b, i)], PAGE) {
        assert memory.Reaches(pages[i - first].physical, PAGE);
      }
    }
  }

  /** The frames of a built space are out of reach exactly where those of the supply are. */
  lemma PopulateAsPlanned(memory: PhysicalMemory, b: Backend, image: ElfImage, built: BuiltAddressSpace)
    requires Mapped(image, built.load.pages) && ExactFrom(b, built.load.pages, 0)
    requires ExactFrom(b, built.stackPages, |built.load.pages|)
    ensures var n, all := |built.load.pages|, |built.load.pages| + |built.stackPages|;
            PopulateOutcome(memory, image, built) ==
              if !FramesReached(memory, b, 0, n) then Some(PopulateImageError(FileRangeInvalid))
              else if !FramesReached(memory, b, n, all) then Some(StackWriteFailed) else None
  {
    MappedOutcome(memory, image, built.load.pages);
    ReachedFrom(memory, b, built.load.pages, 0);
    ReachedFrom(memory, b, built.stackPages, |built.load.pages|);
  }

  /** Once the build is through, the population decides. */
  lemma FillAgrees(memory: PhysicalMemory, b: Backend, id: nat, image: ElfImage, built: BuiltAddressSpace, after: map<nat, PageEntry>)
    requires Sound(image) && built.image.plan == LoadPlan(image.entry, Mappings(image.segments))
    requires Built(b.pages, after, built) && Distinct(Frames(built.load.pages))
    requires built.image.stack.pages == StackPageList() && BuildOutcome(b, id, built.image).None?
    requires Exact(b, built.load.pages + built.stackPages)
    ensures FillResultOf(memory, b, id, built.image) ==
              match PopulateOutcome(memory, image, built) case None => None case Some(e) => Some(PopulateFailed(e))
  {
    ExactParts(b, built.load.pages, built.stackPages);
    PopulateAsPlanned(memory, b, image, built);
  }

  /** A filled space shows the process what the executable says. */
  lemma FilledIsFaithful(before: map<nat, PageEntry>, after: map<nat, PageEntry>, frames: map<nat, seq<Byte>>,
                         image: ElfImage, b: BuiltAddressSpace)
    requires Sound(image) && Built(before, after, b) && b.image.plan == LoadPlan(image.entry, Mappings(image.segments))
    requires Populated(image, b, frames)
    ensures Faithful(image, after, frames)
  {
    forall k, v | 0 <= k < |image.segments| && image.segments[k].range.Contains(v)
      ensures VirtualByte(after, frames, v) == Some(SegmentByte(image, k, v))
           && Grants(after[PageBase(v)].flags, image.segments[k].flags)
    {
      SegmentLoaded(before, after, frames, image, b, k, v);
    }
    forall v | Padding(image, v) ensures VirtualByte(after, frames, v) == Some(0) {
      PaddingLoaded(before, after, frames, image, b, v);
    }
    forall v | STACK_START <= v < STACK_TOP
      ensures VirtualByte(after, frames, v) == Some(0) && after[PageBase(v)].flags == MappingFlags(true, false)
    {
      StackLoaded(before, after, frames, image, b, v);
    }
  }

  /** Builds and fills the address space of an executable; a failed build leaves the mapping as it was. */
  method BuildAndFill(mapper: Mapper, memory: PhysicalMemory, bytes: seq<Byte>, id: nat)
    returns (r: Result<BuiltAddressSpace, FillError>)
    requires Executable(bytes) && mapper.Valid() && memory.Valid()
    requires forall f | f in mapper.supply :: f in memory.frames
    modifies mapper, memory`frames
    ensures mapper.Valid() && memory.Valid() && memory.frames.Keys == old(memory.frames.Keys)
    ensures Sound(ImageOf(bytes)) && Ordered(PlannedImage(bytes, id).plan.segments)
    ensures match FillResultOf(memory, old(mapper.View()), id, PlannedImage(bytes, id))
            case Some(e) => r == Err(e)
            case None =>
              && r.Ok? && Built(old(mapper.pages), mapper.pages, r.value) && Faithful(ImageOf(bytes), mapper.pages, memory.frames)
              && IsRest(old(mapper.supply), Cost(old(mapper.View()), |r.value.load.pages + r.value.stackPages|), mapper.supply)
              && Exact(old(mapper.View()), r.value.load.pages + r.value.stackPages)
    ensures r.Err? && r.error.BuildFailed? ==> mapper.pages == old(mapper.pages) && memory.frames == old(memory.frames)
    ensures forall f | f in memory.frames && f !in old(mapper.supply) :: memory.frames[f] == old(memory.frames[f])
  {
    ExecutableIsSound(bytes);
    var image := ImageOf(bytes);
    ghost var b := mapper.View();
    var built := BuildAddressSpace(mapper, id, PlannedImage(bytes, id));
    if built.Err? {
      return Err(BuildFailed(built.error));
    }
    FramesExist(built.value.load.pages, built.value.stackPages, memory.frames);
    FramesFrom(built.value.load.pages, built.value.stackPages, b.supply);
    FillAgrees(memory, b, id, image, built.value, mapper.pages);
    var fault := Populate(memory, image, built.value);
    if fault.Some? {
      return Err(PopulateFailed(fault.value));
    }
    FilledIsFaithful(b.pages, mapper.pages, memory.frames, image, built.value);
    return Ok(built.value);
  }

  lemma FramesFrom(load: seq<MappedPage>, stack: seq<MappedPage>, supply: seq<nat>)
    requires forall f | f in Frames(load) + Frames(stack) :: f in supply
    ensures forall f | f !in supply :: f !in Frames(load) && f !in Frames(stack)
  {
    forall f | f !in supply ensures f !in Frames(load) && f !in Frames(stack) {
      assert f !in Frames(load) + Frames(stack);
    }
  }

  // ----- the whole load, with its page-table root -----

  /** The frames an allocator has left to give out, one by one. */
  class FrameSupply {
    var frames: seq<nat>

    ghost predicate Valid()
      reads this
    {
      Distinct(frames) && forall f | f in frames :: f % PAGE == 0
    }
  }

  const HALF: nat := PAGE / 2

  /** The entries of a level-4 table from index 256 on, which map the kernel. */
  function KernelHalf(table: seq<Byte>): (half: seq<Byte>)
    requires |table| == PAGE
    ensures |half| == HALF
  {
    table[HALF..]
  }

  /** Why a root cannot be made, if it cannot: no frame, or a table the direct map does not reach. */
  function RootOutcome(memory: PhysicalMemory, frames: seq<nat>, active: nat): Option<RootError> {
    if frames == [] then Some(AllocationFailed)
    else if U64 <= frames[0] + memory.directMap || U64 <= active + memory.directMap then Some(PhysicalAddressOverflow)
    else None
  }

  /** A table with an empty user half and the given kernel half. */
  ghost predicate IsRoot(frames: map<nat, seq<Byte>>, root: nat, kernel: seq<Byte>) {
    root in frames && |frames[root]| == PAGE && frames[root][..HALF] == Zeros(HALF) && KernelHalf(frames[root]) == kernel
  }

  lemma RootTable(active: seq<Byte>)
    requires |active| == PAGE
    ensures var table := Zeros(PAGE)[..HALF] + KernelHalf(active);
            |table| == PAGE && table[..HALF] == Zeros(HALF) && KernelHalf(table) == KernelHalf(active)
  {
  }

  /** Makes a root with an empty user half and the kernel half of the active one. */
  method NewUserRoot(allocator: FrameSupply, memory: PhysicalMemory, active: nat) returns (r: Result<nat, RootError>)
    requires allocator.Valid() && memory.Valid() && active in memory.frames && active !in allocator.frames
    requires forall f | f in allocator.frames :: f in memory.frames
    modifies allocator, memory`frames
    ensures allocator.Valid() && memory.Valid()
    ensures allocator.frames == if old(allocator.frames) == [] then [] else old(allocator.frames)[1..]
    ensures match RootOutcome(memory, old(allocator.frames), active)
            case Some(e) => r == Err(e) && memory.frames == old(memory.frames)
            case None =>
              && r == Ok(old(allocator.frames)[0]) && IsRoot(memory.frames, r.value, KernelHalf(old(memory.frames)[active]))
              && memory.frames == old(memory.frames)[r.value := memory.frames[r.value]]
  {
    if allocator.frames == [] {
      return Err(AllocationFailed);
    }
    var frame := allocator.frames[0];
    assert frame in allocator.frames;
    DistinctSuffix(allocator.frames, 1);
    allocator.frames := allocator.frames[1..];
    if frame % PAGE != 0 {
      assert false;
      return Err(AllocationFailed);
    }
    if U64 <= frame + memory.directMap || U64 <= active + memory.directMap {
      return Err(PhysicalAddressOverflow);
    }
    memory.frames := memory.frames[frame := Zeros(PAGE)];
    memory.frames := memory.frames[frame := memory.frames[frame][..HALF] + KernelHalf(memory.frames[active])];
    RootTable(old(memory.frames)[active]);
    return Ok(frame);
  }

  /** How loading an executable ends. */
  ghost function LoadEnd(memory: PhysicalMemory, frames: seq<nat>, active: nat, refusal: nat -> Option<MappingError>,
                         tables: nat -> nat, id: nat, image: ProcessImage): Option<ProcessLoadError>
    requires Ordered(image.plan.segments)
  {
    if RootOutcome(memory, frames, active).Some? then Some(RootFault(RootOutcome(memory, frames, active).value))
    else match FillResultOf(memory, Backend(map[], frames[1..], 0, refusal, tables), id, image)
      case None => None
      case Some(e) => Some(AsLoadError(e))
  }

  /** The caller is told only that a build failed. */
  function AsLoadError(e: FillError): ProcessLoadError {
    match e
    case BuildFailed(_) => MappingFault(BackendFailure)
    case PopulateFailed(fault) => ImageFault(fault)
  }

  /** The direct map reaches the frame at this address to its end. */
  predicate WithinReach(memory: PhysicalMemory, frame: nat) {
    memory.directMap + frame + 0x1000 < 0x1_0000_0000_0000_0000
  }

  /** The frames that placements `low` to `high` will be given are within reach. */
  ghost predicate GivenWithinReach(memory: PhysicalMemory, b: Backend, low: nat, high: nat)
    requires Affords(b, low, high)
  {
    forall i | low <= i < high :: WithinReach(memory, b.supply[Cost(b, i)])
  }

  lemma ReachedIff(memory: PhysicalMemory, b: Backend, low: nat, high: nat)
    requires Affords(b, low, high)
    ensures FramesReached(memory, b, low, high) <==> GivenWithinReach(memory, b, low, high)
  {
    forall i | low <= i < high ensures memory.Reaches(b.supply[Cost(b, i)], PAGE) <==> WithinReach(memory, b.supply[Cost(b, i)]) {
      ReachesIff(memory, b.supply[Cost(b, i)], PAGE);
    }
    if GivenWithinReach(memory, b, low, high) {
      forall i | low <= i < high ensures memory.Reaches(b.supply[Cost(b, i)], PAGE) {
        assert WithinReach(memory, b.supply[Cost(b, i)]);
      }
    }
  }

  /**
   * Loading an executable succeeds exactly when there is a frame for the root, the direct map reaches that and the active
   * root, the image is for this space and has at most 128 pages, no page request is refused, the other frames cover the
   * pages and their tables, and the direct map reaches the end of every page's frame.
   */
  lemma LoadSucceedsIff(memory: PhysicalMemory, frames: seq<nat>, active: nat, refusal: nat -> Option<MappingError>,
                        tables: nat -> nat, id: nat, image: ProcessImage)
    requires Ordered(image.plan.segments)
    ensures LoadEnd(memory, frames, active, refusal, tables, id, image).None? <==>
      && frames != [] && frames[0] + memory.directMap < U64 && active + memory.directMap < U64
      && var b, n := Backend(map[], frames[1..], 0, refusal, tables), |Wanted(image)|;
         && image.addressSpace == id && |PageList(image.plan.segments)| <= 128
         && Cost(b, n) <= |b.supply| && (forall i | 0 <= i < n :: refusal(i).None?)
         && Affords(b, 0, n) && GivenWithinReach(memory, b, 0, n)
  {
    if RootOutcome(memory, frames, active).None? {
      var b, n, m := Backend(map[], frames[1..], 0, refusal, tables), |Wanted(image)|, |PageList(image.plan.segments)|;
      BuildSucceedsIff(b, id, image);
      UnhinderedFresh(b, Wanted(image));
      if BuildOutcome(b, id, image).None? {
        BuildAffords(b, id, image);
        ReachedIff(memory, b, 0, n);
        ReachedSplit(memory, b, m, n);
      }
    }
  }

  lemma UnhinderedFresh(b: Backend, wanted: seq<nat>)
    requires b.pages == map[] && b.requests == 0
    ensures Unhindered(b, wanted) <==> forall i | 0 <= i < |wanted| :: b.refusal(i).None?
  {
    if forall i | 0 <= i < |wanted| :: b.refusal(i).None? {
      forall i | 0 <= i < |wanted| ensures FreeAt(b, wanted, i) {
        assert b.refusal(b.requests + i) == b.refusal(i);
      }
    }
    if Unhindered(b, wanted) {
      forall i | 0 <= i < |wanted| ensures b.refusal(i).None? {
        assert FreeAt(b, wanted, i);
      }
    }
  }

  lemma ReachedSplit(memory: PhysicalMemory, b: Backend, m: nat, n: nat)
    requires m <= n && Affords(b, 0, n)
    ensures FramesReached(memory, b, 0, n) <==> FramesReached(memory, b, 0, m) && FramesReached(memory, b, m, n)
  {
  }

  /** Which error a failed load reports. */
  lemma LoadErrorIs(memory: PhysicalMemory, frames: seq<nat>, active: nat, refusal: nat -> Option<MappingError>,
                    tables: nat -> nat, id: nat, image: ProcessImage)
    requires Ordered(image.plan.segments)
    ensures var end := LoadEnd(memory, frames, active, refusal, tables, id, image);
            && (end == Some(RootFault(AllocationFailed)) <==> frames == [])
            && (end == Some(RootFault(PhysicalAddressOverflow)) <==>
                 frames != [] && (U64 <= frames[0] + memory.directMap || U64 <= active + memory.directMap))
            && (frames != [] && frames[0] + memory.directMap < U64 && active + memory.directMap < U64 ==>
                 var b, m := Backend(map[], frames[1..], 0, refusal, tables), |PageList(image.plan.segments)|;
                 if BuildOutcome(b, id, image).Some? then end == Some(MappingFault(BackendFailure))
                 else
                   Affords(b, 0, |Wanted(image)|) && m <= |Wanted(image)|
                   && if !GivenWithinReach(memory, b, 0, m) then end == Some(ImageFault(PopulateImageError(FileRangeInvalid)))
                      else if !GivenWithinReach(memory, b, m, |Wanted(image)|) then end == Some(ImageFault(StackWriteFailed))
                      else end.None?)
  {
    if RootOutcome(memory, frames, active).None? {
      var b, m := Backend(map[], frames[1..], 0, refusal, tables), |PageList(image.plan.segments)|;
      if BuildOutcome(b, id, image).None? {
        BuildAffords(b, id, image);
        ReachedIff(memory, b, 0, m);
        ReachedIff(memory, b, m, |Wanted(image)|);
      }
    }
  }

  /** The kernel half is the upper 2048 bytes of a table: its 256 entries from index 256 on. */
  lemma KernelHalfIs(table: seq<Byte>, i: nat)
    requires |table| == PAGE && i < 2048
    ensures |KernelHalf(table)| == 2048 && KernelHalf(table)[i] == table[2048 + i]
  {
  }

  /** A loaded process has its image's pages and its stack mapped, and nothing else: not the guard page, not the rest. */
  lemma MappedExactly(image: ElfImage, after: map<nat, PageEntry>, b: BuiltAddressSpace, address: nat)
    requires Sound(image) && Built(map[], after, b) && b.image.plan == LoadPlan(image.entry, Mappings(image.segments))
    ensures PageBase(address) in after <==>
      || STACK_START <= address < STACK_TOP
      || exists k | 0 <= k < |image.segments| :: Touches(image.segments[k].range, PageBase(address))
  {
    StackPagesAre(PageBase(address));
    ListedIff(image, PageBase(address));
  }

  lemma ListedIff(image: ElfImage, page: nat)
    requires Sound(image) && page % PAGE == 0 && Ordered(Mappings(image.segments))
    ensures page in PageList(Mappings(image.segments)) <==>
      exists k | 0 <= k < |image.segments| :: Touches(image.segments[k].range, page)
  {
    var all := Mappings(image.segments);
    if page in PageList(all) {
      assert forall m | m in all :: SafeMapping(m);
      PagesApart(all, |all|);
      assert FromSegment(all, |all|, page);
      var k :| 0 <= k < |all| && all[k].range.Contains(page);
      SpanTouches(image, k, page);
    }
    if k :| 0 <= k < |image.segments| && Touches(image.segments[k].range, page) {
      SpanTouches(image, k, page);
      ListedPage(all, k, page);
    }
  }

  lemma SpanTouches(image: ElfImage, k: nat, page: nat)
    requires Parsed(image) && k < |image.segments| && page % PAGE == 0
    ensures Mappings(image.segments)[k].range.Contains(page) <==> Touches(image.segments[k].range, page)
  {
    assert E.SegmentInside(image.segments[k], |image.bytes|);
  }

  lemma ListedPage(mappings: seq<SegmentMapping>, k: nat, page: nat)
    requires Ordered(mappings) && k < |mappings| && mappings[k].range.Contains(page) && page % PAGE == 0
    requires mappings[k].range.start % PAGE == 0 && mappings[k].range.end % PAGE == 0
    ensures page in PageList(mappings)
  {
    var j := SpanPage(mappings[k].range, page);
    PagePlace(mappings, k, j);
    PageBaseUnique(page, page);
  }

  /** What a load leaves: a space that shows the executable, under a root with the kernel half, over frames no longer on offer. */
  ghost predicate LoadedWell(p: LoadedProcess, bytes: seq<Byte>, frames: seq<nat>, kernel: seq<Byte>, after: map<nat, seq<Byte>>, left: seq<nat>)
    requires Executable(bytes) && Sound(ImageOf(bytes))
  {
    && frames != [] && p.root == frames[0]
    && Built(map[], p.pages, p.space) && Faithful(ImageOf(bytes), p.pages, after)
    && p.root in after && |after[p.root]| == PAGE && KernelHalf(after[p.root]) == kernel
    && InUse(p, left)
  }

  /** The root and the frames of the pages are all different, and none of them can be given out again. */
  ghost predicate InUse(p: LoadedProcess, left: seq<nat>) {
    var used := [p.root] + (Frames(p.space.load.pages) + Frames(p.space.stackPages));
    Distinct(used) && forall f | f in used :: f !in left
  }

  lemma TakenForGood(b: Backend, pages: seq<MappedPage>, root: nat, frames: seq<nat>, left: seq<nat>)
    requires Distinct(frames) && frames != [] && root == frames[0] && b.supply == frames[1..]
    requires Exact(b, pages) && IsRest(b.supply, Cost(b, |pages|), left)
    ensures Distinct([root] + Frames(pages)) && forall f | f in [root] + Frames(pages) :: f !in left
  {
    var used := [root] + Frames(pages);
    RestOfTail(frames, b.supply, Cost(b, |pages|), left);
    forall i, j | 0 <= i < j < |used| ensures used[i] != used[j] {
      UsedApart(b, pages, root, frames, i, j);
    }
    forall i, j | 0 <= i < |used| && 0 <= j < |left| ensures used[i] != left[j] {
      UsedGone(b, pages, root, frames, left, i, j);
    }
  }

  lemma UsedApart(b: Backend, pages: seq<MappedPage>, root: nat, frames: seq<nat>, i: nat, j: nat)
    requires Distinct(frames) && frames != [] && root == frames[0] && b.supply == frames[1..]
    requires Exact(b, pages) && i < j <= |pages|
    ensures ([root] + Frames(pages))[i] != ([root] + Frames(pages))[j]
  {
    UsedAt(b, pages, root, frames, i);
    UsedAt(b, pages, root, frames, j);
    PlaceGrows(b, i, j);
  }

  lemma UsedGone(b: Backend, pages: seq<MappedPage>, root: nat, frames: seq<nat>, left: seq<nat>, i: nat, j: nat)
    requires Distinct(frames) && frames != [] && root == frames[0] && b.supply == frames[1..]
    requires Exact(b, pages) && IsRest(frames, 1 + Cost(b, |pages|), left) && i <= |pages| && j < |left|
    ensures ([root] + Frames(pages))[i] != left[j]
  {
    UsedAt(b, pages, root, frames, i);
    PlaceGrows(b, i, |pages| + 1);
  }

  lemma UsedAt(b: Backend, pages: seq<MappedPage>, root: nat, frames: seq<nat>, i: nat)
    requires frames != [] && root == frames[0] && b.supply == frames[1..] && Exact(b, pages) && i <= |pages|
    ensures Place(b, i) < |frames| && ([root] + Frames(pages))[i] == frames[Place(b, i)]
  {
    if i > 0 {
      assert pages[i - 1].physical == b.supply[Cost(b, i - 1)];
    }
  }

  /** Where in the allocator's frames the root, and after it page `i - 1`, have their frame. */
  function Place(b: Backend, i: nat): nat {
    if i == 0 then 0 else 1 + Cost(b, i - 1)
  }

  lemma PlaceGrows(b: Backend, i: nat, j: nat)
    requires i < j
    ensures Place(b, i) < Place(b, j)
  {
    if i > 0 { CostGrows(b, i - 1, j - 1); }
  }

  lemma RestOfTail(frames: seq<nat>, tail: seq<nat>, used: nat, left: seq<nat>)
    requires frames != [] && tail == frames[1..] && IsRest(tail, used, left)
    ensures IsRest(frames, 1 + used, left)
  {
    forall i | 0 <= i < |left| ensures left[i] == frames[1 + used + i] {
      assert left[i] == tail[used + i];
    }
  }

  /** Builds and fills the space under a root that has just been made. */
  method FillUnderRoot(allocator: FrameSupply, memory: PhysicalMemory, root: nat, refusal: nat -> Option<MappingError>,
                       tables: nat -> nat, bytes: seq<Byte>, id: nat, ghost frames: seq<nat>)
    returns (r: Result<LoadedProcess, ProcessLoadError>)
    requires Executable(bytes) && allocator.Valid() && memory.Valid() && root + memory.directMap < U64
    requires Distinct(frames) && frames != [] && root == frames[0] && allocator.frames == frames[1..]
    requires forall f | f in allocator.frames :: f in memory.frames
    modifies allocator, memory`frames
    ensures memory.Valid() && memory.frames.Keys == old(memory.frames.Keys)
    ensures Sound(ImageOf(bytes)) && Ordered(PlannedImage(bytes, id).plan.segments)
    ensures match FillResultOf(memory, Backend(map[], old(allocator.frames), 0, refusal, tables), id, PlannedImage(bytes, id))
            case Some(e) => r == Err(AsLoadError(e))
            case None =>
              && r.Ok? && r.value.root == root && allocator.Valid() && InUse(r.value, allocator.frames)
              && Built(map[], r.value.pages, r.value.space) && Faithful(ImageOf(bytes), r.value.pages, memory.frames)
    ensures forall f | f in memory.frames && f !in old(allocator.frames) :: memory.frames[f] == old(memory.frames[f])
  {
    if U64 <= root + memory.directMap {
      assert false;
      return Err(MappingFault(BackendFailure));
    }
    var mapper := new Mapper(allocator.frames, refusal, tables);
    ghost var b := mapper.View();
    var filled := BuildAndFill(mapper, memory, bytes, id);
    if filled.Err? {
      return Err(AsLoadError(filled.error));
    }
    allocator.frames := mapper.supply;
    r := Ok(LoadedProcess(root, mapper.pages, filled.value));
    LoadedInUse(b, r.value, frames, mapper.supply);
  }

  lemma LoadedInUse(b: Backend, p: LoadedProcess, frames: seq<nat>, left: seq<nat>)
    requires Distinct(frames) && frames != [] && p.root == frames[0] && b.supply == frames[1..]
    requires Exact(b, p.space.load.pages + p.space.stackPages)
    requires IsRest(b.supply, Cost(b, |p.space.load.pages + p.space.stackPages|), left)
    ensures InUse(p, left)
  {
    var load, stack := p.space.load.pages, p.space.stackPages;
    TakenForGood(b, load + stack, p.root, frames, left);
    assert Frames(load + stack) == Frames(load) + Frames(stack);
  }

  /** Root, mapper, build, fill: the part that the caller undoes as a whole. */
  method TryLoad(allocator: FrameSupply, memory: PhysicalMemory, active: nat, refusal: nat -> Option<MappingError>,
                 tables: nat -> nat, bytes: seq<Byte>, id: nat)
    returns (r: Result<LoadedProcess, ProcessLoadError>)
    requires Executable(bytes) && allocator.Valid() && memory.Valid()
    requires active in memory.frames && active !in allocator.frames && forall f | f in allocator.frames :: f in memory.frames
    modifies allocator, memory`frames
    ensures memory.Valid() && memory.frames.Keys == old(memory.frames.Keys)
    ensures Sound(ImageOf(bytes)) && Ordered(PlannedImage(bytes, id).plan.segments)
    ensures match LoadEnd(memory, old(allocator.frames), active, refusal, tables, id, PlannedImage(bytes, id))
            case Some(e) => r == Err(e)
            case None =>
              && r.Ok? && allocator.Valid()
              && LoadedWell(r.value, bytes, old(allocator.frames), KernelHalf(old(memory.frames)[active]), memory.frames, allocator.frames)
    ensures forall f | f in memory.frames && f !in old(allocator.frames) :: memory.frames[f] == old(memory.frames[f])
  {
    ExecutableIsSound(bytes);
    ghost var frames := allocator.frames;
    var root := NewUserRoot(allocator, memory, active);
    if root.Err? {
      return Err(RootFault(root.error));
    }
    RootApart(frames);
    r := FillUnderRoot(allocator, memory, root.value, refusal, tables, bytes, id, frames);
  }

  lemma RootApart(frames: seq<nat>)
    requires Distinct(frames) && frames != []
    ensures frames[0] !in frames[1..] && (forall f | f in frames[1..] :: f in frames)
  {
  }

  /**
   * Loads an executable into a new address space. A failure at any stage gives every frame back; no frame outside the
   * supply is ever written.
   */
  method LoadProcessImage(allocator: FrameSupply, memory: PhysicalMemory, active: nat, refusal: nat -> Option<MappingError>,
                          tables: nat -> nat, bytes: seq<Byte>, id: nat)
    returns (r: Result<LoadedProcess, ProcessLoadError>)
    requires Executable(bytes) && allocator.Valid() && memory.Valid()
    requires active in memory.frames && active !in allocator.frames && forall f | f in allocator.frames :: f in memory.frames
    modifies allocator, memory`frames
    ensures allocator.Valid() && memory.Valid() && memory.frames.Keys == old(memory.frames.Keys)
    ensures Sound(ImageOf(bytes)) && Ordered(PlannedImage(bytes, id).plan.segments)
    ensures match LoadEnd(memory, old(allocator.frames), active, refusal, tables, id, PlannedImage(bytes, id))
            case Some(e) => r == Err(e) && allocator.frames == old(allocator.frames)
            case None =>
              && r.Ok?
              && LoadedWell(r.value, bytes, old(allocator.frames), KernelHalf(old(memory.frames)[active]), memory.frames, allocator.frames)
    ensures forall f | f in memory.frames && f !in old(allocator.frames) :: memory.frames[f] == old(memory.frames[f])
  {
    var checkpoint := allocator.frames;
    r := TryLoad(allocator, memory, active, refusal, tables, bytes, id);
    if r.Err? {
      allocator.frames := checkpoint;
    }
  }

  lemma FramesExist(load: seq<MappedPage>, stack: seq<MappedPage>, frames: map<nat, seq<Byte>>)
    requires forall f | f in Frames(load) + Frames(stack) :: f in frames
    requires Distinct(Frames(load) + Frames(stack))
    ensures Distinct(Frames(load)) && Backed(load, frames) && Backed(stack, frames)
  {
    var all := Frames(load) + Frames(stack);
    forall i | 0 <= i < |load| ensures load[i].physical in frames {
      assert all[i] in all;
    }
    forall i | 0 <= i < |stack| ensures stack[i].physical in frames {
      assert all[|load| + i] in all;
    }
    forall i, j | 0 <= i < j < |load| ensures Frames(load)[i] != Frames(load)[j] {
      assert all[i] != all[j];
    }
  }
}
