/** Transactional construction of an address space over a page-table mapper that may fail at any request. */
module AddressSpaces {
  import opened Prelude
  import opened Layout
  import opened LoadPlans
  import opened PageMaps

  datatype MappingError =
    | InvalidVirtualAddress
    | InvalidPhysicalAddress
    | OutsideAddressSpace
    | AlreadyMapped
    | NotMapped
    | ParentEntryHugePage
    | FrameAllocationFailed
    | InvalidMappedFrame
    | BackendFailure

  datatype LoadError = PageInvalid | Mapping(error: MappingError) | TooManyPages | InvalidFlags | RollbackFailed

  datatype BuildError =
    | AddressSpaceMismatch
    | Image(error: LoadError)
    | StackMappingFailed
    | EntryUnmapped
    | EntryNotExecutable
    | StackUnmapped
    | StackNotWritable
    | StackExecutable
    | BuildRollbackFailed

  const MAX_MAPPED_PAGES: nat := 128

  datatype LoadResult = LoadResult(entry: nat, pages: seq<MappedPage>)

  datatype BuiltAddressSpace = BuiltAddressSpace(image: ProcessImage, load: LoadResult, stackPages: seq<MappedPage>)

  datatype PageAccess = PageAccess(mapped: bool, user: bool, writable: bool, executable: bool)

  predicate PageInside(page: nat) {
    page % PAGE == 0 && USER_SPACE_START <= page && page + PAGE <= KERNEL_SPACE_START
  }

  /** A page may be mapped exactly when it is one: aligned, with every address of it in user space. */
  lemma PageInsideIff(page: nat)
    ensures PageInside(page) <==> page % 0x1000 == 0 && 0x1_0000 <= page && page + 0xfff < 0xffff_8000_0000_0000
  {
  }

  /** The state of a page-table mapper and what its backend will do: refuse its n-th request, take frames for tables. */
  datatype Backend = Backend(
    pages: map<nat, PageEntry>, supply: seq<nat>, requests: nat, refusal: nat -> Option<MappingError>, tables: nat -> nat)

  /** Why a page cannot be placed now, if it cannot: no frame, a page already there, no frame for tables, a refusal. */
  function StepFault(b: Backend, page: nat): Option<MappingError> {
    if b.supply == [] then Some(FrameAllocationFailed)
    else if page in b.pages then Some(AlreadyMapped)
    else if |b.supply| - 1 < b.tables(b.requests) then Some(FrameAllocationFailed)
    else b.refusal(b.requests)
  }

  /**
   * A mapper for one user address space. What the backend answers to its n-th map request, and how many
   * frames it takes for page tables first, is arbitrary; a refused request leaves the mapping as it was.
   */
  class Mapper {
    const refusal: nat -> Option<MappingError>
    const tables: nat -> nat
    var pages: map<nat, PageEntry>
    var supply: seq<nat>
    var requests: nat

    /** A mapper for a new root, whose user half is empty. */
    constructor (frames: seq<nat>, refusal: nat -> Option<MappingError>, tables: nat -> nat)
      requires Distinct(frames) && forall f | f in frames :: f % PAGE == 0
      ensures Valid() && View() == Backend(map[], frames, 0, refusal, tables)
    {
      this.refusal, this.tables := refusal, tables;
      pages, supply, requests := map[], frames, 0;
    }

    ghost predicate Valid()
      reads this
    {
      Distinct(supply) && forall f | f in supply :: f % PAGE == 0
    }

    function View(): Backend
      reads this
    {
      Backend(pages, supply, requests, refusal, tables)
    }

    method AllocateFrame() returns (r: Option<nat>)
      requires Valid()
      modifies this`supply
      ensures Valid()
      ensures if old(supply) == [] then r == None && supply == [] else r == Some(old(supply)[0]) && supply == old(supply)[1..]
    {
      if supply == [] {
        return None;
      }
      DistinctSuffix(supply, 1);
      r := Some(supply[0]);
      supply := supply[1..];
    }

    /** The checks before the backend is asked. */
    predicate Askable(page: nat, frame: nat, flags: MappingFlags)
      reads this
    {
      PageInside(page) && !(flags.writable && flags.executable) && frame % PAGE == 0 && page !in pages
    }

    method MapPage(page: nat, frame: nat, flags: MappingFlags) returns (fault: Option<MappingError>)
      requires Valid()
      modifies this
      ensures Valid()
      ensures fault.Some? ==> pages == old(pages)
      ensures fault.None? ==> page !in old(pages) && pages == old(pages)[page := PageEntry(frame, flags)]
      ensures if !old(Askable(page, frame, flags)) then supply == old(supply) && requests == old(requests) && fault ==
                Some(if !PageInside(page) then OutsideAddressSpace else if flags.writable && flags.executable then BackendFailure
                     else if frame % PAGE != 0 then InvalidPhysicalAddress else AlreadyMapped)
              else if |old(supply)| < tables(old(requests)) then fault == Some(FrameAllocationFailed)
              else fault == refusal(old(requests)) && supply == old(supply)[tables(old(requests))..] && requests == old(requests) + 1
    {
      if !PageInside(page) {
        return Some(OutsideAddressSpace);
      }
      if flags.writable && flags.executable {
        return Some(BackendFailure);
      }
      if frame % PAGE != 0 {
        return Some(InvalidPhysicalAddress);
      }
      if page in pages {
        return Some(AlreadyMapped);
      }
      var n := requests;
      requests := n + 1;
      if |supply| < tables(n) {
        supply := [];
        return Some(FrameAllocationFailed);
      }
      DistinctSuffix(supply, tables(n));
      supply := supply[tables(n)..];
      if refusal(n).Some? {
        return refusal(n);
      }
      pages := pages[page := PageEntry(frame, flags)];
      return None;
    }

    method UnmapPage(page: nat) returns (r: Result<nat, MappingError>)
      modifies this`pages
      ensures PageInside(page) && page in old(pages) ==> r == Ok(old(pages)[page].frame) && pages == old(pages) - {page}
      ensures !(PageInside(page) && page in old(pages)) ==>
        r == Err(if PageInside(page) then NotMapped else OutsideAddressSpace) && pages == old(pages)
    {
      if !PageInside(page) {
        return Err(OutsideAddressSpace);
      }
      if page !in pages {
        return Err(NotMapped);
      }
      r := Ok(pages[page].frame);
      pages := pages - {page};
    }

    /** What user code may do at an address: nothing unless its page is mapped, else what the mapping says. */
    function Access(address: nat): (a: PageAccess)
      reads this
      ensures a.mapped <==> 0x1_0000 <= address < 0xffff_8000_0000_0000 && PageBase(address) in pages
      ensures a.user <==> a.mapped
      ensures a.mapped ==> MappingFlags(a.writable, a.executable) == pages[PageBase(address)].flags
      ensures !a.mapped ==> !a.writable && !a.executable
    {
      if USER_SPACE_START <= address < KERNEL_SPACE_START && PageBase(address) in pages
      then PageAccess(true, true, pages[PageBase(address)].flags.writable, pages[PageBase(address)].flags.executable)
      else PageAccess(false, false, false, false)
    }
  }

  /** How far a transaction has come: what it has installed over `before`. */
  ghost predicate Progress(before: map<nat, PageEntry>, pages: seq<MappedPage>, flags: seq<MappingFlags>, now: map<nat, PageEntry>) {
    && |pages| == |flags|
    && now == Install(before, pages, flags) && Fresh(before, pages)
    && forall i | 0 <= i < |pages| :: PageInside(pages[i].virtual)
  }

  lemma ProgressOne(before: map<nat, PageEntry>, pages: seq<MappedPage>, flags: seq<MappingFlags>,
                    now: map<nat, PageEntry>, p: MappedPage, f: MappingFlags)
    requires Progress(before, pages, flags, now) && PageInside(p.virtual) && p.virtual !in now
    ensures Progress(before, pages + [p], flags + [f], now[p.virtual := PageEntry(p.physical, f)])
    ensures Virtuals(pages + [p]) == Virtuals(pages) + [p.virtual]
  {
    InstallOne(before, pages, flags, p, f);
  }

  // ----- what a sequence of placements costs and where it stops -----

  /** The frames used up by the first `k` placements: one for each page, and the tables. */
  function Cost(b: Backend, k: nat): nat {
    if k == 0 then 0 else Cost(b, k - 1) + 1 + b.tables(b.requests + k - 1)
  }

  /** Why the `i`-th of the wanted pages cannot be placed, once all before it have been. */
  function Verdict(b: Backend, wanted: seq<nat>, i: nat): Option<MappingError>
    requires i < |wanted|
  {
    if |b.supply| <= Cost(b, i) then Some(FrameAllocationFailed)
    else if wanted[i] in b.pages then Some(AlreadyMapped)
    else if |b.supply| < Cost(b, i + 1) then Some(FrameAllocationFailed)
    else b.refusal(b.requests + i)
  }

  /** None of these placements fails. */
  ghost predicate AllPlaced(b: Backend, wanted: seq<nat>, low: nat, high: nat)
    requires high <= |wanted|
  {
    forall i | low <= i < high :: Verdict(b, wanted, i).None?
  }

  /** The pages placed so far are the first wanted ones, each over the frame that was next in the supply. */
  ghost predicate Track(b: Backend, wanted: seq<nat>, pages: seq<MappedPage>, now: Backend) {
    var k := |pages|;
    && k <= |wanted| && (forall i | 0 <= i < k :: pages[i].virtual == wanted[i])
    && IsRest(b.supply, Cost(b, k), now.supply)
    && now.requests == b.requests + k && now.refusal == b.refusal && now.tables == b.tables
    && Exact(b, pages)
  }

  /** What is left of a supply after its first `used` frames. */
  ghost predicate IsRest(supply: seq<nat>, used: nat, left: seq<nat>) {
    && used + |left| == |supply|
    && forall i | 0 <= i < |left| :: left[i] == supply[used + i]
  }

  /** The `i`-th page has the frame that was next once the pages before it and their tables had theirs. */
  ghost predicate Exact(b: Backend, pages: seq<MappedPage>) {
    forall i | 0 <= i < |pages| :: Cost(b, i) < |b.supply| && pages[i].physical == b.supply[Cost(b, i)]
  }

  /** The mapping now is the first one with the tracked pages added. */
  ghost predicate Added(b: Backend, pages: seq<MappedPage>, now: Backend) {
    forall v :: v in now.pages <==> v in b.pages || v in Virtuals(pages)
  }

  /** What stops the next placement is what the plan of all placements says. */
  lemma VerdictNow(b: Backend, wanted: seq<nat>, pages: seq<MappedPage>, now: Backend)
    requires Track(b, wanted, pages, now) && Added(b, pages, now) && Distinct(wanted) && |pages| < |wanted|
    ensures StepFault(now, wanted[|pages|]) == Verdict(b, wanted, |pages|)
  {
    var k := |pages|;
    forall i | 0 <= i < k ensures Virtuals(pages)[i] != wanted[k] {
      assert wanted[i] != wanted[k];
    }
  }

  lemma TrackOne(b: Backend, wanted: seq<nat>, pages: seq<MappedPage>, now: Backend, p: MappedPage, later: Backend)
    requires Track(b, wanted, pages, now) && |pages| < |wanted| && p.virtual == wanted[|pages|]
    requires now.supply != [] && p.physical == now.supply[0] && now.tables(now.requests) < |now.supply|
    requires later.supply == now.supply[1 + now.tables(now.requests)..] && later.requests == now.requests + 1
    requires later.refusal == now.refusal && later.tables == now.tables
    ensures Track(b, wanted, pages + [p], later)
  {
    var d := 1 + now.tables(now.requests);
    forall i | 0 <= i < |later.supply| ensures later.supply[i] == b.supply[Cost(b, |pages| + 1) + i] {
      assert later.supply[i] == now.supply[d + i];
    }
  }

  /** Different placements use different frames. */
  lemma {:induction false} CostGrows(b: Backend, i: nat, j: nat)
    requires i < j
    ensures Cost(b, i) < Cost(b, j)
    decreases j
  {
    if i < j - 1 {
      CostGrows(b, i, j - 1);
    }
  }

  lemma TrackedFrames(b: Backend, wanted: seq<nat>, pages: seq<MappedPage>, now: Backend)
    requires Track(b, wanted, pages, now) && Distinct(b.supply)
    ensures Distinct(Frames(pages)) && forall f | f in Frames(pages) :: f in b.supply
  {
    forall i, j | 0 <= i < j < |pages| ensures Frames(pages)[i] != Frames(pages)[j] {
      CostGrows(b, i, j);
    }
  }

  /** Unmaps what was installed, last page first; what was there before is there again. */
  method Rollback(mapper: Mapper, pages: seq<MappedPage>, ghost before: map<nat, PageEntry>, ghost flags: seq<MappingFlags>)
    returns (ok: bool)
    requires |pages| == |flags| && Fresh(before, pages) && mapper.pages == Install(before, pages, flags)
    requires forall i | 0 <= i < |pages| :: PageInside(pages[i].virtual)
    modifies mapper`pages
    ensures ok && mapper.pages == before
  {
    var index := |pages|;
    assert pages[..index] == pages && flags[..index] == flags;
    while 0 < index
      invariant 0 <= index <= |pages| && Fresh(before, pages[..index])
      invariant mapper.pages == Install(before, pages[..index], flags[..index])
    {
      UninstallLast(before, pages[..index], flags[..index]);
      assert pages[..index][..index - 1] == pages[..index - 1] && flags[..index][..index - 1] == flags[..index - 1];
      index := index - 1;
      var removed := mapper.UnmapPage(pages[index].virtual);
      if removed.Err? {
        assert false;
        return false;
      }
    }
    return true;
  }

  /** One frame for one page: allocate, then map. */
  method PlacePage(mapper: Mapper, page: nat, f: MappingFlags) returns (r: Result<nat, MappingError>)
    requires mapper.Valid() && PageInside(page) && !(f.writable && f.executable)
    modifies mapper
    ensures mapper.Valid()
    ensures match StepFault(old(mapper.View()), page)
            case Some(e) => r == Err(e) && mapper.pages == old(mapper.pages)
            case None =>
              && page !in old(mapper.pages) && old(mapper.supply) != [] && r == Ok(old(mapper.supply)[0])
              && mapper.pages == old(mapper.pages)[page := PageEntry(r.value, f)]
              && mapper.tables(old(mapper.requests)) < |old(mapper.supply)|
              && mapper.supply == old(mapper.supply)[1 + mapper.tables(old(mapper.requests))..]
              && mapper.requests == old(mapper.requests) + 1
  {
    ghost var supply := mapper.supply;
    var frame := mapper.AllocateFrame();
    if frame.None? {
      return Err(FrameAllocationFailed);
    }
    assert frame.value in supply;
    var fault := mapper.MapPage(page, frame.value, f);
    if fault.Some? {
      return Err(fault.value);
    }
    DropTwice(supply, 1, mapper.tables(old(mapper.requests)));
    return Ok(frame.value);
  }

  /** Places the next wanted page, if nothing stops it; `all` are the pages placed before it, `pages` those to be undone. */
  method PlaceNext(mapper: Mapper, page: nat, f: MappingFlags, ghost before: map<nat, PageEntry>, ghost pages: seq<MappedPage>,
                   ghost flags: seq<MappingFlags>, ghost b: Backend, ghost wanted: seq<nat>, ghost all: seq<MappedPage>, ghost low: nat)
    returns (r: Result<nat, MappingError>)
    requires mapper.Valid() && PageInside(page) && !(f.writable && f.executable)
    requires Distinct(wanted) && |all| < |wanted| && page == wanted[|all|] && AllPlaced(b, wanted, low, |all|)
    requires Track(b, wanted, all, mapper.View()) && Added(b, all, mapper.View())
    requires Progress(before, pages, flags, mapper.pages)
    modifies mapper
    ensures mapper.Valid()
    ensures match Verdict(b, wanted, |all|)
            case Some(e) => r == Err(e) && mapper.pages == old(mapper.pages)
            case None =>
              && r.Ok? && AllPlaced(b, wanted, low, |all| + 1)
              && var p := MappedPage(page, r.value);
                 && Progress(before, pages + [p], flags + [f], mapper.pages)
                 && Track(b, wanted, all + [p], mapper.View())
  {
    ghost var now := mapper.View();
    VerdictNow(b, wanted, all, now);
    r := PlacePage(mapper, page, f);
    if r.Ok? {
      ghost var p := MappedPage(page, r.value);
      ProgressOne(before, pages, flags, now.pages, p, f);
      TrackOne(b, wanted, all, now, p, mapper.View());
    }
  }

  /** Where the load stops among its `n` pages: at the page limit, or at the first placement that fails. */
  function LoadOutcome(b: Backend, wanted: seq<nat>, n: nat): Option<LoadError>
    requires n <= |wanted|
  {
    LoadOutcomeFrom(b, wanted, 0, n)
  }

  function LoadOutcomeFrom(b: Backend, wanted: seq<nat>, k: nat, n: nat): Option<LoadError>
    requires k <= n <= |wanted|
    decreases n - k
  {
    if k == n then None
    else if k == MAX_MAPPED_PAGES then Some(TooManyPages)
    else if Verdict(b, wanted, k).Some? then Some(Mapping(Verdict(b, wanted, k).value))
    else LoadOutcomeFrom(b, wanted, k + 1, n)
  }

  lemma {:induction false} LoadReaches(b: Backend, wanted: seq<nat>, k: nat, n: nat)
    requires k <= n <= |wanted| && k <= MAX_MAPPED_PAGES && AllPlaced(b, wanted, 0, k)
    ensures LoadOutcome(b, wanted, n) == LoadOutcomeFrom(b, wanted, k, n)
  {
    if k > 0 {
      LoadReaches(b, wanted, k - 1, n);
    }
  }

  /** The load goes through exactly when it fits and no placement fails. */
  lemma {:induction false} LoadOutcomeMeans(b: Backend, wanted: seq<nat>, k: nat, n: nat)
    requires k <= n <= |wanted| && k <= MAX_MAPPED_PAGES
    ensures LoadOutcomeFrom(b, wanted, k, n).None? <==> n <= MAX_MAPPED_PAGES && AllPlaced(b, wanted, k, n)
    decreases n - k
  {
    if k < n && k < MAX_MAPPED_PAGES && Verdict(b, wanted, k).None? {
      LoadOutcomeMeans(b, wanted, k + 1, n);
    }
  }

  /** Where a load stops: at its first page that cannot be placed, for that page's reason, or at the 129th. */
  lemma LoadStopsAt(b: Backend, wanted: seq<nat>, n: nat, k: nat)
    requires k <= n <= |wanted| && k <= 128 && AllPlaced(b, wanted, 0, k)
    ensures k == n ==> LoadOutcome(b, wanted, n).None?
    ensures k < n && k == 128 ==> LoadOutcome(b, wanted, n) == Some(TooManyPages)
    ensures k < n && k < 128 && Verdict(b, wanted, k).Some? ==> LoadOutcome(b, wanted, n) == Some(Mapping(Verdict(b, wanted, k).value))
  {
    LoadReaches(b, wanted, k, n);
  }

  /** Why a page cannot be placed: no frame for it or its tables, a page already there, or else what the backend says. */
  lemma VerdictIs(b: Backend, wanted: seq<nat>, i: nat)
    requires i < |wanted|
    ensures Cost(b, i) < |b.supply| && wanted[i] in b.pages ==> Verdict(b, wanted, i) == Some(AlreadyMapped)
    ensures |b.supply| <= Cost(b, i) || (wanted[i] !in b.pages && |b.supply| < Cost(b, i + 1)) ==>
      Verdict(b, wanted, i) == Some(FrameAllocationFailed)
    ensures wanted[i] !in b.pages && Cost(b, i + 1) <= |b.supply| ==> Verdict(b, wanted, i) == b.refusal(b.requests + i)
    ensures Cost(b, i + 1) == Cost(b, i) + 1 + b.tables(b.requests + i) && Cost(b, 0) == 0
  {
  }

  /** The inner loop's body: one more page, or none of those so far. */
  method MapImagePage(mapper: Mapper, address: nat, f: MappingFlags, pages: seq<MappedPage>,
                      ghost flags: seq<MappingFlags>, ghost b: Backend, ghost wanted: seq<nat>, ghost n: nat)
    returns (r: Result<nat, LoadError>)
    requires mapper.Valid() && PageInside(address) && !(f.writable && f.executable)
    requires Distinct(wanted) && |pages| < n <= |wanted| && wanted[|pages|] == address && |pages| <= MAX_MAPPED_PAGES
    requires Progress(b.pages, pages, flags, mapper.pages) && Track(b, wanted, pages, mapper.View())
    requires AllPlaced(b, wanted, 0, |pages|)
    modifies mapper
    ensures mapper.Valid()
    ensures match r
            case Err(e) => mapper.pages == b.pages && LoadOutcome(b, wanted, n) == Some(e)
            case Ok(frame) =>
              && |pages| < MAX_MAPPED_PAGES && AllPlaced(b, wanted, 0, |pages| + 1)
              && Progress(b.pages, pages + [MappedPage(address, frame)], flags + [f], mapper.pages)
              && Track(b, wanted, pages + [MappedPage(address, frame)], mapper.View())
  {
    LoadReaches(b, wanted, |pages|, n);
    if |pages| == MAX_MAPPED_PAGES {
      var undone := Rollback(mapper, pages, b.pages, flags);
      return Err(if undone then TooManyPages else RollbackFailed);
    }
    if address % PAGE != 0 {
      assert false;
      return Err(PageInvalid);
    }
    AddedByInstall(b, pages, flags, mapper.View());
    var frame := PlaceNext(mapper, address, f, b.pages, pages, flags, b, wanted, pages, 0);
    if frame.Err? {
      var undone := Rollback(mapper, pages, b.pages, flags);
      return Err(if undone then Mapping(frame.error) else RollbackFailed);
    }
    return Ok(frame.value);
  }

  /** The inner loop of the load: every page of one segment, or nothing at all. */
  method MapSpanPages(mapper: Mapper, range: VirtRange, f: MappingFlags, done: seq<MappedPage>, ghost count: nat,
                      ghost flags: seq<MappingFlags>, ghost b: Backend, ghost wanted: seq<nat>, ghost n: nat)
    returns (r: Result<seq<MappedPage>, LoadError>)
    requires mapper.Valid() && |done| <= MAX_MAPPED_PAGES && !(f.writable && f.executable)
    requires range.start % PAGE == 0 && range.start + count * PAGE == range.end
    requires USER_SPACE_START <= range.start && range.end <= KERNEL_SPACE_START
    requires Distinct(wanted) && |done| + count <= n <= |wanted| && Lists(wanted, |done|, range.start, count)
    requires Progress(b.pages, done, flags, mapper.pages) && Track(b, wanted, done, mapper.View())
    requires AllPlaced(b, wanted, 0, |done|)
    modifies mapper
    ensures mapper.Valid()
    ensures match r
            case Err(e) => mapper.pages == b.pages && LoadOutcome(b, wanted, n) == Some(e)
            case Ok(pages) =>
              && |pages| == |done| + count <= MAX_MAPPED_PAGES
              && Progress(b.pages, pages, flags + Repeat(f, count), mapper.pages)
              && Track(b, wanted, pages, mapper.View())
              && AllPlaced(b, wanted, 0, |pages|)
  {
    var pages, address := done, range.start;
    ghost var k := 0;
    RepeatNone(flags, f);
    while address < range.end
      invariant 0 <= k <= count && address == range.start + k * PAGE
      invariant mapper.Valid() && |pages| == |done| + k <= MAX_MAPPED_PAGES
      invariant Progress(b.pages, pages, flags + Repeat(f, k), mapper.pages)
      invariant Track(b, wanted, pages, mapper.View())
      invariant AllPlaced(b, wanted, 0, |pages|)
    {
      SpanStep(range, count, k, address);
      var frame := MapImagePage(mapper, address, f, pages, flags + Repeat(f, k), b, wanted, n);
      if frame.Err? {
        return Err(frame.error);
      }
      RepeatOne(flags, f, k);
      pages := pages + [MappedPage(address, frame.value)];
      address, k := address + PAGE, k + 1;
    }
    assert k == count;
    return Ok(pages);
  }

  lemma RepeatNone(flags: seq<MappingFlags>, f: MappingFlags)
    ensures flags + Repeat(f, 0) == flags
  {
  }

  lemma RepeatOne(flags: seq<MappingFlags>, f: MappingFlags, k: nat)
    ensures flags + Repeat(f, k) + [f] == flags + Repeat(f, k + 1)
  {
  }

  /** So many pages from `start` on are wanted, in order, from the `first` on. */
  ghost predicate Lists(wanted: seq<nat>, first: nat, start: nat, count: nat) {
    && first + count <= |wanted|
    && forall j | 0 <= j < count :: wanted[first + j] == start + j * PAGE
  }

  /** Page `k` of an aligned user range. */
  lemma SpanStep(range: VirtRange, count: nat, k: nat, address: nat)
    requires range.start % PAGE == 0 && range.start + count * PAGE == range.end && address == range.start + k * PAGE < range.end
    requires USER_SPACE_START <= range.start && range.end <= KERNEL_SPACE_START
    ensures PageInside(address)
  {
    assert k < count;
  }

  lemma AddedByInstall(b: Backend, pages: seq<MappedPage>, flags: seq<MappingFlags>, now: Backend)
    requires |pages| == |flags| && now.pages == Install(b.pages, pages, flags)
    ensures Added(b, pages, now)
  {
    forall v ensures v in now.pages <==> v in b.pages || v in Virtuals(pages) {
      InstalledKeys(b.pages, pages, flags, v);
    }
  }

  /** The pages of the first `k` segments, and nothing else, have been placed. */
  ghost predicate Placed(b: Backend, segments: seq<SegmentMapping>, k: nat, wanted: seq<nat>, pages: seq<MappedPage>, now: Backend)
    requires Ordered(segments) && k <= |segments|
  {
    && |pages| == |FirstPages(segments, k)| <= |wanted| && |pages| <= MAX_MAPPED_PAGES
    && Progress(b.pages, pages, FirstFlags(segments, k), now.pages)
    && Track(b, wanted, pages, now) && AllPlaced(b, wanted, 0, |pages|)
  }

  lemma NothingPlaced(b: Backend, segments: seq<SegmentMapping>, wanted: seq<nat>)
    requires Ordered(segments)
    ensures Placed(b, segments, 0, wanted, [], b)
  {
  }

  lemma AllSegmentsPlaced(b: Backend, segments: seq<SegmentMapping>, wanted: seq<nat>, pages: seq<MappedPage>, now: Backend)
    requires Ordered(segments) && Placed(b, segments, |segments|, wanted, pages, now)
    ensures LoadOutcome(b, wanted, |PageList(segments)|) == None
  {
    LoadReaches(b, wanted, |pages|, |pages|);
  }

  /** The pages of segment `k` follow those of the segments before it. */
  lemma WantedSpan(segments: seq<SegmentMapping>, k: nat, rest: seq<nat>)
    requires Ordered(segments) && k < |segments|
    ensures var i := |FirstPages(segments, k)|;
            && i + |SpanPages(segments[k].range)| <= |PageList(segments)|
            && Lists(PageList(segments) + rest, i, segments[k].range.start, |SpanPages(segments[k].range)|)
  {
    PagesGrow(segments, k + 1, |segments|);
    var i, span := |FirstPages(segments, k)|, SpanPages(segments[k].range);
    forall j | 0 <= j < |span| ensures (PageList(segments) + rest)[i + j] == segments[k].range.start + j * PAGE {
      PagePlace(segments, k, j);
    }
  }

  /** The outer loop's body: the pages of segment `k` after those of the segments before it. */
  method MapSegment(mapper: Mapper, segments: seq<SegmentMapping>, k: nat, done: seq<MappedPage>,
                    ghost b: Backend, ghost rest: seq<nat>)
    returns (r: Result<seq<MappedPage>, LoadError>)
    requires mapper.Valid() && Ordered(segments) && k < |segments| && SafeMapping(segments[k])
    requires Distinct(PageList(segments) + rest)
    requires Placed(b, segments, k, PageList(segments) + rest, done, mapper.View())
    modifies mapper
    ensures mapper.Valid()
    ensures match r
            case Err(e) => mapper.pages == b.pages && LoadOutcome(b, PageList(segments) + rest, |PageList(segments)|) == Some(e)
            case Ok(pages) => Placed(b, segments, k + 1, PageList(segments) + rest, pages, mapper.View())
  {
    var m := segments[k];
    WantedSpan(segments, k, rest);
    if m.flags % 2 == 1 && m.flags / 2 % 2 == 1 {
      assert false;
      return Err(InvalidFlags);
    }
    r := MapSpanPages(mapper, m.range, FlagsOf(m.flags), done, |SpanPages(m.range)|,
                      FirstFlags(segments, k), b, PageList(segments) + rest, |PageList(segments)|);
  }

  /** The outer loop of the load: the pages of every segment, or nothing at all. */
  method MapSegments(mapper: Mapper, segments: seq<SegmentMapping>, ghost b: Backend, ghost rest: seq<nat>)
    returns (r: Result<seq<MappedPage>, LoadError>)
    requires mapper.Valid() && Ordered(segments) && (forall m | m in segments :: SafeMapping(m))
    requires Distinct(PageList(segments) + rest) && b == mapper.View()
    modifies mapper
    ensures mapper.Valid()
    ensures match r
            case Err(e) => mapper.pages == b.pages && LoadOutcome(b, PageList(segments) + rest, |PageList(segments)|) == Some(e)
            case Ok(pages) => Placed(b, segments, |segments|, PageList(segments) + rest, pages, mapper.View())
  {
    var pages: seq<MappedPage> := [];
    NothingPlaced(b, segments, PageList(segments) + rest);
    for index := 0 to |segments|
      invariant mapper.Valid() && Placed(b, segments, index, PageList(segments) + rest, pages, mapper.View())
    {
      var mapped := MapSegment(mapper, segments, index, pages, b, rest);
      if mapped.Err? {
        return mapped;
      }
      pages := mapped.value;
    }
    return Ok(pages);
  }

  /** Maps every page of the plan, or leaves the mapping as it was; `rest` is what will be mapped after it. */
  method MapLoadPlan(mapper: Mapper, plan: LoadPlan, ghost rest: seq<nat>) returns (r: Result<LoadResult, LoadError>)
    requires mapper.Valid() && SafePlan(plan) && Ordered(plan.segments) && Distinct(PageList(plan.segments) + rest)
    modifies mapper
    ensures mapper.Valid()
    ensures var b, wanted := old(mapper.View()), PageList(plan.segments) + rest;
            match LoadOutcome(b, wanted, |PageList(plan.segments)|)
            case Some(e) => r == Err(e) && mapper.pages == old(mapper.pages)
            case None =>
              r.Ok? && r.value.entry == plan.entry && Placed(b, plan.segments, |plan.segments|, wanted, r.value.pages, mapper.View())
  {
    ghost var b := mapper.View();
    var mapped := MapSegments(mapper, plan.segments, b, rest);
    if mapped.Err? {
      return Err(mapped.error);
    }
    AllSegmentsPlaced(b, plan.segments, PageList(plan.segments) + rest, mapped.value, mapper.View());
    return Ok(LoadResult(plan.entry, mapped.value));
  }

  /** The stack pages, all of them or none. */
  method MapStack(mapper: Mapper, stack: seq<nat>, load: seq<MappedPage>, ghost flags: seq<MappingFlags>,
                  ghost b: Backend, ghost wanted: seq<nat>)
    returns (r: Option<seq<MappedPage>>)
    requires mapper.Valid() && Distinct(wanted) && |wanted| == |load| + |stack| && wanted[|load|..] == stack
    requires forall i | 0 <= i < |stack| :: PageInside(stack[i])
    requires Track(b, wanted, load, mapper.View()) && |flags| == |load| && mapper.pages == Install(b.pages, load, flags)
    modifies mapper
    ensures mapper.Valid()
    ensures r.Some? <==> AllPlaced(b, wanted, |load|, |wanted|)
    ensures r.None? ==> mapper.pages == old(mapper.pages)
    ensures r.Some? ==>
      && |r.value| == |stack| && Virtuals(r.value) == stack && Fresh(old(mapper.pages), r.value)
      && mapper.pages == Install(old(mapper.pages), r.value, Repeat(READ_WRITE, |stack|))
      && Track(b, wanted, load + r.value, mapper.View())
  {
    ghost var before := mapper.pages;
    var pages: seq<MappedPage> := [];
    assert load + pages == load;
    for index := 0 to |stack|
      invariant mapper.Valid() && |pages| == index
      invariant Progress(before, pages, Repeat(READ_WRITE, index), mapper.pages)
      invariant Track(b, wanted, load + pages, mapper.View())
      invariant AllPlaced(b, wanted, |load|, |load| + index)
    {
      assert wanted[|load| + index] == wanted[|load|..][index];
      AddedByBoth(b, load, flags, before, pages, Repeat(READ_WRITE, index), mapper.View());
      var frame := PlaceNext(mapper, stack[index], READ_WRITE, before, pages, Repeat(READ_WRITE, index), b, wanted, load + pages, |load|);
      if frame.Err? {
        var undone := Rollback(mapper, pages, before, Repeat(READ_WRITE, index));
        return None;
      }
      assert Repeat(READ_WRITE, index) + [READ_WRITE] == Repeat(READ_WRITE, index + 1);
      assert load + pages + [MappedPage(stack[index], frame.value)] == load + (pages + [MappedPage(stack[index], frame.value)]);
      pages := pages + [MappedPage(stack[index], frame.value)];
    }
    StackVirtuals(load, pages, wanted, stack);
    return Some(pages);
  }

  lemma AddedByBoth(b: Backend, load: seq<MappedPage>, flags: seq<MappingFlags>, mid: map<nat, PageEntry>,
                    pages: seq<MappedPage>, more: seq<MappingFlags>, now: Backend)
    requires |load| == |flags| && |pages| == |more|
    requires mid == Install(b.pages, load, flags) && now.pages == Install(mid, pages, more)
    ensures Added(b, load + pages, now)
  {
    forall v ensures v in now.pages <==> v in b.pages || v in Virtuals(load + pages) {
      InstalledKeys(b.pages, load, flags, v);
      InstalledKeys(mid, pages, more, v);
      VirtualsJoin(load, pages, v);
    }
  }

  lemma VirtualsJoin(load: seq<MappedPage>, pages: seq<MappedPage>, v: nat)
    ensures v in Virtuals(load + pages) <==> v in Virtuals(load) || v in Virtuals(pages)
  {
    assert Virtuals(load + pages) == Virtuals(load) + Virtuals(pages);
  }

  lemma StackVirtuals(load: seq<MappedPage>, pages: seq<MappedPage>, wanted: seq<nat>, stack: seq<nat>)
    requires |wanted| == |load| + |pages| && wanted[|load|..] == stack
    requires forall i | 0 <= i < |wanted| :: (load + pages)[i].virtual == wanted[i]
    ensures Virtuals(pages) == stack
  {
    forall i | 0 <= i < |pages| ensures Virtuals(pages)[i] == stack[i] {
      assert (load + pages)[|load| + i].virtual == wanted[|load| + i] == stack[i];
    }
  }

  /** The image pages and the stack pages have been added under their permissions, and nothing else has changed. */
  ghost predicate Built(before: map<nat, PageEntry>, after: map<nat, PageEntry>, b: BuiltAddressSpace) {
    var segments, load, stack := b.image.plan.segments, b.load.pages, b.stackPages;
    && Ordered(segments) && Virtuals(load) == PageList(segments) && Virtuals(stack) == StackPageList()
    && b.load.entry == b.image.plan.entry
    && (forall v :: v in after <==> v in before || v in PageList(segments) || v in StackPageList())
    && (forall v | v in before :: v !in PageList(segments) && v !in StackPageList() && after[v] == before[v])
    && (forall i | 0 <= i < |load| ::
         load[i].virtual in after && after[load[i].virtual] == PageEntry(load[i].physical, FlagList(segments)[i]))
    && (forall i | 0 <= i < |stack| ::
         stack[i].virtual in after && after[stack[i].virtual] == PageEntry(stack[i].physical, READ_WRITE))
    && Distinct(Virtuals(load)) && Distinct(Frames(load) + Frames(stack))
  }

  lemma InstalledBoth(before: map<nat, PageEntry>, b: BuiltAddressSpace, flags: seq<MappingFlags>, more: seq<MappingFlags>)
    requires |flags| == |b.load.pages| && |more| == |b.stackPages|
    requires Fresh(before, b.load.pages) && Fresh(Install(before, b.load.pages, flags), b.stackPages)
    ensures var mid := Install(before, b.load.pages, flags); var after := Install(mid, b.stackPages, more);
            && (forall v :: v in after <==> v in before || v in Virtuals(b.load.pages) || v in Virtuals(b.stackPages))
            && (forall v | v in before :: v !in Virtuals(b.load.pages) && v !in Virtuals(b.stackPages) && after[v] == before[v])
            && (forall i | 0 <= i < |b.load.pages| :: b.load.pages[i].virtual in after
                 && after[b.load.pages[i].virtual] == PageEntry(b.load.pages[i].physical, flags[i]))
            && (forall i | 0 <= i < |b.stackPages| :: b.stackPages[i].virtual in after
                 && after[b.stackPages[i].virtual] == PageEntry(b.stackPages[i].physical, more[i]))
  {
    var load, stack := b.load.pages, b.stackPages;
    var mid := Install(before, load, flags);
    var after := Install(mid, stack, more);
    forall v ensures v in after <==> v in before || v in Virtuals(load) || v in Virtuals(stack) {
      InstalledKeys(before, load, flags, v);
      InstalledKeys(mid, stack, more, v);
    }
    forall v | v in before ensures v !in Virtuals(load) && v !in Virtuals(stack) && after[v] == before[v] {
      InstalledKeys(before, load, flags, v);
      InstalledKeys(mid, stack, more, v);
    }
    forall i | 0 <= i < |load| ensures load[i].virtual in after && after[load[i].virtual] == PageEntry(load[i].physical, flags[i]) {
      InstalledPage(before, load, flags, i);
      InstalledKeys(mid, stack, more, load[i].virtual);
    }
    forall i | 0 <= i < |stack| ensures stack[i].virtual in after && after[stack[i].virtual] == PageEntry(stack[i].physical, more[i]) {
      InstalledPage(mid, stack, more, i);
    }
  }

  lemma LoadEntry(segments: seq<SegmentMapping>, load: seq<MappedPage>, k: nat, address: nat) returns (i: nat)
    requires Ordered(segments) && Virtuals(load) == PageList(segments)
    requires k < |segments| && SafeMapping(segments[k]) && segments[k].range.Contains(address)
    ensures i < |load| && load[i].virtual == PageBase(address) && Grants(FlagList(segments)[i], segments[k].flags)
  {
    var j := SpanPage(segments[k].range, address);
    PagePlace(segments, k, j);
    i := |FirstPages(segments, k)| + j;
    assert Virtuals(load)[i] == load[i].virtual;
  }

  /** Every address of a segment is mapped under that segment's permission. */
  lemma SegmentAccess(before: map<nat, PageEntry>, after: map<nat, PageEntry>, b: BuiltAddressSpace, k: nat, address: nat)
    requires Built(before, after, b) && SafePlan(b.image.plan)
    requires k < |b.image.plan.segments| && b.image.plan.segments[k].range.Contains(address)
    ensures PageBase(address) in after
    ensures Grants(after[PageBase(address)].flags, b.image.plan.segments[k].flags)
  {
    assert SafeMapping(b.image.plan.segments[k]);
    var i := LoadEntry(b.image.plan.segments, b.load.pages, k, address);
  }

  lemma StackAccess(before: map<nat, PageEntry>, after: map<nat, PageEntry>, b: BuiltAddressSpace, address: nat)
    requires Built(before, after, b) && STACK_START <= address < STACK_TOP
    ensures PageBase(address) in after && after[PageBase(address)].flags == MappingFlags(true, false)
  {
    var i := (PageBase(address) - STACK_START) / PAGE;
    assert StackPageList()[i] == PageBase(address);
    assert b.stackPages[i].virtual == Virtuals(b.stackPages)[i];
  }

  /** All the pages a process image asks for, in the order in which they are placed. */
  function Wanted(image: ProcessImage): seq<nat>
    requires Ordered(image.plan.segments)
  {
    PageList(image.plan.segments) + image.stack.pages
  }

  /** No page of a safe plan is asked for twice, and all of them lie below the stack. */
  lemma {:induction false} PagesApart(segments: seq<SegmentMapping>, n: nat)
    requires Ordered(segments) && Disjoint(segments) && (forall m | m in segments :: SafeMapping(m)) && n <= |segments|
    ensures Distinct(FirstPages(segments, n))
    ensures forall v | v in FirstPages(segments, n) :: v < STACK_START && FromSegment(segments, n, v)
  {
    if n > 0 {
      PagesApart(segments, n - 1);
      var front, last := FirstPages(segments, n - 1), SpanPages(segments[n - 1].range);
      assert SafeMapping(segments[n - 1]);
      forall j | 0 <= j < |last| ensures last[j] < STACK_START && segments[n - 1].range.Contains(last[j]) {
        LastOfSpan(segments[n - 1].range, j);
      }
      forall i, j | 0 <= i < |front| && 0 <= j < |last| ensures front[i] != last[j] {
        assert front[i] in front;
        var k :| 0 <= k < n - 1 && segments[k].range.Contains(front[i]);
        assert !Overlap(segments[n - 1].range, segments[k].range);
      }
      DistinctJoin(front, last);
    }
  }

  ghost predicate FromSegment(segments: seq<SegmentMapping>, n: nat, page: nat)
    requires n <= |segments|
  {
    exists k | 0 <= k < n :: segments[k].range.Contains(page)
  }

  lemma LastOfSpan(range: VirtRange, j: nat)
    requires range.start <= range.end && j < |SpanPages(range)|
    ensures range.start <= SpanPages(range)[j] && SpanPages(range)[j] + PAGE <= range.end
  {
  }

  lemma DistinctJoin(a: seq<nat>, b: seq<nat>)
    requires Distinct(a) && Distinct(b)
    requires forall i, j | 0 <= i < |a| && 0 <= j < |b| :: a[i] != b[j]
    ensures Distinct(a + b)
  {
  }

  lemma WantedApart(image: ProcessImage)
    requires SafePlan(image.plan) && image.stack.pages == StackPageList()
    ensures Ordered(image.plan.segments) && Distinct(Wanted(image))
    ensures PageList(image.plan.segments) <= Wanted(image)
  {
    assert forall m | m in image.plan.segments :: SafeMapping(m);
    PagesApart(image.plan.segments, |image.plan.segments|);
    var load, stack := PageList(image.plan.segments), StackPageList();
    forall i, j | 0 <= i < |load| && 0 <= j < |stack| ensures load[i] != stack[j] {
      assert load[i] in load;
    }
    DistinctJoin(load, stack);
  }

  /** How a build ends, from what the mapper holds and what its backend will do. */
  ghost function BuildOutcome(b: Backend, id: nat, image: ProcessImage): Option<BuildError>
    requires Ordered(image.plan.segments)
  {
    var wanted, n := Wanted(image), |PageList(image.plan.segments)|;
    if image.addressSpace != id then Some(AddressSpaceMismatch)
    else match LoadOutcome(b, wanted, n)
      case Some(e) => Some(Image(e))
      case None => if AllPlaced(b, wanted, n, |wanted|) then None else Some(StackMappingFailed)
  }

  /** All the pages are free and none of the requests for them is refused. */
  ghost predicate Unhindered(b: Backend, wanted: seq<nat>) {
    forall i | 0 <= i < |wanted| :: FreeAt(b, wanted, i)
  }

  ghost predicate FreeAt(b: Backend, wanted: seq<nat>, i: nat)
    requires i < |wanted|
  {
    wanted[i] !in b.pages && b.refusal(b.requests + i).None?
  }

  /** A build succeeds exactly when it may, fits, finds its pages free, is refused nothing and has the frames. */
  lemma BuildSucceedsIff(b: Backend, id: nat, image: ProcessImage)
    requires Ordered(image.plan.segments)
    ensures var wanted := Wanted(image);
            BuildOutcome(b, id, image).None? <==>
              && image.addressSpace == id
              && |PageList(image.plan.segments)| <= 128
              && Cost(b, |wanted|) <= |b.supply| && Unhindered(b, wanted)
  {
    var wanted, n := Wanted(image), |PageList(image.plan.segments)|;
    LoadOutcomeMeans(b, wanted, 0, n);
    PlacedIff(b, wanted);
    assert AllPlaced(b, wanted, 0, |wanted|) <==> AllPlaced(b, wanted, 0, n) && AllPlaced(b, wanted, n, |wanted|);
  }

  /** How a build fails: on another space's image, in the load, or, once that is through, in the stack. */
  lemma BuildFailsIn(b: Backend, id: nat, image: ProcessImage)
    requires Ordered(image.plan.segments)
    ensures var wanted, n := Wanted(image), |PageList(image.plan.segments)|; var out := BuildOutcome(b, id, image);
            && (out == Some(AddressSpaceMismatch) <==> image.addressSpace != id)
            && (image.addressSpace == id && LoadOutcome(b, wanted, n).Some? ==> out == Some(Image(LoadOutcome(b, wanted, n).value)))
            && (out == Some(StackMappingFailed) <==>
                 image.addressSpace == id && LoadOutcome(b, wanted, n).None? && !AllPlaced(b, wanted, n, |wanted|))
  {
  }

  /** Every placement goes through exactly when the pages are free, nothing is refused and the supply covers the cost. */
  lemma PlacedIff(b: Backend, wanted: seq<nat>)
    ensures AllPlaced(b, wanted, 0, |wanted|) <==>
              && Cost(b, |wanted|) <= |b.supply| && Unhindered(b, wanted)
  {
    var n := |wanted|;
    if AllPlaced(b, wanted, 0, n) {
      assert n > 0 ==> Verdict(b, wanted, n - 1).None?;
      assert Cost(b, n) <= |b.supply|;
      forall i | 0 <= i < n ensures FreeAt(b, wanted, i) {
        assert Verdict(b, wanted, i).None?;
      }
    }
    if Cost(b, n) <= |b.supply| && Unhindered(b, wanted) {
      forall i | 0 <= i < n ensures Verdict(b, wanted, i).None? {
        assert FreeAt(b, wanted, i);
        CostGrows(b, i, n);
        if i + 1 < n {
          CostGrows(b, i + 1, n);
        }
      }
    }
  }

  lemma BuiltFrames(b: Backend, wanted: seq<nat>, load: seq<MappedPage>, stack: seq<MappedPage>, now: Backend)
    requires Track(b, wanted, load + stack, now) && Distinct(b.supply)
    ensures Distinct(Frames(load) + Frames(stack)) && Exact(b, load + stack)
    ensures forall f | f in Frames(load) + Frames(stack) :: f in b.supply
  {
    assert Frames(load + stack) == Frames(load) + Frames(stack);
    TrackedFrames(b, wanted, load + stack, now);
  }

  lemma LoadVirtuals(segments: seq<SegmentMapping>, rest: seq<nat>, load: seq<MappedPage>)
    requires Ordered(segments) && |load| == |PageList(segments)|
    requires forall i | 0 <= i < |load| :: load[i].virtual == (PageList(segments) + rest)[i]
    ensures Virtuals(load) == PageList(segments)
  {
  }

  lemma PlacedBoth(b: Backend, built: BuiltAddressSpace, now: Backend)
    requires var image, load, stack := built.image, built.load.pages, built.stackPages;
             && Ordered(image.plan.segments) && built.load.entry == image.plan.entry && image.stack.pages == StackPageList()
             && Virtuals(load) == PageList(image.plan.segments) && Virtuals(stack) == StackPageList()
             && Fresh(b.pages, load) && Fresh(Install(b.pages, load, FlagList(image.plan.segments)), stack)
             && now.pages == Install(Install(b.pages, load, FlagList(image.plan.segments)), stack, Repeat(READ_WRITE, STACK_PAGES))
             && Track(b, Wanted(image), load + stack, now) && Distinct(b.supply)
    ensures Built(b.pages, now.pages, built) && Exact(b, built.load.pages + built.stackPages)
    ensures forall f | f in Frames(built.load.pages) + Frames(built.stackPages) :: f in b.supply
  {
    BuiltFrames(b, Wanted(built.image), built.load.pages, built.stackPages, now);
    InstalledBoth(b.pages, built, FlagList(built.image.plan.segments), Repeat(READ_WRITE, STACK_PAGES));
  }

  /** The entry point is mapped for execution and the top of the stack for writing: no complaint is ever made. */
  method CheckAccess(mapper: Mapper, built: BuiltAddressSpace, ghost before: map<nat, PageEntry>) returns (r: Result<BuiltAddressSpace, BuildError>)
    requires Built(before, mapper.pages, built) && SafePlan(built.image.plan) && built.image.stack.initialRsp == STACK_TOP
    ensures r == Ok(built)
  {
    var entry := mapper.Access(built.load.entry);
    ghost var k :| 0 <= k < |built.image.plan.segments|
      && built.image.plan.segments[k].flags % 2 == 1 && built.image.plan.segments[k].range.Contains(built.image.plan.entry);
    assert SafeMapping(built.image.plan.segments[k]);
    SegmentAccess(before, mapper.pages, built, k, built.image.plan.entry);
    if !entry.mapped || !entry.user {
      assert false;
      return Err(EntryUnmapped);
    }
    if !entry.executable {
      assert false;
      return Err(EntryNotExecutable);
    }
    var top := mapper.Access(built.image.stack.initialRsp - 1);
    StackAccess(before, mapper.pages, built, STACK_TOP - 1);
    if !top.mapped || !top.user {
      assert false;
      return Err(StackUnmapped);
    }
    if !top.writable {
      assert false;
      return Err(StackNotWritable);
    }
    if top.executable {
      assert false;
      return Err(StackExecutable);
    }
    return Ok(built);
  }

  /** The second half of a build: the stack as well, or neither. */
  method AddStack(mapper: Mapper, image: ProcessImage, load: LoadResult, ghost b: Backend) returns (r: Result<BuiltAddressSpace, BuildError>)
    requires mapper.Valid() && Ordered(image.plan.segments) && image.stack.pages == StackPageList() && load.entry == image.plan.entry
    requires Distinct(Wanted(image)) && Distinct(b.supply)
    requires Placed(b, image.plan.segments, |image.plan.segments|, Wanted(image), load.pages, mapper.View())
    modifies mapper
    ensures mapper.Valid()
    ensures if AllPlaced(b, Wanted(image), |load.pages|, |Wanted(image)|)
            then && r.Ok? && r.value.image == image && Built(b.pages, mapper.pages, r.value)
                 && Exact(b, r.value.load.pages + r.value.stackPages)
                 && IsRest(b.supply, Cost(b, |r.value.load.pages + r.value.stackPages|), mapper.supply)
                 && forall f | f in Frames(r.value.load.pages) + Frames(r.value.stackPages) :: f in b.supply
            else r == Err(StackMappingFailed) && mapper.pages == b.pages
  {
    ghost var flags := FlagList(image.plan.segments);
    LoadVirtuals(image.plan.segments, StackPageList(), load.pages);
    var stack := MapStack(mapper, image.stack.pages, load.pages, flags, b, Wanted(image));
    if stack.None? {
      var undone := Rollback(mapper, load.pages, b.pages, flags);
      return Err(if undone then StackMappingFailed else BuildRollbackFailed);
    }
    r := Ok(BuiltAddressSpace(image, load, stack.value));
    PlacedBoth(b, r.value, mapper.View());
  }

  /** Maps image and stack; the final permission checks and the failing rollbacks are unreachable. */
  method BuildAddressSpace(mapper: Mapper, id: nat, image: ProcessImage) returns (r: Result<BuiltAddressSpace, BuildError>)
    requires mapper.Valid() && SafePlan(image.plan) && image.stack == StackPlan(StackPageList(), STACK_TOP)
    modifies mapper
    ensures mapper.Valid() && Ordered(image.plan.segments)
    ensures match BuildOutcome(old(mapper.View()), id, image)
            case Some(e) => r == Err(e) && mapper.pages == old(mapper.pages)
            case None =>
              && r.Ok? && r.value.image == image && Built(old(mapper.pages), mapper.pages, r.value)
              && Exact(old(mapper.View()), r.value.load.pages + r.value.stackPages)
              && IsRest(old(mapper.supply), Cost(old(mapper.View()), |r.value.load.pages + r.value.stackPages|), mapper.supply)
    ensures r.Ok? ==> forall f | f in Frames(r.value.load.pages) + Frames(r.value.stackPages) :: f in old(mapper.supply)
  {
    WantedApart(image);
    if image.addressSpace != id {
      return Err(AddressSpaceMismatch);
    }
    ghost var b := mapper.View();
    var load := MapLoadPlan(mapper, image.plan, StackPageList());
    if load.Err? {
      return Err(Image(load.error));
    }
    r := AddStack(mapper, image, load.value, b);
    if r.Ok? {
      r := CheckAccess(mapper, r.value, b.pages);
    }
  }
}
