/** Filling mapped pages from an image, page by page (kernel/src/process/populate.rs, populated_address_space.rs). */
module Population {
  import opened Prelude
  import opened Layout
  import opened Elf
  import opened LoadPlans
  import opened PageMaps
  import opened AddressSpaces

  datatype PopulateError = MissingMappedPage | SegmentOutsideMapping | FileRangeInvalid | AddressOverflow

  datatype PopulationError = PopulateImageError(error: PopulateError) | StackWriteFailed

  /** What the program headers say the byte at an address of segment `k` is: file contents, then zeros. */
  function SegmentByte(image: ElfImage, k: nat, address: nat): Byte
    requires k < |image.segments| && SegmentInside(image.segments[k], |image.bytes|)
    requires image.segments[k].range.Contains(address)
  {
    var s := image.segments[k];
    var o := address - s.range.start;
    if o < s.fileSize then image.bytes[s.fileOffset + o] else 0
  }

  /** What every parsed image satisfies: its segments lie in the file and in memory. */
  ghost predicate Parsed(image: ElfImage) {
    forall k | 0 <= k < |image.segments| :: SegmentInside(image.segments[k], |image.bytes|)
  }

  lemma ParsedOrdered(image: ElfImage)
    requires Parsed(image)
    ensures Ordered(Mappings(image.segments))
  {
    forall m | m in Mappings(image.segments) ensures m.range.start <= m.range.end {
      var k :| 0 <= k < |image.segments| && m == Mappings(image.segments)[k];
      assert SegmentInside(image.segments[k], |image.bytes|);
    }
  }

  ghost predicate Sound(image: ElfImage) {
    && Parsed(image)
    && SafePlan(LoadPlan(image.entry, Mappings(image.segments)))
  }

  /** The byte an address must hold: that of the segment it lies in, and zero outside every segment. */
  ghost predicate Means(image: ElfImage, address: nat, b: Byte)
    requires Sound(image)
  {
    && (forall k | 0 <= k < |image.segments| && image.segments[k].range.Contains(address) :: b == SegmentByte(image, k, address))
    && ((forall k | 0 <= k < |image.segments| :: !image.segments[k].range.Contains(address)) ==> b == 0)
  }

  /** The byte at an address as segment `k` alone describes it. */
  function OwnByte(image: ElfImage, k: nat, address: nat): Byte
    requires k < |image.segments| && SegmentInside(image.segments[k], |image.bytes|)
  {
    if image.segments[k].range.Contains(address) then SegmentByte(image, k, address) else 0
  }

  /** One page as segment `k` alone describes it. */
  function PageImage(image: ElfImage, k: nat, base: nat): (page: seq<Byte>)
    requires k < |image.segments| && SegmentInside(image.segments[k], |image.bytes|)
    ensures |page| == PAGE
  {
    seq<Byte>(PAGE, x requires 0 <= x => OwnByte(image, k, base + x))
  }

  /** No other segment reaches into a page of segment `k`, so its own description is the whole truth. */
  lemma OwnByteMeans(image: ElfImage, k: nat, address: nat)
    requires Sound(image) && k < |image.segments| && SpanOf(image.segments[k].range).Contains(address)
    ensures Means(image, address, OwnByte(image, k, address))
  {
    var mappings := Mappings(image.segments);
    forall j | 0 <= j < |image.segments| && image.segments[j].range.Contains(address) ensures j == k {
      assert mappings[j].range.Contains(address) && mappings[k].range.Contains(address);
      OneSpan(mappings, j, k, address);
    }
  }

  function Overwrite(page: seq<Byte>, offset: nat, bytes: seq<Byte>): (r: seq<Byte>)
    requires offset + |bytes| <= |page|
    ensures |r| == |page|
  {
    page[..offset] + bytes + page[offset + |bytes|..]
  }

  /** Physical frames, written through a direct map that starts at `directMap`. */
  class PhysicalMemory {
    const directMap: nat
    var frames: map<nat, seq<Byte>>

    ghost predicate Valid()
      reads this
    {
      forall f | f in frames :: |frames[f]| == PAGE
    }

    /** The direct map reaches the end of the bytes without overflowing. */
    predicate Reaches(physical: nat, end: nat) {
      directMap + physical + end < U64
    }

    method ZeroPageRange(physical: nat, offset: nat, length: nat) returns (ok: bool)
      requires Valid() && physical in frames && offset + length <= PAGE
      modifies this`frames
      ensures Valid()
      ensures ok <==> length != 0 && Reaches(physical, offset + length)
      ensures frames == if ok then old(frames)[physical := Overwrite(old(frames)[physical], offset, Zeros(length))] else old(frames)
    {
      if length == 0 || !Reaches(physical, offset + length) {
        return false;
      }
      frames := frames[physical := Overwrite(frames[physical], offset, Zeros(length))];
      return true;
    }

    method CopyIntoPage(physical: nat, offset: nat, bytes: seq<Byte>) returns (ok: bool)
      requires Valid() && physical in frames && offset + |bytes| <= PAGE
      modifies this`frames
      ensures Valid()
      ensures ok <==> |bytes| != 0 && Reaches(physical, offset + |bytes|)
      ensures frames == if ok then old(frames)[physical := Overwrite(old(frames)[physical], offset, bytes)] else old(frames)
    {
      if |bytes| == 0 || !Reaches(physical, offset + |bytes|) {
        return false;
      }
      frames := frames[physical := Overwrite(frames[physical], offset, bytes)];
      return true;
    }
  }

  /** A page that holds what the image says. */
  ghost predicate PageDone(image: ElfImage, p: MappedPage, frames: map<nat, seq<Byte>>)
    requires Sound(image)
  {
    && p.physical in frames && |frames[p.physical]| == PAGE
    && forall x | 0 <= x < PAGE :: Means(image, p.virtual + x, frames[p.physical][x])
  }

  /** The pages that were mapped for the image, each over a frame of its own. */
  ghost predicate Mapped(image: ElfImage, load: seq<MappedPage>) {
    && Sound(image) && Ordered(Mappings(image.segments))
    && Virtuals(load) == PageList(Mappings(image.segments))
    && Distinct(Virtuals(load)) && Distinct(Frames(load))
  }

  /** The first page of the load at an address, from index `k` on. */
  function PageIndex(load: seq<MappedPage>, page: nat, k: nat): (r: Option<nat>)
    requires k <= |load|
    ensures match r
            case Some(i) => k <= i < |load| && load[i].virtual == page && forall j | k <= j < i :: load[j].virtual != page
            case None => forall j | k <= j < |load| :: load[j].virtual != page
    decreases |load| - k
  {
    if k == |load| then None else if load[k].virtual == page then Some(k) else PageIndex(load, page, k + 1)
  }

  method FindMappedPage(load: seq<MappedPage>, page: nat) returns (r: Option<nat>)
    ensures r == PageIndex(load, page, 0)
    ensures match r
            case Some(i) => i < |load| && load[i].virtual == page && forall j | 0 <= j < i :: load[j].virtual != page
            case None => forall j | 0 <= j < |load| :: load[j].virtual != page
  {
    for i := 0 to |load|
      invariant forall j | 0 <= j < i :: load[j].virtual != page
    {
      if load[i].virtual == page {
        return Some(i);
      }
    }
    return None;
  }

  /** Why the page at an address cannot be filled, if it cannot. */
  function FillFault(memory: PhysicalMemory, load: seq<MappedPage>, page: nat): Option<PopulateError> {
    match PageIndex(load, page, 0)
    case None => Some(MissingMappedPage)
    case Some(i) => if memory.Reaches(load[i].physical, PAGE) then None else Some(FileRangeInvalid)
  }

  /** Bytes can be written exactly when the direct map's address of their end is a 64-bit one. */
  lemma ReachesIff(memory: PhysicalMemory, physical: nat, end: nat)
    ensures memory.Reaches(physical, end) <==> memory.directMap + physical + end < 0x1_0000_0000_0000_0000
  {
  }

  /** A page can be filled exactly when it was mapped and the direct map reaches the end of its frame. */
  lemma FillFaultIs(memory: PhysicalMemory, load: seq<MappedPage>, page: nat)
    ensures FillFault(memory, load, page) == Some(MissingMappedPage) <==> forall i | 0 <= i < |load| :: load[i].virtual != page
    ensures forall i | 0 <= i < |load| && load[i].virtual == page && (forall j | 0 <= j < i :: load[j].virtual != page) ::
      FillFault(memory, load, page) ==
        if memory.directMap + load[i].physical + 0x1000 < 0x1_0000_0000_0000_0000 then None else Some(FileRangeInvalid)
  {
  }

  /** Where the copy stops among the pages of the image, from page `n` on. */
  function FillOutcome(memory: PhysicalMemory, load: seq<MappedPage>, pages: seq<nat>, n: nat): Option<PopulateError>
    requires n <= |pages|
    decreases |pages| - n
  {
    if n == |pages| then None
    else if FillFault(memory, load, pages[n]).Some? then FillFault(memory, load, pages[n])
    else FillOutcome(memory, load, pages, n + 1)
  }

  /** None of the first `n` pages stops the copy. */
  ghost predicate Fillable(memory: PhysicalMemory, load: seq<MappedPage>, pages: seq<nat>, n: nat)
    requires n <= |pages|
  {
    forall i | 0 <= i < n :: FillFault(memory, load, pages[i]).None?
  }

  lemma {:induction false} FillReaches(memory: PhysicalMemory, load: seq<MappedPage>, pages: seq<nat>, n: nat)
    requires n <= |pages| && Fillable(memory, load, pages, n)
    ensures FillOutcome(memory, load, pages, 0) == FillOutcome(memory, load, pages, n)
  {
    if n > 0 {
      FillReaches(memory, load, pages, n - 1);
    }
  }

  /** The whole image can be copied exactly when every one of its pages is in the load over a frame that is reached. */
  lemma {:induction false} FillOutcomeMeans(memory: PhysicalMemory, load: seq<MappedPage>, pages: seq<nat>, n: nat)
    requires n <= |pages|
    ensures FillOutcome(memory, load, pages, n).None? <==> forall i | n <= i < |pages| :: FillFault(memory, load, pages[i]).None?
    decreases |pages| - n
  {
    if n < |pages| {
      FillOutcomeMeans(memory, load, pages, n + 1);
    }
  }

  /** When the load is the one mapped for the image, only a frame out of reach can stop the copy. */
  lemma MappedOutcome(memory: PhysicalMemory, image: ElfImage, load: seq<MappedPage>)
    requires Mapped(image, load)
    ensures FillOutcome(memory, load, Virtuals(load), 0) == if AllReached(memory, load) then None else Some(FileRangeInvalid)
  {
    FillOutcomeFrom(memory, load, 0);
  }

  lemma {:induction false} FillOutcomeFrom(memory: PhysicalMemory, load: seq<MappedPage>, n: nat)
    requires Distinct(Virtuals(load)) && n <= |load|
    ensures FillOutcome(memory, load, Virtuals(load), n) ==
              if forall i | n <= i < |load| :: memory.Reaches(load[i].physical, PAGE) then None else Some(FileRangeInvalid)
    decreases |load| - n
  {
    if n < |load| {
      OwnIndex(load, n);
      FillOutcomeFrom(memory, load, n + 1);
    }
  }

  lemma OwnIndex(load: seq<MappedPage>, n: nat)
    requires Distinct(Virtuals(load)) && n < |load|
    ensures PageIndex(load, load[n].virtual, 0) == Some(n) && Virtuals(load)[n] == load[n].virtual
  {
    forall i | 0 <= i < |load| && load[i].virtual == load[n].virtual ensures i == n {
      assert Virtuals(load)[i] == Virtuals(load)[n];
    }
  }

  /** The frames behind a load exist. */
  ghost predicate Backed(load: seq<MappedPage>, frames: map<nat, seq<Byte>>) {
    forall i | 0 <= i < |load| :: load[i].physical in frames
  }

  /** The direct map reaches every frame of these pages to its end. */
  predicate AllReached(memory: PhysicalMemory, pages: seq<MappedPage>) {
    forall i | 0 <= i < |pages| :: memory.Reaches(pages[i].physical, PAGE)
  }

  /** How the copy of one page is cut out of the file. */
  datatype Chunk = Chunk(base: nat, pageOffset: nat, length: nat, fileStart: nat, copied: nat)

  function ChunkAt(s: LoadSegment, offset: nat): Chunk
    requires offset < s.memorySize
  {
    var address := s.range.start + offset;
    var base := PageBase(address);
    var length := if s.memorySize - offset < PAGE - (address - base) then s.memorySize - offset else PAGE - (address - base);
    var fileStart := if offset < s.fileSize then offset else s.fileSize;
    var copied := if s.fileSize - fileStart < length then s.fileSize - fileStart else length;
    Chunk(base, address - base, length, fileStart, copied)
  }

  /** Zeroing a page and copying the chunk leaves exactly the page the segment describes. */
  lemma ChunkFillsPage(image: ElfImage, k: nat, offset: nat)
    requires k < |image.segments| && SegmentInside(image.segments[k], |image.bytes|)
    requires offset < image.segments[k].memorySize
    requires offset == 0 || (image.segments[k].range.start + offset) % PAGE == 0
    ensures var s := image.segments[k]; var c := ChunkAt(s, offset);
            var file := image.bytes[s.fileOffset..s.fileOffset + s.fileSize];
            c.pageOffset + c.copied <= PAGE &&
            Overwrite(Zeros(PAGE), c.pageOffset, file[c.fileStart..c.fileStart + c.copied]) == PageImage(image, k, c.base)
  {
    var s := image.segments[k];
    var c := ChunkAt(s, offset);
    var file := image.bytes[s.fileOffset..s.fileOffset + s.fileSize];
    var page := Overwrite(Zeros(PAGE), c.pageOffset, file[c.fileStart..c.fileStart + c.copied]);
    ChunkFits(image, k, offset);
    forall x | 0 <= x < PAGE ensures page[x] == OwnByte(image, k, c.base + x) {
      FilledByte(image, k, offset, x);
    }
    IsPageImage(image, k, c.base, page);
  }

  lemma ChunkFits(image: ElfImage, k: nat, offset: nat)
    requires k < |image.segments| && SegmentInside(image.segments[k], |image.bytes|) && offset < image.segments[k].memorySize
    ensures var s := image.segments[k]; var c := ChunkAt(s, offset);
            c.pageOffset + c.copied <= PAGE && c.fileStart + c.copied <= s.fileSize && s.fileOffset + s.fileSize <= |image.bytes|
  {
  }

  lemma IsPageImage(image: ElfImage, k: nat, base: nat, page: seq<Byte>)
    requires k < |image.segments| && SegmentInside(image.segments[k], |image.bytes|)
    requires |page| == PAGE && forall x | 0 <= x < PAGE :: page[x] == OwnByte(image, k, base + x)
    ensures page == PageImage(image, k, base)
  {
  }

  lemma FilledByte(image: ElfImage, k: nat, offset: nat, x: nat)
    requires k < |image.segments| && SegmentInside(image.segments[k], |image.bytes|)
    requires offset < image.segments[k].memorySize && x < PAGE
    requires offset == 0 || (image.segments[k].range.start + offset) % PAGE == 0
    ensures var s := image.segments[k]; var c := ChunkAt(s, offset);
            var file := image.bytes[s.fileOffset..s.fileOffset + s.fileSize];
            Overwrite(Zeros(PAGE), c.pageOffset, file[c.fileStart..c.fileStart + c.copied])[x] == OwnByte(image, k, c.base + x)
  {
    var s := image.segments[k];
    ChunkByte(image, k, offset, x);
    CopiedByte(image.bytes, s.fileOffset, s.fileSize, ChunkAt(s, offset), x);
  }

  /** A byte of a page that was cleared before a chunk was copied into it. */
  lemma CopiedByte(bytes: seq<Byte>, start: nat, size: nat, c: Chunk, x: nat)
    requires start + size <= |bytes| && c.fileStart + c.copied <= size && c.pageOffset + c.copied <= PAGE && x < PAGE
    ensures Overwrite(Zeros(PAGE), c.pageOffset, bytes[start..start + size][c.fileStart..c.fileStart + c.copied])[x] ==
              if c.pageOffset <= x < c.pageOffset + c.copied then bytes[start + c.fileStart + x - c.pageOffset] else 0
  {
    var chunk := bytes[start..start + size][c.fileStart..c.fileStart + c.copied];
    OverwriteAt(Zeros(PAGE), c.pageOffset, chunk, x);
  }

  lemma OverwriteAt(page: seq<Byte>, offset: nat, bytes: seq<Byte>, x: nat)
    requires offset + |bytes| <= |page| && x < |page|
    ensures Overwrite(page, offset, bytes)[x] == if offset <= x < offset + |bytes| then bytes[x - offset] else page[x]
  {
  }

  /** The copied bytes of a page are those of the file, and the others are zero. */
  lemma ChunkByte(image: ElfImage, k: nat, offset: nat, x: nat)
    requires k < |image.segments| && SegmentInside(image.segments[k], |image.bytes|)
    requires offset < image.segments[k].memorySize && x < PAGE
    requires offset == 0 || (image.segments[k].range.start + offset) % PAGE == 0
    ensures var s := image.segments[k]; var c := ChunkAt(s, offset);
            OwnByte(image, k, c.base + x) ==
              if c.pageOffset <= x < c.pageOffset + c.copied then image.bytes[s.fileOffset + c.fileStart + x - c.pageOffset] else 0
  {
  }

  lemma FrameKept(image: ElfImage, load: seq<MappedPage>, frames: map<nat, seq<Byte>>, c: nat, page: seq<Byte>)
    requires Mapped(image, load) && Backed(load, frames) && c < |load| && |page| == PAGE
    requires forall i | 0 <= i < c :: PageDone(image, load[i], frames)
    requires forall x | 0 <= x < PAGE :: Means(image, load[c].virtual + x, page[x])
    ensures forall i | 0 <= i < c + 1 :: PageDone(image, load[i], frames[load[c].physical := page])
  {
    forall i | 0 <= i < c + 1 ensures PageDone(image, load[i], frames[load[c].physical := page]) {
      if i < c {
        assert Frames(load)[i] != Frames(load)[c];
      }
    }
  }

  /** Clears one page and copies into it the part of the file that belongs there. */
  method FillPage(memory: PhysicalMemory, image: ElfImage, k: nat, offset: nat, physical: nat) returns (ok: bool)
    requires memory.Valid() && physical in memory.frames
    requires k < |image.segments| && SegmentInside(image.segments[k], |image.bytes|)
    requires offset < image.segments[k].memorySize
    requires offset == 0 || (image.segments[k].range.start + offset) % PAGE == 0
    modifies memory`frames
    ensures memory.Valid() && (ok <==> memory.Reaches(physical, PAGE))
    ensures memory.frames == if ok then old(memory.frames)[physical := PageImage(image, k, ChunkAt(image.segments[k], offset).base)]
                             else old(memory.frames)
  {
    var s := image.segments[k];
    var c := ChunkAt(s, offset);
    var zeroed := ClearPage(memory, physical);
    if !zeroed {
      return false;
    }
    ChunkFits(image, k, offset);
    ChunkFillsPage(image, k, offset);
    var file := image.bytes[s.fileOffset..s.fileOffset + s.fileSize];
    CopyChunk(memory, physical, c.pageOffset, file[c.fileStart..c.fileStart + c.copied], old(memory.frames));
    return true;
  }

  method ClearPage(memory: PhysicalMemory, physical: nat) returns (ok: bool)
    requires memory.Valid() && physical in memory.frames
    modifies memory`frames
    ensures memory.Valid() && (ok <==> memory.Reaches(physical, PAGE))
    ensures memory.frames == if ok then old(memory.frames)[physical := Zeros(PAGE)] else old(memory.frames)
  {
    ZeroedPage(memory.frames[physical]);
    ok := memory.ZeroPageRange(physical, 0, PAGE);
  }

  /** Copies into a page that has just been cleared, unless there is nothing to copy; the copy cannot fail. */
  method CopyChunk(memory: PhysicalMemory, physical: nat, offset: nat, bytes: seq<Byte>, ghost before: map<nat, seq<Byte>>)
    requires memory.Valid() && memory.frames == before[physical := Zeros(PAGE)] && memory.Reaches(physical, PAGE)
    requires offset + |bytes| <= PAGE
    modifies memory`frames
    ensures memory.Valid() && memory.frames == before[physical := Overwrite(Zeros(PAGE), offset, bytes)]
  {
    if |bytes| != 0 {
      var copied := memory.CopyIntoPage(physical, offset, bytes);
      if !copied {
        assert false;
      }
    } else {
      OverwriteNothing(Zeros(PAGE), offset, bytes);
    }
  }

  lemma OverwriteNothing(page: seq<Byte>, offset: nat, bytes: seq<Byte>)
    requires |bytes| == 0 && offset <= |page|
    ensures Overwrite(page, offset, bytes) == page
  {
  }

  /** The offset into a segment at which its page `j` begins, cut off at its end. */
  function PageStart(s: LoadSegment, j: nat): nat {
    var o := SpanOf(s.range).start + j * PAGE - s.range.start;
    if j == 0 then 0 else if o < s.memorySize then o else s.memorySize
  }

  function PageCount(s: LoadSegment): nat
    requires s.range.start <= s.range.end
  {
    |SpanPages(SpanOf(s.range))|
  }

  lemma LastPage(s: LoadSegment, j: nat)
    requires s.range.start < s.range.end && s.memorySize == s.range.end - s.range.start && j <= PageCount(s)
    ensures PageStart(s, j) < s.memorySize <==> j < PageCount(s)
  {
  }

  /** A chunk is one page of the segment, and after it the copy stands at the next page. */
  lemma NextPage(s: LoadSegment, j: nat)
    requires s.range.start < s.range.end && s.memorySize == s.range.end - s.range.start && j < PageCount(s)
    ensures PageStart(s, j) < s.memorySize
    ensures PageStart(s, j) == 0 || (s.range.start + PageStart(s, j)) % PAGE == 0
    ensures ChunkAt(s, PageStart(s, j)).base == SpanOf(s.range).start + j * PAGE
    ensures ChunkAt(s, PageStart(s, j)).base % PAGE == 0 && SpanOf(s.range).Contains(ChunkAt(s, PageStart(s, j)).base)
    ensures ChunkAt(s, PageStart(s, j)).length > 0
    ensures PageStart(s, j) + ChunkAt(s, PageStart(s, j)).length == PageStart(s, j + 1)
  {
  }

  ghost predicate Done(image: ElfImage, load: seq<MappedPage>, frames: map<nat, seq<Byte>>, n: nat)
    requires Sound(image) && n <= |load|
  {
    forall i | 0 <= i < n :: PageDone(image, load[i], frames)
  }

  /** The number of pages of the first `k` segments. */
  function PagesBefore(image: ElfImage, k: nat): nat
    requires k <= |image.segments| && Ordered(Mappings(image.segments))
  {
    |FirstPages(Mappings(image.segments), k)|
  }

  /** Page `j` of segment `k` stands in the load at its own place and at no other. */
  lemma PagePlaced(load: seq<MappedPage>, mappings: seq<SegmentMapping>, k: nat, j: nat)
    requires Ordered(mappings) && Virtuals(load) == PageList(mappings) && Distinct(Virtuals(load))
    requires k < |mappings| && j < |SpanPages(mappings[k].range)|
    ensures var c := |FirstPages(mappings, k)| + j;
            && c < |load| && load[c].virtual == mappings[k].range.start + j * PAGE
            && forall i | 0 <= i < |load| && load[i].virtual == load[c].virtual :: i == c
  {
    PagePlace(mappings, k, j);
    var c := |FirstPages(mappings, k)| + j;
    assert Virtuals(load)[c] == load[c].virtual;
    forall i | 0 <= i < |load| && load[i].virtual == load[c].virtual ensures i == c {
      assert Virtuals(load)[i] == Virtuals(load)[c];
    }
  }

  /** One more page: its frame now holds what the image says, and no finished frame is touched. */
  lemma PageFilled(image: ElfImage, load: seq<MappedPage>, frames: map<nat, seq<Byte>>, k: nat, c: nat)
    requires Mapped(image, load) && Backed(load, frames) && k < |image.segments| && c < |load|
    requires load[c].virtual % PAGE == 0 && SpanOf(image.segments[k].range).Contains(load[c].virtual)
    requires Done(image, load, frames, c)
    ensures Done(image, load, frames[load[c].physical := PageImage(image, k, load[c].virtual)], c + 1)
  {
    PageMeans(image, k, load[c].virtual);
    FrameKept(image, load, frames, c, PageImage(image, k, load[c].virtual));
  }

  lemma PageMeans(image: ElfImage, k: nat, base: nat)
    requires Sound(image) && k < |image.segments| && base % PAGE == 0 && SpanOf(image.segments[k].range).Contains(base)
    ensures forall x | 0 <= x < PAGE :: Means(image, base + x, PageImage(image, k, base)[x])
  {
    forall x | 0 <= x < PAGE ensures Means(image, base + x, PageImage(image, k, base)[x]) {
      InSpan(image.segments[k], base, x);
      OwnByteMeans(image, k, base + x);
    }
  }

  /** A span holds the whole of a page it holds the start of. */
  lemma InSpan(s: LoadSegment, base: nat, x: nat)
    requires base % PAGE == 0 && x < PAGE && SpanOf(s.range).Contains(base)
    ensures SpanOf(s.range).Contains(base + x)
  {
  }

  /** The pages of the image, in the order in which they are filled. */
  function ImagePages(image: ElfImage): seq<nat>
    requires Ordered(Mappings(image.segments))
  {
    PageList(Mappings(image.segments))
  }

  /** Page `j` of segment `k` is page `n` of the image, and the copy stands at its first byte of the segment. */
  lemma AtPage(image: ElfImage, k: nat, j: nat)
    requires Parsed(image) && Ordered(Mappings(image.segments)) && k < |image.segments| && j < PageCount(image.segments[k])
    ensures var n := PagesBefore(image, k) + j; var s := image.segments[k];
            && PageStart(s, j) < s.memorySize && n < |ImagePages(image)|
            && (PageStart(s, j) == 0 || (s.range.start + PageStart(s, j)) % PAGE == 0)
            && ImagePages(image)[n] == ChunkAt(s, PageStart(s, j)).base
            && ImagePages(image)[n] % PAGE == 0 && SpanOf(s.range).Contains(ImagePages(image)[n])
  {
    PagePlace(Mappings(image.segments), k, j);
    assert SegmentInside(image.segments[k], |image.bytes|);
    NextPage(image.segments[k], j);
  }

  /** In the load mapped for the image, the page that is found is page `n`. */
  lemma NextDone(image: ElfImage, load: seq<MappedPage>, before: map<nat, seq<Byte>>, after: map<nat, seq<Byte>>,
                 k: nat, n: nat, base: nat, found: nat)
    requires Mapped(image, load) && Backed(load, before) && k < |image.segments| && n < |load|
    requires Done(image, load, before, n) && base == ImagePages(image)[n]
    requires base % PAGE == 0 && SpanOf(image.segments[k].range).Contains(base)
    requires PageIndex(load, base, 0) == Some(found) && after == before[load[found].physical := PageImage(image, k, base)]
    ensures Done(image, load, after, n + 1)
  {
    OwnIndex(load, n);
    PageFilled(image, load, before, k, n);
  }

  /** Fills page `j` of segment `k`, which is page `n` of the image. */
  method FillNext(memory: PhysicalMemory, image: ElfImage, load: seq<MappedPage>, k: nat, offset: nat,
                  ghost j: nat, ghost n: nat, ghost mapped: bool)
    returns (fault: Option<PopulateError>)
    requires memory.Valid() && Parsed(image) && Ordered(Mappings(image.segments)) && Backed(load, memory.frames)
    requires k < |image.segments| && j < PageCount(image.segments[k]) && offset == PageStart(image.segments[k], j)
    requires n == PagesBefore(image, k) + j < |ImagePages(image)| && Fillable(memory, load, ImagePages(image), n)
    requires mapped ==> Mapped(image, load) && Done(image, load, memory.frames, n)
    modifies memory`frames
    ensures memory.Valid() && memory.frames.Keys == old(memory.frames.Keys)
    ensures forall f | f in memory.frames && f !in Frames(load) :: memory.frames[f] == old(memory.frames[f])
    ensures fault.Some? ==> fault == FillOutcome(memory, load, ImagePages(image), 0)
    ensures fault.None? ==> Fillable(memory, load, ImagePages(image), n + 1)
    ensures fault.None? && mapped ==> Done(image, load, memory.frames, n + 1)
  {
    AtPage(image, k, j);
    assert SegmentInside(image.segments[k], |image.bytes|);
    FillReaches(memory, load, ImagePages(image), n);
    var base := ChunkAt(image.segments[k], offset).base;
    var found := FindMappedPage(load, base);
    if found.None? {
      return Some(MissingMappedPage);
    }
    ghost var before := memory.frames;
    var filled := FillPage(memory, image, k, offset, load[found.value].physical);
    assert Frames(load)[found.value] == load[found.value].physical;
    if filled && mapped {
      NextDone(image, load, before, memory.frames, k, n, base, found.value);
    }
    return if filled then None else Some(FileRangeInvalid);
  }

  /** Fills the pages of one segment, unless one of them is missing or out of reach. */
  method PopulateSegment(memory: PhysicalMemory, image: ElfImage, load: seq<MappedPage>, k: nat, ghost mapped: bool)
    returns (fault: Option<PopulateError>)
    requires memory.Valid() && Parsed(image) && Ordered(Mappings(image.segments)) && Backed(load, memory.frames)
    requires k < |image.segments| && PagesBefore(image, k) <= |ImagePages(image)|
    requires Fillable(memory, load, ImagePages(image), PagesBefore(image, k))
    requires mapped ==> Mapped(image, load) && Done(image, load, memory.frames, PagesBefore(image, k))
    modifies memory`frames
    ensures memory.Valid() && memory.frames.Keys == old(memory.frames.Keys)
    ensures forall f | f in memory.frames && f !in Frames(load) :: memory.frames[f] == old(memory.frames[f])
    ensures fault.Some? ==> fault == FillOutcome(memory, load, ImagePages(image), 0)
    ensures PagesBefore(image, k + 1) <= |ImagePages(image)|
    ensures fault.None? ==> Fillable(memory, load, ImagePages(image), PagesBefore(image, k + 1))
    ensures fault.None? && mapped ==> Done(image, load, memory.frames, PagesBefore(image, k + 1))
  {
    var s := image.segments[k];
    assert SegmentInside(s, |image.bytes|);
    ghost var first := PagesBefore(image, k);
    SegmentPages(image, k);
    if |image.bytes| < s.fileOffset + s.fileSize {
      assert false;
      return Some(FileRangeInvalid);
    }
    var offset := 0;
    ghost var j := 0;
    while offset < s.memorySize
      invariant memory.Valid() && memory.frames.Keys == old(memory.frames.Keys)
      invariant j <= PageCount(s) && offset == PageStart(s, j)
      invariant Fillable(memory, load, ImagePages(image), first + j)
      invariant mapped ==> Done(image, load, memory.frames, first + j)
      invariant forall f | f in memory.frames && f !in Frames(load) :: memory.frames[f] == old(memory.frames[f])
    {
      if s.range.end <= s.range.start + offset {
        assert false;
        return Some(SegmentOutsideMapping);
      }
      LastPage(s, j);
      NextPage(s, j);
      fault := FillNext(memory, image, load, k, offset, j, first + j, mapped);
      if fault.Some? {
        return;
      }
      offset, j := offset + ChunkAt(s, offset).length, j + 1;
    }
    LastPage(s, j);
    return None;
  }

  lemma SegmentPages(image: ElfImage, k: nat)
    requires Parsed(image) && Ordered(Mappings(image.segments)) && k < |image.segments|
    ensures PagesBefore(image, k + 1) == PagesBefore(image, k) + PageCount(image.segments[k]) <= |ImagePages(image)|
  {
    PagesGrow(Mappings(image.segments), k + 1, |image.segments|);
  }

  /** Copies the image into the load, up to the first page that is missing or out of reach. */
  method PopulateImage(memory: PhysicalMemory, image: ElfImage, load: seq<MappedPage>) returns (fault: Option<PopulateError>)
    requires memory.Valid() && Parsed(image) && Ordered(Mappings(image.segments)) && Backed(load, memory.frames)
    modifies memory`frames
    ensures memory.Valid() && memory.frames.Keys == old(memory.frames.Keys)
    ensures forall f | f in memory.frames && f !in Frames(load) :: memory.frames[f] == old(memory.frames[f])
    ensures fault == FillOutcome(memory, load, ImagePages(image), 0)
    ensures fault.None? && Mapped(image, load) ==> Done(image, load, memory.frames, |load|)
  {
    ghost var mapped := Mapped(image, load);
    for index := 0 to |image.segments|
      invariant memory.Valid() && memory.frames.Keys == old(memory.frames.Keys)
      invariant PagesBefore(image, index) <= |ImagePages(image)|
      invariant Fillable(memory, load, ImagePages(image), PagesBefore(image, index))
      invariant mapped ==> Done(image, load, memory.frames, PagesBefore(image, index))
      invariant forall f | f in memory.frames && f !in Frames(load) :: memory.frames[f] == old(memory.frames[f])
    {
      fault := PopulateSegment(memory, image, load, index, mapped);
      if fault.Some? {
        return;
      }
    }
    FillReaches(memory, load, ImagePages(image), |ImagePages(image)|);
    return None;
  }

  /** The whole address space holds what it should: image pages the image, stack pages zeros. */
  ghost predicate Populated(image: ElfImage, b: BuiltAddressSpace, frames: map<nat, seq<Byte>>)
    requires Sound(image)
  {
    && Done(image, b.load.pages, frames, |b.load.pages|)
    && AllZero(b.stackPages, frames, |b.stackPages|)
  }

  /** Frames of the stack are not frames of the image. */
  lemma StackApart(load: seq<MappedPage>, stack: seq<MappedPage>, i: nat, j: nat)
    requires Distinct(Frames(load) + Frames(stack)) && i < |load| && j < |stack|
    ensures load[i].physical != stack[j].physical
  {
    var all := Frames(load) + Frames(stack);
    assert all[i] == load[i].physical && all[|load| + j] == stack[j].physical;
  }

  /** How filling an address space ends. */
  function PopulateOutcome(memory: PhysicalMemory, image: ElfImage, b: BuiltAddressSpace): Option<PopulationError>
    requires Ordered(Mappings(image.segments))
  {
    match FillOutcome(memory, b.load.pages, ImagePages(image), 0)
    case Some(e) => Some(PopulateImageError(e))
    case None => if AllReached(memory, b.stackPages) then None else Some(StackWriteFailed)
  }

  /** Filling ends with the first page of the image that cannot be filled, or else with a stack page out of reach. */
  lemma PopulateEnds(memory: PhysicalMemory, image: ElfImage, b: BuiltAddressSpace, n: nat)
    requires Ordered(Mappings(image.segments)) && n <= |ImagePages(image)| && Fillable(memory, b.load.pages, ImagePages(image), n)
    ensures n < |ImagePages(image)| && FillFault(memory, b.load.pages, ImagePages(image)[n]).Some? ==>
      PopulateOutcome(memory, image, b) == Some(PopulateImageError(FillFault(memory, b.load.pages, ImagePages(image)[n]).value))
    ensures n == |ImagePages(image)| ==>
      PopulateOutcome(memory, image, b) ==
        if forall i | 0 <= i < |b.stackPages| :: memory.Reaches(b.stackPages[i].physical, PAGE) then None else Some(StackWriteFailed)
  {
    FillReaches(memory, b.load.pages, ImagePages(image), n);
  }

  method Populate(memory: PhysicalMemory, image: ElfImage, b: BuiltAddressSpace) returns (fault: Option<PopulationError>)
    requires memory.Valid() && Parsed(image) && Backed(b.load.pages, memory.frames) && Backed(b.stackPages, memory.frames)
    modifies memory`frames
    ensures memory.Valid() && memory.frames.Keys == old(memory.frames.Keys) && Ordered(Mappings(image.segments))
    ensures forall f | f in memory.frames && f !in Frames(b.load.pages) && f !in Frames(b.stackPages) ::
              memory.frames[f] == old(memory.frames[f])
    ensures fault == PopulateOutcome(memory, image, b)
    ensures fault.None? && Mapped(image, b.load.pages) && Distinct(Frames(b.load.pages) + Frames(b.stackPages)) ==>
      Populated(image, b, memory.frames)
  {
    ParsedOrdered(image);
    var unloaded := PopulateImage(memory, image, b.load.pages);
    if unloaded.Some? {
      return Some(PopulateImageError(unloaded.value));
    }
    var cleared := ClearStack(memory, image, b.load.pages, b.stackPages);
    return if cleared then None else Some(StackWriteFailed);
  }

  method ClearStack(memory: PhysicalMemory, ghost image: ElfImage, ghost load: seq<MappedPage>, stack: seq<MappedPage>) returns (ok: bool)
    requires memory.Valid() && Backed(stack, memory.frames)
    modifies memory`frames
    ensures memory.Valid() && memory.frames.Keys == old(memory.frames.Keys)
    ensures forall f | f in memory.frames && f !in Frames(stack) :: memory.frames[f] == old(memory.frames[f])
    ensures ok <==> AllReached(memory, stack)
    ensures ok ==> AllZero(stack, memory.frames, |stack|)
    ensures Loaded(image, load, stack, old(memory.frames)) ==> Loaded(image, load, stack, memory.frames)
  {
    ghost var loaded := Loaded(image, load, stack, memory.frames);
    for index := 0 to |stack|
      invariant memory.Valid() && memory.frames.Keys == old(memory.frames.Keys)
      invariant AllZero(stack, memory.frames, index)
      invariant loaded ==> Loaded(image, load, stack, memory.frames)
      invariant forall i | 0 <= i < index :: memory.Reaches(stack[i].physical, PAGE)
      invariant forall f | f in memory.frames && f !in Frames(stack) :: memory.frames[f] == old(memory.frames[f])
    {
      ghost var before := memory.frames;
      assert Frames(stack)[index] == stack[index].physical;
      ZeroedPage(memory.frames[stack[index].physical]);
      var zeroed := memory.ZeroPageRange(stack[index].physical, 0, PAGE);
      if !zeroed {
        return false;
      }
      if loaded {
        StackPageZeroed(image, load, stack, before, index);
      }
    }
    return true;
  }

  lemma ZeroedPage(page: seq<Byte>)
    requires |page| == PAGE
    ensures Overwrite(page, 0, Zeros(PAGE)) == Zeros(PAGE)
  {
  }

  ghost predicate AllZero(stack: seq<MappedPage>, frames: map<nat, seq<Byte>>, n: nat)
    requires n <= |stack|
  {
    forall i | 0 <= i < n :: stack[i].physical in frames && frames[stack[i].physical] == Zeros(PAGE)
  }

  /** The image is in place, over frames that are not those of the stack. */
  ghost predicate Loaded(image: ElfImage, load: seq<MappedPage>, stack: seq<MappedPage>, frames: map<nat, seq<Byte>>) {
    Sound(image) && Done(image, load, frames, |load|) && Distinct(Frames(load) + Frames(stack))
  }

  lemma StackPageZeroed(image: ElfImage, load: seq<MappedPage>, stack: seq<MappedPage>, frames: map<nat, seq<Byte>>, j: nat)
    requires Loaded(image, load, stack, frames) && j < |stack|
    ensures Loaded(image, load, stack, frames[stack[j].physical := Zeros(PAGE)])
  {
    forall i | 0 <= i < |load| ensures PageDone(image, load[i], frames[stack[j].physical := Zeros(PAGE)]) {
      StackApart(load, stack, i, j);
    }
  }
}
