/** ELF64 executables: the parser of kernel/src/process/image.rs and the meaning of the files it accepts. */
module Elf {
  import opened Prelude
  import opened Layout

  datatype ElfError =
    | TooSmall
    | BadMagic
    | UnsupportedClass
    | UnsupportedEndian
    | UnsupportedType
    | UnsupportedMachine
    | InvalidProgramTable
    | InvalidSegmentRange
    | InvalidSegmentPermissions
    | InvalidEntry

  const MAGIC: seq<Byte> := [0x7f, 0x45, 0x4c, 0x46]
  const HEADER_SIZE: nat := 64
  const ENTRY_SIZE: nat := 56
  const MAX_SEGMENTS: nat := 8
  const PT_LOAD: nat := 1

  /** The number a little-endian byte string denotes. */
  function Little(bytes: seq<Byte>): nat {
    if bytes == [] then 0 else bytes[0] + 256 * Little(bytes[1..])
  }

  /** The little-endian bytes of a number, cut to the given width. */
  function LittleBytes(value: nat, width: nat): (bytes: seq<Byte>)
    ensures |bytes| == width
  {
    if width == 0 then [] else [value % 256] + LittleBytes(value / 256, width - 1)
  }

  function Power256(n: nat): nat {
    if n == 0 then 1 else 256 * Power256(n - 1)
  }

  lemma {:induction false} LittleRoundTrip(value: nat, width: nat)
    requires value < Power256(width)
    ensures Little(LittleBytes(value, width)) == value
  {
    if width > 0 {
      LittleRoundTrip(value / 256, width - 1);
      assert LittleBytes(value, width)[1..] == LittleBytes(value / 256, width - 1);
    }
  }

  function Read(bytes: seq<Byte>, offset: nat, width: nat): Option<nat> {
    if offset + width < U64 && offset + width <= |bytes| then Some(Little(bytes[offset..offset + width])) else None
  }

  /** The same bytes as a total function: what a field holds once it is known to lie in the file. */
  function Field(bytes: seq<Byte>, offset: nat, width: nat): nat
    requires offset + width <= |bytes|
  {
    Little(bytes[offset..offset + width])
  }

  datatype ProgramHeader =
    ProgramHeader(kind: nat, flags: nat, fileOffset: nat, address: nat, fileSize: nat, memorySize: nat)

  function HeaderAt(bytes: seq<Byte>, base: nat): ProgramHeader
    requires base + ENTRY_SIZE <= |bytes|
  {
    ProgramHeader(Field(bytes, base, 4), Field(bytes, base + 4, 4), Field(bytes, base + 8, 8),
                  Field(bytes, base + 16, 8), Field(bytes, base + 32, 8), Field(bytes, base + 40, 8))
  }

  function EntryOf(bytes: seq<Byte>): nat
    requires HEADER_SIZE <= |bytes|
  {
    Field(bytes, 24, 8)
  }

  function TableStart(bytes: seq<Byte>): nat
    requires HEADER_SIZE <= |bytes|
  {
    Field(bytes, 32, 8)
  }

  function TableStride(bytes: seq<Byte>): nat
    requires HEADER_SIZE <= |bytes|
  {
    Field(bytes, 54, 2)
  }

  function TableCount(bytes: seq<Byte>): nat
    requires HEADER_SIZE <= |bytes|
  {
    Field(bytes, 56, 2)
  }

  predicate TableInside(bytes: seq<Byte>)
    requires HEADER_SIZE <= |bytes|
  {
    && ENTRY_SIZE <= TableStride(bytes)
    && 1 <= TableCount(bytes) <= MAX_SEGMENTS
    && TableStart(bytes) + TableStride(bytes) * TableCount(bytes) < U64
    && TableStart(bytes) + TableStride(bytes) * TableCount(bytes) <= |bytes|
  }

  /** What is wrong with the file header, if anything; the checks are tried in this order. */
  function FileFault(bytes: seq<Byte>): Option<ElfError> {
    if |bytes| < HEADER_SIZE then Some(TooSmall)
    else if bytes[0..4] != MAGIC then Some(BadMagic)
    else if bytes[4] != 2 then Some(UnsupportedClass)
    else if bytes[5] != 1 then Some(UnsupportedEndian)
    else if Field(bytes, 16, 2) != 2 then Some(UnsupportedType)
    else if Field(bytes, 18, 2) != 62 then Some(UnsupportedMachine)
    else if !TableInside(bytes) then Some(InvalidProgramTable)
    else None
  }

  lemma RowInside(start: nat, stride: nat, count: nat, i: nat)
    requires ENTRY_SIZE <= stride && i < count
    ensures start + i * stride + ENTRY_SIZE <= start + stride * count
  {
    assert (i + 1) * stride <= count * stride;
  }

  /** Where program header `i` starts. */
  function RowBase(bytes: seq<Byte>, i: nat): (base: nat)
    requires FileFault(bytes).None? && i < TableCount(bytes)
    ensures base + ENTRY_SIZE <= |bytes|
  {
    RowInside(TableStart(bytes), TableStride(bytes), TableCount(bytes), i);
    TableStart(bytes) + i * TableStride(bytes)
  }

  function HeaderNo(bytes: seq<Byte>, i: nat): ProgramHeader
    requires FileFault(bytes).None? && i < TableCount(bytes)
  {
    HeaderAt(bytes, RowBase(bytes, i))
  }

  function SegmentOf(h: ProgramHeader): LoadSegment {
    LoadSegment(VirtRange(h.address, h.address + h.memorySize), h.flags, h.fileOffset, h.fileSize, h.memorySize)
  }

  /** A segment the loader can honour: its bytes are in the file and its memory is user memory. */
  predicate SegmentInside(s: LoadSegment, fileLength: nat) {
    && s.fileSize <= s.memorySize
    && s.fileOffset + s.fileSize <= fileLength
    && s.memorySize == s.range.end - s.range.start
    && s.range.start < s.range.end
    && s.range.IsUser()
  }

  /** What is wrong with one program header, if anything. */
  function HeaderFault(h: ProgramHeader, fileLength: nat): Option<ElfError> {
    var s := SegmentOf(h);
    if h.kind != PT_LOAD then None
    else if s.Writable() && s.Executable() then Some(InvalidSegmentPermissions)
    else if !SegmentInside(s, fileLength) then Some(InvalidSegmentRange)
    else None
  }

  /** The load segments of the first `n` program headers, in table order. */
  function Segments(bytes: seq<Byte>, n: nat): (segments: seq<LoadSegment>)
    requires FileFault(bytes).None? && n <= TableCount(bytes)
    ensures |segments| <= n
  {
    if n == 0 then [] else
      var h := HeaderNo(bytes, n - 1);
      if h.kind == PT_LOAD then Segments(bytes, n - 1) + [SegmentOf(h)] else Segments(bytes, n - 1)
  }

  predicate RowSound(bytes: seq<Byte>, i: nat)
    requires FileFault(bytes).None? && i < TableCount(bytes)
  {
    HeaderFault(HeaderNo(bytes, i), |bytes|).None?
  }

  predicate HeadersSound(bytes: seq<Byte>, n: nat)
    requires FileFault(bytes).None? && n <= TableCount(bytes)
  {
    forall i | 0 <= i < n :: RowSound(bytes, i)
  }

  lemma RowKept(bytes: seq<Byte>, n: nat, h: ProgramHeader)
    requires FileFault(bytes).None? && n < TableCount(bytes) && HeadersSound(bytes, n)
    requires h == HeaderNo(bytes, n) && HeaderFault(h, |bytes|).None?
    ensures HeadersSound(bytes, n + 1)
    ensures Segments(bytes, n + 1) == if h.kind == PT_LOAD then Segments(bytes, n) + [SegmentOf(h)] else Segments(bytes, n)
  {
    assert RowSound(bytes, n);
  }

  predicate Covered(segments: seq<LoadSegment>, address: nat) {
    exists i | 0 <= i < |segments| :: segments[i].range.Contains(address)
  }

  /** The image a file denotes, when it denotes one. */
  predicate Accepts(bytes: seq<Byte>) {
    && FileFault(bytes).None?
    && HeadersSound(bytes, TableCount(bytes))
    && Covered(Segments(bytes, TableCount(bytes)), EntryOf(bytes))
  }

  function Decoded(bytes: seq<Byte>): ElfImage
    requires Accepts(bytes)
  {
    ElfImage(bytes, EntryOf(bytes), Segments(bytes, TableCount(bytes)))
  }

  /** The first fault in reading order: file header, then program headers, then the entry point. */
  predicate RefusedFor(bytes: seq<Byte>, e: ElfError) {
    if FileFault(bytes).Some? then FileFault(bytes) == Some(e)
    else if HeadersSound(bytes, TableCount(bytes)) then
      e == InvalidEntry && !Covered(Segments(bytes, TableCount(bytes)), EntryOf(bytes))
    else
      exists i | 0 <= i < TableCount(bytes) :: FirstBadRow(bytes, i, e)
  }

  predicate FirstBadRow(bytes: seq<Byte>, i: nat, e: ElfError)
    requires FileFault(bytes).None? && i < TableCount(bytes)
  {
    HeadersSound(bytes, i) && HeaderFault(HeaderNo(bytes, i), |bytes|) == Some(e)
  }

  lemma FirstBadIsFirst(bytes: seq<Byte>, i: nat, e: ElfError, j: nat)
    requires FileFault(bytes).None? && i < TableCount(bytes) && j <= TableCount(bytes)
    requires FirstBadRow(bytes, i, e) && HeadersSound(bytes, j)
    ensures j <= i
  {
    assert !RowSound(bytes, i);
  }

  /** A file is refused for one reason only. */
  lemma RefusalUnique(bytes: seq<Byte>, e: ElfError, f: ElfError)
    requires RefusedFor(bytes, e) && RefusedFor(bytes, f)
    ensures e == f
  {
    if FileFault(bytes).None? && !HeadersSound(bytes, TableCount(bytes)) {
      var i :| 0 <= i < TableCount(bytes) && FirstBadRow(bytes, i, e);
      var j :| 0 <= j < TableCount(bytes) && FirstBadRow(bytes, j, f);
      FirstBadUnique(bytes, i, e, j, f);
    }
  }

  lemma FirstBadUnique(bytes: seq<Byte>, i: nat, e: ElfError, j: nat, f: ElfError)
    requires FileFault(bytes).None? && i < TableCount(bytes) && j < TableCount(bytes)
    requires FirstBadRow(bytes, i, e) && FirstBadRow(bytes, j, f)
    ensures e == f
  {
    FirstBadIsFirst(bytes, i, e, j);
    FirstBadIsFirst(bytes, j, f, i);
  }

  lemma BadRowRefuses(bytes: seq<Byte>, i: nat, e: ElfError)
    requires FileFault(bytes).None? && i < TableCount(bytes) && FirstBadRow(bytes, i, e)
    ensures !Accepts(bytes) && RefusedFor(bytes, e)
  {
    assert !RowSound(bytes, i);
  }

  /** The checks of one load header, in the order the parser makes them. */
  method CheckSegment(h: ProgramHeader, fileLength: nat) returns (r: Result<LoadSegment, ElfError>)
    requires h.kind == PT_LOAD && fileLength < U64
    ensures r == (if HeaderFault(h, fileLength).Some? then Err(HeaderFault(h, fileLength).value) else Ok(SegmentOf(h)))
  {
    if h.flags / 2 % 2 == 1 && h.flags % 2 == 1 {
      return Err(InvalidSegmentPermissions);
    }
    if h.memorySize < h.fileSize {
      return Err(InvalidSegmentRange);
    }
    var fileEnd := h.fileOffset + h.fileSize;
    if U64 <= fileEnd || fileLength < fileEnd {
      return Err(InvalidSegmentRange);
    }
    var virtualEnd := h.address + h.memorySize;
    if U64 <= virtualEnd {
      return Err(InvalidSegmentRange);
    }
    var range := VirtRange(h.address, virtualEnd);
    if range.start == range.end || !range.IsUser() {
      return Err(InvalidSegmentRange);
    }
    return Ok(LoadSegment(range, h.flags, h.fileOffset, h.fileSize, h.memorySize));
  }

  /** The six fields the parser reads from program header `index`. */
  method ReadRow(bytes: seq<Byte>, index: nat) returns (h: ProgramHeader)
    requires |bytes| < U64 && FileFault(bytes).None? && index < TableCount(bytes)
    ensures h == HeaderNo(bytes, index)
  {
    var start, stride := Read(bytes, 32, 8).value, Read(bytes, 54, 2).value;
    var base := start + index * stride;
    assert base == RowBase(bytes, index);
    var kind, flags, fileOffset := Read(bytes, base, 4), Read(bytes, base + 4, 4), Read(bytes, base + 8, 8);
    var address, fileSize, memorySize := Read(bytes, base + 16, 8), Read(bytes, base + 32, 8), Read(bytes, base + 40, 8);
    return ProgramHeader(kind.value, flags.value, fileOffset.value, address.value, fileSize.value, memorySize.value);
  }

  method CheckFile(bytes: seq<Byte>) returns (fault: Option<ElfError>)
    requires |bytes| < U64
    ensures fault == FileFault(bytes)
  {
    if |bytes| < HEADER_SIZE {
      return Some(TooSmall);
    }
    if bytes[0..4] != MAGIC {
      return Some(BadMagic);
    }
    if bytes[4] != 2 {
      return Some(UnsupportedClass);
    }
    if bytes[5] != 1 {
      return Some(UnsupportedEndian);
    }
    var kind, machine := Read(bytes, 16, 2), Read(bytes, 18, 2);
    if kind.value != 2 {
      return Some(UnsupportedType);
    }
    if machine.value != 62 {
      return Some(UnsupportedMachine);
    }
    var start, stride, count := Read(bytes, 32, 8).value, Read(bytes, 54, 2).value, Read(bytes, 56, 2).value;
    if stride < ENTRY_SIZE || count == 0 || MAX_SEGMENTS < count {
      return Some(InvalidProgramTable);
    }
    var end := start + stride * count;
    if U64 <= end || |bytes| < end {
      return Some(InvalidProgramTable);
    }
    return None;
  }

  lemma CoveredMore(segments: seq<LoadSegment>, s: LoadSegment, address: nat)
    ensures Covered(segments + [s], address) <==> Covered(segments, address) || s.range.Contains(address)
  {
    var more := segments + [s];
    assert more[|segments|] == s;
    if Covered(segments, address) {
      var i :| 0 <= i < |segments| && segments[i].range.Contains(address);
      assert more[i] == segments[i];
    }
  }

  /** With every header sound, the entry point decides. */
  lemma Verdict(bytes: seq<Byte>)
    requires FileFault(bytes).None? && HeadersSound(bytes, TableCount(bytes))
    ensures var covered := Covered(Segments(bytes, TableCount(bytes)), EntryOf(bytes));
            (covered <==> Accepts(bytes)) && (!covered ==> RefusedFor(bytes, InvalidEntry))
  {
  }

  /** One program header: one more segment if it is loadable. */
  method ParseSegment(bytes: seq<Byte>, index: nat, segments: seq<LoadSegment>, entryIsLoaded: bool, entry: nat)
    returns (r: Result<(seq<LoadSegment>, bool), ElfError>)
    requires |bytes| < U64 && FileFault(bytes).None? && index < TableCount(bytes)
    requires segments == Segments(bytes, index) && HeadersSound(bytes, index) && (entryIsLoaded <==> Covered(segments, entry))
    ensures r.Err? ==> !Accepts(bytes) && RefusedFor(bytes, r.error)
    ensures r.Ok? ==> HeadersSound(bytes, index + 1) && r.value.0 == Segments(bytes, index + 1)
    ensures r.Ok? ==> (r.value.1 <==> Covered(r.value.0, entry))
  {
    var h := ReadRow(bytes, index);
    if h.kind != PT_LOAD {
      RowKept(bytes, index, h);
      return Ok((segments, entryIsLoaded));
    }
    var checked := CheckSegment(h, |bytes|);
    if checked.Err? {
      BadRowRefuses(bytes, index, checked.error);
      return Err(checked.error);
    }
    RowKept(bytes, index, h);
    CoveredMore(segments, checked.value, entry);
    return Ok((segments + [checked.value], entryIsLoaded || checked.value.range.Contains(entry)));
  }

  /** The loop over the program headers: the load segments, and whether one of them holds the entry point. */
  method ParseSegments(bytes: seq<Byte>, entry: nat) returns (r: Result<(seq<LoadSegment>, bool), ElfError>)
    requires |bytes| < U64 && FileFault(bytes).None?
    ensures r.Err? ==> !Accepts(bytes) && RefusedFor(bytes, r.error)
    ensures r.Ok? ==> HeadersSound(bytes, TableCount(bytes)) && r.value.0 == Segments(bytes, TableCount(bytes))
    ensures r.Ok? ==> (r.value.1 <==> Covered(r.value.0, entry))
  {
    var count := Read(bytes, 56, 2).value;
    var segments: seq<LoadSegment> := [];
    var entryIsLoaded := false;
    for index := 0 to count
      invariant count == TableCount(bytes)
      invariant segments == Segments(bytes, index) && HeadersSound(bytes, index)
      invariant entryIsLoaded <==> Covered(segments, entry)
    {
      var parsed := ParseSegment(bytes, index, segments, entryIsLoaded, entry);
      if parsed.Err? {
        return Err(parsed.error);
      }
      segments, entryIsLoaded := parsed.value.0, parsed.value.1;
    }
    return Ok((segments, entryIsLoaded));
  }

  /** Parses a file; the length of a byte slice is a machine word. */
  method Parse(bytes: seq<Byte>) returns (r: Result<ElfImage, ElfError>)
    requires |bytes| < U64
    ensures r.Ok? <==> Accepts(bytes)
    ensures r.Ok? ==> r.value == Decoded(bytes)
    ensures r.Err? ==> RefusedFor(bytes, r.error)
  {
    var fault := CheckFile(bytes);
    if fault.Some? {
      return Err(fault.value);
    }
    var entry := Read(bytes, 24, 8).value;
    var parsed := ParseSegments(bytes, entry);
    if parsed.Err? {
      return Err(parsed.error);
    }
    Verdict(bytes);
    var (segments, entryIsLoaded) := parsed.value;
    if segments == [] || !entryIsLoaded {
      return Err(InvalidEntry);
    }
    return Ok(ElfImage(bytes, entry, segments));
  }

  /** Every segment of an accepted file is one the loader can honour, and none is writable and executable. */
  lemma {:induction false} SegmentsSound(bytes: seq<Byte>, n: nat)
    requires FileFault(bytes).None? && n <= TableCount(bytes) && HeadersSound(bytes, n)
    ensures forall s | s in Segments(bytes, n) :: SegmentInside(s, |bytes|) && !(s.Writable() && s.Executable())
  {
    if n > 0 {
      assert HeadersSound(bytes, n - 1);
      SegmentsSound(bytes, n - 1);
      assert RowSound(bytes, n - 1);
    }
  }
  // ----- the accepted format in terms of bytes -----

  /** The number written in two bytes, the lower one first. */
  function Short(low: nat, high: nat): nat {
    low + 256 * high
  }

  lemma TwoBytes(bytes: seq<Byte>, at: nat)
    requires at + 2 <= |bytes|
    ensures Field(bytes, at, 2) == Short(bytes[at], bytes[at + 1])
  {
    var f := bytes[at..at + 2];
    assert f[1..] == [bytes[at + 1]] && Little(f[1..]) == bytes[at + 1];
  }

  /** A field holds the number whose digits to base 256 are its bytes, the lowest first. */
  lemma FieldDigits(bytes: seq<Byte>, at: nat, width: nat)
    requires at + width <= |bytes|
    ensures width == 0 ==> Field(bytes, at, width) == 0
    ensures width > 0 ==> Field(bytes, at, width) == bytes[at] + 256 * Field(bytes, at + 1, width - 1)
  {
    if width > 0 {
      assert bytes[at..at + width][1..] == bytes[at + 1..at + width];
    }
  }

  /**
   * The file headers that are accepted: 64-bit little-endian executables for x86-64 whose table of 1 to 8 program
   * headers, of at least 56 bytes each, lies in the file. The complaint about any other is the first of the checks it fails.
   */
  lemma FileFaultIs(bytes: seq<Byte>)
    requires |bytes| < U64
    ensures |bytes| < 64 ==> FileFault(bytes) == Some(TooSmall)
    ensures 64 <= |bytes| ==>
      var start, stride, count := Field(bytes, 32, 8), Short(bytes[54], bytes[55]), Short(bytes[56], bytes[57]);
      FileFault(bytes) ==
        if !(bytes[0] == 0x7f && bytes[1] == 0x45 && bytes[2] == 0x4c && bytes[3] == 0x46) then Some(BadMagic)
        else if bytes[4] != 2 then Some(UnsupportedClass)
        else if bytes[5] != 1 then Some(UnsupportedEndian)
        else if !(bytes[16] == 2 && bytes[17] == 0) then Some(UnsupportedType)
        else if !(bytes[18] == 62 && bytes[19] == 0) then Some(UnsupportedMachine)
        else if !(56 <= stride && 1 <= count <= 8 && start + stride * count <= |bytes|) then Some(InvalidProgramTable)
        else None
  {
    if 64 <= |bytes| {
      TwoBytes(bytes, 16);
      TwoBytes(bytes, 18);
      TwoBytes(bytes, 54);
      TwoBytes(bytes, 56);
      assert bytes[0..4] == [bytes[0], bytes[1], bytes[2], bytes[3]];
    }
  }

  /** Where the numbers of a file and of its program headers are. */
  lemma FieldPlaces(bytes: seq<Byte>, i: nat)
    requires FileFault(bytes).None? && i < TableCount(bytes)
    ensures EntryOf(bytes) == Field(bytes, 24, 8) && TableCount(bytes) == Short(bytes[56], bytes[57])
    ensures var base := Field(bytes, 32, 8) + i * Short(bytes[54], bytes[55]); var h := HeaderNo(bytes, i);
            && base + 56 <= |bytes|
            && h.kind == Field(bytes, base, 4) && h.flags == Field(bytes, base + 4, 4)
            && h.fileOffset == Field(bytes, base + 8, 8) && h.address == Field(bytes, base + 16, 8)
            && h.fileSize == Field(bytes, base + 32, 8) && h.memorySize == Field(bytes, base + 40, 8)
  {
    TwoBytes(bytes, 54);
    TwoBytes(bytes, 56);
    assert RowBase(bytes, i) == Field(bytes, 32, 8) + i * Short(bytes[54], bytes[55]);
  }

  /**
   * A program header is refused exactly when it asks for a segment that is writable and executable, or that is empty,
   * larger in the file than in memory, not all in the file or not all in user space.
   */
  lemma HeaderFaultIs(h: ProgramHeader, fileLength: nat)
    ensures HeaderFault(h, fileLength) == Some(InvalidSegmentPermissions) <==> h.kind == 1 && h.flags % 2 == 1 && h.flags / 2 % 2 == 1
    ensures HeaderFault(h, fileLength).None? <==>
      h.kind != 1 ||
      (&& !(h.flags % 2 == 1 && h.flags / 2 % 2 == 1)
       && 0 < h.memorySize && h.fileSize <= h.memorySize && h.fileOffset + h.fileSize <= fileLength
       && 0x1_0000 <= h.address && h.address + h.memorySize <= 0xffff_8000_0000_0000)
    ensures HeaderFault(h, fileLength).Some? ==> HeaderFault(h, fileLength).value in {InvalidSegmentPermissions, InvalidSegmentRange}
  {
  }
}

/** A writer of ELF files, the inverse of the parser. */
module ElfWriter {
  import opened Prelude
  import opened Layout
  import opened Elf

  const IDENTITY: seq<Byte> := MAGIC + [2, 1, 0, 0, 0, 0, 0, 0, 0, 0, 0, 0]

  /** Identification, type, machine and entry point. */
  function HeaderFront(entry: nat): (bytes: seq<Byte>)
    ensures |bytes| == 32
  {
    IDENTITY + LittleBytes(2, 2) + LittleBytes(62, 2) + Zeros(4) + LittleBytes(entry, 8)
  }

  /** Where the program headers are and how many there are. */
  function HeaderBack(count: nat): (bytes: seq<Byte>)
    ensures |bytes| == 32
  {
    LittleBytes(HEADER_SIZE, 8) + Zeros(14) + LittleBytes(ENTRY_SIZE, 2) + LittleBytes(count, 2) + Zeros(6)
  }

  function FileHeader(entry: nat, count: nat): (bytes: seq<Byte>)
    ensures |bytes| == HEADER_SIZE
  {
    HeaderFront(entry) + HeaderBack(count)
  }

  /** Kind, flags, file offset, address and an unused address. */
  function EntryFront(s: LoadSegment): (bytes: seq<Byte>)
    ensures |bytes| == 32
  {
    LittleBytes(PT_LOAD, 4) + LittleBytes(s.flags, 4) + LittleBytes(s.fileOffset, 8) + LittleBytes(s.range.start, 8)
    + Zeros(8)
  }

  /** The two sizes and an unused alignment. */
  function EntryBack(s: LoadSegment): (bytes: seq<Byte>)
    ensures |bytes| == 24
  {
    LittleBytes(s.fileSize, 8) + LittleBytes(s.memorySize, 8) + Zeros(8)
  }

  function TableEntry(s: LoadSegment): (bytes: seq<Byte>)
    ensures |bytes| == ENTRY_SIZE
  {
    EntryFront(s) + EntryBack(s)
  }

  function Table(segments: seq<LoadSegment>): (bytes: seq<Byte>)
    ensures |bytes| == ENTRY_SIZE * |segments|
  {
    if segments == [] then [] else Table(segments[..|segments| - 1]) + TableEntry(segments[|segments| - 1])
  }

  /** File header, program headers, then whatever the segments refer to. */
  function Encode(entry: nat, segments: seq<LoadSegment>, payload: seq<Byte>): seq<Byte> {
    FileHeader(entry, |segments|) + Table(segments) + payload
  }

  predicate Part(all: seq<Byte>, at: nat, p: seq<Byte>) {
    at + |p| <= |all| && all[at..at + |p|] == p
  }

  /** Five pieces written one after the other are found at their offsets. */
  lemma Pieces(before: seq<Byte>, p: seq<Byte>, q: seq<Byte>, r: seq<Byte>, s: seq<Byte>, t: seq<Byte>, rest: seq<Byte>)
    ensures var all, n := before + (p + q + r + s + t) + rest, |before|;
            && Part(all, n, p) && Part(all, n + |p|, q) && Part(all, n + |p| + |q|, r)
            && Part(all, n + |p| + |q| + |r|, s) && Part(all, n + |p| + |q| + |r| + |s|, t)
  {
  }

  /** A number written at an offset is read back from it. */
  lemma NumberRead(all: seq<Byte>, at: nat, value: nat, width: nat)
    requires value < Power256(width) && Part(all, at, LittleBytes(value, width))
    ensures Field(all, at, width) == value
  {
    LittleRoundTrip(value, width);
  }

  lemma Widths()
    ensures Power256(2) == 0x1_0000 && Power256(4) == U32 && Power256(8) == U64
  {
    assert Power256(3) == 256 * Power256(2);
    assert Power256(5) == 256 * Power256(4);
    assert Power256(6) == 256 * Power256(5);
    assert Power256(7) == 256 * Power256(6);
  }

  lemma FrontPieces(p: seq<Byte>, q: seq<Byte>, r: seq<Byte>, s: seq<Byte>, t: seq<Byte>, rest: seq<Byte>)
    requires |p| == 16 && |q| == 2 && |r| == 2 && |s| == 4
    ensures var all := (p + q + r + s + t) + rest; Part(all, 0, p) && Part(all, 16, q) && Part(all, 18, r) && Part(all, 24, t)
  {
    Pieces([], p, q, r, s, t, rest);
    assert [] + (p + q + r + s + t) == p + q + r + s + t;
  }

  lemma IdentityRead(bytes: seq<Byte>)
    requires Part(bytes, 0, IDENTITY)
    ensures bytes[0..4] == MAGIC && bytes[4] == 2 && bytes[5] == 1
  {
    assert bytes[0..4] == IDENTITY[0..4] == MAGIC;
    assert bytes[4] == bytes[0..16][4] && bytes[5] == bytes[0..16][5];
  }

  lemma FrontRead(entry: nat, rest: seq<Byte>)
    requires entry < U64
    ensures var bytes := HeaderFront(entry) + rest;
            && bytes[0..4] == MAGIC && bytes[4] == 2 && bytes[5] == 1
            && Field(bytes, 16, 2) == 2 && Field(bytes, 18, 2) == 62 && Field(bytes, 24, 8) == entry
  {
    var bytes := HeaderFront(entry) + rest;
    FrontPieces(IDENTITY, LittleBytes(2, 2), LittleBytes(62, 2), Zeros(4), LittleBytes(entry, 8), rest);
    IdentityRead(bytes);
    FrontNumbers(bytes, entry);
  }

  lemma FrontNumbers(bytes: seq<Byte>, entry: nat)
    requires entry < U64
    requires Part(bytes, 16, LittleBytes(2, 2)) && Part(bytes, 18, LittleBytes(62, 2)) && Part(bytes, 24, LittleBytes(entry, 8))
    ensures Field(bytes, 16, 2) == 2 && Field(bytes, 18, 2) == 62 && Field(bytes, 24, 8) == entry
  {
    Widths();
    NumberRead(bytes, 16, 2, 2);
    NumberRead(bytes, 18, 62, 2);
    NumberRead(bytes, 24, entry, 8);
  }

  lemma BackRead(front: seq<Byte>, count: nat, rest: seq<Byte>)
    requires |front| == 32 && count <= MAX_SEGMENTS
    ensures var bytes := front + HeaderBack(count) + rest;
            Field(bytes, 32, 8) == HEADER_SIZE && Field(bytes, 54, 2) == ENTRY_SIZE && Field(bytes, 56, 2) == count
  {
    Widths();
    var bytes := front + HeaderBack(count) + rest;
    Pieces(front, LittleBytes(HEADER_SIZE, 8), Zeros(14), LittleBytes(ENTRY_SIZE, 2), LittleBytes(count, 2), Zeros(6), rest);
    NumberRead(bytes, 32, HEADER_SIZE, 8);
    NumberRead(bytes, 54, ENTRY_SIZE, 2);
    NumberRead(bytes, 56, count, 2);
  }

  /** The numbers in a program header fit their fields. */
  predicate Fits(s: LoadSegment) {
    s.flags < U32 && s.fileOffset < U64 && s.range.start < U64 && s.fileSize < U64 && s.memorySize < U64
  }

  function RowOf(s: LoadSegment): ProgramHeader {
    ProgramHeader(PT_LOAD, s.flags, s.fileOffset, s.range.start, s.fileSize, s.memorySize)
  }

  lemma EntryFrontRead(before: seq<Byte>, s: LoadSegment, rest: seq<Byte>)
    requires Fits(s)
    ensures var bytes, n := before + EntryFront(s) + rest, |before|;
            && Field(bytes, n, 4) == PT_LOAD && Field(bytes, n + 4, 4) == s.flags
            && Field(bytes, n + 8, 8) == s.fileOffset && Field(bytes, n + 16, 8) == s.range.start
  {
    Widths();
    var bytes, n := before + EntryFront(s) + rest, |before|;
    Pieces(before, LittleBytes(PT_LOAD, 4), LittleBytes(s.flags, 4), LittleBytes(s.fileOffset, 8),
           LittleBytes(s.range.start, 8), Zeros(8), rest);
    NumberRead(bytes, n, PT_LOAD, 4);
    NumberRead(bytes, n + 4, s.flags, 4);
    NumberRead(bytes, n + 8, s.fileOffset, 8);
    NumberRead(bytes, n + 16, s.range.start, 8);
  }

  lemma EntryBackRead(before: seq<Byte>, s: LoadSegment, rest: seq<Byte>)
    requires Fits(s)
    ensures var bytes, n := before + EntryBack(s) + rest, |before|;
            Field(bytes, n, 8) == s.fileSize && Field(bytes, n + 8, 8) == s.memorySize
  {
    Widths();
    var bytes, n := before + EntryBack(s) + rest, |before|;
    Pieces(before, LittleBytes(s.fileSize, 8), LittleBytes(s.memorySize, 8), Zeros(8), [], [], rest);
    assert EntryBack(s) == EntryBack(s) + [] + [];
    NumberRead(bytes, n, s.fileSize, 8);
    NumberRead(bytes, n + 8, s.memorySize, 8);
  }

  lemma TableEntryRead(before: seq<Byte>, s: LoadSegment, rest: seq<Byte>)
    requires Fits(s)
    ensures HeaderAt(before + TableEntry(s) + rest, |before|) == RowOf(s)
  {
    var bytes := before + TableEntry(s) + rest;
    EntryFrontRead(before, s, EntryBack(s) + rest);
    assert bytes == before + EntryFront(s) + (EntryBack(s) + rest);
    EntryBackRead(before + EntryFront(s), s, rest);
    assert bytes == (before + EntryFront(s)) + EntryBack(s) + rest;
  }

  lemma Joined(a: seq<Byte>, b: seq<Byte>, c: seq<Byte>)
    ensures (a + b) + c == a + (b + c)
  {
  }

  /** Row `i` of the table, wherever the table is written. */
  lemma {:induction false} TableRead(before: seq<Byte>, segments: seq<LoadSegment>, rest: seq<Byte>, i: nat)
    requires i < |segments| && Fits(segments[i])
    ensures var bytes, base := before + Table(segments) + rest, |before| + ENTRY_SIZE * i;
            base + ENTRY_SIZE <= |bytes| && HeaderAt(bytes, base) == RowOf(segments[i])
  {
    var last := |segments| - 1;
    var front, tail := Table(segments[..last]), TableEntry(segments[last]);
    Joined(before, front, tail);
    if i == last {
      TableEntryRead(before + front, segments[last], rest);
    } else {
      TableRead(before, segments[..last], tail + rest, i);
      Joined(before + front, tail, rest);
    }
  }

  /** Images that a file of this length can describe. */
  predicate Describable(entry: nat, segments: seq<LoadSegment>, length: nat) {
    && entry < U64 && length < U64
    && 1 <= |segments| <= MAX_SEGMENTS
    && Covered(segments, entry)
    && forall s | s in segments ::
         s.flags < U32 && SegmentInside(s, length) && !(s.Writable() && s.Executable())
  }

  /** Row `i` of the file's table is the one that describes `s`. */
  predicate RowIs(bytes: seq<Byte>, i: nat, s: LoadSegment) {
    FileFault(bytes).None? && i < TableCount(bytes) && HeaderNo(bytes, i) == RowOf(s)
  }

  /** A file whose header points at a table of exactly these rows. */
  predicate Tabulates(bytes: seq<Byte>, segments: seq<LoadSegment>) {
    && FileFault(bytes).None?
    && TableStart(bytes) == HEADER_SIZE && TableStride(bytes) == ENTRY_SIZE && TableCount(bytes) == |segments|
    && forall i {:trigger RowIs(bytes, i, segments[i])} | 0 <= i < |segments| :: RowIs(bytes, i, segments[i])
  }

  /** What the writer puts in the file header. */
  predicate HeaderFields(bytes: seq<Byte>, entry: nat, count: nat) {
    && HEADER_SIZE <= |bytes|
    && bytes[0..4] == MAGIC && bytes[4] == 2 && bytes[5] == 1
    && Field(bytes, 16, 2) == 2 && Field(bytes, 18, 2) == 62 && EntryOf(bytes) == entry
    && TableStart(bytes) == HEADER_SIZE && TableStride(bytes) == ENTRY_SIZE && TableCount(bytes) == count
  }

  lemma HeaderRead(entry: nat, count: nat, rest: seq<Byte>)
    requires entry < U64 && 1 <= count <= MAX_SEGMENTS
    ensures HeaderFields(FileHeader(entry, count) + rest, entry, count)
  {
    var front, back := HeaderFront(entry), HeaderBack(count);
    FrontRead(entry, back + rest);
    BackRead(front, count, rest);
    Joined(front, back, rest);
  }

  lemma HeaderSound(bytes: seq<Byte>, entry: nat, count: nat)
    requires HeaderFields(bytes, entry, count) && 1 <= count <= MAX_SEGMENTS
    requires HEADER_SIZE + ENTRY_SIZE * count <= |bytes| < U64
    ensures FileFault(bytes).None?
  {
    assert TableStride(bytes) * TableCount(bytes) == ENTRY_SIZE * count;
  }

  lemma RowWritten(bytes: seq<Byte>, i: nat, s: LoadSegment)
    requires FileFault(bytes).None? && TableStart(bytes) == HEADER_SIZE && TableStride(bytes) == ENTRY_SIZE
    requires i < TableCount(bytes)
    requires HEADER_SIZE + ENTRY_SIZE * i + ENTRY_SIZE <= |bytes|
    requires HeaderAt(bytes, HEADER_SIZE + ENTRY_SIZE * i) == RowOf(s)
    ensures RowIs(bytes, i, s)
  {
    assert i * TableStride(bytes) == ENTRY_SIZE * i;
  }

  lemma RowDecoded(bytes: seq<Byte>, s: LoadSegment, n: nat)
    requires RowIs(bytes, n, s)
    requires SegmentInside(s, |bytes|) && !(s.Writable() && s.Executable()) && HeadersSound(bytes, n)
    ensures HeadersSound(bytes, n + 1) && Segments(bytes, n + 1) == Segments(bytes, n) + [s]
  {
    assert SegmentOf(RowOf(s)) == s;
    RowKept(bytes, n, RowOf(s));
  }

  lemma TakeOne<T>(s: seq<T>, n: nat)
    requires n < |s|
    ensures s[..n + 1] == s[..n] + [s[n]]
  {
  }

  lemma {:induction false} RowsDecoded(bytes: seq<Byte>, entry: nat, segments: seq<LoadSegment>, n: nat)
    requires Tabulates(bytes, segments) && Describable(entry, segments, |bytes|) && n <= |segments|
    ensures HeadersSound(bytes, n) && Segments(bytes, n) == segments[..n]
  {
    if n > 0 {
      TakeOne(segments, n - 1);
      RowsDecoded(bytes, entry, segments, n - 1);
      assert segments[n - 1] in segments;
      RowDecoded(bytes, segments[n - 1], n - 1);
    }
  }

  lemma EncodedTabulates(head: seq<Byte>, entry: nat, segments: seq<LoadSegment>, payload: seq<Byte>, bytes: seq<Byte>)
    requires head == FileHeader(entry, |segments|) && bytes == head + Table(segments) + payload
    requires Describable(entry, segments, |bytes|)
    ensures Tabulates(bytes, segments) && EntryOf(bytes) == entry
  {
    HeaderRead(entry, |segments|, Table(segments) + payload);
    Joined(head, Table(segments), payload);
    HeaderSound(bytes, entry, |segments|);
    forall i | 0 <= i < |segments| ensures RowIs(bytes, i, segments[i]) {
      assert segments[i] in segments;
      TableRead(head, segments, payload, i);
      RowWritten(bytes, i, segments[i]);
    }
  }

  /** The parser accepts every describable image and reads back exactly what was written. */
  lemma EncodeRoundTrip(entry: nat, segments: seq<LoadSegment>, payload: seq<Byte>)
    requires Describable(entry, segments, |Encode(entry, segments, payload)|)
    ensures var bytes := Encode(entry, segments, payload);
            Accepts(bytes) && Decoded(bytes) == ElfImage(bytes, entry, segments)
  {
    var bytes := Encode(entry, segments, payload);
    EncodedTabulates(FileHeader(entry, |segments|), entry, segments, payload, bytes);
    RowsDecoded(bytes, entry, segments, |segments|);
    assert segments[..|segments|] == segments;
  }
}
