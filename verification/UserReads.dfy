/** Reading user memory: range checks, page checks and page-sized copies (kernel/src/memory/user_copy.rs, arch/x86_64/user_copy.rs). */
module UserReads {
  import opened Prelude
  import opened Layout
  import opened PageWalks

  datatype UserRangeError = NullPointer | AddressOverflow | OutsideUserSpace

  datatype UserReadError =
    | InvalidRange(error: UserRangeError)
    | PageAddressOverflow
    | InvalidPageAddress
    | Unmapped
    | NotUserAccessible
    | NotReadable
    | BackendFailure

  datatype UserSlice = UserSlice(ptr: nat, len: nat)

  /** Machine words; the type of every slice the ABI can pass. */
  predicate IsWord(slice: UserSlice) {
    slice.ptr < U64 && slice.len < U64
  }

  function ValidateSlice(slice: UserSlice): Result<VirtRange, UserRangeError> {
    if slice.len == 0 then Ok(VirtRange(slice.ptr, slice.ptr))
    else if slice.ptr == 0 then Err(NullPointer)
    else if U64 <= slice.ptr + slice.len then Err(AddressOverflow)
    else if slice.ptr < USER_SPACE_START || KERNEL_SPACE_START < slice.ptr + slice.len then Err(OutsideUserSpace)
    else Ok(VirtRange(slice.ptr, slice.ptr + slice.len))
  }

  /**
   * A slice is accepted exactly when it is empty or lies in user space, and then as the range of its own bytes;
   * a refused one is null, or leaves the 64-bit address space, or else leaves user space.
   */
  lemma SliceAcceptedIff(slice: UserSlice)
    ensures ValidateSlice(slice).Ok? <==> slice.len == 0 || (0x1_0000 <= slice.ptr && slice.ptr + slice.len <= 0xffff_8000_0000_0000)
    ensures ValidateSlice(slice).Ok? ==>
      forall a: nat :: ValidateSlice(slice).value.Contains(a) <==> slice.ptr <= a < slice.ptr + slice.len
    ensures ValidateSlice(slice) == Err(NullPointer) <==> 0 < slice.len && slice.ptr == 0
    ensures ValidateSlice(slice) == Err(AddressOverflow) <==>
      0 < slice.len && slice.ptr != 0 && 0x1_0000_0000_0000_0000 <= slice.ptr + slice.len
  {
    assert forall a: nat :: VirtRange(slice.ptr, slice.ptr).Contains(a) <==> slice.ptr <= a < slice.ptr;
  }

  /** Why a page may not be read by user code, if it may not. */
  function PageFault(u: UserView, page: nat): Option<UserReadError> {
    match u.flags(page)
    case None => Some(Unmapped)
    case Some(f) => if f.user then None else Some(NotUserAccessible)
  }

  /** The fault of the first page from `page` up to `end` that has one. */
  function RangeFault(u: UserView, page: nat, end: nat): Option<UserReadError>
    decreases end - page
  {
    if end <= page then None
    else if PageFault(u, page).Some? then PageFault(u, page)
    else RangeFault(u, page + PAGE, end)
  }

  function ReadFault(u: UserView, ptr: nat, len: nat): Option<UserReadError> {
    RangeFault(u, PageBase(ptr), ptr + len)
  }

  /** The page is mapped, and for user code. */
  predicate UserPage(u: UserView, page: nat) {
    u.flags(page).Some? && u.flags(page).value.user
  }

  /** Every byte of the range lies in a page user code may read. */
  ghost predicate Readable(u: UserView, ptr: nat, len: nat) {
    forall a | ptr <= a < ptr + len :: UserPage(u, PageBase(a))
  }

  /** No page of the range has a fault, or there is a first one that has. */
  lemma {:induction false} RangeFaultMeans(u: UserView, page: nat, end: nat) returns (bad: nat)
    requires page % PAGE == 0
    ensures RangeFault(u, page, end).None? <==> forall a | page <= a < end :: UserPage(u, PageBase(a))
    ensures RangeFault(u, page, end).Some? ==>
      && page <= bad < end && bad % PAGE == 0 && RangeFault(u, page, end) == PageFault(u, bad) && !UserPage(u, bad)
      && forall a | page <= a < bad :: UserPage(u, PageBase(a))
    decreases end - page
  {
    bad := page;
    if page < end {
      PageBaseUnique(page, page);
      forall a | page <= a < page + PAGE ensures PageBase(a) == page {
        PageBaseUnique(a, page);
      }
      var later := RangeFaultMeans(u, page + PAGE, end);
      if PageFault(u, page).None? {
        bad := later;
      }
    }
  }

  /**
   * The page loop accepts exactly the ranges all of whose bytes lie in mapped user pages. Otherwise it reports the page
   * of the first byte that does not: as unmapped if nothing is mapped there, as not accessible if something is.
   */
  lemma ReadFaultMeans(u: UserView, ptr: nat, len: nat) returns (bad: nat)
    requires 0 < len
    ensures ReadFault(u, ptr, len).None? <==>
      forall a | ptr <= a < ptr + len :: u.flags(PageBase(a)).Some? && u.flags(PageBase(a)).value.user
    ensures ReadFault(u, ptr, len).None? <==> Readable(u, ptr, len)
    ensures ReadFault(u, ptr, len).Some? ==>
      && ptr <= bad < ptr + len && (forall a | ptr <= a < bad :: UserPage(u, PageBase(a)))
      && (u.flags(PageBase(bad)).None? ==> ReadFault(u, ptr, len) == Some(Unmapped))
      && (u.flags(PageBase(bad)).Some? ==> !u.flags(PageBase(bad)).value.user && ReadFault(u, ptr, len) == Some(NotUserAccessible))
  {
    var page := RangeFaultMeans(u, PageBase(ptr), ptr + len);
    bad := if page < ptr then ptr else page;
    forall a | PageBase(ptr) <= a < ptr ensures PageBase(a) == PageBase(ptr) {
      PageBaseUnique(a, PageBase(ptr));
    }
    if Readable(u, ptr, len) {
      assert UserPage(u, PageBase(ptr));
    }
    if ReadFault(u, ptr, len).Some? {
      PageBaseUnique(bad, page);
    }
  }

  method ValidateReadableRange(u: UserView, slice: UserSlice) returns (fault: Option<UserReadError>)
    requires IsWord(slice)
    ensures fault == if ValidateSlice(slice).Err? then Some(InvalidRange(ValidateSlice(slice).error))
                     else if slice.len == 0 then None else ReadFault(u, slice.ptr, slice.len)
  {
    var range := ValidateSlice(slice);
    if range.Err? {
      return Some(InvalidRange(range.error));
    }
    if range.value.start == range.value.end {
      return None;
    }
    var page := range.value.start / PAGE * PAGE;
    assert page == PageBase(slice.ptr);
    while true
      invariant page % PAGE == 0 && page < range.value.end
      invariant ReadFault(u, slice.ptr, slice.len) == RangeFault(u, page, range.value.end)
      decreases range.value.end - page
    {
      if page % PAGE != 0 {
        assert false;
        return Some(InvalidPageAddress);
      }
      var flags := u.flags(page);
      if flags.None? {
        return Some(Unmapped);
      }
      if !flags.value.user {
        return Some(NotUserAccessible);
      }
      if U64 <= page + PAGE {
        assert false;
        return Some(PageAddressOverflow);
      }
      if range.value.end <= page + PAGE {
        break;
      }
      page := page + PAGE;
    }
    return None;
  }

  /** The byte user code sees at an address. */
  function UserByte(u: UserView, address: nat): Byte {
    match u.translate(address)
    case None => 0
    case Some(p) => u.memory(p)
  }

  /** One flat read of user memory. */
  function Flat(u: UserView, ptr: nat, len: nat): (bytes: seq<Byte>)
    ensures |bytes| == len
  {
    seq<Byte>(len, i requires 0 <= i => UserByte(u, ptr + i))
  }

  lemma FlatAppend(u: UserView, ptr: nat, m: nat, n: nat)
    ensures Flat(u, ptr, m + n) == Flat(u, ptr, m) + Flat(u, ptr + m, n)
  {
  }

  /** A copy chunk starts at the range's start and at every page boundary inside it. */
  predicate ChunkStart(ptr: nat, a: nat) {
    a == ptr || a % PAGE == 0
  }

  /** The direct map reaches the first byte of every copy chunk. */
  ghost predicate DirectMapped(u: UserView, ptr: nat, len: nat) {
    forall a | ptr <= a < ptr + len && ChunkStart(ptr, a) ::
      u.translate(a).Some? ==> u.offset + u.translate(a).value < U64
  }

  /** One translation serves the rest of its page. */
  lemma ChunkByte(u: UserView, address: nat, x: nat)
    requires Coherent(u) && u.translate(address).Some? && address % PAGE + x < PAGE
    ensures u.translate(address + x) == Some(u.translate(address).value + x)
  {
    PageBaseUnique(address + x, PageBase(address));
    assert InUserSpace(address) && InUserSpace(address + x);
    assert PageUniform(u, address) && PageUniform(u, address + x);
  }

  function PhysicalBytes(u: UserView, physical: nat, n: nat): (bytes: seq<Byte>)
    ensures |bytes| == n
  {
    seq<Byte>(n, i requires 0 <= i => u.memory(physical + i))
  }

  lemma ChunkFlat(u: UserView, address: nat, n: nat)
    requires Coherent(u) && u.translate(address).Some? && address % PAGE + n <= PAGE
    ensures PhysicalBytes(u, u.translate(address).value, n) == Flat(u, address, n)
  {
    var flat := Flat(u, address, n);
    forall x | 0 <= x < n ensures flat[x] == UserByte(u, address + x) == u.memory(u.translate(address).value + x) {
      ChunkByte(u, address, x);
    }
  }

  method BlockCopy(dst: array<Byte>, at: nat, bytes: seq<Byte>)
    requires at + |bytes| <= dst.Length
    modifies dst
    ensures dst[..at + |bytes|] == old(dst[..at]) + bytes
  {
    forall x | 0 <= x < |bytes| {
      dst[at + x] := bytes[x];
    }
  }

  /** Where the chunk after the one at `address` starts. */
  function NextChunk(address: nat): (next: nat)
    ensures address < next <= address + PAGE && next % PAGE == 0
  {
    PageBase(address) + PAGE
  }

  /** The first thing that stops a copy of the bytes from `address` to `end`: no translation, or no direct map. */
  function BackendFault(u: UserView, address: nat, end: nat): Option<UserReadError>
    decreases end - address
  {
    if end <= address then None
    else if U64 <= address then Some(PageAddressOverflow)
    else match u.translate(address)
      case None => Some(Unmapped)
      case Some(p) => if U64 <= u.offset + p then Some(BackendFailure) else BackendFault(u, NextChunk(address), end)
  }

  /** Copies page chunk by page chunk into the front of the buffer. */
  method CopyPages(u: UserView, src: nat, dst: array<Byte>, n: nat) returns (fault: Option<UserReadError>)
    requires Coherent(u) && n <= dst.Length
    modifies dst
    ensures fault == BackendFault(u, src, src + n)
    ensures fault.None? ==> dst[..n] == Flat(u, src, n)
  {
    var copied := 0;
    while copied < n
      invariant 0 <= copied <= n
      invariant dst[..copied] == Flat(u, src, copied)
      invariant BackendFault(u, src, src + n) == BackendFault(u, src + copied, src + n)
    {
      var address := src + copied;
      if U64 <= address {
        return Some(PageAddressOverflow);
      }
      var physical := u.translate(address);
      if physical.None? {
        return Some(Unmapped);
      }
      if U64 <= u.offset + physical.value {
        return Some(BackendFailure);
      }
      var room := PAGE - address % PAGE;
      var chunk := if room < n - copied then room else n - copied;
      assert chunk == room ==> address + chunk == NextChunk(address);
      ChunkFlat(u, address, chunk);
      BlockCopy(dst, copied, PhysicalBytes(u, physical.value, chunk));
      FlatAppend(u, src, copied, chunk);
      copied := copied + chunk;
    }
    return None;
  }

  /** The copy can start a chunk here: the address is a word, translates, and the direct map reaches it. */
  predicate Starts(u: UserView, address: nat) {
    address < U64 && u.translate(address).Some? && u.offset + u.translate(address).value < U64
  }

  /** The copy goes through exactly when every chunk can be started; otherwise it reports what stops the first that cannot. */
  lemma {:induction false} BackendFaultMeans(u: UserView, ptr: nat, end: nat) returns (bad: nat)
    ensures BackendFault(u, ptr, end).None? <==> forall a | ptr <= a < end && ChunkStart(ptr, a) :: Starts(u, a)
    ensures BackendFault(u, ptr, end).Some? ==>
      && ptr <= bad < end && ChunkStart(ptr, bad) && !Starts(u, bad)
      && (forall a | ptr <= a < bad && ChunkStart(ptr, a) :: Starts(u, a))
      && BackendFault(u, ptr, end) == Some(if U64 <= bad then PageAddressOverflow
                                           else if u.translate(bad).None? then Unmapped else BackendFailure)
    decreases end - ptr
  {
    bad := ptr;
    if ptr < end {
      var next := NextChunk(ptr);
      assert ChunkStart(ptr, ptr);
      forall a | ptr < a < next ensures !ChunkStart(ptr, a) {
        NoStartBetween(ptr, a);
      }
      assert forall a | next <= a :: ChunkStart(ptr, a) <==> ChunkStart(next, a);
      var later := BackendFaultMeans(u, next, end);
      if Starts(u, ptr) {
        bad := later;
      }
    }
  }

  lemma ReadableTranslates(u: UserView, ptr: nat, len: nat, address: nat)
    requires Coherent(u) && Readable(u, ptr, len) && ptr <= address < ptr + len
    requires USER_SPACE_START <= ptr && ptr + len <= KERNEL_SPACE_START
    ensures u.translate(address).Some?
  {
    var base := PageBase(address);
    assert UserPage(u, base);
    assert PageUniform(u, address);
  }

  /** Between two chunk starts there is no third. */
  lemma NoStartBetween(ptr: nat, a: nat)
    requires ptr < a < NextChunk(ptr)
    ensures !ChunkStart(ptr, a)
  {
  }

  /** On a readable range only the direct map can stop the copy. */
  lemma {:induction false} ReadableCopies(u: UserView, ptr: nat, len: nat)
    requires Coherent(u) && Readable(u, ptr, len)
    requires 0 < len ==> USER_SPACE_START <= ptr && ptr + len <= KERNEL_SPACE_START
    ensures BackendFault(u, ptr, ptr + len) == if DirectMapped(u, ptr, len) then None else Some(BackendFailure)
    decreases len
  {
    if 0 < len {
      var next := NextChunk(ptr);
      ReadableTranslates(u, ptr, len, ptr);
      assert ChunkStart(ptr, ptr);
      forall a | ptr < a < next ensures !ChunkStart(ptr, a) {
        NoStartBetween(ptr, a);
      }
      if next < ptr + len {
        ReadableCopies(u, next, ptr + len - next);
        assert forall a | next <= a < ptr + len :: ChunkStart(ptr, a) <==> ChunkStart(next, a);
      }
    }
  }

  /** Why a range that lies in user space cannot be read, if it cannot. */
  ghost function CopyFault(u: UserView, ptr: nat, len: nat): Option<UserReadError> {
    if len == 0 then None
    else if ReadFault(u, ptr, len).Some? then ReadFault(u, ptr, len)
    else if DirectMapped(u, ptr, len) then None
    else Some(BackendFailure)
  }

  /** Reads a slice into the front of the buffer, or says why it cannot. */
  method CopyFromUser(u: UserView, slice: UserSlice, dst: array<Byte>, n: nat) returns (fault: Option<UserReadError>)
    requires Coherent(u) && IsWord(slice) && n <= dst.Length
    modifies dst
    ensures slice.len == n && ValidateSlice(slice).Ok? ==> fault == CopyFault(u, slice.ptr, n)
    ensures fault.None? ==> slice.len == n && dst[..n] == Flat(u, slice.ptr, n)
    ensures slice.len != n ==> fault == Some(InvalidRange(AddressOverflow))
    ensures slice.len == n && ValidateSlice(slice).Err? ==> fault == Some(InvalidRange(ValidateSlice(slice).error))
  {
    if slice.len != n {
      return Some(InvalidRange(AddressOverflow));
    }
    var invalid := ValidateReadableRange(u, slice);
    if invalid.Some? {
      return invalid;
    }
    if 0 < n {
      ghost var _ := ReadFaultMeans(u, slice.ptr, n);
    }
    ReadableCopies(u, slice.ptr, n);
    fault := CopyPages(u, slice.ptr, dst, n);
  }
}
