/** The write system call and the numbers it returns (kernel/src/syscall.rs, abi/src/lib.rs). */
module Syscalls {
  import opened Prelude
  import opened Layout
  import opened PageWalks
  import opened UserReads

  datatype AbiError =
    | UnknownSyscall
    | AbiNotImplemented
    | AbiInvalidArguments
    | AbiInvalidUserRange
    | AbiInvalidUserMemory
    | AbiWriteFailed

  function Code(e: AbiError): (code: nat)
    ensures 1 <= code <= 6
  {
    match e
    case UnknownSyscall => 1
    case AbiNotImplemented => 2
    case AbiInvalidArguments => 3
    case AbiInvalidUserRange => 4
    case AbiInvalidUserMemory => 5
    case AbiWriteFailed => 6
  }

  /** Errors travel as negated 64-bit numbers. */
  function ReturnValue(e: AbiError): nat {
    U64 - Code(e)
  }

  function FromReturnValue(value: nat): Option<AbiError>
    requires value < U64
  {
    match (U64 - value) % U64
    case 1 => Some(UnknownSyscall)
    case 2 => Some(AbiNotImplemented)
    case 3 => Some(AbiInvalidArguments)
    case 4 => Some(AbiInvalidUserRange)
    case 5 => Some(AbiInvalidUserMemory)
    case 6 => Some(AbiWriteFailed)
    case _ => None
  }

  /** User code recovers exactly the error the kernel reported, and nothing else decodes as that error. */
  lemma ErrorRoundTrip(e: AbiError, value: nat)
    requires value < U64
    ensures ReturnValue(e) < U64
    ensures FromReturnValue(value) == Some(e) <==> value == ReturnValue(e)
  {
    assert (U64 - value) % U64 == if value == 0 then 0 else U64 - value;
  }

  datatype SyscallError =
    | UnknownNumber
    | NotImplemented
    | InvalidArguments
    | InvalidUserRange(range: UserRangeError)
    | InvalidUserMemory(memory: UserReadError)
    | WriteFailed

  /** Receives bytes; whether it takes its n-th write is arbitrary, and a refused write takes nothing. */
  class Sink {
    const refuses: nat -> bool
    var written: seq<Byte>
    var calls: nat

    method Write(bytes: seq<Byte>) returns (ok: bool)
      modifies this
      ensures calls == old(calls) + 1 && ok == !refuses(old(calls))
      ensures written == old(written) + if ok then bytes else []
    {
      ok := !refuses(calls);
      calls := calls + 1;
      written := written + if ok then bytes else [];
    }
  }

  const BUFFER: nat := 256

  /** The chunk that starts `k` bytes into the slice. */
  function ChunkLength(slice: UserSlice, k: nat): (n: nat)
    requires k < slice.len
    ensures 0 < n <= BUFFER && k + n <= slice.len
  {
    if slice.len - k < BUFFER then slice.len - k else BUFFER
  }

  ghost function FaultAt(u: UserView, slice: UserSlice, k: nat): Option<UserReadError>
    requires k < slice.len
  {
    CopyFault(u, slice.ptr + k, ChunkLength(slice, k))
  }

  /** Every chunk of the first `k` bytes can be read and is taken. */
  ghost predicate Passed(u: UserView, slice: UserSlice, takes: nat -> bool, k: nat)
    requires k <= slice.len
  {
    forall j | 0 <= j < k && j % BUFFER == 0 :: FaultAt(u, slice, j).None? && takes(j / BUFFER)
  }

  lemma ChunkPassed(u: UserView, slice: UserSlice, takes: nat -> bool, k: nat)
    requires k < slice.len && k % BUFFER == 0 && Passed(u, slice, takes, k)
    requires FaultAt(u, slice, k).None? && takes(k / BUFFER)
    ensures Passed(u, slice, takes, k + ChunkLength(slice, k))
  {
    forall j | 0 <= j < k + ChunkLength(slice, k) && j % BUFFER == 0
      ensures FaultAt(u, slice, j).None? && takes(j / BUFFER)
    {
      if k <= j {
        OneStart(j, k);
      }
    }
  }

  lemma OneStart(j: nat, k: nat)
    requires j % BUFFER == 0 && k % BUFFER == 0 && k <= j < k + BUFFER
    ensures j == k
  {
  }

  /** Why a write stops at chunk `k`: the chunk cannot be read, or the sink refuses it. */
  ghost function StopAt(u: UserView, slice: UserSlice, takes: nat -> bool, k: nat): Option<SyscallError>
    requires k < slice.len
  {
    match FaultAt(u, slice, k)
    case Some(e) => Some(InvalidUserMemory(e))
    case None => if takes(k / BUFFER) then None else Some(WriteFailed)
  }

  /** How a write of a valid slice ends: all of it, or the chunks before the one that failed. */
  ghost predicate WriteEnds(u: UserView, slice: UserSlice, takes: nat -> bool, r: Result<nat, SyscallError>, gained: seq<Byte>) {
    var k := |gained|;
    && k <= slice.len && gained == Flat(u, slice.ptr, k) && Passed(u, slice, takes, k)
    && match r
       case Ok(n) => n == slice.len == k
       case Err(e) => k < slice.len && k % BUFFER == 0 && StopAt(u, slice, takes, k) == Some(e)
  }

  /** A write succeeds exactly when every chunk can be read and the sink takes every chunk. */
  lemma WriteSucceedsIff(u: UserView, slice: UserSlice, takes: nat -> bool, r: Result<nat, SyscallError>, gained: seq<Byte>)
    requires WriteEnds(u, slice, takes, r, gained)
    ensures r.Ok? <==> Passed(u, slice, takes, slice.len)
  {
    if r.Err? {
      assert |gained| % BUFFER == 0;
    }
  }

  /** There is only one way a write can end. */
  lemma OutcomeUnique(u: UserView, slice: UserSlice, takes: nat -> bool, r: Result<nat, SyscallError>, gained: seq<Byte>,
                      r': Result<nat, SyscallError>, gained': seq<Byte>)
    requires WriteEnds(u, slice, takes, r, gained) && WriteEnds(u, slice, takes, r', gained')
    ensures r == r' && gained == gained'
  {
    NotShorter(u, slice, takes, r, gained, gained');
    NotShorter(u, slice, takes, r', gained', gained);
  }

  lemma NotShorter(u: UserView, slice: UserSlice, takes: nat -> bool, r: Result<nat, SyscallError>, gained: seq<Byte>, other: seq<Byte>)
    requires WriteEnds(u, slice, takes, r, gained) && |other| <= slice.len && Passed(u, slice, takes, |other|)
    ensures |other| <= |gained|
  {
    var k := |gained|;
    if r.Err? {
      assert k % BUFFER == 0;
    }
  }

  /** The direct map reaches the chunk that starts `j` bytes into the slice, and the sink takes it. */
  ghost predicate Goes(u: UserView, slice: UserSlice, takes: nat -> bool, j: nat)
    requires j < slice.len
  {
    DirectMapped(u, slice.ptr + j, if slice.len - j < 256 then slice.len - j else 256) && takes(j / 256)
  }

  /** That is: every byte is in a page of the user's, the direct map reaches every chunk and the sink takes every chunk. */
  lemma PassedIff(u: UserView, slice: UserSlice, takes: nat -> bool)
    ensures Passed(u, slice, takes, slice.len) <==>
      Readable(u, slice.ptr, slice.len) && forall j | 0 <= j < slice.len && j % 256 == 0 :: Goes(u, slice, takes, j)
  {
    if Passed(u, slice, takes, slice.len) {
      PassedIsReadable(u, slice, takes, slice.len);
    }
    if Readable(u, slice.ptr, slice.len) {
      forall j | 0 <= j < slice.len && j % 256 == 0
        ensures FaultAt(u, slice, j).None? && takes(j / BUFFER) <==> Goes(u, slice, takes, j)
      {
        var _ := ReadFaultMeans(u, slice.ptr + j, ChunkLength(slice, j));
        assert Readable(u, slice.ptr + j, ChunkLength(slice, j));
      }
      if forall j | 0 <= j < slice.len && j % 256 == 0 :: Goes(u, slice, takes, j) {
        forall j | 0 <= j < slice.len && j % BUFFER == 0 ensures FaultAt(u, slice, j).None? && takes(j / BUFFER) {
          assert Goes(u, slice, takes, j);
        }
      }
    }
  }

  /** What the sink will do from its next call on. */
  function Takes(refuses: nat -> bool, calls: nat): nat -> bool {
    (i: nat) => !refuses(calls + i)
  }

  /** One trip through the buffer: the chunk is read and then offered to the sink. */
  method WriteChunk(u: UserView, slice: UserSlice, offset: nat, buffer: array<Byte>, sink: Sink, ghost takes: nat -> bool)
    returns (stop: Option<SyscallError>)
    requires Coherent(u) && IsWord(slice) && ValidateSlice(slice).Ok? && offset < slice.len && buffer.Length == BUFFER
    requires takes(offset / BUFFER) == !sink.refuses(sink.calls)
    modifies sink, buffer
    ensures stop == StopAt(u, slice, takes, offset)
    ensures stop.None? ==> sink.calls == old(sink.calls) + 1
    ensures sink.written == old(sink.written) +
      if stop.None? then Flat(u, slice.ptr + offset, ChunkLength(slice, offset)) else []
  {
    var n := ChunkLength(slice, offset);
    var fault := CopyFromUser(u, UserSlice(slice.ptr + offset, n), buffer, n);
    if fault.Some? {
      return Some(InvalidUserMemory(fault.value));
    }
    var taken := sink.Write(buffer[..n]);
    return if taken then None else Some(WriteFailed);
  }

  /** Copies the slice to the sink through a 256-byte buffer. */
  method WriteSlice(u: UserView, slice: UserSlice, sink: Sink) returns (r: Result<nat, SyscallError>)
    requires Coherent(u) && IsWord(slice)
    modifies sink
    ensures old(sink.written) <= sink.written
    ensures if ValidateSlice(slice).Err?
      then r == Err(InvalidUserRange(ValidateSlice(slice).error)) && sink.written == old(sink.written)
      else WriteEnds(u, slice, Takes(sink.refuses, old(sink.calls)), r, sink.written[|old(sink.written)|..])
  {
    var range := ValidateSlice(slice);
    if range.Err? {
      return Err(InvalidUserRange(range.error));
    }
    if slice.len == 0 {
      return Ok(0);
    }
    var buffer := new Byte[BUFFER](_ => 0);
    ghost var before, takes := sink.written, Takes(sink.refuses, sink.calls);
    var offset := 0;
    ghost var count := 0;
    while offset < slice.len
      invariant 0 <= offset <= slice.len && (offset < slice.len ==> offset == count * BUFFER)
      invariant sink.written == before + Flat(u, slice.ptr, offset) && sink.calls == old(sink.calls) + count
      invariant Passed(u, slice, takes, offset)
      invariant fresh(buffer) && buffer.Length == BUFFER
    {
      assert offset / BUFFER == count && takes(count) == !sink.refuses(sink.calls);
      var stop := WriteChunk(u, slice, offset, buffer, sink, takes);
      if stop.Some? {
        assert sink.written == before + Flat(u, slice.ptr, offset);
        return Err(stop.value);
      }
      FlatAppend(u, slice.ptr, offset, ChunkLength(slice, offset));
      ChunkPassed(u, slice, takes, offset);
      offset, count := offset + ChunkLength(slice, offset), count + 1;
    }
    return Ok(slice.len);
  }

  function AbiOf(e: SyscallError): AbiError {
    match e
    case UnknownNumber => UnknownSyscall
    case NotImplemented => AbiNotImplemented
    case InvalidArguments => AbiInvalidArguments
    case InvalidUserRange(_) => AbiInvalidUserRange
    case InvalidUserMemory(_) => AbiInvalidUserMemory
    case WriteFailed => AbiWriteFailed
  }

  /** What the caller finds in its result register. */
  function Encoded(r: Result<nat, SyscallError>): nat {
    match r
    case Ok(n) => n
    case Err(e) => ReturnValue(AbiOf(e))
  }

  /** The numbers of the stable interface, and the one each kind of error travels as. */
  lemma ErrorNumbers(range: UserRangeError, memory: UserReadError)
    ensures Encoded(Err(UnknownNumber)) == 0xffff_ffff_ffff_ffff && Encoded(Err(NotImplemented)) == 0xffff_ffff_ffff_fffe
    ensures Encoded(Err(InvalidArguments)) == 0xffff_ffff_ffff_fffd
    ensures Encoded(Err(InvalidUserRange(range))) == 0xffff_ffff_ffff_fffc
    ensures Encoded(Err(InvalidUserMemory(memory))) == 0xffff_ffff_ffff_fffb && Encoded(Err(WriteFailed)) == 0xffff_ffff_ffff_fffa
  {
  }

  /** The caller can tell success from failure: a byte count never decodes as an error, an error always does. */
  lemma OutcomeDecodes(u: UserView, slice: UserSlice, takes: nat -> bool, r: Result<nat, SyscallError>, gained: seq<Byte>)
    requires IsWord(slice) && ValidateSlice(slice).Ok? && WriteEnds(u, slice, takes, r, gained)
    ensures Encoded(r) < U64
    ensures FromReturnValue(Encoded(r)) == if r.Ok? then None else Some(AbiOf(r.error))
    ensures r.Ok? ==> Encoded(r) == slice.len
  {
    if r.Err? {
      ErrorRoundTrip(AbiOf(r.error), Encoded(r));
    } else {
      assert slice.len <= KERNEL_SPACE_START && (U64 - slice.len) % U64 == if slice.len == 0 then 0 else U64 - slice.len;
    }
  }

  /** Every byte is that of a page mapped for user code, in the order of the slice. */
  ghost predicate Delivers(u: UserView, ptr: nat, bytes: seq<Byte>) {
    forall i | 0 <= i < |bytes| :: IsUserByte(u, ptr + i, bytes[i])
  }

  /** The page of the address is mapped for user code, and this is the byte there. */
  predicate IsUserByte(u: UserView, address: nat, b: Byte) {
    && u.flags(PageBase(address)).Some? && u.flags(PageBase(address)).value.user
    && u.translate(address).Some? && b == u.memory(u.translate(address).value)
  }

  lemma PassedIsReadable(u: UserView, slice: UserSlice, takes: nat -> bool, k: nat)
    requires k <= slice.len && Passed(u, slice, takes, k) && (k % BUFFER == 0 || k == slice.len)
    ensures Readable(u, slice.ptr, k)
  {
    forall a | slice.ptr <= a < slice.ptr + k ensures UserPage(u, PageBase(a)) {
      var j := (a - slice.ptr) / BUFFER * BUFFER;
      assert j <= a - slice.ptr < j + BUFFER && j < k && j % BUFFER == 0;
      assert FaultAt(u, slice, j).None?;
      var _ := ReadFaultMeans(u, slice.ptr + j, ChunkLength(slice, j));
      assert Readable(u, slice.ptr + j, ChunkLength(slice, j)) && a < slice.ptr + j + ChunkLength(slice, j);
    }
  }

  /** However a write of a valid slice ends, what it has delivered is what user code sees in its own pages. */
  lemma DeliversUserBytes(u: UserView, slice: UserSlice, takes: nat -> bool, r: Result<nat, SyscallError>, gained: seq<Byte>)
    requires Coherent(u) && ValidateSlice(slice).Ok? && WriteEnds(u, slice, takes, r, gained)
    ensures Delivers(u, slice.ptr, gained)
  {
    PassedIsReadable(u, slice, takes, |gained|);
    forall i | 0 <= i < |gained| ensures IsUserByte(u, slice.ptr + i, gained[i]) {
      ReadableTranslates(u, slice.ptr, |gained|, slice.ptr + i);
      assert UserPage(u, PageBase(slice.ptr + i)) && Flat(u, slice.ptr, |gained|)[i] == UserByte(u, slice.ptr + i);
    }
  }

  /**
   * Which error a failed write reports. The failing chunk is the first one with a byte outside the user's pages, and the
   * error tells whether the page of the first such byte is unmapped or not the user's; or its bytes are all readable
   * and the direct map misses one of the places the copy starts from, or else the sink refused it.
   */
  lemma WriteErrorMeans(u: UserView, slice: UserSlice, takes: nat -> bool, e: SyscallError, gained: seq<Byte>) returns (bad: nat)
    requires WriteEnds(u, slice, takes, Err(e), gained)
    ensures var k, n := |gained|, ChunkLength(slice, |gained|); var start := slice.ptr + k;
            && k < slice.len && k % 256 == 0 && n == (if slice.len - k < 256 then slice.len - k else 256)
            && Readable(u, slice.ptr, k)
            && (!Readable(u, start, n) ==>
                 && start <= bad < start + n && Readable(u, slice.ptr, bad - slice.ptr) && !UserPage(u, PageBase(bad))
                 && e == InvalidUserMemory(if u.flags(PageBase(bad)).None? then Unmapped else NotUserAccessible))
            && (Readable(u, start, n) && !DirectMapped(u, start, n) ==> e == InvalidUserMemory(BackendFailure))
            && (Readable(u, start, n) && DirectMapped(u, start, n) ==> e == WriteFailed && !takes(k / 256))
  {
    var k := |gained|;
    PassedIsReadable(u, slice, takes, k);
    bad := ReadFaultMeans(u, slice.ptr + k, ChunkLength(slice, k));
  }

  /**
   * docs/SYSCALL_ABI.md:39 says the complete range is validated before anything is copied. The code validates
   * chunk by chunk, so a failed read leaves the sink untouched exactly when the first chunk is the bad one.
   */
  lemma NothingWrittenIff(u: UserView, slice: UserSlice, takes: nat -> bool, e: UserReadError, gained: seq<Byte>)
    requires WriteEnds(u, slice, takes, Err(InvalidUserMemory(e)), gained)
    ensures gained == [] <==> FaultAt(u, slice, 0).Some?
  {
    if |gained| > 0 {
      assert 0 % BUFFER == 0 && FaultAt(u, slice, 0).None?;
    }
  }

  /** Tables that map one user page, 0x10000, onto the frame of the same address. */
  function OnePageEntry(table: nat, index: nat): Entry {
    if (table == 0 || table == 0x1000 || table == 0x2000) && index == 0
    then RawEntry.Entry(true, true, false, false, false, table + 0x1000)
    else if table == 0x3000 && index == 16 then RawEntry.Entry(true, true, false, true, false, 0x1_0000)
    else RawEntry.Entry(false, false, false, false, false, 0)
  }

  function OnePage(): PageTables {
    PageTables(0, 0, (t: nat, i: nat) => OnePageEntry(t, i), (_: nat) => 0)
  }

  lemma OnePageFlags()
    ensures FlagsAt(OnePage(), 0x1_0000) == Some(PageFlags(true, false, true))
    ensures FlagsAt(OnePage(), 0x1_1000) == None
  {
    var v := OnePage();
    assert Index(0x1_0000, 3) == 16 && Index(0x1_1000, 3) == 17;
    assert Resolve(v, 0x3000, 3, 0x1_0000) == Some(Leaf(true, false, true, 0x1_0000, 3));
    assert Resolve(v, 0x2000, 2, 0x1_0000) == Some(Leaf(true, false, true, 0x1_0000, 3));
    assert Resolve(v, 0x1000, 1, 0x1_0000) == Some(Leaf(true, false, true, 0x1_0000, 3));
    assert Resolve(v, 0x3000, 3, 0x1_1000) == None;
    assert Resolve(v, 0x2000, 2, 0x1_1000) == None;
    assert Resolve(v, 0x1000, 1, 0x1_1000) == None;
  }

  /** The end of a readable page, with an unmapped page after it. */
  lemma StopsAtPageEnd(u: UserView, takes: nat -> bool)
    requires takes(0) && u.flags(0x1_0000) == Some(PageFlags(true, false, true)) && u.flags(0x1_1000) == None
    requires DirectMapped(u, 0x1_0f00, 256)
    ensures WriteEnds(u, UserSlice(0x1_0f00, 512), takes, Err(InvalidUserMemory(Unmapped)), Flat(u, 0x1_0f00, 256))
  {
    PageBaseUnique(0x1_0f00, 0x1_0000);
    PageBaseUnique(0x1_1000, 0x1_1000);
    assert RangeFault(u, 0x1_0000, 0x1_1000).None?;
    assert FaultAt(u, UserSlice(0x1_0f00, 512), 0).None? && FaultAt(u, UserSlice(0x1_0f00, 512), 256) == Some(Unmapped);
  }

  /** A write across the end of that page delivers its last 256 bytes before it fails, whatever the sink would take. */
  lemma PartialWrite(takes: nat -> bool)
    requires takes(0)
    ensures var u := ViewOf(OnePage());
            && ValidateSlice(UserSlice(0x1_0f00, 512)).Ok?
            && WriteEnds(u, UserSlice(0x1_0f00, 512), takes, Err(InvalidUserMemory(Unmapped)), Flat(u, 0x1_0f00, 256))
  {
    var u := ViewOf(OnePage());
    OnePageFlags();
    forall a: nat | u.translate(a).Some? ensures u.offset + u.translate(a).value < U64 {
      NoOverflow(OnePage(), a);
    }
    StopsAtPageEnd(u, takes);
  }

  /** The system call over real page tables. */
  method SysWrite(tables: PageTables, slice: UserSlice, arg2: nat, sink: Sink) returns (r: Result<nat, SyscallError>)
    requires IsWord(slice)
    modifies sink
    ensures old(sink.written) <= sink.written
    ensures arg2 != 0 ==> r == Err(InvalidArguments) && sink.written == old(sink.written)
    ensures arg2 == 0 && ValidateSlice(slice).Err? ==>
      r == Err(InvalidUserRange(ValidateSlice(slice).error)) && sink.written == old(sink.written)
    ensures arg2 == 0 && ValidateSlice(slice).Ok? ==>
      var takes := Takes(sink.refuses, old(sink.calls));
      && WriteEnds(ViewOf(tables), slice, takes, r, sink.written[|old(sink.written)|..])
      && (r.Ok? <==> Passed(ViewOf(tables), slice, takes, slice.len))
      && Delivers(ViewOf(tables), slice.ptr, sink.written[|old(sink.written)|..])
    ensures Encoded(r) < U64 && FromReturnValue(Encoded(r)) == if r.Ok? then None else Some(AbiOf(r.error))
  {
    if arg2 != 0 {
      ErrorRoundTrip(AbiInvalidArguments, U64 - 3);
      return Err(InvalidArguments);
    }
    ViewIsCoherent(tables);
    ghost var takes := Takes(sink.refuses, sink.calls);
    r := WriteSlice(ViewOf(tables), slice, sink);
    if ValidateSlice(slice).Ok? {
      WriteSucceedsIff(ViewOf(tables), slice, takes, r, sink.written[|old(sink.written)|..]);
      OutcomeDecodes(ViewOf(tables), slice, takes, r, sink.written[|old(sink.written)|..]);
      DeliversUserBytes(ViewOf(tables), slice, takes, r, sink.written[|old(sink.written)|..]);
    } else {
      ErrorRoundTrip(AbiInvalidUserRange, U64 - 4);
    }
  }
}
