/** User address-space layout and the values that describe a process image. */
module Layout {
  import opened Prelude

  /** A byte. */
  type Byte = b: nat | b < 256

  function Zeros(n: nat): (z: seq<Byte>)
    ensures |z| == n
  {
    seq(n, _ => 0)
  }

  const USER_SPACE_START: nat := 0x1_0000
  const KERNEL_SPACE_START: nat := 0xffff_8000_0000_0000
  const USER_IMAGE_BASE: nat := USER_SPACE_START + 0x10_0000

  /** The stack the address-space policy reserves (kernel/src/memory/address_space.rs:10). */
  const POLICY_STACK_TOP: nat := KERNEL_SPACE_START - 0x10_0000
  const POLICY_STACK_START: nat := POLICY_STACK_TOP - 16 * PAGE
  const POLICY_GUARD_START: nat := POLICY_STACK_START - PAGE

  /** The stack that is really mapped (kernel/src/memory/user_stack.rs:10). */
  const STACK_PAGES: nat := 16
  const STACK_TOP: nat := KERNEL_SPACE_START - 0x1000
  const STACK_START: nat := STACK_TOP - STACK_PAGES * PAGE
  const STACK_GUARD_START: nat := STACK_START - PAGE

  /** Half-open range of virtual addresses. */
  datatype VirtRange = VirtRange(start: nat, end: nat) {
    predicate Contains(address: nat) {
      start <= address < end
    }

    predicate IsUser() {
      USER_SPACE_START <= start && end <= KERNEL_SPACE_START
    }
  }

  predicate Overlap(a: VirtRange, b: VirtRange) {
    a.start < b.end && b.start < a.end
  }

  /** Two ranges overlap, neither of them empty, exactly when they have an address in common. */
  lemma OverlapIff(a: VirtRange, b: VirtRange)
    requires a.start < a.end && b.start < b.end
    ensures Overlap(a, b) <==> exists address :: a.Contains(address) && b.Contains(address)
  {
    if Overlap(a, b) {
      var address := if a.start <= b.start then b.start else a.start;
      assert a.Contains(address) && b.Contains(address);
    }
  }

  /** The layout in numbers: both stacks have 16 pages above a guard page, apart from each other and in user space. */
  lemma LayoutNumbers()
    ensures PAGE == 0x1000 && USER_SPACE_START == 0x1_0000 && KERNEL_SPACE_START == 0xffff_8000_0000_0000
    ensures USER_IMAGE_BASE == 0x11_0000
    ensures POLICY_GUARD_START == 0xffff_7fff_ffee_f000 && POLICY_STACK_START == 0xffff_7fff_ffef_0000
    ensures POLICY_STACK_TOP == 0xffff_7fff_fff0_0000
    ensures STACK_GUARD_START == 0xffff_7fff_fffe_e000 && STACK_START == 0xffff_7fff_fffe_f000 && STACK_TOP == 0xffff_7fff_ffff_f000
    ensures !Overlap(VirtRange(POLICY_GUARD_START, POLICY_STACK_TOP), VirtRange(STACK_GUARD_START, STACK_TOP))
    ensures VirtRange(POLICY_GUARD_START, STACK_TOP).IsUser()
  {
  }

  function PageBase(address: nat): (base: nat)
    ensures base % PAGE == 0 && base <= address < base + PAGE
  {
    address - address % PAGE
  }

  /** Two addresses in one page have one base. */
  lemma PageBaseUnique(address: nat, base: nat)
    requires base % PAGE == 0 && base <= address < base + PAGE
    ensures PageBase(address) == base
  {
  }

  datatype LoadSegment = LoadSegment(range: VirtRange, flags: nat, fileOffset: nat, fileSize: nat, memorySize: nat) {
    predicate Executable() {
      flags % 2 == 1
    }

    predicate Writable() {
      flags / 2 % 2 == 1
    }
  }

  datatype ElfImage = ElfImage(bytes: seq<Byte>, entry: nat, segments: seq<LoadSegment>)

  datatype SegmentMapping = SegmentMapping(range: VirtRange, flags: nat)

  datatype LoadPlan = LoadPlan(entry: nat, segments: seq<SegmentMapping>)

  datatype StackPlan = StackPlan(pages: seq<nat>, initialRsp: nat)

  datatype ProcessImage = ProcessImage(addressSpace: nat, plan: LoadPlan, stack: StackPlan)
}
