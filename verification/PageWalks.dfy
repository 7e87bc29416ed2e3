/** Four-level page tables read through the direct map (kernel/src/arch/x86_64/user_memory.rs). */
module PageWalks {
  import opened Prelude
  import opened Layout

  const MAX_PHYSICAL: nat := 0x10_0000_0000_0000

  /** One table entry; its address field is page aligned and below 2^52. */
  datatype RawEntry = Entry(present: bool, user: bool, writable: bool, nx: bool, huge: bool, addr: nat)

  type Entry = e: RawEntry | e.addr % PAGE == 0 && e.addr < MAX_PHYSICAL
    witness RawEntry.Entry(false, false, false, false, false, 0)

  /** The active address space: root table, direct map, tables by physical address and index, and memory. */
  datatype PageTables = PageTables(root: nat, offset: nat, table: (nat, nat) -> Entry, memory: nat -> Byte)

  /** The bytes one entry of a level covers: 512 GiB, 1 GiB, 2 MiB, 4 KiB. */
  function Size(level: nat): (size: nat)
    requires level < 4
    ensures 0 < size && size % PAGE == 0
  {
    if level == 0 then 0x80_0000_0000 else if level == 1 then 0x4000_0000 else if level == 2 then 0x20_0000 else PAGE
  }

  function Index(address: nat, level: nat): (index: nat)
    requires level < 4
    ensures index < 512
  {
    address / Size(level) % 512
  }

  predicate IsLeaf(e: Entry, level: nat) {
    level == 3 || ((level == 1 || level == 2) && e.huge)
  }

  /** What an address resolves to: permissions gathered along the path, and the frame of the leaf. */
  datatype Leaf = Leaf(user: bool, writable: bool, nx: bool, addr: nat, level: nat)

  /** The meaning of a page table: the leaf below `table`, every level of the path adding its restrictions. */
  function Resolve(v: PageTables, table: nat, level: nat, address: nat): (r: Option<Leaf>)
    requires level < 4
    ensures r.Some? ==> 1 <= r.value.level < 4 && r.value.addr < MAX_PHYSICAL
    decreases 4 - level
  {
    var e := v.table(table, Index(address, level));
    if !e.present then None
    else if IsLeaf(e, level) then Some(Leaf(e.user, e.writable, e.nx, e.addr, level))
    else if U64 <= v.offset + e.addr then None
    else
      match Resolve(v, e.addr, level + 1, address)
      case None => None
      case Some(l) => Some(l.(user := e.user && l.user, writable := e.writable && l.writable, nx := e.nx || l.nx))
  }

  predicate InUserSpace(address: nat) {
    USER_SPACE_START <= address < KERNEL_SPACE_START
  }

  function LeafOf(v: PageTables, address: nat): Option<Leaf> {
    if InUserSpace(address) then Resolve(v, v.root, 0, address) else None
  }

  datatype PageFlags = PageFlags(user: bool, writable: bool, nx: bool)

  /** The permissions a walk has gathered so far, applied to what lies below. */
  function Restricted(user: bool, writable: bool, nx: bool, below: Option<Leaf>): Option<PageFlags> {
    match below
    case None => None
    case Some(l) => Some(PageFlags(user && l.user, writable && l.writable, nx || l.nx))
  }

  function FlagsAt(v: PageTables, address: nat): Option<PageFlags> {
    Restricted(true, true, false, LeafOf(v, address))
  }

  function PhysicalAt(v: PageTables, address: nat): Option<nat> {
    match LeafOf(v, address)
    case None => None
    case Some(l) => Some(l.addr + address % Size(l.level))
  }

  /** What a walk that stands at `table` will find of the leaf's address. */
  function Below(l: Option<Leaf>, address: nat): Option<nat>
    requires l.Some? ==> l.value.level < 4
  {
    if l.None? then None else Some(l.value.addr + address % Size(l.value.level))
  }

  /** One level of a walk: what is found at `table` is what is found below, restricted by the entry on the way. */
  lemma WalkStep(v: PageTables, table: nat, level: nat, address: nat, user: bool, writable: bool, nx: bool)
    requires level < 4
    ensures var e := v.table(table, Index(address, level)); var here := Resolve(v, table, level, address);
            && (!e.present ==> here == None)
            && (e.present && IsLeaf(e, level) ==> here == Some(Leaf(e.user, e.writable, e.nx, e.addr, level)))
            && (e.present && !IsLeaf(e, level) && U64 <= v.offset + e.addr ==> here == None)
            && (e.present && !IsLeaf(e, level) && v.offset + e.addr < U64 ==>
                 var below := Resolve(v, e.addr, level + 1, address);
                 && Restricted(user, writable, nx, here) == Restricted(user && e.user, writable && e.writable, nx || e.nx, below)
                 && Below(here, address) == Below(below, address))
  {
  }

  /** The permission walk: one loop with three accumulators. */
  method Flags(v: PageTables, address: nat) returns (r: Option<PageFlags>)
    ensures r == FlagsAt(v, address)
    ensures r.Some? <==> PhysicalAt(v, address).Some?
  {
    if !InUserSpace(address) {
      return None;
    }
    var table, level := v.root, 0;
    var user, writable, nx := true, true, false;
    while level < 4
      invariant 0 <= level <= 4
      invariant level < 4 ==> FlagsAt(v, address) == Restricted(user, writable, nx, Resolve(v, table, level, address))
      invariant level == 4 ==> FlagsAt(v, address) == None
    {
      var e := v.table(table, Index(address, level));
      WalkStep(v, table, level, address, user, writable, nx);
      if !e.present {
        return None;
      }
      user, writable, nx := user && e.user, writable && e.writable, nx || e.nx;
      if level == 3 || ((level == 1 || level == 2) && e.huge) {
        return Some(PageFlags(user, writable, nx));
      }
      if U64 <= v.offset + e.addr {
        return None;
      }
      table, level := e.addr, level + 1;
    }
    return None;
  }

  /** The translation walk. */
  method Translate(v: PageTables, address: nat) returns (r: Option<nat>)
    ensures r == PhysicalAt(v, address)
    ensures r.Some? <==> FlagsAt(v, address).Some?
  {
    if !InUserSpace(address) {
      return None;
    }
    var table, level := v.root, 0;
    while level < 4
      invariant 0 <= level <= 4
      invariant level < 4 ==> PhysicalAt(v, address) == Below(Resolve(v, table, level, address), address)
      invariant level == 4 ==> PhysicalAt(v, address) == None
    {
      var e := v.table(table, Index(address, level));
      WalkStep(v, table, level, address, true, true, false);
      if !e.present {
        return None;
      }
      if level == 3 {
        return Some(e.addr + address % PAGE);
      }
      if (level == 1 || level == 2) && e.huge {
        var size := if level == 1 then 0x4000_0000 else 0x20_0000;
        return Some(e.addr + address % size);
      }
      if U64 <= v.offset + e.addr {
        return None;
      }
      table, level := e.addr, level + 1;
    }
    return None;
  }

  /** No sum in a walk wraps: a leaf's frame and the offset into it stay far below 2^64. */
  lemma NoOverflow(v: PageTables, address: nat)
    requires PhysicalAt(v, address).Some?
    ensures PhysicalAt(v, address).value < 2 * MAX_PHYSICAL < U64
  {
  }

  lemma OffsetAdds(base: nat, x: nat, size: nat)
    requires base % PAGE == 0 && x < PAGE && 0 < size && size % PAGE == 0
    ensures (base + x) % size == base % size + x
  {
    var q, r := base / size, base % size;
    RemainderAligned(base, size, q, r);
    RoomInPage(r, x, size);
    QuotientUnique(base + x, size, q, r + x);
  }

  lemma RemainderAligned(base: nat, size: nat, q: nat, r: nat)
    requires base % PAGE == 0 && size % PAGE == 0 && base == size * q + r
    ensures r % PAGE == 0
  {
    Multiple(size, q);
    var m := size * q;
    assert base == m + r;
  }

  /** An aligned offset below an aligned size leaves a whole page. */
  lemma RoomInPage(r: nat, x: nat, size: nat)
    requires r % PAGE == 0 && size % PAGE == 0 && r < size && x < PAGE
    ensures r + x < size
  {
  }

  lemma Multiple(size: nat, q: nat)
    requires size % PAGE == 0
    ensures (size * q) % PAGE == 0
  {
    var k := size / PAGE;
    assert size * q == PAGE * (k * q);
  }

  lemma QuotientUnique(a: nat, size: nat, q: nat, r: nat)
    requires 0 < size && r < size && a == size * q + r
    ensures a % size == r
  {
    var d := a / size - q;
    assert size * d == r - a % size;
  }

  /** Addresses of one page use the same index at every level. */
  lemma SameIndex(base: nat, x: nat, level: nat)
    requires base % PAGE == 0 && x < PAGE && level < 4
    ensures Index(base + x, level) == Index(base, level)
  {
    OffsetAdds(base, x, Size(level));
    SameQuotient(base, x, Size(level));
  }

  lemma SameQuotient(base: nat, x: nat, size: nat)
    requires 0 < size && (base + x) % size == base % size + x
    ensures (base + x) / size == base / size
  {
    var d := (base + x) / size - base / size;
    assert size * d == 0;
  }

  lemma {:induction false} SamePath(v: PageTables, table: nat, level: nat, base: nat, x: nat)
    requires base % PAGE == 0 && x < PAGE && level < 4
    ensures Resolve(v, table, level, base + x) == Resolve(v, table, level, base)
    decreases 4 - level
  {
    SameIndex(base, x, level);
    var e := v.table(table, Index(base, level));
    if e.present && !IsLeaf(e, level) && level < 3 && v.offset + e.addr < U64 {
      SamePath(v, e.addr, level + 1, base, x);
    }
  }

  /** Inside a page, translation is the frame of the page plus the offset: one walk serves a whole chunk. */
  lemma OffsetPreserved(v: PageTables, base: nat, x: nat)
    requires base % PAGE == 0 && x < PAGE && InUserSpace(base)
    ensures LeafOf(v, base + x) == LeafOf(v, base)
    ensures PhysicalAt(v, base + x).Some? <==> PhysicalAt(v, base).Some?
    ensures PhysicalAt(v, base).Some? ==> PhysicalAt(v, base + x).value == PhysicalAt(v, base).value + x
  {
    SamePath(v, v.root, 0, base, x);
    var l := LeafOf(v, base);
    if l.Some? {
      OffsetAdds(base, x, Size(l.value.level));
    }
  }

  // ----- what the tables mean -----

  lemma LastDigit(address: nat)
    ensures address % 0x20_0000 == Index(address, 3) * PAGE + address % PAGE
  {
  }

  lemma ThirdDigit(address: nat)
    ensures address % 0x4000_0000 == Index(address, 2) * 0x20_0000 + address % 0x20_0000
  {
  }

  lemma SecondDigit(address: nat)
    ensures address % 0x80_0000_0000 == Index(address, 1) * 0x4000_0000 + address % 0x4000_0000
  {
  }

  lemma FirstDigit(address: nat)
    ensures address % 0x1_0000_0000_0000 == Index(address, 0) * 0x80_0000_0000 + address % 0x80_0000_0000
  {
  }

  /** The address of the page that four indices name. */
  function PageAt(i0: nat, i1: nat, i2: nat, i3: nat): nat {
    i0 * 0x80_0000_0000 + i1 * 0x4000_0000 + i2 * 0x20_0000 + i3 * PAGE
  }

  /** An entry of each level covers 512 of the next, and the last a page: an address is its four indices and an offset. */
  lemma AddressSplits(address: nat)
    ensures Size(3) == PAGE && forall l: nat | l < 3 :: Size(l) == 512 * Size(l + 1)
    ensures address % 0x1_0000_0000_0000 ==
      PageAt(Index(address, 0), Index(address, 1), Index(address, 2), Index(address, 3)) + address % PAGE
  {
    FirstDigit(address);
    SecondDigit(address);
    ThirdDigit(address);
    LastDigit(address);
  }

  lemma SmallAddress(address: nat)
    requires address < 0x1_0000_0000_0000
    ensures PageBase(address) == PageAt(Index(address, 0), Index(address, 1), Index(address, 2), Index(address, 3))
  {
    AddressSplits(address);
    assert address % 0x1_0000_0000_0000 == address;
  }

  /** Below 2^48, two addresses have the same four indices exactly when they lie in one page. */
  lemma SameIndicesSamePage(a: nat, b: nat)
    requires a < 0x1_0000_0000_0000 && b < 0x1_0000_0000_0000
    ensures (forall l: nat | l < 4 :: Index(a, l) == Index(b, l)) <==> PageBase(a) == PageBase(b)
  {
    SmallAddress(a);
    SmallAddress(b);
    if PageBase(a) == PageBase(b) {
      forall l: nat | l < 4 ensures Index(a, l) == Index(b, l) {
        SameIndex(PageBase(a), a % PAGE, l);
        SameIndex(PageBase(b), b % PAGE, l);
      }
    }
  }

  /**
   * The entries on a way down from `table`, outermost first: all present, each but the last naming the table of the
   * next, the last one of the fourth level or a huge page of the second or third.
   */
  ghost predicate IsPath(v: PageTables, table: nat, level: nat, address: nat, es: seq<Entry>)
    requires level < 4
  {
    && 1 <= |es| <= 4 - level
    && es[0] == v.table(table, Index(address, level))
    && (forall i | 0 <= i < |es| :: es[i].present)
    && (forall i | 0 <= i < |es| - 1 ::
         && v.offset + es[i].addr < U64 && !(es[i].huge && 1 <= level + i)
         && es[i + 1] == v.table(es[i].addr, Index(address, level + i + 1)))
    && (|es| == 4 - level || (es[|es| - 1].huge && 2 <= level + |es|))
  }

  /** The leaf at the end of a path. */
  ghost function LeafAlong(es: seq<Entry>, level: nat): Leaf
    requires es != []
  {
    Leaf(forall i | 0 <= i < |es| :: es[i].user, forall i | 0 <= i < |es| :: es[i].writable, exists i | 0 <= i < |es| :: es[i].nx,
         es[|es| - 1].addr, level + |es| - 1)
  }

  lemma PathStep(e: Entry, es: seq<Entry>, level: nat)
    requires es != []
    ensures var l := LeafAlong(es, level + 1);
            LeafAlong([e] + es, level) == l.(user := e.user && l.user, writable := e.writable && l.writable, nx := e.nx || l.nx)
  {
    var all := [e] + es;
    assert all[0] == e && forall i | 0 <= i < |es| :: all[i + 1] == es[i];
    assert forall i | 0 < i < |all| :: all[i] == es[i - 1];
  }

  lemma {:induction false} PathResolves(v: PageTables, table: nat, level: nat, address: nat, es: seq<Entry>)
    requires level < 4 && IsPath(v, table, level, address, es)
    ensures Resolve(v, table, level, address) == Some(LeafAlong(es, level))
    decreases |es|
  {
    if |es| == 1 {
      PathEnds(v, table, level, address, es);
    } else {
      PathBelow(v, table, level, address, es);
      PathResolves(v, es[0].addr, level + 1, address, es[1..]);
      assert es == [es[0]] + es[1..];
      PathStep(es[0], es[1..], level);
    }
  }

  lemma PathEnds(v: PageTables, table: nat, level: nat, address: nat, es: seq<Entry>)
    requires level < 4 && IsPath(v, table, level, address, es) && |es| == 1
    ensures Resolve(v, table, level, address) == Some(LeafAlong(es, level))
  {
    var e := es[0];
    assert IsLeaf(e, level) && LeafAlong(es, level) == Leaf(e.user, e.writable, e.nx, e.addr, level);
  }

  lemma PathBelow(v: PageTables, table: nat, level: nat, address: nat, es: seq<Entry>)
    requires level < 4 && IsPath(v, table, level, address, es) && |es| > 1
    ensures level < 3 && IsPath(v, es[0].addr, level + 1, address, es[1..])
    ensures Resolve(v, table, level, address) ==
      match Resolve(v, es[0].addr, level + 1, address)
      case None => None
      case Some(l) => Some(l.(user := es[0].user && l.user, writable := es[0].writable && l.writable, nx := es[0].nx || l.nx))
  {
    var e, rest := es[0], es[1..];
    assert !IsLeaf(e, level) && v.offset + e.addr < U64 && es[1] == v.table(e.addr, Index(address, level + 1));
    assert forall i | 0 <= i < |rest| :: rest[i] == es[i + 1];
  }

  lemma {:induction false} ResolvedPath(v: PageTables, table: nat, level: nat, address: nat) returns (es: seq<Entry>)
    requires level < 4 && Resolve(v, table, level, address).Some?
    ensures IsPath(v, table, level, address, es)
    decreases 4 - level
  {
    var e := v.table(table, Index(address, level));
    es := [e];
    if !IsLeaf(e, level) {
      var rest := ResolvedPath(v, e.addr, level + 1, address);
      es := [e] + rest;
      assert forall i | 0 < i < |es| :: es[i] == rest[i - 1];
    }
  }

  /** User code may do what every entry of the path lets it, and execute if none forbids it. */
  ghost predicate Allows(es: seq<Entry>, flags: PageFlags) {
    && (flags.user <==> forall i | 0 <= i < |es| :: es[i].user)
    && (flags.writable <==> forall i | 0 <= i < |es| :: es[i].writable)
    && (flags.nx <==> exists i | 0 <= i < |es| :: es[i].nx)
  }

  /** An address has permissions exactly when it is a user address with a path to a leaf, and they are what the path allows. */
  lemma FlagsMeaning(v: PageTables, address: nat, flags: PageFlags)
    ensures FlagsAt(v, address) == Some(flags) <==>
      && USER_SPACE_START <= address < KERNEL_SPACE_START
      && exists es: seq<Entry> :: IsPath(v, v.root, 0, address, es) && Allows(es, flags)
  {
    if FlagsAt(v, address).Some? {
      var es := ResolvedPath(v, v.root, 0, address);
      PathResolves(v, v.root, 0, address, es);
    }
    forall es | IsPath(v, v.root, 0, address, es) ensures Resolve(v, v.root, 0, address) == Some(LeafAlong(es, 0)) {
      PathResolves(v, v.root, 0, address, es);
    }
  }

  /** An address translates exactly when it has permissions: to the frame at the end of its path, plus its offset in the page. */
  lemma TranslationMeaning(v: PageTables, address: nat, physical: nat)
    ensures PhysicalAt(v, address) == Some(physical) <==>
      && USER_SPACE_START <= address < KERNEL_SPACE_START
      && exists es: seq<Entry> :: IsPath(v, v.root, 0, address, es) && physical == es[|es| - 1].addr + address % Size(|es| - 1)
  {
    if PhysicalAt(v, address).Some? {
      var es := ResolvedPath(v, v.root, 0, address);
      PathResolves(v, v.root, 0, address, es);
    }
    forall es | IsPath(v, v.root, 0, address, es) ensures Resolve(v, v.root, 0, address) == Some(LeafAlong(es, 0)) {
      PathResolves(v, v.root, 0, address, es);
    }
  }

  /** What a reader of user memory sees of an address space. */
  datatype UserView =
    UserView(translate: nat -> Option<nat>, flags: nat -> Option<PageFlags>, offset: nat, memory: nat -> Byte)

  /** Translation of an address is that of its page, plus the offset into the page. */
  predicate PageUniform(u: UserView, address: nat) {
    var base := u.translate(PageBase(address));
    u.translate(address) == if base.None? then None else Some(base.value + address % PAGE)
  }

  /** What the readers rely on: permissions and translations exist together, for user pages, which translate as wholes. */
  ghost predicate Coherent(u: UserView) {
    && (forall a {:trigger u.translate(a)} {:trigger u.flags(a)} ::
         (u.translate(a).Some? <==> u.flags(a).Some?) && (u.translate(a).Some? ==> InUserSpace(a)))
    && (forall a {:trigger PageUniform(u, a)} | InUserSpace(a) :: PageUniform(u, a))
  }

  function ViewOf(v: PageTables): UserView {
    UserView((a: nat) => PhysicalAt(v, a), (a: nat) => FlagsAt(v, a), v.offset, v.memory)
  }

  lemma ViewIsCoherent(v: PageTables)
    ensures Coherent(ViewOf(v))
  {
    forall a: nat | InUserSpace(a) ensures PageUniform(ViewOf(v), a) {
      OffsetPreserved(v, PageBase(a), a % PAGE);
    }
  }
}
