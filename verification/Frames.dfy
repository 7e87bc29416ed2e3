/** The early physical frame allocator (kernel/src/memory/frame.rs): a cursor over the boot memory map. */
module Frames {
  import opened Prelude

  datatype Region = Region(start: nat, end: nat, usable: bool)

  /** What is left of the map, and the cursor in the region being used. */
  datatype Cursor = Cursor(rest: seq<Region>, next: nat, end: nat)

  function AlignUp(address: nat): (r: Option<nat>)
    ensures r.Some? ==> r.value % PAGE == 0 && address <= r.value < address + PAGE
  {
    if address + PAGE - 1 < U64 then Some((address + PAGE - 1) / PAGE * PAGE) else None
  }

  /** The region has an aligned address to hand out. */
  predicate Offers(r: Region) {
    r.usable && r.start <= r.end && AlignUp(r.start).Some? && AlignUp(r.start).value < r.end
  }

  function FirstOffer(regions: seq<Region>): (k: nat)
    ensures k <= |regions|
    ensures k < |regions| ==> Offers(regions[k])
    ensures forall i | 0 <= i < k :: !Offers(regions[i])
  {
    if regions == [] || Offers(regions[0]) then 0 else 1 + FirstOffer(regions[1..])
  }

  predicate Exhausted(a: Cursor) {
    FirstOffer(a.rest) == |a.rest|
  }

  /** Moves on to the next region that offers anything. */
  function Advance(a: Cursor): (b: Cursor)
    ensures !Exhausted(a) ==> |b.rest| < |a.rest| && b.next < b.end
  {
    var k := FirstOffer(a.rest);
    if k == |a.rest| then Cursor([], 0, 0) else Cursor(a.rest[k + 1..], AlignUp(a.rest[k].start).value, a.rest[k].end)
  }

  function TakeOne(a: Cursor): (Cursor, Option<nat>) {
    if a.next % PAGE != 0 || U64 <= a.next + PAGE then (a, None) else (a.(next := a.next + PAGE), Some(a.next))
  }

  function OneFrame(a: Cursor): (Cursor, Option<nat>) {
    if a.next < a.end then TakeOne(a)
    else if Exhausted(a) then (Advance(a), None)
    else TakeOne(Advance(a))
  }

  /** The first region, from the cursor on, with that much room left; a request that would overflow changes nothing. */
  function RunOf(a: Cursor, bytes: nat): (Cursor, Option<nat>)
    decreases |a.rest|
  {
    if a.next < a.end && U64 <= a.next + bytes then (a, None)
    else if a.next < a.end && a.next + bytes <= a.end then (a.(next := a.next + bytes), Some(a.next))
    else if Exhausted(a) then (Advance(a), None)
    else RunOf(Advance(a), bytes)
  }

  function Contiguous(a: Cursor, count: nat): (Cursor, Option<nat>) {
    if count == 0 || U64 <= count * PAGE then (a, None) else RunOf(a, count * PAGE)
  }

  /** A run that the region in use does not settle is served from the next region, if there is one. */
  lemma RunMovesOn(a: Cursor, bytes: nat)
    requires a.next < a.end ==> a.next + bytes < U64 && a.end < a.next + bytes
    ensures RunOf(a, bytes) == if Exhausted(a) then (Cursor([], 0, 0), None) else RunOf(Advance(a), bytes)
  {
  }

  class EarlyFrameAllocator {
    var regions: seq<Region>
    var next: nat
    var end: nat

    function View(): Cursor
      reads this
    {
      Cursor(regions, next, end)
    }

    constructor (all: seq<Region>)
      ensures View() == Cursor(all, 0, 0)
    {
      regions, next, end := all, 0, 0;
    }

    /** A checkpoint is the cursor itself; going back to it replays every later answer. */
    method Rollback(checkpoint: Cursor)
      modifies this
      ensures View() == checkpoint
    {
      regions, next, end := checkpoint.rest, checkpoint.next, checkpoint.end;
    }

    method SelectNextUsableRegion() returns (found: bool)
      modifies this
      ensures found == !Exhausted(old(View()))
      ensures View() == if found then Advance(old(View())) else Cursor([], old(next), old(end))
    {
      ghost var all := regions;
      while regions != []
        invariant next == old(next) && end == old(end)
        invariant |regions| <= |all| && regions == all[|all| - |regions|..]
        invariant FirstOffer(all) == |all| - |regions| + FirstOffer(regions)
        decreases |regions|
      {
        var region := regions[0];
        regions := regions[1..];
        if region.usable && region.start <= region.end && AlignUp(region.start).Some? {
          var start := AlignUp(region.start).value;
          if start < region.end {
            next, end := start, region.end;
            return true;
          }
        }
      }
      return false;
    }

    /** Leaves the region in use for the next one. */
    method MoveOn() returns (found: bool)
      modifies this
      ensures found == !Exhausted(old(View())) && View() == Advance(old(View()))
    {
      next, end := 0, 0;
      found := SelectNextUsableRegion();
    }

    method AllocateContiguous(count: nat) returns (start: Option<nat>)
      modifies this
      ensures (View(), start) == Contiguous(old(View()), count)
    {
      if count == 0 || U64 <= count * PAGE {
        return None;
      }
      var bytes := count * PAGE;
      while true
        invariant RunOf(View(), bytes) == RunOf(old(View()), bytes)
        decreases |regions|
      {
        if next < end {
          if U64 <= next + bytes {
            return None;
          }
          if next + bytes <= end {
            start := Some(next);
            next := next + bytes;
            return;
          }
        }
        RunMovesOn(View(), bytes);
        var found := MoveOn();
        if !found {
          return None;
        }
      }
    }

    method AllocateFrame() returns (frame: Option<nat>)
      modifies this
      ensures (View(), frame) == OneFrame(old(View()))
    {
      while true
        invariant OneFrame(View()) == OneFrame(old(View()))
        decreases |regions|
      {
        if next < end {
          if next % PAGE != 0 || U64 <= next + PAGE {
            return None;
          }
          frame := Some(next);
          next := next + PAGE;
          return;
        }
        var found := MoveOn();
        if !found {
          return None;
        }
      }
    }
  }

  // ----- what is handed out -----

  datatype Request = Single | Run(count: nat)

  /** The frames of a run, by their start addresses. */
  function FramesFrom(start: nat, count: nat): (frames: seq<nat>)
    ensures |frames| == count
  {
    seq(count, i requires 0 <= i => start + i * PAGE)
  }

  function Answer(a: Cursor, r: Request): (Cursor, seq<nat>) {
    match r
    case Single =>
      var (b, f) := OneFrame(a);
      (b, if f.Some? then [f.value] else [])
    case Run(count) =>
      var (b, start) := Contiguous(a, count);
      (b, if start.Some? then FramesFrom(start.value, count) else [])
  }

  /** Every frame handed out for a sequence of requests, in order. */
  function Serve(a: Cursor, rs: seq<Request>): (Cursor, seq<nat>)
    decreases |rs|
  {
    if rs == [] then (a, []) else
      var (b, frames) := Serve(a, rs[..|rs| - 1]);
      var (c, more) := Answer(b, rs[|rs| - 1]);
      (c, frames + more)
  }

  predicate Holds(r: Region, address: nat) {
    r.usable && r.start <= address < r.end
  }

  /** Usable regions do not overlap. */
  predicate Disjoint(all: seq<Region>) {
    forall i, j | 0 <= i < j < |all| && all[i].usable && all[j].usable :: all[i].end <= all[j].start || all[j].end <= all[i].start
  }

  /** The number of regions the cursor has reached. */
  function Reached(all: seq<Region>, a: Cursor): int {
    |all| - |a.rest|
  }

  /** The cursor stands in this region. */
  predicate InUse(r: Region, a: Cursor) {
    r.usable && r.start <= a.next && r.end == a.end
  }

  predicate IsTail(all: seq<Region>, n: nat, rest: seq<Region>) {
    n + |rest| == |all| && forall i | 0 <= i < |rest| :: rest[i] == all[n + i]
  }

  predicate CursorOk(all: seq<Region>, a: Cursor) {
    && 0 <= Reached(all, a) && IsTail(all, Reached(all, a), a.rest) && a.next % PAGE == 0 && a.next < U64
    && (a.end > 0 ==> 0 < Reached(all, a) && InUse(all[Reached(all, a) - 1], a))
  }

  /** A frame of a region already reached, and before the cursor if that region is still in use. */
  predicate Placed(all: seq<Region>, a: Cursor, f: nat)
    requires 0 <= Reached(all, a) <= |all|
  {
    exists j | 0 <= j < Reached(all, a) :: Holds(all[j], f) && (j < Reached(all, a) - 1 || f < a.next || a.end == 0)
  }

  lemma AdvanceKeeps(all: seq<Region>, a: Cursor)
    requires CursorOk(all, a)
    ensures CursorOk(all, Advance(a))
    ensures forall f | Placed(all, a, f) :: Placed(all, Advance(a), f)
  {
    AdvanceOk(all, a);
    forall f: nat | Placed(all, a, f) ensures Placed(all, Advance(a), f) {
      var j :| 0 <= j < Reached(all, a) && Holds(all[j], f) && (j < Reached(all, a) - 1 || f < a.next || a.end == 0);
      StaysPlaced(all, a, Advance(a), j, f);
    }
  }

  lemma AdvanceOk(all: seq<Region>, a: Cursor)
    requires CursorOk(all, a)
    ensures CursorOk(all, Advance(a)) && (Reached(all, a) < Reached(all, Advance(a)) || Advance(a) == Cursor([], 0, 0))
    ensures Reached(all, a) <= Reached(all, Advance(a))
  {
    var k := FirstOffer(a.rest);
    if k < |a.rest| {
      assert a.rest[k] == all[Reached(all, a) + k];
      var tail := a.rest[k + 1..];
      assert forall i | 0 <= i < |tail| :: tail[i] == a.rest[k + 1 + i];
    }
  }

  lemma StaysPlaced(all: seq<Region>, a: Cursor, b: Cursor, j: nat, f: nat)
    requires 0 <= Reached(all, a) <= Reached(all, b) <= |all| && j < Reached(all, a) && Holds(all[j], f)
    requires Reached(all, a) < Reached(all, b) || b.end == 0
    ensures Placed(all, b, f)
  {
  }

  /** An address at or after the cursor has not been handed out. */
  lemma AheadIsNew(all: seq<Region>, a: Cursor, f: nat, g: nat)
    requires Disjoint(all) && CursorOk(all, a) && a.next < a.end && Placed(all, a, f)
    requires a.next <= g < a.end
    ensures f != g
  {
    var c := Reached(all, a) - 1;
    var j :| 0 <= j < Reached(all, a) && Holds(all[j], f) && (j < c || f < a.next);
    if j < c {
      assert all[j].end <= all[c].start || all[c].end <= all[j].start;
    }
  }

  /** From `a` to `b`, the frames `g` are new, aligned, distinct and accounted for. */
  ghost predicate Grants(all: seq<Region>, a: Cursor, b: Cursor, g: seq<nat>)
    requires CursorOk(all, a)
  {
    && CursorOk(all, b) && Distinct(g)
    && (forall f | Placed(all, a, f) :: Placed(all, b, f) && f !in g)
    && (forall f | f in g :: Placed(all, b, f) && f % PAGE == 0)
  }

  /** Taking room that the current region has. */
  lemma TakeGrants(all: seq<Region>, a: Cursor, count: nat)
    requires Disjoint(all) && CursorOk(all, a) && a.next < a.end && count > 0
    requires a.next + (count - 1) * PAGE < a.end && a.next + count * PAGE < U64
    ensures Grants(all, a, a.(next := a.next + count * PAGE), FramesFrom(a.next, count))
  {
    var b, g := a.(next := a.next + count * PAGE), FramesFrom(a.next, count);
    var c := Reached(all, a) - 1;
    forall i | 0 <= i < count ensures a.next <= g[i] < a.end && g[i] < b.next && g[i] % PAGE == 0 {
    }
    forall f | f in g ensures Placed(all, b, f) && f % PAGE == 0 {
      var i :| 0 <= i < count && g[i] == f;
      assert Holds(all[c], f);
    }
    forall f: nat | Placed(all, a, f) ensures Placed(all, b, f) && f !in g {
      var j :| 0 <= j < Reached(all, a) && Holds(all[j], f) && (j < c || f < a.next);
      assert Holds(all[j], f);
      forall i | 0 <= i < count ensures g[i] != f {
        AheadIsNew(all, a, f, g[i]);
      }
    }
  }

  lemma TakeOneGrants(all: seq<Region>, a: Cursor)
    requires Disjoint(all) && CursorOk(all, a) && a.next < a.end
    ensures var (b, f) := TakeOne(a); Grants(all, a, b, if f.Some? then [f.value] else [])
  {
    if a.next + PAGE < U64 {
      TakeGrants(all, a, 1);
      assert FramesFrom(a.next, 1) == [a.next];
    }
  }

  lemma GrantsFromLater(all: seq<Region>, a: Cursor, b: Cursor, g: seq<nat>)
    requires CursorOk(all, a) && Grants(all, Advance(a), b, g)
    requires CursorOk(all, Advance(a)) && forall f | Placed(all, a, f) :: Placed(all, Advance(a), f)
    ensures Grants(all, a, b, g)
  {
  }

  lemma SingleGrants(all: seq<Region>, a: Cursor)
    requires Disjoint(all) && CursorOk(all, a)
    ensures Grants(all, a, Answer(a, Single).0, Answer(a, Single).1)
  {
    if a.next < a.end {
      TakeOneGrants(all, a);
    } else {
      AdvanceKeeps(all, a);
      if !Exhausted(a) {
        TakeOneGrants(all, Advance(a));
        GrantsFromLater(all, a, Answer(a, Single).0, Answer(a, Single).1);
      }
    }
  }

  /** A run lies wholly inside one usable region. */
  ghost predicate InsideOne(all: seq<Region>, start: nat, bytes: nat) {
    exists j | 0 <= j < |all| :: all[j].usable && all[j].start <= start && start + bytes <= all[j].end
  }

  lemma {:induction false} RunGrants(all: seq<Region>, a: Cursor, count: nat, b: Cursor, start: Option<nat>)
    requires Disjoint(all) && CursorOk(all, a) && 0 < count && (b, start) == RunOf(a, count * PAGE)
    ensures Grants(all, a, b, if start.Some? then FramesFrom(start.value, count) else [])
    ensures start.Some? ==> InsideOne(all, start.value, count * PAGE)
    decreases |a.rest|
  {
    var bytes := count * PAGE;
    if a.next < a.end && (U64 <= a.next + bytes || a.next + bytes <= a.end) {
      if a.next + bytes < U64 {
        TakeGrants(all, a, count);
        TakenInside(all, a, bytes);
      }
    } else {
      AdvanceKeeps(all, a);
      if !Exhausted(a) {
        RunGrants(all, Advance(a), count, b, start);
        GrantsFromLater(all, a, b, if start.Some? then FramesFrom(start.value, count) else []);
      }
    }
  }

  lemma TakenInside(all: seq<Region>, a: Cursor, bytes: nat)
    requires CursorOk(all, a) && a.next < a.end && a.next + bytes <= a.end
    ensures InsideOne(all, a.next, bytes)
  {
    assert all[Reached(all, a) - 1].usable;
  }

  lemma AnswerGrants(all: seq<Region>, a: Cursor, r: Request)
    requires Disjoint(all) && CursorOk(all, a)
    ensures Grants(all, a, Answer(a, r).0, Answer(a, r).1)
  {
    match r
    case Single => SingleGrants(all, a);
    case Run(count) =>
      if count != 0 && count * PAGE < U64 {
        var (b, start) := RunOf(a, count * PAGE);
        RunGrants(all, a, count, b, start);
      }
  }

  /** Whatever the mix of requests, no two frames handed out share a byte. */
  lemma {:induction false} FramesAreDisjoint(all: seq<Region>, rs: seq<Request>)
    requires Disjoint(all)
    ensures var (a, frames) := Serve(Cursor(all, 0, 0), rs);
            && CursorOk(all, a) && Distinct(frames)
            && (forall f | f in frames :: Placed(all, a, f) && f % PAGE == 0)
            && (forall i, j | 0 <= i < |frames| && 0 <= j < |frames| && i != j ::
                 frames[i] + PAGE <= frames[j] || frames[j] + PAGE <= frames[i])
    decreases |rs|
  {
    var (a, frames) := Serve(Cursor(all, 0, 0), rs);
    if rs != [] {
      var n := |rs| - 1;
      FramesAreDisjoint(all, rs[..n]);
      var (b, before) := Serve(Cursor(all, 0, 0), rs[..n]);
      AnswerGrants(all, b, rs[n]);
      JoinDistinct(before, Answer(b, rs[n]).1);
    }
    AlignedApart(frames);
  }

  lemma JoinDistinct(a: seq<nat>, b: seq<nat>)
    requires Distinct(a) && Distinct(b) && forall f | f in a :: f !in b
    ensures Distinct(a + b)
  {
    forall i, j | 0 <= i < j < |a + b| ensures (a + b)[i] != (a + b)[j] {
      if i < |a| <= j {
        assert a[i] in a && b[j - |a|] in b;
      }
    }
  }

  lemma AlignedApart(frames: seq<nat>)
    requires Distinct(frames) && forall f | f in frames :: f % PAGE == 0
    ensures forall i, j | 0 <= i < |frames| && 0 <= j < |frames| && i != j ::
              frames[i] + PAGE <= frames[j] || frames[j] + PAGE <= frames[i]
  {
    forall i, j | 0 <= i < |frames| && 0 <= j < |frames| && i != j
      ensures frames[i] + PAGE <= frames[j] || frames[j] + PAGE <= frames[i]
    {
      assert frames[i] in frames && frames[j] in frames && frames[i] != frames[j];
    }
  }

  // ----- exactly which frames can be handed out -----

  /** The last aligned address below the end of a region. */
  function LastPage(r: Region): (f: nat)
    requires 0 < r.end
    ensures f % PAGE == 0 && f < r.end <= f + PAGE
  {
    (r.end - 1) / PAGE * PAGE
  }

  /** The region reaches the last page of the address space, where the cursor cannot move past it. */
  predicate Jams(r: Region) {
    Offers(r) && U64 <= LastPage(r) + PAGE
  }

  predicate CanGive(r: Region, f: nat) {
    Holds(r, f) && f % PAGE == 0 && f + PAGE < U64
  }

  /** A region offers something exactly when it is usable and an aligned 64-bit address lies in it. */
  lemma OffersIff(r: Region)
    ensures Offers(r) <==> exists f: nat :: Holds(r, f) && f % PAGE == 0 && f < U64
    ensures Offers(r) ==> var first := AlignUp(r.start).value;
      && Holds(r, first) && first % PAGE == 0 && first < U64
      && forall f: nat | Holds(r, f) && f % PAGE == 0 :: first <= f
  {
    if Offers(r) {
      assert Holds(r, AlignUp(r.start).value);
    }
    forall f: nat | Holds(r, f) && f % PAGE == 0 && f < U64 ensures Offers(r) {
      AlignedAbove(r.start, f);
    }
  }

  lemma AlignedAbove(start: nat, f: nat)
    requires start <= f < U64 && f % PAGE == 0
    ensures AlignUp(start).Some? && AlignUp(start).value <= f
  {
    assert U64 % PAGE == 0 && f <= U64 - PAGE;
  }

  // ----- first fit -----

  /** The first aligned address of a region that offers one. */
  function Base(r: Region): (base: nat)
    requires Offers(r)
    ensures Holds(r, base) && base % PAGE == 0
  {
    AlignUp(r.start).value
  }

  /** A single frame comes from the cursor while its region lasts. */
  lemma FrameFromCurrent(a: Cursor)
    requires a.next < a.end
    ensures a.next % PAGE == 0 && a.next + PAGE < U64 ==> OneFrame(a) == (a.(next := a.next + PAGE), Some(a.next))
    ensures a.next % PAGE != 0 || U64 <= a.next + PAGE ==> OneFrame(a) == (a, None)
  {
  }

  /** After that it is the first page of the first region that has one. */
  lemma FrameFromLater(a: Cursor, k: nat)
    requires a.end <= a.next && k <= |a.rest| && forall j | 0 <= j < k :: !Offers(a.rest[j])
    ensures k == |a.rest| ==> OneFrame(a) == (Cursor([], 0, 0), None)
    ensures k < |a.rest| && Offers(a.rest[k]) ==>
      var (b, f) := OneFrame(a); var base := Base(a.rest[k]);
      && b.rest == a.rest[k + 1..] && b.end == a.rest[k].end
      && (base + PAGE < U64 ==> b.next == base + PAGE && f == Some(base))
      && (U64 <= base + PAGE ==> b.next == base && f == None)
  {
    if k < |a.rest| && Offers(a.rest[k]) {
      FirstIs(a.rest, k);
    }
  }

  lemma FirstIs(regions: seq<Region>, k: nat)
    requires k < |regions| && Offers(regions[k]) && forall j | 0 <= j < k :: !Offers(regions[j])
    ensures FirstOffer(regions) == k
  {
  }

  /** A run of that many bytes is settled in this region: it has the room, or the sum overflows. */
  predicate Settles(r: Region, bytes: nat) {
    Offers(r) && (Base(r) + bytes <= r.end || U64 <= Base(r) + bytes)
  }

  /** A run goes to the region in use if that has the room left; no other cursor moves, and no frame is skipped. */
  lemma RunFromCurrent(a: Cursor, count: nat)
    requires 0 < count && count * PAGE < U64 && a.next < a.end
    ensures a.next + count * PAGE <= a.end && a.next + count * PAGE < U64 ==>
      Contiguous(a, count) == (a.(next := a.next + count * PAGE), Some(a.next))
    ensures U64 <= a.next + count * PAGE ==> Contiguous(a, count) == (a, None)
  {
  }

  /** What is said of a run that the region in use cannot settle, and that region `k` is the first to settle. */
  predicate SettledBy(rest: seq<Region>, bytes: nat, k: nat, out: (Cursor, Option<nat>))
    requires k <= |rest|
  {
    if k == |rest| then out == (Cursor([], 0, 0), None)
    else
      Settles(rest[k], bytes) ==>
      IsTail(rest, k + 1, out.0.rest) && out.0.end == rest[k].end
      && if Base(rest[k]) + bytes < U64 then out.0.next == Base(rest[k]) + bytes && out.1 == Some(Base(rest[k]))
         else out.0.next == Base(rest[k]) && out.1 == None
  }

  lemma SettledHere(a: Cursor, bytes: nat)
    requires a.next < a.end ==> a.end < a.next + bytes < U64
    ensures SettledBy(a.rest, bytes, FirstOffer(a.rest), RunOf(a, bytes))
  {
    RunMovesOn(a, bytes);
  }

  lemma SettledLater(rest: seq<Region>, n: nat, tail: seq<Region>, bytes: nat, k: nat, out: (Cursor, Option<nat>))
    requires n <= k <= |rest| && IsTail(rest, n, tail) && SettledBy(tail, bytes, k - n, out)
    ensures SettledBy(rest, bytes, k, out)
  {
    if k < |rest| {
      assert tail[k - n] == rest[k];
      if Settles(rest[k], bytes) {
        forall i | 0 <= i < |out.0.rest| ensures out.0.rest[i] == rest[k + 1 + i] {
          assert out.0.rest[i] == tail[k - n + 1 + i];
        }
      }
    }
  }

  /** A region that does not settle a run leaves the cursor in one that does not, and the later ones as they were. */
  lemma StillUnsettled(a: Cursor, bytes: nat, k: nat)
    requires FirstOffer(a.rest) < k <= |a.rest| && forall j | 0 <= j < k :: !Settles(a.rest[j], bytes)
    ensures var b, n := Advance(a), FirstOffer(a.rest) + 1;
            && IsTail(a.rest, n, b.rest) && b.next < b.end && b.end < b.next + bytes < U64
            && forall j | 0 <= j < k - n :: !Settles(b.rest[j], bytes)
  {
    var b, n := Advance(a), FirstOffer(a.rest) + 1;
    assert !Settles(a.rest[n - 1], bytes);
    forall j | 0 <= j < k - n ensures !Settles(b.rest[j], bytes) {
      assert b.rest[j] == a.rest[n + j];
    }
  }

  /** Otherwise it goes to the first later region that settles it, and fails if there is none or the sum overflows there. */
  lemma {:induction false} RunFromLater(a: Cursor, bytes: nat, k: nat, out: (Cursor, Option<nat>))
    requires out == RunOf(a, bytes) && (a.next < a.end ==> a.end < a.next + bytes < U64)
    requires k <= |a.rest| && forall j | 0 <= j < k :: !Settles(a.rest[j], bytes)
    ensures SettledBy(a.rest, bytes, k, out)
    decreases |a.rest|, 1
  {
    var first := FirstOffer(a.rest);
    if k < first {
      NothingOffered(a.rest, bytes, k, out);
    } else if k == first {
      SettledHere(a, bytes);
    } else {
      RunMovesOn(a, bytes);
      StillUnsettled(a, bytes, k);
      RunOnward(a, bytes, k, first + 1, Advance(a), out);
    }
  }

  lemma NothingOffered(rest: seq<Region>, bytes: nat, k: nat, out: (Cursor, Option<nat>))
    requires k < FirstOffer(rest)
    ensures SettledBy(rest, bytes, k, out)
  {
    assert !Offers(rest[k]);
  }

  lemma {:induction false} RunOnward(a: Cursor, bytes: nat, k: nat, n: nat, b: Cursor, out: (Cursor, Option<nat>))
    requires out == RunOf(b, bytes) && b.next < b.end && b.end < b.next + bytes < U64
    requires 0 < n <= k <= |a.rest| && IsTail(a.rest, n, b.rest) && forall j | 0 <= j < k - n :: !Settles(b.rest[j], bytes)
    ensures SettledBy(a.rest, bytes, k, out)
    decreases |a.rest|, 0
  {
    RunFromLater(b, bytes, k - n, out);
    SettledLater(a.rest, n, b.rest, bytes, k, out);
  }

  /** The region can hold the run. */
  predicate Fits(r: Region, bytes: nat) {
    Offers(r) && Base(r) + bytes <= r.end
  }

  /**
   * Where no sum overflows, a run is granted exactly when the region in use or a later one has the room, and then it
   * starts at the cursor, or at the first page of the first region with room.
   */
  lemma RunGrantedIff(a: Cursor, count: nat)
    requires 0 < count && count * PAGE < U64 && (a.next < a.end ==> a.next + count * PAGE < U64)
    requires forall j | 0 <= j < |a.rest| && Offers(a.rest[j]) :: Base(a.rest[j]) + count * PAGE < U64
    ensures var bytes, start := count * PAGE, Contiguous(a, count).1;
            && (start.Some? <==> (a.next < a.end && a.next + bytes <= a.end) || exists j | 0 <= j < |a.rest| :: Fits(a.rest[j], bytes))
            && (a.next < a.end && a.next + bytes <= a.end ==> start == Some(a.next))
            && (start.Some? && !(a.next < a.end && a.next + bytes <= a.end) ==>
                 exists k | 0 <= k < |a.rest| :: Fits(a.rest[k], bytes) && start == Some(Base(a.rest[k]))
                   && forall j | 0 <= j < k :: !Fits(a.rest[j], bytes))
  {
    var bytes := count * PAGE;
    if a.next < a.end && a.next + bytes <= a.end {
      RunFromCurrent(a, count);
    } else {
      var k := FirstFit(a.rest, bytes);
      assert forall j | 0 <= j < |a.rest| :: Settles(a.rest[j], bytes) <==> Fits(a.rest[j], bytes);
      RunFromLater(a, bytes, k, RunOf(a, bytes));
    }
  }

  function FirstFit(regions: seq<Region>, bytes: nat): (k: nat)
    ensures k <= |regions| && (k < |regions| ==> Fits(regions[k], bytes))
    ensures forall j | 0 <= j < k :: !Fits(regions[j], bytes)
  {
    if regions == [] || Fits(regions[0], bytes) then 0 else 1 + FirstFit(regions[1..], bytes)
  }

  /** No frames, or more bytes than a word can count, are refused and change nothing. */
  lemma RunRefused(a: Cursor, count: nat)
    requires count == 0 || 0x1_0000_0000_0000_0000 <= count * 4096
    ensures Contiguous(a, count) == (a, None)
  {
  }

  /**
   * Four frames of one region, and the frame after them. The second run of two frames fits the region of the first, so
   * it is served from there, although the test at kernel/src/memory/frame.rs:166-176 expects it from the next region.
   */
  lemma RunExamples()
    ensures var (a, start) := Contiguous(Cursor([Region(0x4000, 0x1_0000, true)], 0, 0), 4);
            start == Some(0x4000) && OneFrame(a).1 == Some(0x8000)
    ensures var (a, start) := Contiguous(Cursor([Region(0x4000, 0x8000, true), Region(0x9000, 0xb000, true)], 0, 0), 2);
            start == Some(0x4000) && Contiguous(a, 2).1 == Some(0x6000)
  {
    var r, q := Region(0x4000, 0x1_0000, true), Region(0x4000, 0x8000, true);
    assert Settles(r, 0x4000) && Settles(q, 0x2000);
    var a, b := Cursor([r], 0, 0), Cursor([q, Region(0x9000, 0xb000, true)], 0, 0);
    RunFromLater(a, 0x4000, 0, RunOf(a, 0x4000));
    RunFromLater(b, 0x2000, 0, RunOf(b, 0x2000));
  }

  /** No region before `j` stops the cursor. */
  predicate Passable(all: seq<Region>, j: nat)
    requires j <= |all|
  {
    forall i | 0 <= i < j :: !Jams(all[i])
  }

  /** The region can give out the frame and the cursor can get there. */
  predicate GivenBy(all: seq<Region>, j: nat, f: nat)
    requires j < |all|
  {
    CanGive(all[j], f) && Passable(all, j)
  }

  predicate Obtainable(all: seq<Region>, f: nat) {
    exists j | 0 <= j < |all| :: GivenBy(all, j, f)
  }

  /** The cursor stands where it can get to, in a region that offers something. */
  predicate CursorGood(all: seq<Region>, a: Cursor) {
    && CursorOk(all, a)
    && (a.end > 0 ==> Passable(all, Reached(all, a) - 1) && Offers(all[Reached(all, a) - 1]))
    && (a.end == 0 ==> |a.rest| == |all| || |a.rest| == 0)
  }

  /** A region that the cursor leaves does not jam. */
  lemma LeftBehind(all: seq<Region>, a: Cursor, need: nat)
    requires CursorGood(all, a) && a.end > 0 && need % PAGE == 0
    requires a.end <= a.next || (a.end < a.next + need && a.next + need < U64)
    ensures !Jams(all[Reached(all, a) - 1])
  {
  }

  /** Regions that offer nothing do not jam. */
  lemma SkipsPass(all: seq<Region>, n: nat, rest: seq<Region>)
    requires IsTail(all, n, rest) && Passable(all, n)
    ensures Passable(all, n + FirstOffer(rest))
  {
    var k := FirstOffer(rest);
    forall i | n <= i < n + k ensures !Jams(all[i]) {
      assert rest[i - n] == all[i];
    }
  }

  lemma AdvanceGood(all: seq<Region>, a: Cursor)
    requires CursorGood(all, a) && (a.end > 0 ==> !Jams(all[Reached(all, a) - 1]))
    ensures CursorGood(all, Advance(a))
  {
    AdvanceKeeps(all, a);
    if !Exhausted(a) {
      PassableHere(all, a);
      SkipsPass(all, Reached(all, a), a.rest);
      AdvanceAt(all, a);
      GoodAt(all, Advance(a), Reached(all, a) + FirstOffer(a.rest));
    }
  }

  lemma PassableHere(all: seq<Region>, a: Cursor)
    requires CursorGood(all, a) && a.rest != [] && (a.end > 0 ==> !Jams(all[Reached(all, a) - 1]))
    ensures Passable(all, Reached(all, a))
  {
  }

  lemma AdvanceAt(all: seq<Region>, a: Cursor)
    requires CursorOk(all, a) && !Exhausted(a)
    ensures var j := Reached(all, a) + FirstOffer(a.rest);
            j < |all| && Offers(all[j]) && Reached(all, Advance(a)) == j + 1 && 0 < Advance(a).end
  {
    assert a.rest[FirstOffer(a.rest)] == all[Reached(all, a) + FirstOffer(a.rest)];
  }

  lemma GoodAt(all: seq<Region>, b: Cursor, j: nat)
    requires CursorOk(all, b) && j < |all| && Reached(all, b) == j + 1 && Passable(all, j) && Offers(all[j]) && 0 < b.end
    ensures CursorGood(all, b)
  {
  }

  /** From `a` to `b`, every frame handed out is one that can be. */
  ghost predicate Obtains(all: seq<Region>, b: Cursor, g: seq<nat>) {
    CursorGood(all, b) && forall f | f in g :: Obtainable(all, f)
  }

  lemma TakeObtains(all: seq<Region>, a: Cursor, count: nat)
    requires CursorGood(all, a) && a.next < a.end && 0 < count
    requires a.next + (count - 1) * PAGE < a.end && a.next + count * PAGE < U64
    ensures Obtains(all, a.(next := a.next + count * PAGE), FramesFrom(a.next, count))
  {
    var g, c := FramesFrom(a.next, count), Reached(all, a) - 1;
    forall f | f in g ensures Obtainable(all, f) {
      var i :| 0 <= i < count && g[i] == f;
      assert GivenBy(all, c, f);
    }
  }

  lemma SingleObtains(all: seq<Region>, a: Cursor)
    requires CursorGood(all, a)
    ensures Obtains(all, Answer(a, Single).0, Answer(a, Single).1)
  {
    if a.next < a.end {
      TakeOneObtains(all, a);
    } else {
      if a.end > 0 { LeftBehind(all, a, 0); }
      AdvanceGood(all, a);
      if !Exhausted(a) { TakeOneObtains(all, Advance(a)); }
    }
  }

  lemma TakeOneObtains(all: seq<Region>, a: Cursor)
    requires CursorGood(all, a) && a.next < a.end
    ensures var (b, f) := TakeOne(a); Obtains(all, b, if f.Some? then [f.value] else [])
  {
    if a.next + PAGE < U64 {
      TakeObtains(all, a, 1);
      assert FramesFrom(a.next, 1) == [a.next];
    }
  }

  lemma {:induction false} RunObtains(all: seq<Region>, a: Cursor, count: nat)
    requires CursorGood(all, a) && 0 < count
    ensures var (b, start) := RunOf(a, count * PAGE);
            Obtains(all, b, if start.Some? then FramesFrom(start.value, count) else [])
    decreases |a.rest|
  {
    var bytes := count * PAGE;
    if a.next < a.end && (U64 <= a.next + bytes || a.next + bytes <= a.end) {
      if a.next + bytes < U64 { TakeObtains(all, a, count); }
    } else {
      if a.end > 0 { LeftBehind(all, a, bytes); }
      AdvanceGood(all, a);
      if !Exhausted(a) { RunObtains(all, Advance(a), count); }
    }
  }

  lemma {:induction false} ServeObtains(all: seq<Region>, rs: seq<Request>)
    ensures Obtains(all, Serve(Cursor(all, 0, 0), rs).0, Serve(Cursor(all, 0, 0), rs).1)
    decreases |rs|
  {
    if rs != [] {
      var n := |rs| - 1;
      ServeObtains(all, rs[..n]);
      var b := Serve(Cursor(all, 0, 0), rs[..n]).0;
      match rs[n]
      case Single => SingleObtains(all, b);
      case Run(count) => if count != 0 && count * PAGE < U64 { RunObtains(all, b, count); }
    }
  }

  function Singles(n: nat): (rs: seq<Request>)
    ensures |rs| == n
  {
    seq(n, _ => Single)
  }

  /** The first request can be answered first. */
  lemma {:induction false} ServeFront(a: Cursor, r: Request, rs: seq<Request>)
    ensures var (b, g) := Answer(a, r); var (c, more) := Serve(b, rs);
            Serve(a, [r] + rs) == (c, g + more)
    decreases |rs|
  {
    var all := [r] + rs;
    if rs == [] {
      var g := Answer(a, r).1;
      assert all[..0] == [] && Serve(a, all) == (Answer(a, r).0, [] + g);
      assert [] + g == g + [];
    } else {
      var n := |rs| - 1;
      ServeFront(a, r, rs[..n]);
      assert all[..|all| - 1] == [r] + rs[..n] && all[|all| - 1] == rs[n];
      var (b, g) := Answer(a, r);
      var (c, more) := Serve(b, rs[..n]);
      JoinThree(g, more, Answer(c, rs[n]).1);
    }
  }

  lemma JoinThree(a: seq<nat>, b: seq<nat>, c: seq<nat>)
    ensures (a + b) + c == a + (b + c)
  {
  }

  lemma SinglesFront(a: Cursor, n: nat)
    requires 0 < n
    ensures var (b, g) := Answer(a, Single); Serve(a, Singles(n)).1 == g + Serve(b, Singles(n - 1)).1
  {
    assert Singles(n) == [Single] + Singles(n - 1);
    ServeFront(a, Single, Singles(n - 1));
  }

  /** The cursor can be moved past everything that is left of its region. */
  predicate Clears(a: Cursor) {
    a.next < a.end ==> LastPage(Region(0, a.end, true)) + PAGE < U64
  }

  /** The frame is still to come: in the region in use, or in a later one that can be reached. */
  predicate Awaits(a: Cursor, f: nat) {
    || (a.next <= f < a.end && f % PAGE == 0 && f + PAGE < U64)
    || (Clears(a) && Obtainable(a.rest, f))
  }

  /** Enough single requests get every frame that is still to come. */
  lemma {:induction false} Drain(a: Cursor, f: nat) returns (n: nat)
    requires a.next % PAGE == 0 && Awaits(a, f)
    ensures 0 < n && f in Serve(a, Singles(n)).1
    decreases |a.rest|, if a.next < a.end then a.end - a.next else 0
  {
    if a.next < a.end {
      if a.next == f {
        n := 1;
        SinglesFront(a, 1);
      } else {
        var b := a.(next := a.next + PAGE);
        assert Answer(a, Single) == (b, [a.next]);
        var m := Drain(b, f);
        n := m + 1;
        SinglesFront(a, n);
      }
    } else {
      AwaitsNext(a, f);
      n := Drain(Advance(a), f);
      SinglesFront(a, n);
      SinglesFront(Advance(a), n);
    }
  }

  lemma AwaitsNext(a: Cursor, f: nat)
    requires a.end <= a.next && Awaits(a, f)
    ensures !Exhausted(a) && Advance(a).next % PAGE == 0 && Awaits(Advance(a), f)
  {
    var j :| 0 <= j < |a.rest| && GivenBy(a.rest, j, f);
    GiverOffers(a.rest[j], f);
    if FirstOffer(a.rest) == j {
      AwaitsHere(a.rest[j], f);
    } else {
      AwaitsLater(a, j, f);
    }
  }

  lemma GiverOffers(r: Region, f: nat)
    requires CanGive(r, f)
    ensures Offers(r)
  {
    AlignedAbove(r.start, f);
  }

  lemma AwaitsLater(a: Cursor, j: nat, f: nat)
    requires FirstOffer(a.rest) < j < |a.rest| && GivenBy(a.rest, j, f)
    ensures Awaits(Advance(a), f)
  {
    var k := FirstOffer(a.rest);
    GivenLater(a.rest, j, f, k + 1);
    assert !Jams(a.rest[k]);
    ClearsBehind(a.rest[k], AlignUp(a.rest[k].start).value);
  }

  lemma AwaitsHere(r: Region, f: nat)
    requires CanGive(r, f)
    ensures AlignUp(r.start).value <= f < r.end
  {
  }

  lemma ClearsBehind(r: Region, next: nat)
    requires Offers(r) && !Jams(r)
    ensures Clears(Cursor([], next, r.end))
  {
  }

  lemma GivenLater(all: seq<Region>, j: nat, f: nat, n: nat)
    requires n <= j < |all| && GivenBy(all, j, f)
    ensures Obtainable(all[n..], f)
  {
    var later := all[n..];
    forall i | 0 <= i < j - n ensures !Jams(later[i]) {
      assert later[i] == all[i + n];
    }
    assert GivenBy(later, j - n, f);
  }

  /** What the allocator can ever hand out, over all mixes of requests, read off the memory map. */
  lemma GivenIff(all: seq<Region>, f: nat)
    ensures (exists rs :: f in Serve(Cursor(all, 0, 0), rs).1) <==> Obtainable(all, f)
  {
    forall rs | f in Serve(Cursor(all, 0, 0), rs).1 ensures Obtainable(all, f) {
      ServeObtains(all, rs);
    }
    if Obtainable(all, f) {
      var n := Drain(Cursor(all, 0, 0), f);
      assert f in Serve(Cursor(all, 0, 0), Singles(n)).1;
    }
  }

  /** Every frame handed out for these requests lies wholly inside one usable region. */
  ghost predicate AllInside(all: seq<Region>, rs: seq<Request>) {
    forall f | f in Serve(Cursor(all, 0, 0), rs).1 :: InsideOne(all, f, PAGE)
  }

  /** A region the cursor can get to and past, which offers something, ends on a page boundary. */
  predicate EndsAligned(all: seq<Region>, j: nat)
    requires j < |all|
  {
    Offers(all[j]) && Passable(all, j + 1) ==> all[j].end % PAGE == 0
  }

  lemma RoomAfter(r: Region, f: nat)
    requires CanGive(r, f) && (Jams(r) || r.end % PAGE == 0)
    ensures f + PAGE <= r.end
  {
  }

  /** Aligned ends keep every frame of every run inside. */
  lemma AlignedEndsSuffice(all: seq<Region>, rs: seq<Request>)
    requires forall j | 0 <= j < |all| :: EndsAligned(all, j)
    ensures AllInside(all, rs)
  {
    ServeObtains(all, rs);
    forall f | f in Serve(Cursor(all, 0, 0), rs).1 ensures InsideOne(all, f, PAGE) {
      var j :| 0 <= j < |all| && GivenBy(all, j, f);
      InsideGiver(all, j, f);
    }
  }

  lemma InsideGiver(all: seq<Region>, j: nat, f: nat)
    requires j < |all| && GivenBy(all, j, f) && EndsAligned(all, j)
    ensures InsideOne(all, f, PAGE)
  {
    AlignedAbove(all[j].start, f);
    RoomAfter(all[j], f);
    assert all[j].usable;
  }

  lemma OneHolder(all: seq<Region>, i: nat, j: nat, f: nat)
    requires Disjoint(all) && i < |all| && j < |all| && Holds(all[i], f) && Holds(all[j], f)
    ensures i == j
  {
  }

  lemma LastSticksOut(all: seq<Region>, j: nat, f: nat)
    requires Disjoint(all) && j < |all| && Holds(all[j], f) && all[j].end < f + PAGE
    ensures !InsideOne(all, f, PAGE)
  {
    forall i | 0 <= i < |all| && all[i].usable && all[i].start <= f ensures all[i].end < f + PAGE {
      if f < all[i].end { OneHolder(all, i, j, f); }
    }
  }

  /** The last frame of a region that ends inside a page sticks out of it. */
  lemma UnalignedEndLeaks(all: seq<Region>, j: nat) returns (n: nat)
    requires Disjoint(all) && j < |all| && !EndsAligned(all, j)
    ensures LastPage(all[j]) in Serve(Cursor(all, 0, 0), Singles(n)).1 && !AllInside(all, Singles(n))
  {
    var f := LastPage(all[j]);
    LastIsGiven(all, j);
    n := Drain(Cursor(all, 0, 0), f);
    LastSticksOut(all, j, f);
  }

  lemma LastIsGiven(all: seq<Region>, j: nat)
    requires j < |all| && !EndsAligned(all, j)
    ensures 0 < all[j].end && GivenBy(all, j, LastPage(all[j])) && Obtainable(all, LastPage(all[j]))
    ensures all[j].end < LastPage(all[j]) + PAGE && Holds(all[j], LastPage(all[j]))
  {
    assert GivenBy(all, j, LastPage(all[j]));
  }

  /**
   * A single frame is checked by its start address only. The frames handed out lie inside usable regions, for
   * all mixes of requests, exactly when every region the cursor can leave behind ends on a page boundary.
   */
  lemma FramesInsideIff(all: seq<Region>)
    requires Disjoint(all)
    ensures (forall rs :: AllInside(all, rs)) <==> (forall j | 0 <= j < |all| :: EndsAligned(all, j))
  {
    if forall j | 0 <= j < |all| :: EndsAligned(all, j) {
      forall rs ensures AllInside(all, rs) {
        AlignedEndsSuffice(all, rs);
      }
    } else {
      var j :| 0 <= j < |all| && !EndsAligned(all, j);
      var n := UnalignedEndLeaks(all, j);
    }
  }

  /** A frame that sticks out of the only usable region, and a region whose unaligned end does no harm. */
  lemma FrameOutside()
    ensures Serve(Cursor([Region(0x1000, 0x1800, true)], 0, 0), [Single]).1 == [0x1000]
    ensures Serve(Cursor([Region(U64 - PAGE, U64 - 1, true)], 0, 0), [Single]).1 == []
  {
    assert [Single][..0] == [];
  }
}
