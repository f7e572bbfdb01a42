/** Address reservation: Loader::next_address and reset_address (src/loader.cpp), over the
    ranges of Object::memory_range (src/object/base.cpp). */
module Addresses {
  import opened Common

  const BASEADDRESS := 0x6ffff0000000
  const LIBADDRESS := 0x600000000000
  const PDCADDRESS := 0x400000

  function AlignUp(v: nat): (r: nat)
    ensures v <= r < v + PAGE && r % PAGE == 0
  {
    (v + PAGE - 1) / PAGE * PAGE
  }

  lemma AlignUpAligned(v: nat)
    requires v % PAGE == 0
    ensures AlignUp(v) == v
  {
  }

  /** Addresses from start up to end. */
  datatype Range = Range(start: nat, end: nat)

  predicate Disjoint(a: Range, b: Range) {
    a.end <= b.start || b.end <= a.start
  }

  /** The reservation pointer, the ranges of all live object versions, and what is reserved
      but not yet (or, for trampolines, never) the range of an object. */
  datatype State = State(next: nat, live: seq<Range>, reserved: set<Range>, pic: bool)

  /** The highest end of a live range below the loader, at least `low`. */
  function Top(live: seq<Range>, low: nat): (t: nat)
    ensures low <= t
    ensures forall r <- live :: r.end < BASEADDRESS ==> r.end <= t
    ensures t == low || exists r :: r in live && r.end < BASEADDRESS && r.end == t
  {
    if live == [] then low
    else
      var n := |live| - 1;
      var t := Top(live[..n], low);
      if live[n].end > t && live[n].end < BASEADDRESS then live[n].end else t
  }

  /** What next_address returns. */
  function NextAddress(s: State): (a: nat)
    ensures a % PAGE == 0
  {
    var t := Top(s.live, s.next);
    AlignUp(if t == 0 then if s.pic then LIBADDRESS else PDCADDRESS else t)
  }

  function Reserve(s: State, size: nat): (r: State) {
    var a := NextAddress(s);
    s.(next := AlignUp(a + size), reserved := s.reserved + {Range(a, AlignUp(a + size))})
  }

  function Min(a: nat, b: nat): (r: nat) {
    if a < b then a else b
  }

  /** reset_address for the base of a destroyed object, whose reservation r ends. */
  function Release(s: State, addr: nat, r: Range): (s': State) {
    s.(next := Min(s.next, AlignUp(addr)), reserved := s.reserved - {r})
  }

  /** All reservations end below what next_address would return. */
  ghost predicate Covered(s: State) {
    forall r <- s.reserved :: r.end <= Top(s.live, s.next)
  }

  lemma TopMonotone(live: seq<Range>, low: nat, low': nat)
    requires low <= low'
    ensures Top(live, low) <= Top(live, low')
    ensures Top(live, low') == if Top(live, low) < low' then low' else Top(live, low)
  {
    if live != [] {
      TopMonotone(live[..|live| - 1], low, low');
    }
  }

  /** Something is placed below the loader. */
  predicate Occupied(s: State) {
    s.next != 0 || exists r :: r in s.live && r.end != 0 && r.end < BASEADDRESS
  }

  /** The next address is the lowest page above the pointer and all live ranges that end below the loader; while there is
      none, the default for the kind of code. */
  lemma NextAddressIs(s: State)
    ensures NextAddress(s) % PAGE == 0 && s.next <= NextAddress(s)
    ensures forall r <- s.live :: r.end < BASEADDRESS ==> r.end <= NextAddress(s)
    ensures Occupied(s) ==> NextAddress(s) < s.next + PAGE || exists r :: r in s.live && r.end < BASEADDRESS && NextAddress(s) < r.end + PAGE
    ensures !Occupied(s) ==> NextAddress(s) == if s.pic then LIBADDRESS else PDCADDRESS
  {
    var t := Top(s.live, s.next);
    AlignUpAligned(LIBADDRESS);
    AlignUpAligned(PDCADDRESS);
  }

  /** The next address is above every live range that ends below the loader. */
  lemma NextIsAboveLive(s: State, r: Range)
    requires r in s.live && r.end < BASEADDRESS
    ensures r.end <= NextAddress(s)
  {
  }

  /** After an object was mapped from the address it was given without reserving a size, the next address is
      above it if and only if it ends below the loader. */
  lemma NextIsAboveMappedIff(s: State, end: nat)
    requires NextAddress(s) < end && end % PAGE == 0
    ensures var m := Range(NextAddress(s), end);
            end <= NextAddress(Reserve(s, 0).(live := s.live + [m])) <==> end < BASEADDRESS
  {
    var a := NextAddress(s);
    var m := Range(a, end);
    AlignUpAligned(a);
    AlignUpAligned(end);
    assert (s.live + [m])[..|s.live|] == s.live;
    assert Top(s.live, a) == a;
  }

  /** A concrete case: an object of two pages that reaches into the loader is given out again. */
  lemma ObjectAtLoaderOverlaps(pic: bool)
    ensures var s := State(BASEADDRESS - PAGE, [], {}, pic);
            var m := Range(NextAddress(s), BASEADDRESS + PAGE);
            m.start == BASEADDRESS - PAGE && NextAddress(Reserve(s, 0).(live := [m])) < m.end
  {
    var s := State(BASEADDRESS - PAGE, [], {}, pic);
    AlignUpAligned(BASEADDRESS - PAGE);
    NextIsAboveMappedIff(s, BASEADDRESS + PAGE);
    assert s.live + [Range(NextAddress(s), BASEADDRESS + PAGE)] == [Range(NextAddress(s), BASEADDRESS + PAGE)];
  }

  /** A new reservation is page-aligned and lies above every live range that ends below the
      loader and above every reservation. */
  lemma ReserveIsAbove(s: State, size: nat)
    requires Covered(s)
    ensures NextAddress(s) % PAGE == 0
    ensures forall r <- s.live :: r.end < BASEADDRESS ==> r.end <= NextAddress(s)
    ensures forall r <- s.reserved :: r.end <= NextAddress(s)
    ensures Covered(Reserve(s, size))
  {
    TopMonotone(s.live, s.next, Reserve(s, size).next);
  }

  /** A reservation takes the fewest whole pages for its size from the next address on, and the address after it follows
      at once. */
  lemma ReservedIsNext(s: State, size: nat)
    ensures var a, t := NextAddress(s), Reserve(s, size);
            && a + size <= NextAddress(t) < a + size + PAGE && NextAddress(t) % PAGE == 0
            && t.reserved == s.reserved + {Range(a, NextAddress(t))} && t.live == s.live
  {
    var a := NextAddress(s);
    TopMonotone(s.live, s.next, AlignUp(a + size));
    AlignUpAligned(AlignUp(a + size));
    assert Top(s.live, s.next) <= a;
  }

  /** A release keeps the reservations covered exactly when no other one ends above both the
      released address and all live ranges. */
  lemma ReleaseKeepsCoveredIff(s: State, addr: nat, r: Range)
    requires Covered(s)
    ensures Covered(Release(s, addr, r)) <==> forall q <- s.reserved :: q == r || q.end <= Top(s.live, AlignUp(addr))
  {
    TopMonotone(s.live, Min(s.next, AlignUp(addr)), s.next);
    TopMonotone(s.live, Min(s.next, AlignUp(addr)), AlignUp(addr));
  }

  /** Otherwise a later reservation can run into one that is still in use: destroying an object with base 0,
      such as a rejected update of a fixed-address executable, forgets a trampoline block above all objects. */
  lemma ForgottenReservationOverlaps(pic: bool, size: nat)
    requires 0 < size
    ensures var s := Reserve(State(0, [], {}, pic), PAGE);
            var gone := Release(s, 0, Range(0, 0));
            var block := Range(NextAddress(State(0, [], {}, pic)), NextAddress(State(0, [], {}, pic)) + PAGE);
            && Covered(s) && block in gone.reserved
            && !Disjoint(block, Range(NextAddress(gone), AlignUp(NextAddress(gone) + size)))
  {
    var empty := State(0, [], {}, pic);
    var a := NextAddress(empty);
    AlignUpAligned(a + PAGE);
    assert Release(Reserve(empty, PAGE), 0, Range(0, 0)).next == 0;
  }

  /** A block was handed out above the only live object. */
  function BlockAbove(pic: bool, base: nat): (s: State) {
    State(base + 2 * PAGE, [Range(base, base + PAGE)], {Range(base + PAGE, base + 2 * PAGE)}, pic)
  }

  lemma BlockAboveSafe(pic: bool, base: nat)
    requires 0 < base && base % PAGE == 0 && base + PAGE < BASEADDRESS
    ensures Safe(BlockAbove(pic, base))
    ensures BlockAbove(pic, base) == Reserve(State(0, [Range(base, base + PAGE)], {}, pic), PAGE)
    ensures NextAddress(BlockAbove(pic, base)) == base + 2 * PAGE
  {
    var s := BlockAbove(pic, base);
    AlignUpAligned(base + PAGE);
    AlignUpAligned(base + 2 * PAGE);
    assert Top(s.live, 0) == base + PAGE && Top(s.live, s.next) == base + 2 * PAGE;
  }

  /** The same with a rejected update of that object, if it is relocatable: the update gives back the base of the first
      version, and the block above it is given out again. */
  lemma RejectedUpdateForgetsBlock(pic: bool, base: nat)
    requires 0 < base && base % PAGE == 0 && base + PAGE < BASEADDRESS
    ensures var s := BlockAbove(pic, base);
            var gone := Release(Reserve(s, 0), base, Range(NextAddress(s), NextAddress(s)));
            gone.reserved == s.reserved && NextAddress(gone) == base + PAGE && !Safe(gone)
  {
    var s := BlockAbove(pic, base);
    BlockAboveSafe(pic, base);
    AlignUpAligned(base);
    AlignUpAligned(base + PAGE);
    AlignUpAligned(base + 2 * PAGE);
    assert Top(s.live, base) == base + PAGE;
    assert Range(base + PAGE, base + 2 * PAGE) in s.reserved;
  }

  // ---------------------------------------------------------------------------
  // Runs of the loader

  datatype Step =
    | Take(size: nat)
    | Commit(reservation: Range, mapped: Range)
    | MapFixed(mapped: Range)
    | Abort(reservation: Range, base: nat)
    | Destroy(index: nat, base: nat)

  /** All ranges in use below the loader. */
  ghost predicate InUse(s: State, r: Range) {
    (r in s.live && r.end < BASEADDRESS) || r in s.reserved
  }

  ghost predicate Enabled(s: State, step: Step) {
    match step
    case Take(_) => true
    case Commit(r, m) =>
      // the object maps within its reservation, or on from it while nothing else is above
      && r in s.reserved && r.start <= m.start <= m.end
      && (m.end <= r.end || forall q :: InUse(s, q) && q != r ==> q.end <= r.start)
    case MapFixed(m) => m.start <= m.end && forall q :: InUse(s, q) ==> Disjoint(q, m)
    case Abort(r, _) => r in s.reserved
    case Destroy(i, _) => i < |s.live|
  }

  /** An object is destroyed after it got its pages, and gives back its base. */
  function Destroyed(s: State, i: nat, base: nat): (s': State)
    requires i < |s.live|
  {
    s.(next := Min(s.next, AlignUp(base)), live := s.live[..i] + s.live[i + 1..])
  }

  ghost function Next(s: State, step: Step): (s': State)
    requires Enabled(s, step)
  {
    match step
    case Take(size) => Reserve(s, size)
    case Commit(r, m) => s.(live := s.live + [m], reserved := s.reserved - {r})
    case MapFixed(m) => s.(live := s.live + [m])
    case Abort(r, base) => Release(s, base, r)
    case Destroy(i, base) => Destroyed(s, i, base)
  }

  /** A live range below the loader reaches as far. */
  ghost predicate Reached(live: seq<Range>, q: Range) {
    exists r :: r in live && r.end < BASEADDRESS && q.end <= r.end
  }

  /** The step forgets no reservation: another one that ends above the address given back is below a live range,
      also without the destroyed one. */
  ghost predicate Keeps(s: State, step: Step)
    requires Enabled(s, step)
  {
    match step
    case Abort(r, base) => forall q <- s.reserved :: q == r || q.end <= Top(s.live, AlignUp(base))
    case Destroy(i, base) => forall q <- s.reserved :: Reached(s.live[..i] + s.live[i + 1..], q) || (q.end <= s.next && q.end <= AlignUp(base))
    case _ => true
  }

  ghost predicate LiveDisjoint(s: State) {
    forall i, j :: 0 <= i < j < |s.live| && s.live[i].end < BASEADDRESS && s.live[j].end < BASEADDRESS ==>
      Disjoint(s.live[i], s.live[j])
  }

  ghost predicate ReservedDisjoint(s: State) {
    && (forall r, q :: r in s.live && r.end < BASEADDRESS && q in s.reserved ==> Disjoint(r, q))
    && (forall r, q :: r in s.reserved && q in s.reserved && r != q ==> Disjoint(r, q))
  }

  ghost predicate WellFormed(s: State) {
    && (forall r <- s.reserved :: r.start <= r.end && r.start % PAGE == 0)
    && (forall r <- s.live :: r.start <= r.end)
  }

  ghost predicate Safe(s: State) {
    Covered(s) && LiveDisjoint(s) && ReservedDisjoint(s) && WellFormed(s)
  }

  lemma TopGrows(live: seq<Range>, m: Range, low: nat)
    ensures Top(live, low) <= Top(live + [m], low)
  {
    assert (live + [m])[..|live|] == live;
  }

  lemma TakeIsSafe(s: State, size: nat)
    requires Safe(s)
    ensures Safe(Reserve(s, size))
  {
    ReserveIsAbove(s, size);
    var n := Range(NextAddress(s), AlignUp(NextAddress(s) + size));
    forall r | InUse(s, r) ensures Disjoint(r, n) {
    }
  }

  lemma AddLiveDisjoint(s: State, m: Range)
    requires LiveDisjoint(s) && forall q :: InUse(s, q) ==> Disjoint(q, m)
    ensures LiveDisjoint(s.(live := s.live + [m]))
  {
    var live := s.live + [m];
    forall i, j | 0 <= i < j < |live| && live[i].end < BASEADDRESS && live[j].end < BASEADDRESS
      ensures Disjoint(live[i], live[j])
    {
      assert InUse(s, live[i]);
    }
  }

  lemma AddLiveReserved(s: State, m: Range)
    requires ReservedDisjoint(s) && forall q :: InUse(s, q) ==> Disjoint(q, m)
    ensures ReservedDisjoint(s.(live := s.live + [m]))
  {
    assert forall q :: q in s.reserved ==> InUse(s, q);
  }

  /** A mapping that is disjoint from everything else in use may be added. */
  lemma AddLive(s: State, m: Range)
    requires Safe(s) && m.start <= m.end && forall q :: InUse(s, q) ==> Disjoint(q, m)
    ensures Safe(s.(live := s.live + [m]))
  {
    TopGrows(s.live, m, s.next);
    AddLiveDisjoint(s, m);
    AddLiveReserved(s, m);
  }

  lemma CommitIsSafe(s: State, r: Range, m: Range)
    requires Safe(s) && Enabled(s, Commit(r, m))
    ensures Safe(Next(s, Commit(r, m)))
  {
    var t := s.(reserved := s.reserved - {r});
    forall q | InUse(t, q) ensures Disjoint(q, m) {
      assert InUse(s, q);
      assert Disjoint(q, r);
    }
    AddLive(t, m);
  }

  /** What is below the top is below its base or below a live range. */
  lemma TopReaches(live: seq<Range>, low: nat, q: Range)
    ensures q.end <= Top(live, low) <==> Reached(live, q) || q.end <= low
  {
  }

  lemma DestroyKeepsCoveredIff(s: State, i: nat, base: nat)
    requires i < |s.live|
    ensures Covered(Destroyed(s, i, base)) <==> Keeps(s, Destroy(i, base))
  {
    var t := Destroyed(s, i, base);
    forall q | q in s.reserved ensures q.end <= Top(t.live, t.next) <==> Reached(t.live, q) || (q.end <= s.next && q.end <= AlignUp(base)) {
      TopReaches(t.live, t.next, q);
    }
  }

  lemma DestroyKeepsApart(s: State, i: nat, base: nat)
    requires i < |s.live| && LiveDisjoint(s) && ReservedDisjoint(s) && WellFormed(s)
    ensures LiveDisjoint(Destroyed(s, i, base)) && ReservedDisjoint(Destroyed(s, i, base)) && WellFormed(Destroyed(s, i, base))
  {
    var t := Destroyed(s, i, base);
    forall j | 0 <= j < |t.live| ensures t.live[j] == s.live[if j < i then j else j + 1] {
    }
    forall j, k | 0 <= j < k < |t.live| && t.live[j].end < BASEADDRESS && t.live[k].end < BASEADDRESS
      ensures Disjoint(t.live[j], t.live[k])
    {
      assert Disjoint(s.live[if j < i then j else j + 1], s.live[if k < i then k else k + 1]);
    }
    assert forall r :: r in t.live ==> r in s.live;
  }

  lemma AbortIsSafeIff(s: State, r: Range, base: nat)
    requires Safe(s) && r in s.reserved
    ensures Safe(Release(s, base, r)) <==> Keeps(s, Abort(r, base))
  {
    ReleaseKeepsCoveredIff(s, base, r);
  }

  /** A step keeps reservations and mapped objects disjoint if and only if it forgets no reservation. */
  lemma StepIsSafeIff(s: State, step: Step)
    requires Safe(s) && Enabled(s, step)
    ensures Safe(Next(s, step)) <==> Keeps(s, step)
  {
    match step
    case Take(size) => TakeIsSafe(s, size);
    case Commit(r, m) => CommitIsSafe(s, r, m);
    case MapFixed(m) => AddLive(s, m);
    case Abort(r, base) => AbortIsSafeIff(s, r, base);
    case Destroy(i, base) =>
      DestroyKeepsCoveredIff(s, i, base);
      DestroyKeepsApart(s, i, base);
  }

  ghost predicate Runs(s: State, steps: seq<Step>, end: State)
    decreases |steps|
  {
    if steps == [] then end == s else Enabled(s, steps[0]) && Runs(Next(s, steps[0]), steps[1..], end)
  }

  /** No step of the run forgets a reservation. */
  ghost predicate Keeping(s: State, steps: seq<Step>)
    decreases |steps|
  {
    steps != [] && Enabled(s, steps[0]) ==> Keeps(s, steps[0]) && Keeping(Next(s, steps[0]), steps[1..])
  }

  /** All states of the run are safe. */
  ghost predicate SafeThroughout(s: State, steps: seq<Step>)
    decreases |steps|
  {
    Safe(s) && (steps != [] && Enabled(s, steps[0]) ==> SafeThroughout(Next(s, steps[0]), steps[1..]))
  }

  /** Over all runs, with loads that are given up before or after they got pages: everything stays disjoint at all times
      if and only if no step forgets a reservation. */
  lemma {:induction false} ObjectsStayDisjointIff(s: State, steps: seq<Step>, end: State)
    requires Safe(s) && Runs(s, steps, end)
    ensures SafeThroughout(s, steps) <==> Keeping(s, steps)
    ensures Keeping(s, steps) ==> Safe(end)
    decreases |steps|
  {
    if steps != [] {
      var t := Next(s, steps[0]);
      StepIsSafeIff(s, steps[0]);
      if Safe(t) {
        ObjectsStayDisjointIff(t, steps[1..], end);
      }
    }
  }

  lemma TakeWithoutSize(s: State)
    requires Safe(s)
    ensures var r := Range(NextAddress(s), NextAddress(s));
            Safe(Reserve(s, 0)) && Reserve(s, 0).reserved == s.reserved + {r} && Reserve(s, 0).live == s.live
    ensures NextAddress(s) % PAGE == 0 && forall q <- s.reserved :: q.end <= NextAddress(s)
  {
    ReserveIsAbove(s, 0);
    AlignUpAligned(NextAddress(s));
    TakeIsSafe(s, 0);
  }

  /** A load that takes an address without a size and is given up keeps everything safe if and only if no other
      reservation ends above the base it gives back and all live ranges. */
  lemma RejectedLoadSafeIff(s: State, base: nat)
    requires Safe(s)
    ensures var r := Range(NextAddress(s), NextAddress(s));
            Safe(Release(Reserve(s, 0), base, r)) <==> forall q <- s.reserved :: q == r || q.end <= Top(s.live, AlignUp(base))
  {
    var r := Range(NextAddress(s), NextAddress(s));
    TakeWithoutSize(s);
    var t := Reserve(s, 0);
    AbortIsSafeIff(t, r, base);
    assert Keeps(t, Abort(r, base)) <==> forall q <- t.reserved :: q == r || q.end <= Top(s.live, AlignUp(base));
  }

  /** It does for the base it took. */
  lemma RejectedFirstLoadSafe(s: State)
    requires Safe(s)
    ensures Safe(Release(Reserve(s, 0), NextAddress(s), Range(NextAddress(s), NextAddress(s))))
  {
    var a := NextAddress(s);
    TakeWithoutSize(s);
    AlignUpAligned(a);
    RejectedLoadSafeIff(s, a);
  }

  /** A load that maps on from that address does. */
  lemma AcceptedLoadSafe(s: State, m: Range)
    requires Safe(s) && m.start == NextAddress(s) <= m.end
    ensures Safe(Reserve(s, 0)) && Enabled(Reserve(s, 0), Commit(Range(m.start, m.start), m))
    ensures Safe(Next(Reserve(s, 0), Commit(Range(m.start, m.start), m)))
  {
    var r := Range(m.start, m.start);
    AlignUpAligned(m.start);
    TakeIsSafe(s, 0);
    ReserveIsAbove(s, 0);
    StepIsSafeIff(Reserve(s, 0), Commit(r, m));
  }

  // ---------------------------------------------------------------------------
  // The loader's mutable pointer

  class Reservations {
    var next: nat
    var live: seq<Range>
    ghost var reserved: set<Range>
    const pic: bool

    constructor (pic: bool)
      ensures View() == State(0, [], {}, pic) && Safe(View())
    {
      this.pic := pic;
      next, live, reserved := 0, [], {};
    }

    ghost function View(): (s: State)
      reads this
    {
      State(next, live, reserved, pic)
    }

    /** The highest end below the base address, or the next free address. */
    method HighestEnd() returns (t: nat)
      ensures t == Top(live, next)
    {
      t := next;
      for i := 0 to |live|
        invariant t == Top(live[..i], next)
      {
        assert live[..i + 1][..i] == live[..i];
        if live[i].end > t && live[i].end < BASEADDRESS {
          t := live[i].end;
        }
      }
      assert live[..|live|] == live;
    }

    method TakeAddress(size: nat) returns (a: nat)
      modifies this`next, this`reserved
      ensures a == NextAddress(old(View())) && View() == Reserve(old(View()), size)
    {
      var t := HighestEnd();
      if t == 0 {
        t := if pic then LIBADDRESS else PDCADDRESS;
      }
      a := AlignUp(t);
      reserved := reserved + {Range(a, AlignUp(a + size))};
      next := AlignUp(a + size);
    }

    /** A mapped object: its range takes the place of its reservation. */
    method AddObject(m: Range, ghost r: Range)
      modifies this`live, this`reserved
      ensures View() == old(View()).(live := old(live) + [m], reserved := old(reserved) - {r})
      ensures Enabled(old(View()), Commit(r, m)) ==> View() == Next(old(View()), Commit(r, m))
    {
      live := live + [m];
      reserved := reserved - {r};
    }

    /** A live object is destroyed. */
    method RemoveObject(i: nat, base: nat)
      requires i < |live|
      modifies this`next, this`live
      ensures View() == Next(old(View()), Destroy(i, base))
    {
      live := live[..i] + live[i + 1..];
      ResetPointer(base);
    }

    method ResetPointer(addr: nat)
      modifies this`next
      ensures next == Min(old(next), AlignUp(addr))
    {
      next := Min(next, AlignUp(addr));
    }

    /** An object without pages is destroyed, and its reservation ends. */
    method ResetAddress(addr: nat, ghost r: Range)
      modifies this`next, this`reserved
      ensures View() == Release(old(View()), addr, r)
    {
      ResetPointer(addr);
      reserved := reserved - {r};
    }
  }
}
