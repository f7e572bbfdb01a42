/** Code redirection (src/redirect.cpp): a trap is written over the first bytes of a function
    and becomes a jump once every task has hit it. */
module Redirect {
  import opened Common

  const TWO31 := 0x8000_0000
  const TWO32 := 0x1_0000_0000
  const TWO64 := 0x1_0000_0000_0000_0000

  type Address = a: int | 0 <= a < TWO64
  type Tid = nat

  // ---------------------------------------------------------------------------
  // Jump encoding

  function LittleEndian4(v: nat): (bs: seq<Byte>)
    requires v < TWO32
    ensures |bs| == 4
  {
    [v % 256, v / 256 % 256, v / 65536 % 256, v / 16777216]
  }

  function LittleEndian8(v: nat): (bs: seq<Byte>)
    requires v < TWO64
    ensures |bs| == 8
  {
    LittleEndian4(v % TWO32) + LittleEndian4(v / TWO32)
  }

  function Read4(bs: seq<Byte>): (v: nat)
    requires |bs| == 4
    ensures v < TWO32
  {
    var b0: int, b1: int, b2: int, b3: int := bs[0], bs[1], bs[2], bs[3];
    b0 + 256 * b1 + 65536 * b2 + 16777216 * b3
  }

  function Read8(bs: seq<Byte>): (v: nat)
    requires |bs| == 8
    ensures v < TWO64
  {
    Read4(bs[..4]) + TWO32 * Read4(bs[4..])
  }

  /** Each byte counts 256 times as much as the one before. */
  lemma Read8Is(bs: seq<Byte>)
    requires |bs| == 8
    ensures Read8(bs) == bs[0] as int + 0x100 * bs[1] as int + 0x1_0000 * bs[2] as int + 0x100_0000 * bs[3] as int +
                         0x1_0000_0000 * bs[4] as int + 0x100_0000_0000 * bs[5] as int + 0x1_0000_0000_0000 * bs[6] as int + 0x100_0000_0000_0000 * bs[7] as int
  {
  }

  lemma Read4LittleEndian4(v: nat)
    requires v < TWO32
    ensures Read4(LittleEndian4(v)) == v
  {
    assert v == v % 256 + 256 * (v / 256);
    assert v / 256 == v / 256 % 256 + 256 * (v / 65536);
    assert v / 65536 == v / 65536 % 256 + 256 * (v / 16777216);
  }

  lemma Read8LittleEndian8(v: nat)
    requires v < TWO64
    ensures Read8(LittleEndian8(v)) == v
  {
    Read4LittleEndian4(v % TWO32);
    Read4LittleEndian4(v / TWO32);
    assert LittleEndian8(v)[..4] == LittleEndian4(v % TWO32);
    assert LittleEndian8(v)[4..] == LittleEndian4(v / TWO32);
  }

  function SignExtend(v: nat): (d: int)
    requires v < TWO32
    ensures -TWO31 <= d < TWO31
  {
    if v < TWO31 then v else v - TWO32
  }

  /** check_relative_jump. The bound is 2UL << 31, that is 4 GiB. */
  predicate CheckRelativeJump(from: Address, to: Address) {
    var next := (from + 5) % TWO64;
    (if next < to then to - next else next - to) < TWO32
  }

  /** The bytes static_redirect writes. */
  function JumpBytes(from: Address, to: Address): (bs: seq<Byte>)
    ensures |bs| == if CheckRelativeJump(from, to) then 5 else 14
  {
    if CheckRelativeJump(from, to) then [0xe9] + LittleEndian4((to - from - 5) % TWO32)
    else [0xff, 0x25, 0, 0, 0, 0] + LittleEndian8(to)
  }

  /** Where the processor continues for `jmp rel32` and `jmp [rip + disp32]`; the pointer
      of the latter must lie within the given bytes. */
  function JumpTarget(bs: seq<Byte>, from: Address): (to: int)
    requires |bs| >= 5
    requires bs[0] != 0xe9 ==> |bs| == 14 && bs[..6] == [0xff, 0x25, 0, 0, 0, 0]
  {
    if bs[0] == 0xe9 then (from + 5 + SignExtend(Read4(bs[1..5]))) % TWO64
    else Read8(bs[6..])
  }

  /** The displacement fits a signed 32 bit number, modulo the address size. */
  predicate Reachable32(from: Address, to: Address) {
    || -TWO31 <= to - from - 5 < TWO31
    || -TWO31 <= to - from - 5 + TWO64 < TWO31
    || -TWO31 <= to - from - 5 - TWO64 < TWO31
  }

  /** The written jump leads to the target exactly when the absolute form was chosen or the
      target is within two gigabytes. */
  lemma JumpLandsIff(from: Address, to: Address)
    ensures JumpTarget(JumpBytes(from, to), from) == to <==> !CheckRelativeJump(from, to) || Reachable32(from, to)
  {
    var bs := JumpBytes(from, to);
    if CheckRelativeJump(from, to) {
      var rel := (to - from - 5) % TWO32;
      assert bs[1..5] == LittleEndian4(rel);
      Read4LittleEndian4(rel);
      RelativeTarget(from, to, rel);
    } else {
      assert bs[6..] == LittleEndian8(to);
      Read8LittleEndian8(to);
    }
  }

  lemma RelativeTarget(from: Address, to: Address, rel: nat)
    requires rel == (to - from - 5) % TWO32
    ensures (from + 5 + SignExtend(rel)) % TWO64 == to <==> Reachable32(from, to)
  {
    var d := to - from - 5;
    var q := d / TWO32;
    assert d == q * TWO32 + rel;
    var k := (from + 5 + SignExtend(rel)) / TWO64;
    assert from + 5 + SignExtend(rel) == k * TWO64 + (from + 5 + SignExtend(rel)) % TWO64;
    assert -1 <= k <= 1;
  }

  /** Between two and four gigabytes the jump goes astray. */
  lemma FarRelativeJumpMisses(from: Address, to: Address)
    requires to == from + 5 + TWO31
    ensures CheckRelativeJump(from, to) && JumpTarget(JumpBytes(from, to), from) != to
  {
    assert !Reachable32(from, to);
    JumpLandsIff(from, to);
  }

  // ---------------------------------------------------------------------------
  // State

  datatype Kind = OnlyDynamic | MakeStatic | MadeStatic

  /** How far the jump of a redirection has got: nowhere, into the back buffer of the segment, or into the code. */
  datatype Progress = Unwritten | Pending | Live

  /** A redirection with the opcode it replaced, the tasks that hit its trap, the size of the redirected function, and
      the progress of its jump. The table of the program does not hold the latter two. */
  datatype Entry = Entry(to: Address, kind: Kind, previous: seq<Byte>, tids: set<Tid>, size: nat, jump: Progress)

  /** Code bytes, redirections, and the program counters of all tasks (one of them is the
      helper of the loader, if it runs). */
  datatype State = State(code: map<Address, Byte>, entries: map<Address, Entry>, tasks: map<Tid, Address>, helper: Tid, trap: seq<Byte>)

  /** The instruction a trap mode writes: one byte, or the two bytes of UD2. */
  predicate IsTrap(bs: seq<Byte>) {
    bs == [0xcc] || bs == [0xf1] || bs == [0x0f, 0x0b] || bs == [0x06] || bs == [0xf4]
  }

  /** How many bytes `add` saves when it may later write a jump. */
  function JumpRoom(from: Address, to: Address): (n: nat)
    ensures |JumpBytes(from, to)| <= n <= 16
  {
    if CheckRelativeJump(from, to) then 5 else 16
  }

  predicate Mapped(code: map<Address, Byte>, a: Address, n: nat) {
    forall x :: a <= x < a + n ==> x in code
  }

  function Bytes(code: map<Address, Byte>, a: Address, n: nat): (bs: seq<Byte>)
    requires a + n <= TWO64 && Mapped(code, a, n)
    ensures |bs| == n
  {
    seq(n, i requires 0 <= i < n => code[a + i])
  }

  function Write(code: map<Address, Byte>, a: Address, bs: seq<Byte>): (r: map<Address, Byte>)
    ensures r.Keys == code.Keys
  {
    map x | x in code :: if a <= x < a + |bs| then bs[x - a] else code[x]
  }

  /** How many bytes an entry writes or may write: its trap, or the jump that is to replace it. */
  function Owned(trap: seq<Byte>, from: Address, e: Entry): (n: nat) {
    if e.kind == OnlyDynamic then |trap| else |JumpBytes(from, e.to)|
  }

  /** One of these bytes. */
  predicate Within(trap: seq<Byte>, from: Address, e: Entry, x: int) {
    from <= x < from + Owned(trap, from, e)
  }

  /** Strictly inside the jump that replaces or will replace the trap. */
  predicate Inside(from: Address, e: Entry, pc: int) {
    e.kind != OnlyDynamic && from < pc < from + |JumpBytes(from, e.to)|
  }

  /** No task stops or continues in the middle of redirected bytes. */
  predicate Clear(s: State, pc: Address) {
    forall a <- s.entries :: !Inside(a, s.entries[a], pc)
  }

  /** all_tasks: every task except the helper is among tids. */
  predicate AllTasks(s: State, tids: set<Tid>) {
    forall t <- s.tasks :: t == s.helper || t in tids
  }

  // ---------------------------------------------------------------------------
  // Steps

  datatype Step =
    | Add(from: Address, to: Address, size: nat, makeStatic: bool)
    | Trap(tid: Tid, progress: Progress, returned: bool)
    | Publish(from: Address)
    | Jump(tid: Tid)
    | Run(tid: Tid, pc: Address)
    | Spawn(tid: Tid, pc: Address)
    | Exit(tid: Tid)

  /** The number of bytes `add` saves. */
  function Saved(s: State, from: Address, to: Address, makeStatic: bool): (n: nat) {
    if makeStatic then JumpRoom(from, to) else |s.trap|
  }

  /** The entry that `add` creates for a new address. */
  function NewEntry(s: State, from: Address, to: Address, size: nat, makeStatic: bool): (e: Entry)
    requires from + Saved(s, from, to, makeStatic) <= TWO64 && Mapped(s.code, from, Saved(s, from, to, makeStatic))
  {
    var room := Saved(s, from, to, makeStatic);
    Entry(to, if makeStatic && room <= size then MakeStatic else OnlyDynamic, Bytes(s.code, from, room), {}, size, Unwritten)
  }

  ghost predicate Enabled(s: State, step: Step) {
    match step
    case Add(from, to, size, makeStatic) =>
      // a new address in mapped code, whose written bytes are apart from the other ones and no target of one
      && from + Saved(s, from, to, makeStatic) <= TWO64 && Mapped(s.code, from, Saved(s, from, to, makeStatic))
      && from !in s.entries
      && var e := NewEntry(s, from, to, size, makeStatic);
         && (forall a, x :: a in s.entries && Within(s.trap, a, s.entries[a], x) ==> !Within(s.trap, from, e, x))
         && (forall a <- s.entries :: !Inside(from, e, s.entries[a].to))
         && Clear(s, to) && !Inside(from, e, to)
    case Trap(t, _, _) =>
      // where static_redirect gets with the jump, if it is asked to, and what it returns
      t in s.tasks && s.tasks[t] in s.entries && s.entries[s.tasks[t]].jump != Live
    case Publish(from) =>
      // a later finalize or fault copy brings in the back buffer
      from in s.entries && s.entries[from].jump == Pending
    case Jump(t) =>
      t in s.tasks && s.tasks[t] in s.entries && s.entries[s.tasks[t]].jump == Live
    case Run(t, pc) =>
      // redirected bytes are entered at their first byte only
      && t in s.tasks && s.tasks[t] !in s.entries
      && forall a <- s.entries :: Inside(a, s.entries[a], pc) ==> Inside(a, s.entries[a], s.tasks[t])
    case Spawn(t, pc) => t !in s.tasks && Clear(s, pc)
    case Exit(t) => t in s.tasks
  }

  /** The jump gets into the code. */
  function Published(s: State, from: Address): (r: State)
    requires from in s.entries
  {
    var e := s.entries[from];
    s.(entries := s.entries[from := e.(jump := Live)], code := Write(s.code, from, JumpBytes(from, e.to)))
  }

  /** static_redirect is called: all tasks have hit the trap by now. */
  predicate Asks(s: State, t: Tid)
    requires t in s.tasks && s.tasks[t] in s.entries
  {
    var e := s.entries[s.tasks[t]];
    e.kind == MakeStatic && t !in e.tids && AllTasks(s, e.tids + {t})
  }

  /** The trap handler for a task whose program counter is at the redirected address, without the code. The kind
      follows what finalize returned, which can differ from what it did. */
  function Marked(s: State, t: Tid, written: bool, returned: bool): (r: State)
    requires t in s.tasks && s.tasks[t] in s.entries
  {
    var from := s.tasks[t];
    var e := s.entries[from];
    var f := e.(tids := if e.kind == MakeStatic then e.tids + {t} else e.tids,
                kind := if Asks(s, t) && returned then MadeStatic else e.kind,
                jump := if Asks(s, t) && written then Pending else e.jump);
    s.(tasks := s.tasks[t := e.to], entries := s.entries[from := f])
  }

  function Handled(s: State, t: Tid, progress: Progress, returned: bool): (r: State)
    requires t in s.tasks && s.tasks[t] in s.entries
  {
    var m := Marked(s, t, progress != Unwritten, returned);
    if Asks(s, t) && progress == Live then Published(m, s.tasks[t]) else m
  }

  ghost function Next(s: State, step: Step): (r: State)
    requires Enabled(s, step)
  {
    match step
    case Add(from, to, size, makeStatic) =>
      s.(entries := s.entries[from := NewEntry(s, from, to, size, makeStatic)], code := Write(s.code, from, s.trap))
    case Trap(t, progress, returned) => Handled(s, t, progress, returned)
    case Publish(from) => Published(s, from)
    case Jump(t) => s.(tasks := s.tasks[t := s.entries[s.tasks[t]].to])
    case Run(t, pc) => s.(tasks := s.tasks[t := pc])
    case Spawn(t, pc) => s.(tasks := s.tasks[t := pc])
    case Exit(t) => s.(tasks := s.tasks - {t})
  }

  // ---------------------------------------------------------------------------
  // Invariant

  /** No task that counts is inside bytes that are or may become a jump. */
  ghost predicate TasksClear(s: State) {
    forall a, t :: a in s.entries && t in s.tasks && t != s.helper && (s.entries[a].jump != Unwritten || t in s.entries[a].tids) ==>
      !Inside(a, s.entries[a], s.tasks[t])
  }

  /** Written bytes do not overlap, and no redirection leads into some of them. */
  ghost predicate Apart(s: State) {
    && (forall a, b, x :: a in s.entries && b in s.entries && Within(s.trap, a, s.entries[a], x) && Within(s.trap, b, s.entries[b], x) ==> a == b)
    && (forall a, b :: a in s.entries && b in s.entries ==> !Inside(a, s.entries[a], s.entries[b].to))
  }

  /** What an entry holds at its address: its trap, or the jump to its target. */
  function Patch(s: State, a: Address): (bs: seq<Byte>)
    requires a in s.entries
  {
    if s.entries[a].jump == Live then JumpBytes(a, s.entries[a].to) else s.trap
  }

  /** The bytes that an entry may write were saved as they were originally, and a jump fits the function. */
  ghost predicate EntryKept(s: State, original: map<Address, Byte>, a: Address)
    requires a in s.entries
  {
    var e := s.entries[a];
    var n := Owned(s.trap, a, e);
    && |Patch(s, a)| <= n <= |e.previous|
    && (e.kind != OnlyDynamic ==> n <= e.size) && (e.jump != Unwritten ==> e.kind != OnlyDynamic)
    && a + |e.previous| <= TWO64 && Mapped(original, a, n)
    && e.previous[..n] == Bytes(original, a, n)
  }

  /** The byte at x belongs to the patch of an entry or is the original one. */
  ghost predicate ByteKept(s: State, original: map<Address, Byte>, x: Address)
    requires x in original && x in s.code
  {
    && ((forall a <- s.entries :: !Within(s.trap, a, s.entries[a], x)) ==> s.code[x] == original[x])
    && (forall a <- s.entries :: Within(s.trap, a, s.entries[a], x) ==>
          s.code[x] == if x < a + |Patch(s, a)| then Patch(s, a)[x - a] else original[x])
  }

  ghost predicate CodeKept(s: State, original: map<Address, Byte>) {
    && s.code.Keys == original.Keys
    && (forall a <- s.entries :: EntryKept(s, original, a))
    && (forall x <- original :: ByteKept(s, original, x))
  }

  ghost predicate Safe(s: State, original: map<Address, Byte>) {
    IsTrap(s.trap) && TasksClear(s) && Apart(s) && CodeKept(s, original)
  }

  /** No patch reaches the bytes that a new entry may write. */
  lemma AddFindsOriginal(s: State, original: map<Address, Byte>, step: Step, x: Address)
    requires Safe(s, original) && step.Add? && Enabled(s, step)
    requires Within(s.trap, step.from, NewEntry(s, step.from, step.to, step.size, step.makeStatic), x)
    ensures x in s.code && x in original && s.code[x] == original[x]
  {
    assert x in s.code;
    assert ByteKept(s, original, x);
  }

  lemma AddKeepsOwnEntry(s: State, original: map<Address, Byte>, step: Step)
    requires Safe(s, original) && step.Add? && Enabled(s, step)
    ensures EntryKept(Next(s, step), original, step.from)
  {
    var from := step.from;
    var e := NewEntry(s, from, step.to, step.size, step.makeStatic);
    var n := Owned(s.trap, from, e);
    forall x: Address | from <= x < from + n ensures x in original && s.code[x] == original[x] {
      AddFindsOriginal(s, original, step, x);
    }
    assert e.previous[..n] == Bytes(original, from, n);
  }

  lemma AddKeepsEntry(s: State, original: map<Address, Byte>, step: Step, a: Address)
    requires Safe(s, original) && step.Add? && Enabled(s, step) && a in Next(s, step).entries
    ensures EntryKept(Next(s, step), original, a)
  {
    if a == step.from {
      AddKeepsOwnEntry(s, original, step);
    } else {
      assert EntryKept(s, original, a);
    }
  }

  /** What the byte at x should be while a owns it. */
  ghost predicate OwnedByteKept(s: State, original: map<Address, Byte>, a: Address, x: Address)
    requires a in s.entries
  {
    x in original && x in s.code && Within(s.trap, a, s.entries[a], x) &&
    s.code[x] == if x < a + |Patch(s, a)| then Patch(s, a)[x - a] else original[x]
  }

  lemma OtherOwnedByte(s: State, r: State, original: map<Address, Byte>, a: Address, x: Address)
    requires a in s.entries && OwnedByteKept(s, original, a, x)
    requires a in r.entries && r.entries[a] == s.entries[a] && r.trap == s.trap
    requires x in r.code && r.code[x] == s.code[x]
    ensures OwnedByteKept(r, original, a, x)
  {
  }

  lemma AddedByte(s: State, r: State, original: map<Address, Byte>, from: Address, x: Address)
    requires from in r.entries && r.entries[from].jump != Live && r.trap == s.trap && r.code == Write(s.code, from, s.trap)
    requires Within(r.trap, from, r.entries[from], x) && x in original && x in s.code && s.code[x] == original[x]
    ensures OwnedByteKept(r, original, from, x)
  {
  }

  lemma AddKeepsOwnByte(s: State, original: map<Address, Byte>, step: Step, x: Address)
    requires Safe(s, original) && step.Add? && Enabled(s, step) && x in original
    requires Within(s.trap, step.from, Next(s, step).entries[step.from], x)
    ensures OwnedByteKept(Next(s, step), original, step.from, x)
  {
    AddFindsOriginal(s, original, step, x);
    AddedByte(s, Next(s, step), original, step.from, x);
  }

  lemma AddKeepsOtherByte(s: State, original: map<Address, Byte>, step: Step, x: Address, a: Address)
    requires Safe(s, original) && step.Add? && Enabled(s, step) && x in original
    requires a in s.entries && Within(s.trap, a, s.entries[a], x)
    ensures a in Next(s, step).entries && OwnedByteKept(Next(s, step), original, a, x)
  {
    assert ByteKept(s, original, x);
    assert !Within(s.trap, step.from, NewEntry(s, step.from, step.to, step.size, step.makeStatic), x);
    OtherOwnedByte(s, Next(s, step), original, a, x);
  }

  lemma AddKeepsOwnedByte(s: State, original: map<Address, Byte>, step: Step, x: Address, a: Address)
    requires Safe(s, original) && step.Add? && Enabled(s, step) && x in original
    requires a in Next(s, step).entries && Within(s.trap, a, Next(s, step).entries[a], x)
    ensures OwnedByteKept(Next(s, step), original, a, x)
  {
    if a == step.from {
      AddKeepsOwnByte(s, original, step, x);
    } else {
      AddKeepsOtherByte(s, original, step, x, a);
    }
  }

  lemma AddKeepsFreeByte(s: State, original: map<Address, Byte>, step: Step, x: Address)
    requires Safe(s, original) && step.Add? && Enabled(s, step) && x in original
    requires forall a :: a in Next(s, step).entries ==> !Within(s.trap, a, Next(s, step).entries[a], x)
    ensures Next(s, step).code[x] == original[x]
  {
    var r := Next(s, step);
    assert ByteKept(s, original, x);
    assert step.from in r.entries && !Within(s.trap, step.from, r.entries[step.from], x);
    forall a | a in s.entries ensures !Within(s.trap, a, s.entries[a], x) {
      assert a in r.entries && r.entries[a] == s.entries[a];
    }
  }

  lemma AddKeepsByte(s: State, original: map<Address, Byte>, step: Step, x: Address)
    requires Safe(s, original) && step.Add? && Enabled(s, step) && x in original
    ensures ByteKept(Next(s, step), original, x)
  {
    var r := Next(s, step);
    forall a | a in r.entries && Within(r.trap, a, r.entries[a], x)
      ensures r.code[x] == if x < a + |Patch(r, a)| then Patch(r, a)[x - a] else original[x]
    {
      AddKeepsOwnedByte(s, original, step, x, a);
    }
    if forall a :: a in r.entries ==> !Within(r.trap, a, r.entries[a], x) {
      AddKeepsFreeByte(s, original, step, x);
    }
  }

  lemma AddKeepsCode(s: State, original: map<Address, Byte>, step: Step)
    requires Safe(s, original) && step.Add? && Enabled(s, step)
    ensures CodeKept(Next(s, step), original)
  {
    var r := Next(s, step);
    forall a | a in r.entries ensures EntryKept(r, original, a) {
      AddKeepsEntry(s, original, step, a);
    }
    forall x | x in original ensures ByteKept(r, original, x) {
      AddKeepsByte(s, original, step, x);
    }
  }

  lemma AddKeepsApart(s: State, original: map<Address, Byte>, step: Step)
    requires Safe(s, original) && step.Add? && Enabled(s, step)
    ensures Apart(Next(s, step)) && TasksClear(Next(s, step))
  {
  }

  /** Entries that keep their place, target and patch. */
  predicate SamePlace(e: Entry, f: Entry) {
    && f.previous == e.previous && f.to == e.to && f.size == e.size && (f.kind == OnlyDynamic <==> e.kind == OnlyDynamic)
    && (f.jump != Unwritten ==> f.kind != OnlyDynamic)
  }

  predicate SameTable(s: State, r: State) {
    r.entries.Keys == s.entries.Keys && r.trap == s.trap && forall a <- s.entries :: SamePlace(s.entries[a], r.entries[a])
  }

  /** They keep apart. */
  lemma ApartKept(s: State, r: State)
    requires Apart(s) && SameTable(s, r)
    ensures Apart(r)
  {
    forall a, b, x | a in r.entries && b in r.entries && Within(r.trap, a, r.entries[a], x) && Within(r.trap, b, r.entries[b], x)
      ensures a == b
    {
      assert SamePlace(s.entries[a], r.entries[a]) && SamePlace(s.entries[b], r.entries[b]);
      assert Within(s.trap, a, s.entries[a], x) && Within(s.trap, b, s.entries[b], x);
    }
    forall a, b | a in r.entries && b in r.entries ensures !Inside(a, r.entries[a], r.entries[b].to) {
      assert SamePlace(s.entries[a], r.entries[a]) && SamePlace(s.entries[b], r.entries[b]);
      assert !Inside(a, s.entries[a], s.entries[b].to);
    }
  }

  /** Only the progress of a jump that is in the code counts for the bytes. */
  lemma SameByteKept(s: State, r: State, original: map<Address, Byte>, x: Address)
    requires SameTable(s, r) && r.code == s.code && x in original && x in s.code && ByteKept(s, original, x)
    requires forall a :: a in s.entries ==> (r.entries[a].jump == Live <==> s.entries[a].jump == Live)
    ensures ByteKept(r, original, x)
  {
    forall a | a in s.entries
      ensures Within(r.trap, a, r.entries[a], x) <==> Within(s.trap, a, s.entries[a], x)
      ensures Patch(r, a) == Patch(s, a)
    {
      assert SamePlace(s.entries[a], r.entries[a]);
    }
    assert forall a :: a in r.entries ==> a in s.entries;
  }

  lemma SameCodeKept(s: State, r: State, original: map<Address, Byte>)
    requires SameTable(s, r) && r.code == s.code && CodeKept(s, original)
    requires forall a :: a in s.entries ==> (r.entries[a].jump == Live <==> s.entries[a].jump == Live)
    ensures CodeKept(r, original)
  {
    forall a | a in r.entries ensures EntryKept(r, original, a) {
      assert EntryKept(s, original, a) && SamePlace(s.entries[a], r.entries[a]);
    }
    forall x | x in original ensures ByteKept(r, original, x) {
      SameByteKept(s, r, original, x);
    }
  }

  /** The handler changes the kind, the tasks and the progress of one entry, nothing else of the table. */
  lemma MarkedTable(s: State, original: map<Address, Byte>, t: Tid, written: bool, returned: bool)
    requires Safe(s, original) && t in s.tasks && s.tasks[t] in s.entries && s.entries[s.tasks[t]].jump != Live
    ensures var r := Marked(s, t, written, returned);
            && SameTable(s, r) && r.helper == s.helper && r.code == s.code
            && (forall a <- s.entries :: a != s.tasks[t] ==> r.entries[a] == s.entries[a])
            && (forall a <- s.entries :: r.entries[a].jump == Live <==> s.entries[a].jump == Live)
            && r.tasks == s.tasks[t := s.entries[s.tasks[t]].to]
  {
    forall a | a in s.entries ensures SamePlace(s.entries[a], Marked(s, t, written, returned).entries[a]) {
      assert EntryKept(s, original, a);
    }
  }

  /** When static_redirect is called, no task except the helper is strictly inside the bytes of the jump. */
  lemma AskedIsClear(s: State, original: map<Address, Byte>, t: Tid, u: Tid)
    requires Safe(s, original) && t in s.tasks && s.tasks[t] in s.entries && Asks(s, t) && u in s.tasks && u != s.helper
    ensures !Inside(s.tasks[t], s.entries[s.tasks[t]], s.tasks[u])
  {
    var from := s.tasks[t];
    if u != t {
      assert u in s.entries[from].tids;
      assert !Inside(from, s.entries[from], s.tasks[u]);
    }
  }

  lemma MarkedTaskClear(s: State, original: map<Address, Byte>, t: Tid, written: bool, returned: bool, a: Address, u: Tid)
    requires Safe(s, original) && t in s.tasks && s.tasks[t] in s.entries && s.entries[s.tasks[t]].jump != Live
    requires a in s.entries && u in s.tasks && u != s.helper
    requires var e := Marked(s, t, written, returned).entries[a]; e.jump != Unwritten || u in e.tids
    ensures !Inside(a, s.entries[a], Marked(s, t, written, returned).tasks[u])
  {
    var from := s.tasks[t];
    if u == t {
      assert !Inside(a, s.entries[a], s.entries[from].to);
    } else if a == from && Asks(s, t) {
      AskedIsClear(s, original, t, u);
    } else {
      assert !Inside(a, s.entries[a], s.tasks[u]);
    }
  }

  lemma MarkedIsSafe(s: State, original: map<Address, Byte>, t: Tid, written: bool, returned: bool)
    requires Safe(s, original) && t in s.tasks && s.tasks[t] in s.entries && s.entries[s.tasks[t]].jump != Live
    ensures Safe(Marked(s, t, written, returned), original)
  {
    var r := Marked(s, t, written, returned);
    MarkedTable(s, original, t, written, returned);
    ApartKept(s, r);
    SameCodeKept(s, r, original);
    forall a, u | a in r.entries && u in r.tasks && u != r.helper && (r.entries[a].jump != Unwritten || u in r.entries[a].tids)
      ensures !Inside(a, r.entries[a], r.tasks[u])
    {
      assert SamePlace(s.entries[a], r.entries[a]);
      MarkedTaskClear(s, original, t, written, returned, a, u);
    }
  }

  lemma PatchedByte(s: State, original: map<Address, Byte>, from: Address, x: Address, bs: seq<Byte>, r: State)
    requires from in s.entries && OwnedByteKept(s, original, from, x) && |Patch(s, from)| <= |bs|
    requires from in r.entries && SamePlace(s.entries[from], r.entries[from]) && r.trap == s.trap && Patch(r, from) == bs
    requires r.code == Write(s.code, from, bs)
    ensures OwnedByteKept(r, original, from, x)
  {
  }

  /** A jump that is waiting in the back buffer. */
  ghost predicate Waits(s: State, original: map<Address, Byte>, from: Address) {
    Safe(s, original) && from in s.entries && s.entries[from].jump == Pending
  }

  lemma PublishedOwnedByte(s: State, original: map<Address, Byte>, from: Address, x: Address, a: Address)
    requires Waits(s, original, from) && x in original && a in s.entries && Within(s.trap, a, s.entries[a], x)
    ensures a in Published(s, from).entries && OwnedByteKept(Published(s, from), original, a, x)
  {
    var r := Published(s, from);
    assert ByteKept(s, original, x) && EntryKept(s, original, from);
    if a == from {
      PatchedByte(s, original, from, x, JumpBytes(from, s.entries[from].to), r);
    } else {
      assert !Within(s.trap, from, s.entries[from], x);
      OtherOwnedByte(s, r, original, a, x);
    }
  }

  lemma PublishedFreeByte(s: State, original: map<Address, Byte>, from: Address, x: Address)
    requires Waits(s, original, from) && x in original
    requires forall a :: a in s.entries ==> !Within(s.trap, a, s.entries[a], x)
    ensures x in s.code && Published(s, from).code[x] == original[x]
  {
    assert ByteKept(s, original, x) && EntryKept(s, original, from);
    assert !Within(s.trap, from, s.entries[from], x);
  }

  lemma PublishedTable(s: State, original: map<Address, Byte>, from: Address)
    requires Waits(s, original, from)
    ensures SameTable(s, Published(s, from))
  {
    forall a | a in s.entries ensures SamePlace(s.entries[a], Published(s, from).entries[a]) {
      assert EntryKept(s, original, a);
    }
  }

  lemma SameWithin(s: State, r: State, a: Address, x: Address)
    requires SameTable(s, r) && a in s.entries
    ensures Within(r.trap, a, r.entries[a], x) <==> Within(s.trap, a, s.entries[a], x)
  {
    assert SamePlace(s.entries[a], r.entries[a]);
  }

  lemma PublishedByte(s: State, original: map<Address, Byte>, from: Address, x: Address)
    requires Waits(s, original, from) && x in original
    ensures x in Published(s, from).code && ByteKept(Published(s, from), original, x)
  {
    var r := Published(s, from);
    PublishedTable(s, original, from);
    forall a | a in s.entries ensures Within(r.trap, a, r.entries[a], x) <==> Within(s.trap, a, s.entries[a], x) {
      SameWithin(s, r, a, x);
    }
    forall a | a in r.entries && Within(r.trap, a, r.entries[a], x)
      ensures r.code[x] == if x < a + |Patch(r, a)| then Patch(r, a)[x - a] else original[x]
    {
      PublishedOwnedByte(s, original, from, x, a);
    }
    if forall a :: a in s.entries ==> !Within(s.trap, a, s.entries[a], x) {
      PublishedFreeByte(s, original, from, x);
    }
  }

  lemma PublishedEntry(s: State, original: map<Address, Byte>, from: Address, a: Address)
    requires Waits(s, original, from) && a in s.entries
    ensures EntryKept(Published(s, from), original, a)
  {
    assert EntryKept(s, original, a);
  }

  lemma PublishedCode(s: State, original: map<Address, Byte>, from: Address)
    requires Waits(s, original, from)
    ensures CodeKept(Published(s, from), original)
  {
    var r := Published(s, from);
    forall a | a in r.entries ensures EntryKept(r, original, a) {
      PublishedEntry(s, original, from, a);
    }
    forall x | x in original ensures x in r.code && ByteKept(r, original, x) {
      PublishedByte(s, original, from, x);
    }
  }

  lemma PublishedIsSafe(s: State, original: map<Address, Byte>, from: Address)
    requires Waits(s, original, from)
    ensures Safe(Published(s, from), original)
  {
    var r := Published(s, from);
    PublishedTable(s, original, from);
    ApartKept(s, r);
    PublishedCode(s, original, from);
  }

  lemma HandledIsSafe(s: State, original: map<Address, Byte>, step: Step)
    requires Safe(s, original) && step.Trap? && Enabled(s, step)
    ensures Safe(Next(s, step), original)
  {
    var t := step.tid;
    MarkedIsSafe(s, original, t, step.progress != Unwritten, step.returned);
    if Asks(s, t) && step.progress == Live {
      PublishedIsSafe(Marked(s, t, true, step.returned), original, s.tasks[t]);
    }
  }

  /** The jump of the entry gets into the code with this step. */
  ghost predicate Patches(s: State, step: Step, from: Address)
    requires Enabled(s, step)
  {
    from in s.entries && s.entries[from].jump != Live && from in Next(s, step).entries && Next(s, step).entries[from].jump == Live
  }

  /** Exactly the trap handler and the publication of a waiting jump do that. */
  lemma PatchesIff(s: State, step: Step, from: Address)
    requires Enabled(s, step)
    ensures Patches(s, step, from) <==>
              || step == Publish(from)
              || (step.Trap? && s.tasks[step.tid] == from && Asks(s, step.tid) && step.progress == Live)
  {
  }

  /** The moment of the patch: no task except the helper is strictly inside the bytes that
      are overwritten, and the jump fits the function and the saved opcode. */
  lemma PatchIsSafe(s: State, original: map<Address, Byte>, step: Step, from: Address)
    requires Safe(s, original) && Enabled(s, step) && Patches(s, step, from)
    ensures var n := |JumpBytes(from, s.entries[from].to)|;
            && s.entries[from].kind != OnlyDynamic && n <= s.entries[from].size && n <= |s.entries[from].previous|
            && forall u <- s.tasks :: u == s.helper || !(from < s.tasks[u] < from + n)
  {
    PatchesIff(s, step, from);
    assert EntryKept(s, original, from) && s.entries[from].kind != OnlyDynamic;
    forall u | u in s.tasks && u != s.helper ensures !Inside(from, s.entries[from], s.tasks[u]) {
      if step.Trap? {
        AskedIsClear(s, original, step.tid, u);
      }
    }
  }

  /** What static_redirect did and what it returned can differ: then the jump is in the code and the entry is still to
      be made static, or the entry is made static and the trap is still in the code. */
  lemma MadeStaticIff(s: State, step: Step)
    requires step.Trap? && Enabled(s, step) && Asks(s, step.tid)
    ensures var e := Next(s, step).entries[s.tasks[step.tid]];
            (e.kind == MadeStatic <==> e.jump == Live) <==> (step.returned <==> step.progress == Live)
  {
  }

  /** Moving tasks around leaves code and table alone. */
  lemma TasksOnly(s: State, original: map<Address, Byte>, r: State)
    requires Safe(s, original) && r == s.(tasks := r.tasks)
    ensures Apart(r) && CodeKept(r, original)
  {
    forall a | a in r.entries ensures EntryKept(r, original, a) {
      assert EntryKept(s, original, a);
    }
    forall x | x in original ensures ByteKept(r, original, x) {
      assert ByteKept(s, original, x);
      assert forall a :: a in s.entries ==> Patch(r, a) == Patch(s, a);
    }
  }

  /** Every step of every task keeps the invariant. */
  lemma StepIsSafe(s: State, original: map<Address, Byte>, step: Step)
    requires Safe(s, original) && Enabled(s, step)
    ensures Safe(Next(s, step), original)
  {
    match step
    case Add(_, _, _, _) =>
      AddKeepsCode(s, original, step);
      AddKeepsApart(s, original, step);
    case Trap(_, _, _) => HandledIsSafe(s, original, step);
    case Publish(from) => PublishedIsSafe(s, original, from);
    case Jump(_) => TasksOnly(s, original, Next(s, step));
    case Run(_, _) => TasksOnly(s, original, Next(s, step));
    case Spawn(_, _) => TasksOnly(s, original, Next(s, step));
    case Exit(_) => TasksOnly(s, original, Next(s, step));
  }

  /** steps leads from s to end. */
  ghost predicate Runs(s: State, steps: seq<Step>, end: State)
    decreases |steps|
  {
    if steps == [] then end == s else Enabled(s, steps[0]) && Runs(Next(s, steps[0]), steps[1..], end)
  }

  lemma {:induction false} RunIsSafe(s: State, original: map<Address, Byte>, steps: seq<Step>, end: State)
    requires Safe(s, original) && Runs(s, steps, end)
    ensures Safe(end, original)
    decreases |steps|
  {
    if steps != [] {
      StepIsSafe(s, original, steps[0]);
      RunIsSafe(Next(s, steps[0]), original, steps[1..], end);
    }
  }

  /** Over all interleavings from a program without redirections: whenever a trap becomes a
      jump, at once or when its back buffer is published later, no task but the helper is strictly inside the overwritten bytes; the jump fits the
      function and the saved bytes, which are the original ones as far as it reaches; and all
      code outside the written bytes is the original. */
  lemma EveryPatchIsSafe(s: State, steps: seq<Step>, end: State, step: Step, from: Address)
    requires IsTrap(s.trap) && s.entries == map[] && Runs(s, steps, end)
    requires Enabled(end, step) && Patches(end, step, from)
    ensures var e := end.entries[from];
            var n := |JumpBytes(from, e.to)|;
            && n <= e.size && n <= |e.previous| && from + n <= TWO64
            && Mapped(s.code, from, n) && e.previous[..n] == Bytes(s.code, from, n)
            && forall u <- end.tasks :: u == end.helper || !(from < end.tasks[u] < from + n)
    ensures forall x <- s.code :: (forall a <- end.entries :: !Within(end.trap, a, end.entries[a], x)) ==> x in end.code && end.code[x] == s.code[x]
  {
    assert Safe(s, s.code);
    RunIsSafe(s, s.code, steps, end);
    PatchIsSafe(end, s.code, step, from);
    SavedIsOriginal(end, s.code, from);
    CodeElsewhereKept(end, s.code);
  }

  // ---------------------------------------------------------------------------
  // When the jump is asked for, and where tasks go

  /** The task hits the trap at `from` while the redirection is to be made static. */
  predicate Hits(s: State, step: Step, t: Tid, from: Address) {
    && step.Trap? && step.tid == t && t in s.tasks && s.tasks[t] == from
    && from in s.entries && s.entries[from].kind == MakeStatic
  }

  /** It did so in the run. */
  ghost predicate HasHit(s: State, steps: seq<Step>, t: Tid, from: Address)
    decreases |steps|
  {
    steps != [] && (Hits(s, steps[0], t, from) || (Enabled(s, steps[0]) && HasHit(Next(s, steps[0]), steps[1..], t, from)))
  }

  lemma StepRemembers(s: State, step: Step, t: Tid, from: Address)
    requires Enabled(s, step) && from in Next(s, step).entries
    ensures t in Next(s, step).entries[from].tids <==> (from in s.entries && t in s.entries[from].tids) || Hits(s, step, t, from)
    ensures from !in s.entries ==> !Hits(s, step, t, from)
  {
  }

  lemma EntriesStay(s: State, step: Step)
    requires Enabled(s, step)
    ensures s.entries.Keys <= Next(s, step).entries.Keys
  {
  }

  /** Exactly the tasks that hit the trap in the run, or before, are remembered. */
  lemma {:induction false} RemembersIff(s: State, steps: seq<Step>, end: State, t: Tid, from: Address)
    requires Runs(s, steps, end) && from in end.entries
    ensures t in end.entries[from].tids <==> (from in s.entries && t in s.entries[from].tids) || HasHit(s, steps, t, from)
    decreases |steps|
  {
    if steps != [] {
      var n := Next(s, steps[0]);
      RemembersIff(n, steps[1..], end, t, from);
      EntriesStay(s, steps[0]);
      if from in n.entries {
        StepRemembers(s, steps[0], t, from);
      }
    }
  }

  /** Over all runs from a program without redirections, a trap asks for the jump if and only if the redirection is to be
      made static, every other task alive but the helper has hit it before, and this task has not. */
  lemma JumpAskedIff(s: State, steps: seq<Step>, end: State, t: Tid)
    requires s.entries == map[] && Runs(s, steps, end) && t in end.tasks && end.tasks[t] in end.entries
    ensures var from := end.tasks[t];
            Asks(end, t) <==>
              && end.entries[from].kind == MakeStatic && !HasHit(s, steps, t, from)
              && forall u <- end.tasks :: u == t || u == end.helper || HasHit(s, steps, u, from)
  {
    var from := end.tasks[t];
    RemembersIff(s, steps, end, t, from);
    forall u | u in end.tasks ensures u in end.entries[from].tids <==> HasHit(s, steps, u, from) {
      RemembersIff(s, steps, end, u, from);
    }
  }

  lemma TargetStays(s: State, step: Step, from: Address)
    requires Enabled(s, step) && from in s.entries
    ensures from in Next(s, step).entries && Next(s, step).entries[from].to == s.entries[from].to
  {
  }

  lemma {:induction false} TargetKept(s: State, steps: seq<Step>, end: State, from: Address)
    requires Runs(s, steps, end) && from in s.entries
    ensures from in end.entries && end.entries[from].to == s.entries[from].to
    decreases |steps|
  {
    if steps != [] {
      TargetStays(s, steps[0], from);
      TargetKept(Next(s, steps[0]), steps[1..], end, from);
    }
  }

  /** From then on a task that gets to a redirected address continues at the target the redirection was added with,
      through the trap or through the jump, and no other task moves. */
  lemma LeadsToTarget(s: State, add: Step, steps: seq<Step>, end: State, step: Step)
    requires Enabled(s, add) && add.Add? && Runs(Next(s, add), steps, end)
    requires Enabled(end, step) && (step.Trap? || step.Jump?) && end.tasks[step.tid] == add.from
    ensures Next(end, step).tasks == end.tasks[step.tid := add.to]
  {
    TargetKept(Next(s, add), steps, end, add.from);
  }

  lemma SavedIsOriginal(s: State, original: map<Address, Byte>, from: Address)
    requires Safe(s, original) && from in s.entries
    ensures var e := s.entries[from];
            var n := |JumpBytes(from, e.to)|;
            e.kind != OnlyDynamic ==> from + n <= TWO64 && Mapped(original, from, n) && n <= |e.previous| && e.previous[..n] == Bytes(original, from, n)
  {
    assert EntryKept(s, original, from);
  }

  /** Bytes that no entry covers are the original ones. */
  lemma CodeElsewhereKept(s: State, original: map<Address, Byte>)
    requires Safe(s, original)
    ensures forall x <- original :: (forall a <- s.entries :: !Within(s.trap, a, s.entries[a], x)) ==> x in s.code && s.code[x] == original[x]
  {
    forall x | x in original && forall a :: a in s.entries ==> !Within(s.trap, a, s.entries[a], x)
      ensures x in s.code && s.code[x] == original[x]
    {
      assert ByteKept(s, original, x);
    }
  }

  /** The room for a jump is that of the relative form for targets less than four gigabytes from its end. */
  lemma JumpRoomIs(from: Address, to: Address)
    ensures JumpRoom(from, to) == if -TWO32 < to - (from + 5) % TWO64 < TWO32 then 5 else 16
  {
  }

  /** A redirection is to be made static exactly when that is asked for and the function is
      long enough for the saved bytes, hence for the jump. */
  lemma StaticFits(s: State, step: Step)
    requires step.Add? && Enabled(s, step)
    ensures var e := Next(s, step).entries[step.from];
            && (e.kind == MakeStatic <==> step.makeStatic && step.size >= if -TWO32 < step.to - (step.from + 5) % TWO64 < TWO32 then 5 else 16)
            && (e.kind == MakeStatic ==> |JumpBytes(step.from, step.to)| <= |e.previous| <= step.size)
  {
    JumpRoomIs(step.from, step.to);
  }

  /** No patch shows a byte other than the original one in that range. */
  ghost predicate ShowsOriginal(s: State, original: map<Address, Byte>, from: Address, n: nat) {
    forall a, x: Address :: a in s.entries && from <= x < from + n && a <= x < a + |Patch(s, a)| && x in original ==>
      Patch(s, a)[x - a] == original[x]
  }

  lemma ShownByte(s: State, original: map<Address, Byte>, from: Address, n: nat, x: Address)
    requires Safe(s, original) && ShowsOriginal(s, original, from, n) && from <= x < from + n && x in original
    ensures x in s.code && s.code[x] == original[x]
  {
    assert ByteKept(s, original, x);
    if a :| a in s.entries && Within(s.trap, a, s.entries[a], x) {
      assert x < a + |Patch(s, a)| ==> Patch(s, a)[x - a] == original[x];
    }
  }

  /** All saved bytes are the original ones if and only if no earlier patch shows another byte among them: beyond
      the bytes that a redirection may write, it can save those of a neighbour. */
  lemma SavesOriginalIff(s: State, original: map<Address, Byte>, step: Step)
    requires Safe(s, original) && step.Add? && Enabled(s, step)
    ensures var from, e := step.from, NewEntry(s, step.from, step.to, step.size, step.makeStatic);
            && Mapped(original, from, |e.previous|)
            && (e.previous == Bytes(original, from, |e.previous|) <==> ShowsOriginal(s, original, from, |e.previous|))
  {
    RangeOriginalIff(s, original, step.from, Saved(s, step.from, step.to, step.makeStatic));
  }

  lemma RangeOriginalIff(s: State, original: map<Address, Byte>, from: Address, n: nat)
    requires Safe(s, original) && from + n <= TWO64 && Mapped(s.code, from, n)
    ensures Mapped(original, from, n)
    ensures Bytes(s.code, from, n) == Bytes(original, from, n) <==> ShowsOriginal(s, original, from, n)
  {
    if Bytes(s.code, from, n) == Bytes(original, from, n) {
      EqualShows(s, original, from, n);
    }
    if ShowsOriginal(s, original, from, n) {
      ShowsEqual(s, original, from, n);
    }
  }

  lemma PatchedSame(s: State, original: map<Address, Byte>, from: Address, n: nat, a: Address, x: Address)
    requires Safe(s, original) && from + n <= TWO64 && Mapped(s.code, from, n) && Mapped(original, from, n)
    requires Bytes(s.code, from, n) == Bytes(original, from, n)
    requires a in s.entries && from <= x < from + n && a <= x < a + |Patch(s, a)|
    ensures x in original && Patch(s, a)[x - a] == original[x]
  {
    PatchShown(s, original, a, x);
    SameByte(s.code, original, from, n, x);
  }

  lemma EqualShows(s: State, original: map<Address, Byte>, from: Address, n: nat)
    requires Safe(s, original) && from + n <= TWO64 && Mapped(s.code, from, n) && Mapped(original, from, n)
    requires Bytes(s.code, from, n) == Bytes(original, from, n)
    ensures ShowsOriginal(s, original, from, n)
  {
    forall a, x: Address | a in s.entries && from <= x < from + n && a <= x < a + |Patch(s, a)| && x in original
      ensures Patch(s, a)[x - a] == original[x]
    {
      PatchedSame(s, original, from, n, a, x);
    }
  }

  lemma SameByte(code: map<Address, Byte>, original: map<Address, Byte>, from: Address, n: nat, x: Address)
    requires from + n <= TWO64 && Mapped(code, from, n) && Mapped(original, from, n) && from <= x < from + n
    requires Bytes(code, from, n) == Bytes(original, from, n)
    ensures code[x] == original[x]
  {
    assert Bytes(code, from, n)[x - from] == Bytes(original, from, n)[x - from];
  }

  lemma ShowsEqual(s: State, original: map<Address, Byte>, from: Address, n: nat)
    requires Safe(s, original) && from + n <= TWO64 && Mapped(s.code, from, n) && Mapped(original, from, n)
    requires ShowsOriginal(s, original, from, n)
    ensures Bytes(s.code, from, n) == Bytes(original, from, n)
  {
    forall i | 0 <= i < n ensures Bytes(s.code, from, n)[i] == Bytes(original, from, n)[i] {
      ShownByte(s, original, from, n, from + i);
    }
  }

  lemma PatchShown(s: State, original: map<Address, Byte>, a: Address, x: Address)
    requires Safe(s, original) && a in s.entries && a <= x < a + |Patch(s, a)|
    ensures x in s.code && s.code[x] == Patch(s, a)[x - a]
  {
    assert EntryKept(s, original, a);
    assert Within(s.trap, a, s.entries[a], x);
    assert ByteKept(s, original, x);
  }

  /** A run in which it does not: a function of four bytes next to one that is redirected already. The five bytes
      saved for the first one end with the trap of the second one. */
  lemma ShortFunctionSavesTrap(s: State, to: Address) returns (steps: seq<Step>, end: State)
    requires s.trap == [0xcc] && s.entries == map[] && Mapped(s.code, 0, 16) && s.code[4] != 0xcc && 16 <= to < TWO31
    ensures |steps| == 2 && Runs(s, steps, end)
    ensures 0 in end.entries && end.entries[0].kind == OnlyDynamic && |end.entries[0].previous| == 5
    ensures end.entries[0].previous != Bytes(s.code, 0, 5)
  {
    var second, first := Add(4, to, 8, false), Add(0, to, 4, true);
    var middle := Next(s, second);
    end := Next(middle, first);
    steps := [second, first];
    assert steps[1..] == [first] && [first][1..] == [];
    assert Runs(end, [], end);
    assert Runs(middle, [first], end);
    assert end.entries[0].previous[4] == 0xcc && Bytes(s.code, 0, 5)[4] == s.code[4];
  }

  /** The code at a redirected address is its patch. */
  lemma PatchBytes(s: State, original: map<Address, Byte>, a: Address)
    requires Safe(s, original) && a in s.entries
    ensures var n := |Patch(s, a)|; a + n <= TWO64 && Mapped(s.code, a, n) && Bytes(s.code, a, n) == Patch(s, a)
  {
    assert EntryKept(s, original, a);
    forall x: Address | a <= x < a + |Patch(s, a)| ensures x in s.code && s.code[x] == Patch(s, a)[x - a] {
      PatchShown(s, original, a, x);
    }
  }

  /** After the patch the processor reaches the target from the redirected address exactly
      when the target is not between two and four gigabytes away. */
  lemma PatchedCodeJumps(s: State, original: map<Address, Byte>, a: Address)
    requires Safe(s, original) && a in s.entries && s.entries[a].jump == Live
    ensures var to := s.entries[a].to;
            var n := |JumpBytes(a, to)|;
            && a + n <= TWO64 && Mapped(s.code, a, n)
            && Bytes(s.code, a, n) == JumpBytes(a, to)
            && (JumpTarget(Bytes(s.code, a, n), a) == to <==> !CheckRelativeJump(a, to) || Reachable32(a, to))
  {
    PatchBytes(s, original, a);
    JumpLandsIff(a, s.entries[a].to);
  }

  // ---------------------------------------------------------------------------
  // The global tables, changed in place

  class Redirections {
    var code: map<Address, Byte>
    var entries: map<Address, Entry>
    var tasks: map<Tid, Address>
    const helper: Tid
    const trap: seq<Byte>

    /** A program without redirections. */
    constructor (code: map<Address, Byte>, tasks: map<Tid, Address>, helper: Tid, trap: seq<Byte>)
      requires IsTrap(trap)
      ensures View() == State(code, map[], tasks, helper, trap) && Safe(View(), code)
    {
      this.code, this.tasks, this.helper, this.trap := code, tasks, helper, trap;
      entries := map[];
    }

    function View(): (s: State)
      reads this
    {
      State(code, entries, tasks, helper, trap)
    }

    /** all_tasks: the loop over the running threads. */
    method CheckAllTasks(tids: set<Tid>) returns (all: bool)
      ensures all <==> AllTasks(View(), tids)
    {
      var todo := tasks.Keys;
      while todo != {}
        invariant todo <= tasks.Keys
        invariant forall t :: t in tasks && t !in todo ==> t == helper || t in tids
        decreases todo
      {
        var t :| t in todo;
        if t != helper && t !in tids {
          return false;
        }
        todo := todo - {t};
      }
      all := true;
    }

    /** trap_handler for a task stopped at a registered trap. */
    method TrapHandler(t: Tid, progress: Progress, returned: bool)
      requires Enabled(View(), Trap(t, progress, returned))
      modifies this
      ensures View() == Next(old(View()), Trap(t, progress, returned))
    {
      var from := tasks[t];
      var e := entries[from];
      tasks := tasks[t := e.to];
      if e.kind == MakeStatic {
        if t !in e.tids {
          var tids := e.tids + {t};
          entries := entries[from := e.(tids := tids)];
          var all := CheckAllTasks(tids);
          assert all <==> Asks(old(View()), t);
          if all {
            StaticRedirect(from, progress);
            if returned {
              entries := entries[from := entries[from].(kind := MadeStatic)];
            }
          }
        }
      }
      assert t in e.tids ==> e.tids + {t} == e.tids;
      assert entries == Next(old(View()), Trap(t, progress, returned)).entries;
    }

    /** static_redirect, up to the segment: the jump gets into the back buffer, and from there into the code. */
    method StaticRedirect(from: Address, progress: Progress)
      requires from in entries && entries[from].jump != Live
      modifies this`code, this`entries
      ensures var e := old(entries[from]);
              && entries == old(entries)[from := e.(jump := if progress == Unwritten then e.jump else progress)]
              && code == if progress == Live then Write(old(code), from, JumpBytes(from, e.to)) else old(code)
    {
      var e := entries[from];
      if progress != Unwritten {
        entries := entries[from := e.(jump := progress)];
      }
      if progress == Live {
        code := Write(code, from, JumpBytes(from, e.to));
      }
    }

    /** add for an address without a redirection. */
    method AddRedirection(from: Address, to: Address, size: nat, makeStatic: bool)
      requires Enabled(View(), Add(from, to, size, makeStatic))
      modifies this`code, this`entries
      ensures View() == Next(old(View()), Add(from, to, size, makeStatic))
    {
      var kind := OnlyDynamic;
      var preserve := |trap|;
      if makeStatic {
        preserve := if CheckRelativeJump(from, to) then 5 else 16;
        if size >= preserve {
          kind := MakeStatic;
        }
      }
      var previous := [];
      for i := 0 to preserve
        invariant previous == Bytes(code, from, preserve)[..i]
      {
        previous := previous + [code[from + i]];
      }
      assert previous == Bytes(code, from, preserve);
      entries := entries[from := Entry(to, kind, previous, {}, size, Unwritten)];
      code := Write(code, from, trap);
    }
  }
}
