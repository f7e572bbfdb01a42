/** Trampolines for symbols handed out by address (src/trampoline.cpp): each symbol owns a
    code entry that jumps through a pointer slot, which an update redirects. */
module Trampoline {
  import opened Common
  import opened Segment

  const ENTRY := 16
  const PER_BLOCK := 512
  const CODE := 8192
  const SLOT := 8
  const BLOCK := 12288

  datatype SymbolType = Func | IFunc | Data

  datatype Sym = Sym(owner: nat, name: string, version: string, kind: SymbolType)

  predicate IsFunction(s: Sym) {
    s.kind == Func || s.kind == IFunc
  }

  // ---------------------------------------------------------------------------
  // Layout and machine code of a block

  function CodeAddress(blocks: seq<nat>, i: nat): (a: nat)
    requires i / PER_BLOCK < |blocks|
  {
    blocks[i / PER_BLOCK] + i % PER_BLOCK * ENTRY
  }

  function SlotAddress(blocks: seq<nat>, i: nat): (a: nat)
    requires i / PER_BLOCK < |blocks|
  {
    blocks[i / PER_BLOCK] + CODE + i % PER_BLOCK * SLOT
  }

  /** The displacement of the jump in entry i, from the end of the instruction to its slot. */
  function Displacement(i: nat): (d: int)
    requires i < PER_BLOCK
    ensures 0 <= d < 0x8000
  {
    CODE + SLOT * i - (ENTRY * i + 0xa)
  }

  /** endbr64; jmp *disp(%rip); six bytes of padding. */
  function EntryBytes(i: nat): (bs: Bytes)
    requires i < PER_BLOCK
    ensures |bs| == ENTRY
  {
    var d := Displacement(i);
    [0xf3, 0x0f, 0x1e, 0xfa, 0xff, 0x25, d % 256, d / 256, 0, 0, 0x66, 0x0f, 0x1f, 0x44, 0, 0]
  }

  /** The slot an entry at address a jumps through, if it is such an entry. */
  function JumpSlot(bs: Bytes, a: nat): (slot: Option<int>)
    requires |bs| == ENTRY
  {
    if bs[..6] == [0xf3, 0x0f, 0x1e, 0xfa, 0xff, 0x25] then
      var b0: int, b1: int, b2: int, b3: int := bs[6], bs[7], bs[8], bs[9];
      var disp := b0 + 256 * b1 + 65536 * b2 + 16777216 * b3;
      Some(a + 10 + if disp < 0x8000_0000 then disp else disp - 0x1_0000_0000)
    else None
  }

  /** Each entry jumps through its own slot. */
  lemma EntryJumpsThroughSlot(base: nat, i: nat)
    requires i < PER_BLOCK
    ensures JumpSlot(EntryBytes(i), base + i * ENTRY) == Some(base + CODE + i * SLOT)
  {
    var d := Displacement(i);
    assert d == d % 256 + 256 * (d / 256);
  }

  ghost predicate Apart(blocks: seq<nat>) {
    forall i, j :: 0 <= i < j < |blocks| ==> blocks[i] + BLOCK <= blocks[j] || blocks[j] + BLOCK <= blocks[i]
  }

  /** Distinct indices own disjoint code entries and disjoint slots, and no entry overlaps a slot. */
  lemma IndicesApart(blocks: seq<nat>, i: nat, j: nat)
    requires Apart(blocks) && i / PER_BLOCK < |blocks| && j / PER_BLOCK < |blocks|
    ensures i != j ==>
              var a, b := CodeAddress(blocks, i), CodeAddress(blocks, j);
              var c, d := SlotAddress(blocks, i), SlotAddress(blocks, j);
              (a + ENTRY <= b || b + ENTRY <= a) && (c + SLOT <= d || d + SLOT <= c)
    ensures CodeAddress(blocks, i) + ENTRY <= SlotAddress(blocks, j) || SlotAddress(blocks, j) + SLOT <= CodeAddress(blocks, i)
  {
    var p, q := i / PER_BLOCK, j / PER_BLOCK;
    var m, n := i % PER_BLOCK, j % PER_BLOCK;
    assert i == p * PER_BLOCK + m && j == q * PER_BLOCK + n;
    assert p != q ==> blocks[p] + BLOCK <= blocks[q] || blocks[q] + BLOCK <= blocks[p];
  }

  type Slots = map<int, int>

  /** Entry i of the block at b is in place: its code, and a slot for it. */
  ghost predicate EntryReady(code: Memory, slots: Slots, b: nat, i: nat)
    requires i < PER_BLOCK
  {
    && Present(code, b + i * ENTRY, ENTRY)
    && Read(code, b + i * ENTRY, ENTRY) == EntryBytes(i)
    && b + CODE + i * SLOT in slots
  }

  ghost predicate BlockReady(code: Memory, slots: Slots, b: nat) {
    forall i :: 0 <= i < PER_BLOCK ==> EntryReady(code, slots, b, i)
  }

  /** Code laid outside a block leaves its entries ready. */
  lemma LayKeepsEntry(code: Memory, slots: Slots, slots': Slots, b: nat, i: nat, a: nat, bs: Bytes)
    requires i < PER_BLOCK && EntryReady(code, slots, b, i)
    requires a + |bs| <= b + i * ENTRY || b + (i + 1) * ENTRY <= a
    requires b + CODE + i * SLOT in slots'
    ensures EntryReady(Lay(code, a, bs), slots', b, i)
  {
    var r := Lay(code, a, bs);
    assert Present(r, b + i * ENTRY, ENTRY);
    assert Read(r, b + i * ENTRY, ENTRY) == Read(code, b + i * ENTRY, ENTRY);
  }

  lemma LayMakesEntry(code: Memory, slots: Slots, b: nat, i: nat)
    requires i < PER_BLOCK && b + CODE + i * SLOT in slots
    ensures EntryReady(Lay(code, b + i * ENTRY, EntryBytes(i)), slots, b, i)
  {
    var r := Lay(code, b + i * ENTRY, EntryBytes(i));
    assert Present(r, b + i * ENTRY, ENTRY);
    assert Read(r, b + i * ENTRY, ENTRY) == EntryBytes(i);
  }

  /** The slot of an index has the value of before. */
  ghost predicate SlotKept(before: seq<nat>, kept: Slots, blocks: seq<nat>, slots: Slots, i: nat) {
    && i / PER_BLOCK < |before| && i / PER_BLOCK < |blocks|
    && SlotAddress(blocks, i) == SlotAddress(before, i)
    && SlotAddress(before, i) in kept && SlotAddress(before, i) in slots
    && slots[SlotAddress(before, i)] == kept[SlotAddress(before, i)]
  }

  lemma SlotInBlock(blocks: seq<nat>, i: nat)
    requires i / PER_BLOCK < |blocks|
    ensures var b := blocks[i / PER_BLOCK]; b <= SlotAddress(blocks, i) < b + BLOCK
  {
  }

  lemma OtherSlotKept(before: seq<nat>, kept: Slots, blocks: seq<nat>, slots: Slots, slots': Slots, i: nat, value: int, j: nat)
    requires Apart(blocks) && i / PER_BLOCK < |blocks| && SlotKept(before, kept, blocks, slots, j) && i != j
    requires slots' == slots[SlotAddress(blocks, i) := value]
    ensures SlotKept(before, kept, blocks, slots', j)
  {
    IndicesApart(blocks, i, j);
  }

  /** The first `n` entries of a block are ready. */
  ghost predicate EntriesReady(code: Memory, slots: Slots, b: nat, n: nat)
    requires n <= PER_BLOCK
  {
    forall i :: 0 <= i < n ==> EntryReady(code, slots, b, i)
  }

  /** The code and the slots after entry `i` of a block is written. */
  ghost predicate Wrote(code: Memory, slots: Slots, code': Memory, slots': Slots, b: nat, i: nat)
    requires i < PER_BLOCK
  {
    && code' == Lay(code, b + i * ENTRY, EntryBytes(i))
    && b + CODE + i * SLOT in slots' && forall x :: x in slots ==> x in slots'
  }

  /** One more entry is ready. */
  lemma EntryWritten(code: Memory, slots: Slots, code': Memory, slots': Slots, b: nat, i: nat)
    requires i < PER_BLOCK && EntriesReady(code, slots, b, i) && Wrote(code, slots, code', slots', b, i)
    ensures EntriesReady(code', slots', b, i + 1)
  {
    forall j | 0 <= j < i ensures EntryReady(code', slots', b, j) {
      assert EntryReady(code, slots, b, j);
      LayKeepsEntry(code, slots, slots', b, j, b + i * ENTRY, EntryBytes(i));
    }
    LayMakesEntry(code, slots', b, i);
  }

  /** The other blocks stay ready. */
  lemma EntryWrittenElsewhere(code: Memory, slots: Slots, code': Memory, slots': Slots, b: nat, i: nat, other: nat)
    requires i < PER_BLOCK && BlockReady(code, slots, other) && Wrote(code, slots, code', slots', b, i)
    requires other + BLOCK <= b || b + BLOCK <= other
    ensures BlockReady(code', slots', other)
  {
    forall j | 0 <= j < PER_BLOCK ensures EntryReady(code', slots', other, j) {
      assert EntryReady(code, slots, other, j);
      LayKeepsEntry(code, slots, slots', other, j, b + i * ENTRY, EntryBytes(i));
    }
  }

  class Trampoline {
    var blocks: seq<nat>
    var symbols: seq<Sym>
    var code: Memory
    var slots: Slots

    constructor ()
      ensures Valid() && blocks == [] && symbols == []
    {
      blocks, symbols, code, slots := [], [], map[], map[];
    }

    ghost predicate Valid()
      reads this
    {
      && Apart(blocks)
      && (symbols != [] ==> |symbols| / PER_BLOCK < |blocks|)
      && (forall k :: 0 <= k < |blocks| ==> BlockReady(code, slots, blocks[k]))
      && (forall i, j :: 0 <= i < j < |symbols| && IsFunction(symbols[i]) ==> symbols[i] != symbols[j])
    }

    /** Every stored index has a block, a jump through its own slot and that slot. */
    lemma StoredIndexReady(i: nat)
      requires Valid() && i < |symbols|
      ensures i / PER_BLOCK < |blocks|
      ensures var a := CodeAddress(blocks, i);
              && Present(code, a, ENTRY)
              && JumpSlot(Read(code, a, ENTRY), a) == Some(SlotAddress(blocks, i))
              && SlotAddress(blocks, i) in slots
    {
      var k, m := i / PER_BLOCK, i % PER_BLOCK;
      assert k < |blocks|;
      assert BlockReady(code, slots, blocks[k]);
      assert EntryReady(code, slots, blocks[k], m);
      EntryJumpsThroughSlot(blocks[k], m);
    }

    /** index(): only functions are looked up. */
    method Index(sym: Sym) returns (found: bool, index: nat)
      ensures found ==> IsFunction(sym) && index < |symbols| && symbols[index] == sym
      ensures !found && IsFunction(sym) ==> sym !in symbols
    {
      index := 0;
      if !IsFunction(sym) {
        return false, 0;
      }
      for i := 0 to |symbols|
        invariant sym !in symbols[..i]
      {
        if symbols[i] == sym {
          return true, i;
        }
      }
      found := false;
    }

    /** The loop that writes the code and the slots of a new block. */
    method FillBlock(base: nat, undefined: int)
      requires forall k :: 0 <= k < |blocks| ==> blocks[k] + BLOCK <= base || base + BLOCK <= blocks[k]
      requires forall k :: 0 <= k < |blocks| ==> BlockReady(code, slots, blocks[k])
      modifies this`code, this`slots
      ensures BlockReady(code, slots, base)
      ensures forall k :: 0 <= k < |blocks| ==> BlockReady(code, slots, blocks[k])
      ensures forall x :: x in old(slots) && !(base + CODE <= x < base + BLOCK) ==> x in slots && slots[x] == old(slots[x])
    {
      for i := 0 to PER_BLOCK
        invariant EntriesReady(code, slots, base, i)
        invariant forall k :: 0 <= k < |blocks| ==> BlockReady(code, slots, blocks[k])
        invariant forall x :: x in old(slots) && !(base + CODE <= x < base + BLOCK) ==> x in slots && slots[x] == old(slots[x])
      {
        ghost var code0, slots0 := code, slots;
        slots := slots[base + CODE + i * SLOT := undefined];
        code := Lay(code, base + i * ENTRY, EntryBytes(i));
        EntryWritten(code0, slots0, code, slots, base, i);
        forall k | 0 <= k < |blocks| ensures BlockReady(code, slots, blocks[k]) {
          EntryWrittenElsewhere(code0, slots0, code, slots, base, i, blocks[k]);
        }
      }
    }

    /** allocate(): a new block when the next index has none; `room` is where the kernel maps it. */
    method Allocate(sym: Sym, room: Option<nat>, mprotectOk: bool, undefined: int) returns (ok: bool, index: nat)
      requires Valid() && (IsFunction(sym) ==> sym !in symbols)
      requires room.Some? ==> forall k :: 0 <= k < |blocks| ==> blocks[k] + BLOCK <= room.value || room.value + BLOCK <= blocks[k]
      modifies this
      ensures Valid() && old(blocks) <= blocks
      ensures ok ==> index == |old(symbols)| && symbols == old(symbols) + [sym]
      ensures !ok ==> symbols == old(symbols) && blocks == old(blocks)
      ensures ok <==> (|old(symbols)| + 1) / PER_BLOCK < |old(blocks)| || (room.Some? && mprotectOk)
      ensures forall k, x :: 0 <= k < |old(blocks)| && old(blocks)[k] <= x < old(blocks)[k] + BLOCK && x in old(slots) ==>
                x in slots && slots[x] == old(slots)[x]
    {
      index := |symbols|;
      if (|symbols| + 1) / PER_BLOCK >= |blocks| {
        if room.None? || !mprotectOk {
          return false, index;
        }
        FillBlock(room.value, undefined);
        blocks := blocks + [room.value];
      }
      symbols := symbols + [sym];
      ok := true;
    }

    /** A slot write leaves blocks ready and every other slot alone. */
    method WriteSlot(i: nat, value: int)
      requires Valid() && i < |symbols|
      modifies this`slots
      ensures Valid() && i / PER_BLOCK < |blocks|
      ensures slots == old(slots)[SlotAddress(blocks, i) := value] && SlotAddress(blocks, i) in old(slots)
    {
      StoredIndexReady(i);
      ghost var slots0 := slots;
      slots := slots[SlotAddress(blocks, i) := value];
      forall k | 0 <= k < |blocks| ensures BlockReady(code, slots, blocks[k]) {
        forall j | 0 <= j < PER_BLOCK ensures EntryReady(code, slots, blocks[k], j) {
          assert EntryReady(code, slots0, blocks[k], j);
        }
      }
    }

    lemma AllSlotsKept()
      requires Valid()
      ensures forall j :: 0 <= j < |symbols| ==> SlotKept(blocks, slots, blocks, slots, j)
    {
      forall j | 0 <= j < |symbols| ensures SlotKept(blocks, slots, blocks, slots, j) {
        StoredIndexReady(j);
      }
    }

    /** The index of a symbol: the known one of a function, or a new one. */
    method Obtain(sym: Sym, room: Option<nat>, mprotectOk: bool, undefined: int) returns (ok: bool, index: nat)
      requires Valid()
      requires room.Some? ==> forall k :: 0 <= k < |blocks| ==> blocks[k] + BLOCK <= room.value || room.value + BLOCK <= blocks[k]
      modifies this
      ensures Valid() && old(blocks) <= blocks && old(symbols) <= symbols
      ensures ok ==> index < |symbols| && symbols[index] == sym && (symbols == old(symbols) <==> index < |old(symbols)|)
      ensures ok ==> (symbols == old(symbols) <==> IsFunction(sym) && sym in old(symbols))
      ensures !ok ==> symbols == old(symbols)
      ensures forall j :: 0 <= j < |old(symbols)| ==> SlotKept(old(blocks), old(slots), blocks, slots, j)
    {
      AllSlotsKept();
      ok, index := Index(sym);
      if !ok {
        ghost var blocks0, slots0, count := blocks, slots, |symbols|;
        ok, index := Allocate(sym, room, mprotectOk, undefined);
        forall j | 0 <= j < count ensures SlotKept(blocks0, slots0, blocks, slots, j) {
          assert SlotKept(blocks0, slots0, blocks0, slots0, j);
          SlotInBlock(blocks0, j);
        }
      }
    }

    /** set(): the trampoline of a symbol, which leads to its current definition. A function
        gets the same trampoline every time, another symbol a new one. */
    method Set(sym: Sym, resolved: Option<int>, room: Option<nat>, mprotectOk: bool, undefined: int) returns (r: Option<nat>)
      requires Valid()
      requires room.Some? ==> forall k :: 0 <= k < |blocks| ==> blocks[k] + BLOCK <= room.value || room.value + BLOCK <= blocks[k]
      modifies this
      ensures Valid() && old(blocks) <= blocks && old(symbols) <= symbols
      ensures resolved.None? ==> r.None? && symbols == old(symbols) && slots == old(slots)
      ensures r.Some? ==>
                exists i :: 0 <= i < |symbols| && symbols[i] == sym && i / PER_BLOCK < |blocks| &&
                  r == Some(CodeAddress(blocks, i)) && SlotAddress(blocks, i) in slots &&
                  slots[SlotAddress(blocks, i)] == resolved.value &&
                  (symbols == old(symbols) <==> i < |old(symbols)|)
      ensures r.Some? ==> (symbols == old(symbols) <==> IsFunction(sym) && sym in old(symbols))
      ensures r.None? ==> symbols == old(symbols)
      ensures forall j :: 0 <= j < |old(symbols)| && (r.None? || !IsFunction(sym) || old(symbols)[j] != sym) ==>
                SlotKept(old(blocks), old(slots), blocks, slots, j)
    {
      if resolved.None? {
        AllSlotsKept();
        return None;
      }
      ghost var blocks0, slots0, count := blocks, slots, |symbols|;
      var ok, index := Obtain(sym, room, mprotectOk, undefined);
      if !ok {
        return None;
      }
      ghost var slots1 := slots;
      WriteSlot(index, resolved.value);
      forall j | 0 <= j < count && j != index ensures SlotKept(blocks0, slots0, blocks, slots, j) {
        OtherSlotKept(blocks0, slots0, blocks, slots1, slots, index, resolved.value, j);
      }
      return Some(CodeAddress(blocks, index));
    }

    /** update(): every slot whose symbol still resolves leads to its current definition. */
    method Update(resolve: Sym -> Option<int>)
      requires Valid()
      modifies this`slots
      ensures Valid()
      ensures forall i :: 0 <= i < |symbols| ==> i / PER_BLOCK < |blocks| && SlotAddress(blocks, i) in slots
      ensures forall i :: 0 <= i < |symbols| && resolve(symbols[i]).Some? ==>
                slots[SlotAddress(blocks, i)] == resolve(symbols[i]).value
      ensures forall i :: 0 <= i < |symbols| && resolve(symbols[i]).None? ==>
                SlotAddress(blocks, i) in old(slots) && slots[SlotAddress(blocks, i)] == old(slots)[SlotAddress(blocks, i)]
    {
      forall j | 0 <= j < |symbols| ensures j / PER_BLOCK < |blocks| && SlotAddress(blocks, j) in slots {
        StoredIndexReady(j);
      }
      for i := 0 to |symbols|
        invariant Valid()
        invariant forall j :: 0 <= j < |symbols| ==>
                    && j / PER_BLOCK < |blocks| && SlotAddress(blocks, j) in slots && SlotAddress(blocks, j) in old(slots)
                    && slots[SlotAddress(blocks, j)] ==
                         if j < i && resolve(symbols[j]).Some? then resolve(symbols[j]).value else old(slots)[SlotAddress(blocks, j)]
      {
        if resolve(symbols[i]).Some? {
          ghost var slots0 := slots;
          WriteSlot(i, resolve(symbols[i]).value);
          forall j | 0 <= j < |symbols| && j != i ensures SlotAddress(blocks, j) != SlotAddress(blocks, i) {
            IndicesApart(blocks, i, j);
          }
        }
      }
    }
  }
}
