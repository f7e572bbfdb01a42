/**
 * Thread-local storage (src/tls.cpp, src/tls.hpp): the static blocks below the thread pointer, as in
 * section 3 (variant II) of "ELF Handling For Thread-Local Storage", and the blocks allocated
 * when a thread first uses a module loaded later.
 */
module Tls {
  import opened Common
  import R = Redirect

  /** Multiples of `a`, by repeated subtraction. */
  predicate Multiple(x: nat, a: nat) {
    x == 0 || (0 < a <= x && Multiple(x - a, a))
  }

  /** That is, the remainder is zero. */
  lemma {:induction false} MultipleIff(x: nat, a: nat)
    requires a > 0
    ensures Multiple(x, a) <==> x % a == 0
  {
    if x >= a {
      MultipleIff(x - a, a);
      RemainderStep(x, a);
    }
  }

  lemma RemainderStep(x: nat, a: nat)
    requires 0 < a <= x
    ensures x % a == (x - a) % a
  {
    var q, r := (x - a) / a, (x - a) % a;
    assert x == (q + 1) * a + r by {
      assert (q + 1) * a == q * a + a;
    }
    RemainderUnique(x, a, q + 1, r);
  }

  lemma RemainderUnique(x: int, a: int, q: int, r: int)
    requires a > 0 && x == q * a + r && 0 <= r < a
    ensures x % a == r
  {
    var d, m := x / a, x % a;
    assert x == d * a + m;
    if d > q {
      LargerMultiple(d, q, a);
    } else if d < q {
      LargerMultiple(q, d, a);
    }
  }

  lemma LargerMultiple(d: int, q: int, a: int)
    requires a > 0 && d > q
    ensures d * a >= q * a + a
  {
    assert (d - q - 1) * a >= 0;
    assert (d - q - 1) * a == d * a - q * a - a;
  }

  /** The least multiple of `a` that is not below `x`. */
  function RoundUp(x: nat, a: nat): (r: nat)
    requires a > 0
    ensures x <= r < x + a && Multiple(r, a)
  {
    if x == 0 then 0 else if x <= a then a else a + RoundUp(x - a, a)
  }

  /** A sum is a multiple as soon as one part makes the other one decide. */
  lemma {:induction false} MultipleSum(x: nat, y: nat, a: nat)
    requires Multiple(x, a)
    ensures Multiple(x + y, a) <==> Multiple(y, a)
  {
    if x > 0 {
      MultipleSum(x - a, y, a);
      assert x + y - a == x - a + y;
    }
  }

  lemma MultipleDifference(x: nat, y: nat, a: nat)
    requires Multiple(x, a) && y <= x
    ensures Multiple(x - y, a) <==> Multiple(y, a)
  {
    if Multiple(y, a) {
      MultipleSum(y, x - y, a);
    }
    if Multiple(x - y, a) {
      MultipleSum(x - y, y, a);
    }
  }

  lemma {:induction false} MultipleThrough(x: nat, b: nat, a: nat)
    requires Multiple(x, b) && Multiple(b, a)
    ensures Multiple(x, a)
  {
    if x > 0 {
      MultipleThrough(x - b, b, a);
      MultipleSum(b, x - b, a);
    }
  }

  lemma {:induction false} MultipleDoubles(x: nat, a: nat)
    requires Multiple(x, a)
    ensures Multiple(2 * x, 2 * a)
  {
    if x > 0 {
      MultipleDoubles(x - a, a);
      assert 2 * x - 2 * a == 2 * (x - a);
    }
  }

  lemma {:induction false} MultipleOfOne(x: nat)
    ensures Multiple(x, 1)
  {
    if x > 0 {
      MultipleOfOne(x - 1);
    }
  }

  predicate IsPowerOf2(a: nat) {
    a == 1 || (a > 1 && a % 2 == 0 && IsPowerOf2(a / 2))
  }

  /** Of two powers of two, the larger is a multiple of the smaller. */
  lemma {:induction false} PowersDivide(a: nat, b: nat)
    requires IsPowerOf2(a) && IsPowerOf2(b) && a <= b
    ensures Multiple(b, a)
  {
    if a == 1 {
      MultipleOfOne(b);
    } else {
      PowersDivide(a / 2, b / 2);
      MultipleDoubles(b / 2, a / 2);
    }
  }

  // ---------------------------------------------------------------------------
  // Static blocks

  /** A module with thread-local data: its block is `offset` bytes below the thread pointer, with the
      size rounded up to a multiple of `unit`, the largest alignment when it was added. The image is what the
      current version of the object has at the place of the image. */
  datatype Module = Module(size: nat, align: nat, image: seq<Byte>, offset: nat, unit: nat)

  /** Bytes taken by the modules before `i`. */
  function Taken(ms: seq<Module>, i: nat): (r: nat)
    requires i <= |ms|
  {
    if i == 0 then 0 else ms[i - 1].offset
  }

  /** Modules laid out one below the other, each rounded to its unit. */
  ghost predicate Laid(ms: seq<Module>) {
    forall i :: 0 <= i < |ms| ==> LaidAt(ms, i)
  }

  ghost predicate LaidAt(ms: seq<Module>, i: nat)
    requires i < |ms|
  {
    ms[i].unit > 0 && ms[i].align <= ms[i].unit && ms[i].offset == Taken(ms, i) + RoundUp(ms[i].size, ms[i].unit)
  }

  ghost predicate PowersOf2(ms: seq<Module>) {
    forall i :: 0 <= i < |ms| ==> IsPowerOf2(ms[i].align) && IsPowerOf2(ms[i].unit)
  }

  lemma {:induction false} TakenGrows(ms: seq<Module>, i: nat, j: nat)
    requires Laid(ms) && i <= j <= |ms|
    ensures Taken(ms, i) <= Taken(ms, j)
  {
    if i < j {
      TakenGrows(ms, i, j - 1);
      assert LaidAt(ms, j - 1);
    }
  }

  /** Below any thread pointer, a later block ends at or below the start of an earlier one. */
  lemma BlocksApart(ms: seq<Module>, i: nat, j: nat, start: nat)
    requires Laid(ms) && i < j < |ms| && Taken(ms, |ms|) <= start
    ensures 0 <= start - ms[j].offset && start - ms[j].offset + ms[j].size <= start - ms[i].offset
  {
    assert LaidAt(ms, j);
    TakenGrows(ms, i + 1, j);
    TakenGrows(ms, j + 1, |ms|);
  }

  /** A block lies between the lowest byte taken and the thread pointer. */
  lemma BlockInside(ms: seq<Module>, i: nat, start: nat)
    requires Laid(ms) && i < |ms| && Taken(ms, |ms|) <= start
    ensures start - Taken(ms, |ms|) <= start - ms[i].offset && start - ms[i].offset + ms[i].size <= start
  {
    assert LaidAt(ms, i);
    TakenGrows(ms, i + 1, |ms|);
  }

  /** A static block is aligned if and only if the bytes taken before it are a multiple of its alignment. */
  lemma AlignedIff(ms: seq<Module>, i: nat, start: nat, top: nat)
    requires Laid(ms) && PowersOf2(ms) && i < |ms| && IsPowerOf2(top) && Multiple(start, top)
    requires ms[i].align <= top && ms[i].offset <= start
    ensures Multiple(start - ms[i].offset, ms[i].align) <==> Multiple(Taken(ms, i), ms[i].align)
  {
    var a := ms[i].align;
    assert LaidAt(ms, i);
    PowersDivide(a, top);
    MultipleThrough(start, top, a);
    PowersDivide(a, ms[i].unit);
    var r := RoundUp(ms[i].size, ms[i].unit);
    MultipleThrough(r, ms[i].unit, a);
    MultipleSum(r, Taken(ms, i), a);
    MultipleDifference(start, ms[i].offset, a);
  }

  /** Alignments that do not grow make the bytes taken a multiple of every later alignment. */
  lemma {:induction false} TakenMultiple(ms: seq<Module>, i: nat, a: nat)
    requires Laid(ms) && PowersOf2(ms) && i <= |ms| && IsPowerOf2(a)
    requires forall k :: 0 <= k < i ==> a <= ms[k].align
    ensures Multiple(Taken(ms, i), a)
  {
    if i > 0 {
      TakenMultiple(ms, i - 1, a);
      assert LaidAt(ms, i - 1);
      PowersDivide(a, ms[i - 1].unit);
      var r := RoundUp(ms[i - 1].size, ms[i - 1].unit);
      MultipleThrough(r, ms[i - 1].unit, a);
      MultipleSum(Taken(ms, i - 1), r, a);
    }
  }

  /** All static blocks are aligned when the modules come in the order of non-increasing alignments. */
  lemma NonIncreasingAligned(ms: seq<Module>, i: nat, start: nat, top: nat)
    requires Laid(ms) && PowersOf2(ms) && i < |ms| && IsPowerOf2(top) && Multiple(start, top)
    requires ms[i].align <= top && ms[i].offset <= start
    requires forall k :: 0 <= k < i ==> ms[i].align <= ms[k].align
    ensures Multiple(start - ms[i].offset, ms[i].align)
  {
    TakenMultiple(ms, i, ms[i].align);
    AlignedIff(ms, i, start, top);
  }

  /** Otherwise a block can be misaligned: 8 bytes aligned to 8, then 64 bytes aligned to 64. */
  lemma GrowingAlignmentMisaligns(start: nat)
    requires Multiple(start, 64) && start >= 72
    ensures var ms := [Module(8, 8, [], 8, 8), Module(64, 64, [], 72, 64)];
            Laid(ms) && PowersOf2(ms) && !Multiple(start - ms[1].offset, ms[1].align)
  {
    var ms := [Module(8, 8, [], 8, 8), Module(64, 64, [], 72, 64)];
    assert RoundUp(8, 8) == 8 && RoundUp(64, 64) == 64;
    assert Taken(ms, 1) == 8;
    MultipleDifference(start, 72, 64);
    assert !Multiple(8, 64);
    assert !Multiple(72, 64);
  }

  // ---------------------------------------------------------------------------
  // Operations

  /** The memory at an address holds the image of a module, and zeros behind it. */
  ghost predicate Holds(memory: seq<Byte>, addr: nat, m: Module) {
    && |m.image| <= m.size && addr + m.size <= |memory|
    && (forall x :: addr <= x < addr + |m.image| ==> memory[x] == m.image[x - addr])
    && (forall x :: addr + |m.image| <= x < addr + m.size ==> memory[x] == 0)
  }

  /** So does the block of a module below that thread pointer. */
  ghost predicate HasBlock(memory: seq<Byte>, ms: seq<Module>, i: nat, start: nat)
    requires i < |ms|
  {
    ms[i].offset <= start && Holds(memory, start - ms[i].offset, ms[i])
  }

  /** The block of a module lies below the thread pointer, with its image at the start and zeros behind it. */
  ghost predicate InPlace(memory: array<Byte>, start: nat, m: Module)
    reads memory
  {
    && m.offset <= start <= memory.Length && |m.image| <= m.size <= m.offset
    && (forall x :: start - m.offset <= x < start - m.offset + |m.image| ==> memory[x] == m.image[x - (start - m.offset)])
    && (forall x :: start - m.offset + |m.image| <= x < start - m.offset + m.size ==> memory[x] == 0)
  }

  lemma PrefixBlock(memory: array<Byte>, ms: seq<Module>, n: nat, i: nat, start: nat)
    requires i < n <= |ms| && Laid(ms[..n]) && Taken(ms[..n], n) <= start <= memory.Length
    requires HasBlock(memory[..], ms[..n], i, start)
    ensures InPlace(memory, start, ms[i])
  {
    BlockInside(ms[..n], i, start);
  }

  const SURPLUS := 0x680
  const WORD := 8

  /** Fills a block: the image, then zeros. */
  method CopyBlock(memory: array<Byte>, addr: nat, m: Module)
    requires |m.image| <= m.size && addr + m.size <= memory.Length
    modifies memory
    ensures forall x :: addr <= x < addr + |m.image| ==> memory[x] == m.image[x - addr]
    ensures forall x :: addr + |m.image| <= x < addr + m.size ==> memory[x] == 0
    ensures forall x :: 0 <= x < memory.Length && !(addr <= x < addr + m.size) ==> memory[x] == old(memory[x])
  {
    forall i | 0 <= i < |m.image| {
      memory[addr + i] := m.image[i];
    }
    if m.size > |m.image| {
      forall i | |m.image| <= i < m.size {
        memory[addr + i] := 0;
      }
    }
  }

  /** Filling a later block leaves the earlier ones alone. */
  lemma BlockStays(before: seq<Byte>, after: seq<Byte>, ms: seq<Module>, i: nat, j: nat, start: nat)
    requires Laid(ms) && i < j < |ms| && Taken(ms, |ms|) <= start && |ms[i].image| <= ms[i].size
    requires HasBlock(before, ms, i, start) && |after| == |before|
    requires forall x :: 0 <= x < |before| && !(start - ms[j].offset <= x < start - ms[j].offset + ms[j].size) ==> after[x] == before[x]
    ensures HasBlock(after, ms, i, start)
  {
    BlocksApart(ms, i, j, start);
  }

  /** Fills the blocks of all given modules, which do not disturb each other. */
  method FillBlocks(memory: array<Byte>, ms: seq<Module>, start: nat) returns (dtv: map<nat, nat>)
    requires Laid(ms) && Taken(ms, |ms|) <= start <= memory.Length
    requires forall i :: 0 <= i < |ms| ==> |ms[i].image| <= ms[i].size
    modifies memory
    ensures forall id :: id in dtv <==> 1 <= id <= |ms|
    ensures forall i :: 0 <= i < |ms| ==> HasBlock(memory[..], ms, i, start) && dtv[i + 1] == start - ms[i].offset
    ensures forall x :: 0 <= x < memory.Length && !(start - Taken(ms, |ms|) <= x < start) ==> memory[x] == old(memory[x])
  {
    dtv := map[];
    for id := 1 to |ms| + 1
      invariant forall k :: k in dtv <==> 1 <= k < id
      invariant forall i :: 0 <= i < id - 1 ==> HasBlock(memory[..], ms, i, start) && dtv[i + 1] == start - ms[i].offset
      invariant forall x :: 0 <= x < memory.Length && !(start - Taken(ms, |ms|) <= x < start) ==> memory[x] == old(memory[x])
    {
      var m := ms[id - 1];
      BlockInside(ms, id - 1, start);
      var addr := start - m.offset;
      ghost var before := memory[..];
      CopyBlock(memory, addr, m);
      forall i | 0 <= i < id - 1 ensures HasBlock(memory[..], ms, i, start) {
        BlockStays(before, memory[..], ms, i, id - 1, start);
      }
      assert HasBlock(memory[..], ms, id - 1, start);
      dtv := dtv[id := addr];
    }
  }

  class TLS {
    var modules: seq<Module>
    var gen: nat
    var initialCount: nat
    var initialAlign: nat
    var initialSize: nat

    ghost predicate Valid()
      reads this
    {
      && initialCount <= |modules| && (gen == 0 ==> initialCount == |modules|) && initialAlign > 0
      && Laid(modules[..initialCount]) && initialSize == Taken(modules, initialCount)
      && (forall i :: 0 <= i < |modules| ==> |modules[i].image| <= modules[i].size)
      && (forall i :: 0 <= i < initialCount ==> modules[i].unit <= initialAlign)
    }

    constructor ()
      ensures Valid() && modules == [] && gen == 0
    {
      modules := [];
      gen, initialCount, initialAlign, initialSize := 0, 0, 1, 0;
    }

    /** Adds a module: below the blocks so far before the first thread is set up, without a fixed place later. */
    method AddModule(size: nat, align: nat, image: seq<Byte>) returns (id: nat, offset: nat)
      requires Valid() && size > 0 && |image| <= size
      modifies this
      ensures Valid() && id == |modules| == |old(modules)| + 1 && modules[..id - 1] == old(modules) && gen == old(gen)
      ensures var m := modules[id - 1]; m.size == size && m.align == align && m.image == image && m.offset == offset
      ensures gen == 0 ==> offset == initialSize && align <= initialAlign && initialCount == id
      ensures gen == 0 ==> initialAlign == (if old(initialAlign) < align then align else old(initialAlign)) && modules[id - 1].unit == initialAlign
      ensures gen == 0 ==> offset == old(initialSize) + RoundUp(size, initialAlign)
      ensures gen != 0 ==> offset == 0 && initialSize == old(initialSize) && initialCount == old(initialCount) && initialAlign == old(initialAlign)
      ensures PowersOf2(old(modules)) && IsPowerOf2(align) && IsPowerOf2(old(initialAlign)) ==> PowersOf2(modules) && IsPowerOf2(initialAlign)
    {
      ghost var before := modules[..initialCount];
      if gen == 0 {
        initialCount := initialCount + 1;
        if initialAlign < align {
          initialAlign := align;
        }
        initialSize := initialSize + RoundUp(size, initialAlign);
        offset := initialSize;
      } else {
        offset := 0;
      }
      modules := modules + [Module(size, align, image, offset, initialAlign)];
      id := |modules|;
      LaidNext(before, modules[..initialCount]);
    }

    /** A new version of the object becomes the current one: blocks that are filled from now on get its bytes, while
        size and layout stay those of the first version. */
    method ReplaceObject(id: nat, image: seq<Byte>)
      requires Valid() && 1 <= id <= |modules| && |image| == |modules[id - 1].image|
      modifies this`modules
      ensures Valid() && modules == old(modules)[id - 1 := old(modules)[id - 1].(image := image)]
      ensures forall k :: 0 <= k <= |modules| ==> Taken(modules, k) == Taken(old(modules), k)
    {
      ghost var before := modules[..initialCount];
      modules := modules[id - 1 := modules[id - 1].(image := image)];
      SameLayout(before, modules[..initialCount]);
    }

    /** Places a thread in memory obtained from the allocator: its static blocks and its control block lie inside. */
    method Allocate(mem: nat, threadSize: nat) returns (addr: nat, length: nat)
      requires Valid()
      modifies this`initialAlign
      ensures Valid() && initialAlign >= 64 && Multiple(addr, initialAlign)
      ensures length == initialSize + threadSize + SURPLUS + initialAlign
      ensures mem + SURPLUS <= addr - initialSize && addr + threadSize <= mem + length
      ensures IsPowerOf2(old(initialAlign)) ==> IsPowerOf2(initialAlign)
    {
      if initialAlign < 64 {
        initialAlign := 64;
        assert IsPowerOf2(2) && IsPowerOf2(4) && IsPowerOf2(8) && IsPowerOf2(16) && IsPowerOf2(32) && IsPowerOf2(64);
      }
      length := initialSize + threadSize + SURPLUS + initialAlign;
      addr := RoundUp(mem + initialSize + SURPLUS, initialAlign);
    }

    /** Fills the static blocks of a thread. They do not disturb each other. */
    method Setup(t: Thread, memory: array<Byte>, start: nat)
      requires Valid() && t.dtv == map[] && initialSize <= start <= memory.Length
      modifies this`gen, t, memory
      ensures Valid() && gen == (if old(gen) == 0 then 1 else old(gen))
      ensures forall id :: id in t.dtv <==> 1 <= id <= initialCount
      ensures forall i :: 0 <= i < initialCount ==> t.dtv[i + 1] == start - modules[i].offset && InPlace(memory, start, modules[i])
      ensures forall x :: 0 <= x < memory.Length && !(start - initialSize <= x < start) ==> memory[x] == old(memory[x])
    {
      if gen == 0 {
        gen := 1;
      }
      t.dtv := FillBlocks(memory, modules[..initialCount], start);
      forall i | 0 <= i < initialCount
        ensures t.dtv[i + 1] == start - modules[i].offset && InPlace(memory, start, modules[i])
      {
        assert HasBlock(memory[..], modules[..initialCount], i, start);
        PrefixBlock(memory, modules, initialCount, i, start);
      }
    }

    /** The block of a module, allocated on first use in memory from the allocator at `mem`: aligned, inside that
        memory, and with its address kept in the word below. */
    method GetAddress(t: Thread, memory: array<Byte>, id: nat, mem: nat) returns (r: nat)
      requires Valid() && 1 <= id <= |modules| && modules[id - 1].align > 0
      requires id !in t.dtv ==> mem + modules[id - 1].size + modules[id - 1].align + WORD <= memory.Length <= R.TWO64
      modifies t, memory
      ensures id in t.dtv && r == t.dtv[id]
      ensures id in old(t.dtv) ==> t.dtv == old(t.dtv) && memory[..] == old(memory[..])
      ensures id !in old(t.dtv) ==> var m := modules[id - 1];
              && t.dtv == old(t.dtv)[id := r] && Multiple(r, m.align)
              && mem + WORD <= r && r + m.size <= mem + m.size + m.align + WORD
              && R.Read8(memory[r - WORD..r]) == mem
              && (forall x :: r <= x < r + |m.image| ==> memory[x] == m.image[x - r])
              && (forall x :: r + |m.image| <= x < r + m.size ==> memory[x] == 0)
              && (forall x :: 0 <= x < memory.Length && !(r - WORD <= x < r + m.size) ==> memory[x] == old(memory[x]))
    {
      if id !in t.dtv {
        var m := modules[id - 1];
        var data := RoundUp(mem + WORD, m.align);
        var bytes := R.LittleEndian8(mem);
        forall i | 0 <= i < WORD {
          memory[data - WORD + i] := bytes[i];
        }
        CopyBlock(memory, data, m);
        assert memory[data - WORD..data] == bytes;
        R.Read8LittleEndian8(mem);
        t.dtv := t.dtv[id := data];
      }
      r := t.dtv[id];
    }
  }

  /** A thread with the addresses of the blocks it has so far, by module number. */
  class Thread {
    var dtv: map<nat, nat>
  }

  /** The images do not matter for the layout. */
  lemma SameLayout(before: seq<Module>, ms: seq<Module>)
    requires Laid(before) && |ms| == |before|
    requires forall i :: 0 <= i < |ms| ==> ms[i] == before[i].(image := ms[i].image)
    ensures Laid(ms)
  {
    forall i | 0 <= i < |ms| ensures LaidAt(ms, i) {
      assert LaidAt(before, i) && ms[i] == before[i].(image := ms[i].image);
      assert i > 0 ==> ms[i - 1] == before[i - 1].(image := ms[i - 1].image);
    }
  }

  lemma LaidNext(before: seq<Module>, ms: seq<Module>)
    requires Laid(before) && |before| <= |ms| <= |before| + 1 && ms[..|before|] == before
    requires |ms| > |before| ==> var m := ms[|before|]; m.unit > 0 && m.align <= m.unit && m.offset == Taken(before, |before|) + RoundUp(m.size, m.unit)
    ensures Laid(ms)
  {
    forall i | 0 <= i < |ms| ensures LaidAt(ms, i) {
      if i < |before| {
        assert LaidAt(before, i);
        assert ms[i] == before[i] && (i > 0 ==> ms[i - 1] == before[i - 1]);
      } else if i > 0 {
        assert ms[i - 1] == before[i - 1];
      }
    }
  }
}
