/**
 * The initial stack of the started program: what `Process::init` writes (src/process.cpp) and
 * what the constructor of `Process` and `Loader::run` (src/loader.cpp) read back. The layout is
 * that of section 3.4.1 of the System V AMD64 psABI.
 *
 * Memory is an array of bytes indexed by address; words are 8 bytes in little-endian order.
 */
module InitialStack {
  import opened Common
  import opened Redirect

  /** A string without its terminator. */
  type Text = seq<Byte>

  type Memory = seq<Byte>

  /** An entry of the auxiliary vector. */
  datatype Auxiliary = Auxiliary(kind: nat, value: nat)

  const WORD := 8
  const PAIR := 16
  const AT_NULL := 0

  function WordAt(m: Memory, a: int): (r: nat)
    requires 0 <= a && a + WORD <= |m|
  {
    Read8(m[a..a + WORD])
  }

  ghost predicate StringAt(m: Memory, a: int, s: Text) {
    && 0 <= a && a + |s| < |m| && 0 !in s
    && m[a..a + |s|] == s && m[a + |s|] == 0
  }

  /** Memory from `lo` on is unchanged. */
  ghost predicate Kept(m: Memory, m': Memory, lo: int)
    requires 0 <= lo <= |m|
  {
    |m'| == |m| && forall i :: lo <= i < |m| ==> m'[i] == m[i]
  }

  lemma KeptSlice(m: Memory, m': Memory, lo: int, a: int, b: int)
    requires 0 <= lo <= a <= b <= |m| && Kept(m, m', lo)
    ensures m'[a..b] == m[a..b]
  {
  }

  lemma KeptWord(m: Memory, m': Memory, lo: int, a: int)
    requires 0 <= lo <= a && a + WORD <= |m| && Kept(m, m', lo)
    ensures WordAt(m', a) == WordAt(m, a)
  {
    KeptSlice(m, m', lo, a, a + WORD);
  }

  lemma KeptString(m: Memory, m': Memory, lo: int, a: int, s: Text)
    requires 0 <= lo <= a && lo <= |m| && StringAt(m, a, s) && Kept(m, m', lo)
    ensures StringAt(m', a, s)
  {
    KeptSlice(m, m', lo, a, a + |s|);
  }

  lemma KeptTrans(m0: Memory, m1: Memory, m2: Memory, hi: int, lo: int)
    requires 0 <= lo <= hi <= |m0| && Kept(m0, m1, hi) && Kept(m1, m2, lo)
    ensures Kept(m0, m2, hi)
  {
  }

  /** Bytes that the strings take, with terminators. */
  function Total(strs: seq<Text>): (r: nat) {
    if strs == [] then 0 else |strs[0]| + 1 + Total(strs[1..])
  }

  ghost predicate Texts(strs: seq<Text>) {
    forall i :: 0 <= i < |strs| ==> 0 !in strs[i]
  }

  /** Strings `strs` lie at `ptrs`, in ascending order without overlap, between `lo` and `hi`. */
  ghost predicate Placed(m: Memory, ptrs: seq<nat>, strs: seq<Text>, lo: int, hi: int) {
    && |ptrs| == |strs|
    && (forall i :: 0 <= i < |strs| ==> StringAt(m, ptrs[i], strs[i]))
    && (forall i :: 0 <= i < |strs| ==> lo <= ptrs[i] && ptrs[i] + |strs[i]| < hi)
    && (forall i, j :: 0 <= i < j < |strs| ==> ptrs[i] + |strs[i]| < ptrs[j])
  }

  lemma KeptPlaced(m: Memory, m': Memory, below: int, ptrs: seq<nat>, strs: seq<Text>, lo: int, hi: int)
    requires 0 <= below <= lo && below <= |m| && Kept(m, m', below) && Placed(m, ptrs, strs, lo, hi)
    ensures Placed(m', ptrs, strs, lo, hi)
  {
    forall i | 0 <= i < |strs| ensures StringAt(m', ptrs[i], strs[i]) {
      KeptString(m, m', below, ptrs[i], strs[i]);
    }
  }

  ghost predicate HoldsWord(m: Memory, a: int, w: nat) {
    0 <= a && a + WORD <= |m| && WordAt(m, a) == w
  }

  /** Consecutive words. */
  ghost predicate WordsAt(m: Memory, a: int, ws: seq<nat>)
    decreases |ws|
  {
    0 <= a && (ws != [] ==> HoldsWord(m, a, ws[0]) && WordsAt(m, a + WORD, ws[1..]))
  }

  lemma {:induction false} KeptWords(m: Memory, m': Memory, lo: int, a: int, ws: seq<nat>)
    requires 0 <= lo <= a && lo <= |m| && WordsAt(m, a, ws) && Kept(m, m', lo)
    ensures WordsAt(m', a, ws)
    decreases |ws|
  {
    if ws != [] {
      KeptWord(m, m', lo, a);
      KeptWords(m, m', lo, a + WORD, ws[1..]);
    }
  }

  /** One more word in front. */
  lemma WordsGrow(m: Memory, m': Memory, a: int, w: nat, ws: seq<nat>)
    requires WORD <= a <= |m| && WordsAt(m, a, ws) && Kept(m, m', a) && HoldsWord(m', a - WORD, w)
    ensures WordsAt(m', a - WORD, [w] + ws)
  {
    KeptWords(m, m', a, a, ws);
    assert ([w] + ws)[1..] == ws;
  }

  lemma {:induction false} WordsEntry(m: Memory, a: int, ws: seq<nat>, i: nat)
    requires WordsAt(m, a, ws) && i < |ws|
    ensures HoldsWord(m, a + WORD * i, ws[i])
    decreases i
  {
    if i > 0 {
      WordsEntry(m, a + WORD, ws[1..], i - 1);
    }
  }

  function Flat(aux: seq<Auxiliary>): (r: seq<nat>)
    ensures |r| == 2 * |aux|
  {
    if aux == [] then [] else [aux[0].kind, aux[0].value] + Flat(aux[1..])
  }

  /** An auxiliary vector that can be written: one entry per type, and no end marker among them. */
  ghost predicate Writable(aux: seq<Auxiliary>) {
    && (forall i :: 0 <= i < |aux| ==> aux[i].kind != AT_NULL && aux[i].kind < TWO64 && aux[i].value < TWO64)
    && (forall i, j :: 0 <= i < j < |aux| ==> aux[i].kind != aux[j].kind)
  }

  function Reversed<T>(s: seq<T>): (r: seq<T>)
    ensures |r| == |s| && forall i :: 0 <= i < |s| ==> r[i] == s[|s| - 1 - i]
  {
    seq(|s|, i requires 0 <= i < |s| => s[|s| - 1 - i])
  }

  /** The words from the stack pointer up to the strings. */
  function Image(args: seq<nat>, envs: seq<nat>, aux: seq<Auxiliary>): (r: seq<nat>) {
    [|args|] + (args + [0] + (envs + [0] + (Flat(aux) + [AT_NULL, 0])))
  }

  /** The stack that a program expects at its start: the argument count, the argument and environment
      tables and the auxiliary vector, with the strings above all of them, apart from each other. */
  ghost predicate Started(m: Memory, sp: int, arg: seq<Text>, env: seq<Text>, aux: seq<Auxiliary>, args: seq<nat>, envs: seq<nat>) {
    && |args| == |arg| < TWO31 && |envs| == |env| && WordsAt(m, sp, Image(args, envs, aux)) && sp > 0
    && Placed(m, args + envs, arg + env, sp + WORD * |Image(args, envs, aux)|, |m|)
  }

  class Process {
    var memory: array<Byte>
    var sp: nat
    var env: seq<Text>
    var aux: seq<Auxiliary>
    var argc: int
    var argv: nat
    var envp: nat

    /** Stores a word. */
    method WriteWord(a: nat, w: nat)
      requires a + WORD <= memory.Length && w < TWO64
      modifies memory
      ensures WordAt(memory[..], a) == w && Kept(old(memory[..]), memory[..], a + WORD)
      ensures forall i :: 0 <= i < a ==> memory[i] == old(memory[i])
    {
      var bytes := LittleEndian8(w);
      forall i | 0 <= i < WORD {
        memory[a + i] := bytes[i];
      }
      assert memory[..][a..a + WORD] == bytes;
      Read8LittleEndian8(w);
    }

    /** Copies a string, with its terminator, below the stack pointer. */
    method PushString(s: Text)
      requires |s| < sp <= memory.Length && 0 !in s
      modifies memory, this`sp
      ensures sp == old(sp) - |s| - 1 && StringAt(memory[..], sp, s) && Kept(old(memory[..]), memory[..], old(sp))
    {
      sp := sp - |s| - 1;
      forall i | 0 <= i < |s| {
        memory[sp + i] := s[i];
      }
      memory[sp + |s|] := 0;
      assert memory[..][sp..sp + |s|] == s;
    }

    /** Copies strings so that they lie in the given order below the stack pointer. */
    method PushStrings(strs: seq<Text>) returns (ptrs: seq<nat>)
      requires Texts(strs) && Total(strs) < sp <= memory.Length
      modifies memory, this`sp
      ensures sp == old(sp) - Total(strs) && Kept(old(memory[..]), memory[..], old(sp))
      ensures Placed(memory[..], Reversed(ptrs), strs, sp, old(sp))
    {
      ptrs := [];
      var k := |strs|;
      assert strs[k..] == [];
      ghost var before := memory[..];
      while k > 0
        invariant 0 <= k <= |strs| && |ptrs| == |strs| - k
        invariant sp == old(sp) - Total(strs[k..]) && memory.Length == |before| && Kept(before, memory[..], old(sp))
        invariant Total(strs[k..]) <= Total(strs)
        invariant Placed(memory[..], Reversed(ptrs), strs[k..], sp, old(sp))
      {
        k := k - 1;
        TotalSuffix(strs, k);
        ghost var now, below := memory[..], sp;
        PushString(strs[k]);
        KeptTrans(before, now, memory[..], old(sp), below);
        PlacedNext(now, memory[..], below, old(sp), ptrs, strs, k, sp);
        ptrs := ptrs + [sp];
      }
      assert strs[0..] == strs;
    }

    /** Stores a word below those at `a`. */
    method PushWord(a: nat, w: nat, ghost ws: seq<nat>) returns (r: nat, ghost ws': seq<nat>)
      requires WORD <= a <= memory.Length && w < TWO64 && WordsAt(memory[..], a, ws)
      modifies memory
      ensures r == a - WORD && ws' == [w] + ws
      ensures WordsAt(memory[..], r, ws') && Kept(old(memory[..]), memory[..], a)
    {
      ghost var before := memory[..];
      WriteWord(a - WORD, w);
      WordsGrow(before, memory[..], a, w, ws);
      r, ws' := a - WORD, [w] + ws;
    }

    /** Stores a table of pointers, the last one first, below `a`. */
    method WritePointers(a: nat, ptrs: seq<nat>, ghost ws: seq<nat>) returns (r: nat, ghost now: seq<nat>)
      requires WORD * |ptrs| + WORD <= a <= memory.Length && WordsAt(memory[..], a, ws)
      requires forall i :: 0 <= i < |ptrs| ==> ptrs[i] < TWO64
      modifies memory
      ensures r == a - WORD * |ptrs| - WORD && now == Reversed(ptrs) + [0] + ws && WordsAt(memory[..], r, now)
      ensures Kept(old(memory[..]), memory[..], a)
    {
      ghost var before := memory[..];
      r, now := PushWord(a, 0, ws);
      assert Reversed(ptrs[..0]) + [0] + ws == now;
      for i := 0 to |ptrs|
        invariant r == a - WORD * i - WORD && memory.Length == |before| && Kept(before, memory[..], a)
        invariant WordsAt(memory[..], r, now) && now == Reversed(ptrs[..i]) + [0] + ws
      {
        ghost var m := memory[..];
        ghost var below := r;
        PointersNext(ptrs, i, ws);
        r, now := PushWord(r, ptrs[i], now);
        KeptTrans(before, m, memory[..], a, below);
      }
      assert ptrs[..|ptrs|] == ptrs;
    }

    /** Stores an entry of the auxiliary vector below `a`. */
    method PushPair(a: nat, p: Auxiliary, ghost ws: seq<nat>) returns (r: nat, ghost ws': seq<nat>)
      requires PAIR <= a <= memory.Length && p.kind < TWO64 && p.value < TWO64 && WordsAt(memory[..], a, ws)
      modifies memory
      ensures r == a - PAIR && ws' == [p.kind, p.value] + ws
      ensures WordsAt(memory[..], r, ws') && Kept(old(memory[..]), memory[..], a)
    {
      ghost var before := memory[..];
      r, ws' := PushWord(a, p.value, ws);
      ghost var now := memory[..];
      r, ws' := PushWord(r, p.kind, ws');
      KeptTrans(before, now, memory[..], a, a - WORD);
      assert [p.kind] + ([p.value] + ws) == [p.kind, p.value] + ws;
    }

    /** Stores the auxiliary vector below `a`. */
    method WriteAuxiliary(a: nat, aux: seq<Auxiliary>) returns (r: nat, ghost now: seq<nat>)
      requires PAIR * |aux| + PAIR <= a <= memory.Length && Writable(aux)
      modifies memory
      ensures r == a - PAIR * |aux| - PAIR && now == Flat(Reversed(aux)) + [AT_NULL, 0] && WordsAt(memory[..], r, now)
      ensures Kept(old(memory[..]), memory[..], a)
    {
      ghost var before := memory[..];
      r, now := PushPair(a, Auxiliary(AT_NULL, 0), []);
      NoPairs(aux);
      for i := 0 to |aux|
        invariant r == a - PAIR * i - PAIR && memory.Length == |before| && Kept(before, memory[..], a)
        invariant WordsAt(memory[..], r, now) && now == Flat(Reversed(aux[..i])) + [AT_NULL, 0]
      {
        ghost var m := memory[..];
        ghost var below := r;
        PairsNext(aux, i);
        r, now := PushPair(r, aux[i], now);
        KeptTrans(before, m, memory[..], a, below);
      }
      TakeAll(aux);
    }

    /** Copies the strings of the environment and the arguments. */
    method WriteStrings(arg: seq<Text>) returns (args: seq<nat>, envs: seq<nat>)
      requires Texts(arg) && Texts(env) && Total(arg) + Total(env) < sp <= memory.Length
      modifies memory, this`sp
      ensures sp == old(sp) - Total(arg) - Total(env)
      ensures Placed(memory[..], Reversed(args) + Reversed(envs), arg + env, sp, old(sp))
      ensures |args| == |arg| && |envs| == |env|
    {
      envs := PushStrings(env);
      ghost var now, below := memory[..], sp;
      args := PushStrings(arg);
      KeptPlaced(now, memory[..], below, Reversed(envs), env, below, old(sp));
      PlacedConcat(memory[..], Reversed(args), arg, sp, below, Reversed(envs), env, old(sp));
    }

    /** Stores the auxiliary vector and the environment table. */
    method WriteUpperTables(a: nat, envs: seq<nat>, aux: seq<Auxiliary>) returns (r: nat, ghost words: seq<nat>)
      requires WORD * |envs| + WORD + PAIR * |aux| + PAIR <= a <= memory.Length && Writable(aux)
      requires forall i :: 0 <= i < |envs| ==> envs[i] < TWO64
      modifies memory
      ensures r == a - WORD * |envs| - WORD - PAIR * |aux| - PAIR
      ensures words == Reversed(envs) + [0] + (Flat(Reversed(aux)) + [AT_NULL, 0]) && WordsAt(memory[..], r, words)
      ensures Kept(old(memory[..]), memory[..], a)
    {
      ghost var before := memory[..];
      r, words := WriteAuxiliary(a, aux);
      ghost var now, below := memory[..], r;
      r, words := WritePointers(r, envs, words);
      KeptTrans(before, now, memory[..], a, below);
    }

    /** Stores the argument table and the argument count. */
    method WriteLowerTables(a: nat, args: seq<nat>, ghost ws: seq<nat>) returns (r: nat, ghost words: seq<nat>)
      requires WORD * |args| + 2 * WORD <= a <= memory.Length && WordsAt(memory[..], a, ws) && |args| < TWO31
      requires forall i :: 0 <= i < |args| ==> args[i] < TWO64
      modifies memory
      ensures r == a - WORD * |args| - 2 * WORD && words == [|args|] + (Reversed(args) + [0] + ws) && WordsAt(memory[..], r, words)
      ensures Kept(old(memory[..]), memory[..], a)
    {
      ghost var before := memory[..];
      r, words := WritePointers(a, args, ws);
      ghost var now, below := memory[..], r;
      r, words := PushWord(r, |args|, words);
      KeptTrans(before, now, memory[..], a, below);
    }

    /** Stores the tables and the argument count below the strings. */
    method WriteTables(a: nat, args: seq<nat>, envs: seq<nat>, aux: seq<Auxiliary>) returns (p: nat, q: nat, ghost words: seq<nat>)
      requires WORD * |args| + WORD * |envs| + 3 * WORD + PAIR * |aux| + PAIR <= a <= memory.Length && Writable(aux) && |args| < TWO31
      requires (forall i :: 0 <= i < |args| ==> args[i] < TWO64) && (forall i :: 0 <= i < |envs| ==> envs[i] < TWO64)
      modifies memory
      ensures p == a - WORD * |envs| - WORD - PAIR * |aux| - PAIR && q == p - WORD * |args| - 2 * WORD
      ensures words == Image(Reversed(args), Reversed(envs), Reversed(aux)) && WordsAt(memory[..], q, words)
      ensures Kept(old(memory[..]), memory[..], a)
    {
      ghost var before := memory[..];
      p, words := WriteUpperTables(a, envs, aux);
      ghost var now := memory[..];
      q, words := WriteLowerTables(p, args, words);
      KeptTrans(before, now, memory[..], a, p);
    }

    /** Stores everything below the strings, which stay as they are. */
    method WriteImage(args: seq<nat>, envs: seq<nat>, ghost strs: seq<Text>, ghost hi: nat)
      requires WORD * (|args| + |envs| + 3) + PAIR * (|aux| + 1) + PAIR <= sp <= memory.Length <= TWO64
      requires Writable(aux) && |args| < TWO31
      requires Placed(memory[..], Reversed(args) + Reversed(envs), strs, sp, hi) && hi <= memory.Length
      modifies memory, this`sp, this`argc, this`argv, this`envp
      ensures 0 < sp && WordsAt(memory[..], sp, Image(Reversed(args), Reversed(envs), Reversed(aux)))
      ensures Placed(memory[..], Reversed(args) + Reversed(envs), strs, sp + WORD * |Image(Reversed(args), Reversed(envs), Reversed(aux))|, |memory[..]|)
      ensures argc == |args| && argv == sp + WORD && envp == argv + WORD * (|args| + 1)
      ensures sp % PAIR == 0 <==> |strs| % 2 == 1
    {
      ghost var before, below := memory[..], sp;
      PointersFit(before, args, envs, strs, below, hi);
      sp := Padded(sp);
      ghost var top := sp;
      ghost var words;
      envp, sp, words := WriteTables(sp, args, envs, aux);
      argc, argv := |args|, sp + WORD;
      KeptPlaced(before, memory[..], top, Reversed(args) + Reversed(envs), strs, below, hi);
      Lowered(top, |args|, |envs|, |aux|, sp);
      PlacedWithin(memory[..], Reversed(args) + Reversed(envs), strs, below, hi, top, memory.Length);
    }

    /** Room that `Init` needs at the stack pointer. */
    ghost function Room(arg: seq<Text>): (r: nat)
      reads this
    {
      WORD + Total(arg) + Total(env) + WORD * (|arg| + |env| + 3) + PAIR * (|aux| + 1) + PAIR
    }

    /** Writes the initial stack. The stack pointer ends 16-byte aligned only for an odd number of strings. */
    method Init(arg: seq<Text>) returns (ghost args: seq<nat>, ghost envs: seq<nat>)
      requires sp % WORD == 0 && Room(arg) <= sp && sp + WORD <= memory.Length <= TWO64
      requires Texts(arg) && Texts(env) && Writable(aux) && |arg| < TWO31
      modifies memory, this`sp, this`argc, this`argv, this`envp
      ensures Started(memory[..], sp, arg, env, Reversed(aux), args, envs)
      ensures argc == |arg| && argv == sp + WORD && envp == argv + WORD * (|arg| + 1)
      ensures sp % PAIR == 0 <==> |arg + env| % 2 == 1
    {
      WriteWord(sp, 0);
      sp := sp - WORD;
      var a, e := WriteStrings(arg);
      WriteImage(a, e, arg + env, old(sp) - WORD);
      args, envs := Reversed(a), Reversed(e);
    }
  }

  function Padded(a: nat): (r: nat)
    ensures r % PAIR == 0 && a - PAIR < r <= a
  {
    a - a % PAIR
  }

  /** The tables take an odd or even number of words. */
  lemma Lowered(top: nat, args: nat, envs: nat, aux: nat, bottom: int)
    requires top % PAIR == 0 && bottom == top - WORD * (args + envs + 3) - PAIR * (aux + 1)
    ensures bottom % PAIR == 0 <==> (args + envs) % 2 == 1
  {
    var k, n := top / PAIR, args + envs;
    if n % 2 == 1 {
      assert bottom == PAIR * (k - (n + 3) / 2 - (aux + 1));
    } else {
      assert bottom == PAIR * (k - (n + 4) / 2 - (aux + 1)) + WORD;
    }
  }

  lemma PlacedWithin(m: Memory, ptrs: seq<nat>, strs: seq<Text>, lo: int, hi: int, lo': int, hi': int)
    requires lo' <= lo && hi <= hi' && Placed(m, ptrs, strs, lo, hi)
    ensures Placed(m, ptrs, strs, lo', hi')
  {
  }

  lemma PointersFit(m: Memory, a: seq<nat>, e: seq<nat>, strs: seq<Text>, lo: int, hi: int)
    requires Placed(m, Reversed(a) + Reversed(e), strs, lo, hi)
    ensures forall i :: 0 <= i < |a| ==> a[i] < |m|
    ensures forall i :: 0 <= i < |e| ==> e[i] < |m|
  {
    var ptrs := Reversed(a) + Reversed(e);
    forall i | 0 <= i < |a| ensures a[i] < |m| {
      assert ptrs[|a| - 1 - i] == a[i];
    }
    forall i | 0 <= i < |e| ensures e[i] < |m| {
      assert ptrs[|a| + |e| - 1 - i] == e[i];
    }
  }

  lemma PlacedConcat(m: Memory, p: seq<nat>, s: seq<Text>, lo: int, mid: int, q: seq<nat>, t: seq<Text>, hi: int)
    requires lo <= mid <= hi && Placed(m, p, s, lo, mid) && Placed(m, q, t, mid, hi)
    ensures Placed(m, p + q, s + t, lo, hi)
  {
    var ps, ss := p + q, s + t;
    forall i | 0 <= i < |ss|
      ensures StringAt(m, ps[i], ss[i]) && lo <= ps[i] && ps[i] + |ss[i]| < hi
      ensures i < |s| ==> ps[i] + |ss[i]| < mid
      ensures i >= |s| ==> mid <= ps[i]
    {
      if i < |s| {
        assert ps[i] == p[i] && ss[i] == s[i];
      } else {
        assert ps[i] == q[i - |s|] && ss[i] == t[i - |s|];
      }
    }
    forall i, j | 0 <= i < j < |ss| ensures ps[i] + |ss[i]| < ps[j] {
      if j < |s| {
        assert ps[i] == p[i] && ss[i] == s[i] && ps[j] == p[j];
      } else if i >= |s| {
        assert ps[i] == q[i - |s|] && ss[i] == t[i - |s|] && ps[j] == q[j - |s|];
      }
    }
  }

  lemma PointersNext(ptrs: seq<nat>, i: nat, ws: seq<nat>)
    requires i < |ptrs|
    ensures Reversed(ptrs[..i + 1]) + [0] + ws == [ptrs[i]] + (Reversed(ptrs[..i]) + [0] + ws)
  {
    ReversedNext(ptrs, i);
  }

  lemma NoPairs(aux: seq<Auxiliary>)
    ensures Flat(Reversed(aux[..0])) + [AT_NULL, 0] == [AT_NULL, 0] + []
  {
  }

  lemma TakeAll<T>(s: seq<T>)
    ensures s[..|s|] == s
  {
  }

  lemma PairsNext(aux: seq<Auxiliary>, i: nat)
    requires i < |aux|
    ensures Flat(Reversed(aux[..i + 1])) + [AT_NULL, 0] == [aux[i].kind, aux[i].value] + (Flat(Reversed(aux[..i])) + [AT_NULL, 0])
  {
    ReversedNext(aux, i);
    assert ([aux[i]] + Reversed(aux[..i]))[1..] == Reversed(aux[..i]);
  }

  lemma ReversedNext<T>(s: seq<T>, i: nat)
    requires i < |s|
    ensures Reversed(s[..i + 1]) == [s[i]] + Reversed(s[..i])
  {
  }

  lemma {:induction false} TotalSuffix(strs: seq<Text>, k: nat)
    requires k < |strs|
    ensures Total(strs[k..]) == |strs[k]| + 1 + Total(strs[k + 1..])
    ensures Total(strs[k..]) <= Total(strs)
  {
    assert strs[k..][1..] == strs[k + 1..];
    if k == 0 {
      assert strs[0..] == strs;
    } else {
      TotalSuffix(strs[1..], k - 1);
      assert strs[1..][k - 1..] == strs[k..];
    }
  }

  /** The next string of a list that is placed from its end. */
  lemma PlacedNext(m: Memory, m': Memory, lo: int, hi: int, ptrs: seq<nat>, strs: seq<Text>, k: nat, p: nat)
    requires k < |strs| && 0 <= lo <= hi <= |m| && Placed(m, Reversed(ptrs), strs[k + 1..], lo, hi) && Kept(m, m', lo)
    requires StringAt(m', p, strs[k]) && p + |strs[k]| < lo
    ensures Placed(m', Reversed(ptrs + [p]), strs[k..], p, hi)
  {
    PlacedGrows(m, m', lo, hi, Reversed(ptrs), strs[k + 1..], p, strs[k]);
    assert strs[k..] == [strs[k]] + strs[k + 1..];
    assert Reversed(ptrs + [p]) == [p] + Reversed(ptrs);
  }

  /** One more string in front. */
  lemma PlacedGrows(m: Memory, m': Memory, lo: int, hi: int, ptrs: seq<nat>, strs: seq<Text>, p: nat, s: Text)
    requires 0 <= lo <= hi <= |m| && Placed(m, ptrs, strs, lo, hi) && Kept(m, m', lo)
    requires StringAt(m', p, s) && p + |s| < lo
    ensures Placed(m', [p] + ptrs, [s] + strs, p, hi)
  {
    KeptPlaced(m, m', lo, ptrs, strs, lo, hi);
  }

  // ---------------------------------------------------------------------------
  // Reading back

  lemma ArgumentWord(m: Memory, sp: int, args: seq<nat>, envs: seq<nat>, aux: seq<Auxiliary>, i: nat)
    requires WordsAt(m, sp, Image(args, envs, aux)) && i < |args|
    ensures HoldsWord(m, sp + WORD + WORD * i, args[i])
  {
    WordsEntry(m, sp, Image(args, envs, aux), 1 + i);
  }

  lemma EnvironmentWord(m: Memory, sp: int, args: seq<nat>, envs: seq<nat>, aux: seq<Auxiliary>, envp: int, i: nat)
    requires WordsAt(m, sp, Image(args, envs, aux)) && i <= |envs| && envp == sp + WORD * (|args| + 2)
    ensures HoldsWord(m, envp + WORD * i, if i < |envs| then envs[i] else 0)
  {
    WordsEntry(m, sp, Image(args, envs, aux), |args| + 2 + i);
  }

  lemma {:induction false} FlatEntry(aux: seq<Auxiliary>, i: nat)
    requires i < |aux|
    ensures Flat(aux)[2 * i] == aux[i].kind && Flat(aux)[2 * i + 1] == aux[i].value
  {
    if i > 0 {
      FlatEntry(aux[1..], i - 1);
    }
  }

  lemma AuxiliaryWords(m: Memory, sp: int, args: seq<nat>, envs: seq<nat>, aux: seq<Auxiliary>, i: nat, a: int)
    requires WordsAt(m, sp, Image(args, envs, aux)) && i <= |aux| && a == sp + WORD * (|args| + |envs| + 3) + PAIR * i
    ensures HoldsPair(m, a, if i < |aux| then aux[i] else Auxiliary(AT_NULL, 0))
  {
    var words, k := Image(args, envs, aux), |args| + |envs| + 3 + 2 * i;
    WordsEntry(m, sp, words, k);
    WordsEntry(m, sp, words, k + 1);
    if i < |aux| {
      FlatEntry(aux, i);
      assert words[k] == Flat(aux)[2 * i] && words[k + 1] == Flat(aux)[2 * i + 1];
    }
  }

  ghost predicate HoldsPair(m: Memory, a: int, p: Auxiliary) {
    HoldsWord(m, a, p.kind) && HoldsWord(m, a + WORD, p.value)
  }

  /** Reads a string up to its terminator. */
  method ReadString(m: Memory, a: nat, ghost s: Text) returns (r: Text)
    requires StringAt(m, a, s)
    ensures r == s
  {
    r := [];
    while m[a + |r|] != 0
      invariant |r| <= |s| && r == s[..|r|]
      decreases |s| - |r|
    {
      assert |r| < |s| && m[a..a + |s|][|r|] == m[a + |r|];
      r := r + [m[a + |r|]];
    }
  }

  /** Reads the argument count, as a 32-bit number, and the arguments. */
  method ReadArguments(m: Memory, sp: nat, ghost arg: seq<Text>, ghost env: seq<Text>, ghost aux: seq<Auxiliary>,
                       ghost args: seq<nat>, ghost envs: seq<nat>) returns (argc: nat, r: seq<Text>)
    requires Started(m, sp, arg, env, aux, args, envs)
    ensures argc == |arg| && r == arg
  {
    WordsEntry(m, sp, Image(args, envs, aux), 0);
    LowHalf(m, sp, |arg|);
    argc := Read4(m[sp..sp + 4]);
    r := [];
    for i := 0 to argc
      invariant r == arg[..i]
    {
      ArgumentWord(m, sp, args, envs, aux, i);
      assert (args + envs)[i] == args[i] && (arg + env)[i] == arg[i];
      var s := ReadString(m, WordAt(m, sp + WORD + WORD * i), arg[i]);
      r := r + [s];
    }
  }

  lemma LowHalf(m: Memory, a: int, w: nat)
    requires HoldsWord(m, a, w) && w < TWO32
    ensures Read4(m[a..a + 4]) == w
  {
    assert m[a..a + WORD][..4] == m[a..a + 4];
  }

  function NonEmpty(strs: seq<Text>): (r: seq<Text>)
    ensures forall i :: 0 <= i < |r| ==> r[i] != []
    ensures (forall i :: 0 <= i < |strs| ==> strs[i] != []) ==> r == strs
  {
    if strs == [] then [] else
      var k := |strs| - 1;
      NonEmpty(strs[..k]) + if strs[k] != [] then [strs[k]] else []
  }

  /** Where the environment string of that index lies. */
  lemma EnvironmentString(m: Memory, sp: nat, arg: seq<Text>, env: seq<Text>, aux: seq<Auxiliary>, args: seq<nat>, envs: seq<nat>, i: nat)
    requires Started(m, sp, arg, env, aux, args, envs) && i < |env|
    ensures StringAt(m, envs[i], env[i])
  {
    assert (args + envs)[|arg| + i] == envs[i] && (arg + env)[|arg| + i] == env[i];
  }

  lemma NonEmptyNext(strs: seq<Text>, i: nat)
    requires i < |strs|
    ensures NonEmpty(strs[..i + 1]) == NonEmpty(strs[..i]) + if strs[i] != [] then [strs[i]] else []
  {
    assert strs[..i + 1][..i] == strs[..i];
  }

  /** Adds a string unless it is empty. */
  method AddString(m: Memory, a: nat, r: seq<Text>, ghost s: Text) returns (r': seq<Text>)
    requires StringAt(m, a, s)
    ensures r' == r + if s != [] then [s] else []
  {
    r' := r;
    if m[a] != 0 {
      var t := ReadString(m, a, s);
      r' := r + [t];
    } else {
      EmptyString(m, a, s);
    }
  }

  /** Reads the environment up to its end, without empty strings, and tells its length. */
  method ReadEnvironment(m: Memory, envp: nat, ghost sp: nat, ghost arg: seq<Text>, ghost env: seq<Text>, ghost aux: seq<Auxiliary>,
                         ghost args: seq<nat>, ghost envs: seq<nat>) returns (envc: nat, r: seq<Text>)
    requires Started(m, sp, arg, env, aux, args, envs) && envp == sp + WORD * (|arg| + 2)
    ensures envc == |env| && r == NonEmpty(env)
  {
    envc, r := 0, [];
    NoNullPointers(m, sp, arg, env, aux, args, envs);
    EnvironmentWord(m, sp, args, envs, aux, envp, 0);
    while WordAt(m, envp + WORD * envc) != 0
      invariant envc <= |env| && r == NonEmpty(env[..envc])
      invariant HoldsWord(m, envp + WORD * envc, if envc < |env| then envs[envc] else 0)
      decreases |env| - envc
    {
      EnvironmentString(m, sp, arg, env, aux, args, envs, envc);
      NonEmptyNext(env, envc);
      r := AddString(m, WordAt(m, envp + WORD * envc), r, env[envc]);
      envc := envc + 1;
      EnvironmentWord(m, sp, args, envs, aux, envp, envc);
    }
    assert env[..|env|] == env;
  }

  lemma NoNullPointers(m: Memory, sp: nat, arg: seq<Text>, env: seq<Text>, aux: seq<Auxiliary>, args: seq<nat>, envs: seq<nat>)
    requires Started(m, sp, arg, env, aux, args, envs)
    ensures forall i :: 0 <= i < |envs| ==> envs[i] != 0
  {
    forall i | 0 <= i < |envs| ensures envs[i] != 0 {
      assert (args + envs)[|args| + i] == envs[i];
    }
  }

  lemma EmptyString(m: Memory, a: int, s: Text)
    requires StringAt(m, a, s) && m[a] == 0
    ensures s == []
  {
    if s != [] {
      assert false;
    }
  }

  predicate HasKind(aux: seq<Auxiliary>, t: nat) {
    exists i :: 0 <= i < |aux| && aux[i].kind == t
  }

  /** Reads the auxiliary vector behind the environment, keeping the first value of each type. */
  method ReadAuxiliary(m: Memory, auxv: nat, ghost sp: nat, ghost aux: seq<Auxiliary>, ghost args: seq<nat>, ghost envs: seq<nat>)
    returns (r: seq<Auxiliary>)
    requires WordsAt(m, sp, Image(args, envs, aux)) && auxv == sp + WORD * (|args| + |envs| + 3) && Writable(aux)
    ensures r == aux
  {
    r := [];
    ghost var i := 0;
    var a := auxv;
    AuxiliaryWords(m, sp, args, envs, aux, 0, a);
    while WordAt(m, a) != AT_NULL
      invariant i <= |aux| && r == aux[..i] && a == auxv + PAIR * i
      invariant HoldsPair(m, a, if i < |aux| then aux[i] else Auxiliary(AT_NULL, 0))
      decreases |aux| - i
    {
      var t, v := WordAt(m, a), WordAt(m, a + WORD);
      if !HasKind(r, t) {
        r := r + [Auxiliary(t, v)];
      }
      i, a := i + 1, a + PAIR;
      AuxiliaryWords(m, sp, args, envs, aux, i, a);
    }
  }

  /** What the loader reads from a stack that `Init` wrote is what it was to write: the arguments, the
      environment without its empty strings, and the entries of the auxiliary vector. */
  method WriteAndRead(p: Process, arg: seq<Text>) returns (argc: nat, arg': seq<Text>, env': seq<Text>, aux': seq<Auxiliary>)
    requires p.sp % WORD == 0 && p.Room(arg) <= p.sp && p.sp + WORD <= p.memory.Length <= TWO64
    requires Texts(arg) && Texts(p.env) && Writable(p.aux) && |arg| < TWO31
    modifies p, p.memory
    ensures argc == |arg| && arg' == arg && env' == NonEmpty(old(p.env)) && aux' == Reversed(old(p.aux))
  {
    ghost var env, aux := p.env, Reversed(p.aux);
    ghost var args, envs := p.Init(arg);
    var m, sp := p.memory[..], p.sp;
    argc, arg' := ReadArguments(m, sp, arg, env, aux, args, envs);
    var envp := sp + WORD * (argc + 2);
    var envc;
    envc, env' := ReadEnvironment(m, envp, sp, arg, env, aux, args, envs);
    aux' := ReadAuxiliary(m, envp + WORD * (envc + 1), sp, aux, args, envs);
  }

  /** Swaps two strings. */
  method Swap(e: array<Text>, i: nat, j: nat)
    requires i <= j < e.Length
    modifies e
    ensures e[..] == old(e[..])[i := old(e[j])][j := old(e[i])]
    ensures multiset(e[..]) == multiset(old(e[..]))
  {
    e[j], e[i] := e[i], e[j];
  }

  /** Moves the empty strings of an environment behind the others, in place. */
  method MoveEmptyBack(e: array<Text>)
    modifies e
    ensures multiset(e[..]) == multiset(old(e[..]))
    ensures forall i, j :: 0 <= i < j < e.Length && e[j] != [] ==> e[i] != []
  {
    var envc, curr := e.Length, 0;
    while curr < envc
      invariant 0 <= curr <= envc + 1 && 0 <= envc <= e.Length
      invariant forall i :: 0 <= i < curr && i < envc ==> e[..][i] != []
      invariant forall i :: envc <= i < e.Length ==> e[..][i] == []
      invariant multiset(e[..]) == multiset(old(e[..]))
    {
      if e[curr] == [] {
        envc := envc - 1;
        while e[envc] == [] && envc > curr
          invariant curr <= envc < e.Length
          invariant forall i :: envc < i < e.Length ==> e[..][i] == []
        {
          envc := envc - 1;
        }
        Swap(e, curr, envc);
      }
      curr := curr + 1;
    }
    forall i, j | 0 <= i < j < e.Length && e[j] != [] ensures e[i] != [] {
      assert e[..][i] == e[i] && e[..][j] == e[j];
    }
  }
}
