/** Rewriting of instructions with GOTPCRELX relocations in ObjectRelocatable::relocate
    (src/object/relocatable.cpp), which saves the global offset table; AMD64 psABI section B.2. */
module GotRelax {
  import opened Common
  import R = Redirect

  /** What an instruction with a rip-relative operand does. The register is the ModRM byte
      (with the prefixes before it, which are never touched). */
  datatype Effect =
    | SetRegister(modrm: Byte, value: int)
    | Call(target: int, returnAddress: int)
    | Jump(target: int)
    | UseOperand(opcode: Byte, modrm: Byte, operand: int)

  /** A site: code with two opcode bytes before a 32 bit displacement at off. */
  predicate Site(code: seq<Byte>, off: nat) {
    2 <= off && off + 4 <= |code|
  }

  function Displacement(code: seq<Byte>, off: nat): (d: int)
    requires Site(code, off)
  {
    R.SignExtend(R.Read4(code[off..off + 4]))
  }

  function WithDisplacement(code: seq<Byte>, off: nat, d: int): (r: seq<Byte>)
    requires Site(code, off)
    ensures |r| == |code|
  {
    code[..off] + R.LittleEndian4(d % R.TWO32) + code[off + 4..]
  }

  /** The effect of the instruction at off of code loaded at base. `mem` gives the 64 bit
      word at an address. */
  function Exec(code: seq<Byte>, base: int, off: nat, mem: int -> int): (e: Effect)
    requires Site(code, off)
  {
    var next := base + off + 4;
    var a := next + Displacement(code, off);
    var op, rm := code[off - 2], code[off - 1];
    if op == 0x8b then SetRegister(rm, mem(a))
    else if op == 0x8d then SetRegister(rm, a)
    else if op == 0xff && rm == 0x15 then Call(mem(a), next)
    else if op == 0xff && rm == 0x25 then Jump(mem(a))
    else if op == 0x90 && rm == 0xe8 then Call(a, next)
    else if op == 0x90 && rm == 0xe9 then Jump(a)
    else UseOperand(op, rm, mem(a))
  }

  /** The instructions that are rewritten. */
  predicate Relaxable(op: Byte, rm: Byte) {
    op == 0x8b || (op == 0xff && (rm == 0x15 || rm == 0x25))
  }

  /** Already in the form that takes the address itself. */
  predicate Direct(op: Byte, rm: Byte) {
    op == 0x8d || (op == 0x90 && (rm == 0xe8 || rm == 0xe9))
  }

  function Rewritten(code: seq<Byte>, off: nat): (r: seq<Byte>)
    requires Site(code, off)
    ensures |r| == |code|
  {
    var op, rm := code[off - 2], code[off - 1];
    if op == 0x8b then code[off - 2 := 0x8d]
    else if op == 0xff && rm == 0x15 then code[off - 2 := 0x90][off - 1 := 0xe8]
    else if op == 0xff && rm == 0x25 then code[off - 2 := 0x90][off - 1 := 0xe9]
    else code
  }

  /** S + A - P with A = -4, for a site at P = base + off. */
  function PcRelative(base: int, off: nat, symbol: int): (v: int) {
    symbol - 4 - (base + off)
  }

  predicate Fits(d: int) {
    -R.TWO31 <= d < R.TWO31
  }

  lemma DisplacementWritten(code: seq<Byte>, off: nat, d: int)
    requires Site(code, off) && Fits(d)
    ensures Displacement(WithDisplacement(code, off, d), off) == d
    ensures WithDisplacement(code, off, d)[off - 2] == code[off - 2]
    ensures WithDisplacement(code, off, d)[off - 1] == code[off - 1]
  {
    var w := WithDisplacement(code, off, d);
    assert w[off..off + 4] == R.LittleEndian4(d % R.TWO32);
    R.Read4LittleEndian4(d % R.TWO32);
    assert d % R.TWO32 == if d < 0 then d + R.TWO32 else d;
  }

  /** Against the same instruction going through a table slot at `got` that holds the symbol:
      the rewritten and relocated instruction has the same effect exactly when it is a MOV,
      CALL or JMP, or happens to find the symbol's own address stored at the symbol. */
  lemma RelaxationPreservesMeaningIff(code: seq<Byte>, base: int, off: nat, symbol: int, got: int, mem: int -> int)
    requires Site(code, off) && !Direct(code[off - 2], code[off - 1])
    requires mem(got) == symbol
    requires Fits(PcRelative(base, off, symbol)) && Fits(PcRelative(base, off, got))
    ensures Exec(WithDisplacement(Rewritten(code, off), off, PcRelative(base, off, symbol)), base, off, mem) ==
              Exec(WithDisplacement(code, off, PcRelative(base, off, got)), base, off, mem) <==>
            Relaxable(code[off - 2], code[off - 1]) || mem(symbol) == symbol
  {
    DisplacementWritten(code, off, PcRelative(base, off, got));
    DisplacementWritten(Rewritten(code, off), off, PcRelative(base, off, symbol));
  }

  /** The rewriting in place, followed by the write of the 32 bit value. */
  method RelaxAndRelocate(code: array<Byte>, base: int, off: nat, symbol: int)
    requires Site(code[..], off)
    modifies code
    ensures code[..] == WithDisplacement(Rewritten(old(code[..]), off), off, PcRelative(base, off, symbol))
  {
    ghost var before := code[..];
    if code[off - 2] == 0x8b {
      code[off - 2] := 0x8d;
    } else if code[off - 2] == 0xff && code[off - 1] == 0x15 {
      code[off - 2] := 0x90;
      code[off - 1] := 0xe8;
    } else if code[off - 2] == 0xff && code[off - 1] == 0x25 {
      code[off - 2] := 0x90;
      code[off - 1] := 0xe9;
    }
    assert code[..] == Rewritten(before, off);
    var bytes := R.LittleEndian4(PcRelative(base, off, symbol) % R.TWO32);
    code[off], code[off + 1], code[off + 2], code[off + 3] := bytes[0], bytes[1], bytes[2], bytes[3];
    assert code[off..off + 4] == bytes;
    assert code[..] == code[..off] + code[off..off + 4] + code[off + 4..];
  }
}
