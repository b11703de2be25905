/** A small step machine for the A32 instructions that the ARM32 unpinning plugin
    rewrites and emits (ARM Architecture Reference Manual, ARMv7-A and ARMv7-R edition,
    sections A2.3 and A8.8).  Registers and addresses are 32-bit values, so arithmetic on
    them wraps; memory is byte addressed and little endian.  Instruction words are
    bit-vectors, everything an instruction computes with is an integer below 2^32. */
module A32Machine {

  import L = LittleEndian
  import M = ByteMemory

  const TWO_32 := L.TWO_32

  type Word = x: int | 0 <= x < TWO_32
  type RegNo = nat
  type Byte = L.Byte
  type Memory = M.Memory

  function Wrap(x: int): Word { x % TWO_32 }

  const PC: RegNo := 15
  const SP: RegNo := 13

  /** The condition that always passes, and the encoding space that has no condition. */
  const AL: nat := 14
  const UNCONDITIONAL: nat := 15

  // ----- memory

  /** A byte of memory; what was never written reads as zero. */
  function At(m: Memory, a: int): Byte {
    if a in m then m[a] else 0
  }

  function Bits(b3: bv8, b2: bv8, b1: bv8, b0: bv8): bv32 {
    ((b3 as bv32) << 24) | ((b2 as bv32) << 16) | ((b1 as bv32) << 8) | (b0 as bv32)
  }

  datatype Quad = Quad(b0: Byte, b1: Byte, b2: Byte, b3: Byte)

  /** The four bytes at `a`, as an instruction fetch reads them. */
  function Fetch(m: Memory, a: int): Quad {
    Quad(At(m, a), At(m, a + 1), At(m, a + 2), At(m, a + 3))
  }

  /** The data word at `a`. */
  function LoadWord(m: Memory, a: int): Word {
    At(m, a) + 0x100 * At(m, a + 1) + 0x1_0000 * At(m, a + 2) + 0x100_0000 * At(m, a + 3)
  }

  function StoreByte(m: Memory, a: int, x: Byte): Memory { m[a := x] }

  function Store4(m: Memory, a: int, b0: Byte, b1: Byte, b2: Byte, b3: Byte): Memory {
    m[a := b0][a + 1 := b1][a + 2 := b2][a + 3 := b3]
  }

  function StoreWord(m: Memory, a: int, x: Word): Memory {
    Store4(m, a, x % 0x100, x / 0x100 % 0x100, x / 0x1_0000 % 0x100, x / 0x100_0000)
  }

  /** The words at `a` and `b` share no byte. */
  predicate Apart(a: int, b: int) {
    b <= a - 4 || a + 4 <= b
  }

  lemma DivDiv(x: int)
    ensures x / 0x1_0000 == x / 0x100 / 0x100
  {
  }

  lemma FourBytes(x: Word)
    ensures x % 0x100 + 0x100 * (x / 0x100 % 0x100) + 0x1_0000 * (x / 0x1_0000 % 0x100) + 0x100_0000 * (x / 0x100_0000)
            == x
  {
    DivDiv(x);
    DivDiv(x / 0x100);
    assert x / 0x100_0000 == x / 0x100 / 0x100 / 0x100;
  }

  lemma LoadStored(m: Memory, a: int, x: Word)
    ensures LoadWord(StoreWord(m, a, x), a) == x
  {
    FourBytes(x);
  }

  lemma LoadElsewhere(m: Memory, a: int, x: Word, b: int)
    requires Apart(a, b)
    ensures LoadWord(StoreWord(m, a, x), b) == LoadWord(m, b)
    ensures Fetch(StoreWord(m, a, x), b) == Fetch(m, b)
  {
  }

  // ----- instructions

  datatype Operand2 =
    | Immediate(imm: Word)
    | ShiftedByImm(rm: RegNo, kind: nat, amount: nat)
    | ShiftedByReg(rm: RegNo, kind: nat, rs: RegNo)

  datatype Insn =
    | Branch(cond: nat, offset: int)
    | LoadReg(cond: nat, byte: bool, up: bool, rn: RegNo, rd: RegNo, op2: Operand2)
    | StoreReg(cond: nat, byte: bool, up: bool, rn: RegNo, rd: RegNo, op2: Operand2)
    | Add(cond: nat, s: bool, rn: RegNo, rd: RegNo, op2: Operand2)
    | VLoad(cond: nat, double: bool, up: bool, rn: RegNo, vd: RegNo, imm: Word)
    | Unmodelled(word: bv32)

  predicate Bit(w: bv32, i: nat)
    requires i < 32
  {
    (w >> i) & 1 == 1
  }

  function Cond(w: bv32): nat { (w >> 28) as int }
  function Rn(w: bv32): RegNo { ((w >> 16) & 0xf) as int }
  function Rd(w: bv32): RegNo { ((w >> 12) & 0xf) as int }
  function Rs(w: bv32): RegNo { ((w >> 8) & 0xf) as int }
  function Rm(w: bv32): RegNo { (w & 0xf) as int }

  /** A branch immediate: 24 bits, sign extended, times four. */
  function BranchOffset(w: bv32): int {
    4 * (Low24(w) - (if Bit(w, 23) then 0x100_0000 else 0))
  }

  function Low24(w: bv32): nat { (w & 0x00ff_ffff) as int }

  /** ARMExpandImm: an 8-bit value rotated right by twice a 4-bit field. */
  function ExpandImm(w: bv32): bv32 {
    RotateRightTwice(w & 0xff, (w >> 8) & 0xf)
  }

  /** `x` rotated right by twice `k`, for `k` below 16. */
  function RotateRightTwice(x: bv32, k: bv32): bv32 {
    if k == 0 then x
    else if k == 1 then x.RotateRight(2)
    else if k == 2 then x.RotateRight(4)
    else if k == 3 then x.RotateRight(6)
    else if k == 4 then x.RotateRight(8)
    else if k == 5 then x.RotateRight(10)
    else if k == 6 then x.RotateRight(12)
    else if k == 7 then x.RotateRight(14)
    else if k == 8 then x.RotateRight(16)
    else if k == 9 then x.RotateRight(18)
    else if k == 10 then x.RotateRight(20)
    else if k == 11 then x.RotateRight(22)
    else if k == 12 then x.RotateRight(24)
    else if k == 13 then x.RotateRight(26)
    else if k == 14 then x.RotateRight(28)
    else x.RotateRight(30)
  }

  function RegOperand2(w: bv32): Operand2 {
    if Bit(w, 4) then ShiftedByReg(Rm(w), ((w >> 5) & 3) as int, Rs(w))
    else ShiftedByImm(Rm(w), ((w >> 5) & 3) as int, ((w >> 7) & 0x1f) as int)
  }

  predicate IsTransfer(w: bv32) {
    // single data transfer, offset addressing without write-back
    (w >> 26) & 3 == 1 && Bit(w, 24) && !Bit(w, 21) && !(Bit(w, 25) && Bit(w, 4))
  }

  predicate IsAddImm(w: bv32) { (w >> 21) & 0x7f == 0x14 }

  predicate IsAddReg(w: bv32) { (w >> 21) & 0x7f == 0x04 && !(Bit(w, 4) && Bit(w, 7)) }

  predicate IsBranch(w: bv32) { (w >> 24) & 0xf == 0xa }

  function Low12(w: bv32): nat { (w & 0xfff) as int }

  predicate IsVLoad(w: bv32) { (w >> 24) & 0xf == 0xd && (w >> 20) & 3 == 1 && (w >> 9) & 7 == 5 }

  function Decode(w: bv32): Insn {
    var cond := Cond(w);
    if cond == UNCONDITIONAL then Unmodelled(w)
    else if IsBranch(w) then Branch(cond, BranchOffset(w))
    else if IsTransfer(w) then
      var op2 := if Bit(w, 25) then RegOperand2(w) else Immediate(Low12(w));
      if Bit(w, 20) then LoadReg(cond, Bit(w, 22), Bit(w, 23), Rn(w), Rd(w), op2)
      else StoreReg(cond, Bit(w, 22), Bit(w, 23), Rn(w), Rd(w), op2)
    else if IsAddImm(w) then Add(cond, Bit(w, 20), Rn(w), Rd(w), Immediate(ExpandImm(w) as int))
    else if IsAddReg(w) then Add(cond, Bit(w, 20), Rn(w), Rd(w), RegOperand2(w))
    else if IsVLoad(w) then
      VLoad(cond, Bit(w, 8), Bit(w, 23), Rn(w),
            if Bit(w, 8) then Rd(w) + (if Bit(w, 22) then 16 else 0) else 2 * Rd(w) + (if Bit(w, 22) then 1 else 0),
            4 * ((w & 0xff) as int))
    else Unmodelled(w)
  }

  // ----- state and execution

  /** `f` is the floating-point register file as 32-bit words: s<k> is word k, d<k> is words 2k and 2k+1. */
  datatype Cpu = Cpu(r: RegNo -> Word, pc: Word, thumb: bool,
                     n: bool, z: bool, c: bool, v: bool,
                     f: RegNo -> Word, mem: Memory)

  function Update(f: RegNo -> Word, k: RegNo, x: Word): RegNo -> Word {
    (j: RegNo) => if j == k then x else f(j)
  }

  function Next(s: Cpu): Cpu { s.(pc := Wrap(s.pc + 4)) }

  /** Reading register 15 gives the address of the instruction plus 8. */
  function Reg(s: Cpu, k: RegNo): Word {
    if k == PC then Wrap(s.pc + 8) else s.r(k)
  }

  /** Writing register 15 is an interworking branch. */
  function SetReg(s: Cpu, k: RegNo, x: Word): Cpu {
    if k == PC then
      if x % 2 == 1 then s.(pc := x - 1, thumb := true) else s.(pc := x)
    else Next(s).(r := Update(s.r, k, x))
  }

  predicate CondPasses(s: Cpu, cond: nat) {
    var base := cond / 2;
    var holds :=
      if base == 0 then s.z
      else if base == 1 then s.c
      else if base == 2 then s.n
      else if base == 3 then s.v
      else if base == 4 then s.c && !s.z
      else if base == 5 then s.n == s.v
      else if base == 6 then s.n == s.v && !s.z
      else true;
    if cond % 2 == 1 && base != 7 then !holds else holds
  }

  function Pow2(k: nat): (p: nat)
    ensures p >= 1
  {
    if k == 0 then 1 else 2 * Pow2(k - 1)
  }

  /** A value shifted by 0 to 32 places; kinds 0 to 3 are LSL, LSR, ASR and ROR. */
  function ShiftValue(x: Word, kind: nat, amount: nat): Word
    requires amount <= 32
  {
    if kind == 0 then Wrap(x * Pow2(amount))
    else if kind == 1 then Wrap(x / Pow2(amount))
    else if kind == 2 then Wrap((if x < 0x8000_0000 then x else x - TWO_32) / Pow2(amount))
    else Wrap(x / Pow2(amount) + (x % Pow2(amount)) * Pow2(32 - amount))
  }

  function EvalOp2(s: Cpu, op2: Operand2): Word {
    match op2
    case Immediate(imm) => imm
    case ShiftedByImm(rm, kind, amount) =>
      var x := Reg(s, rm);
      var a := amount % 32;
      if a != 0 || kind == 0 then ShiftValue(x, kind, a)
      else if kind == 3 then Wrap((if s.c then 0x8000_0000 else 0) + x / 2)   // RRX
      else ShiftValue(x, kind, 32)
    case ShiftedByReg(rm, kind, rs) =>
      var x := Reg(s, rm);
      var a := Reg(s, rs) % 256;
      if a <= 32 then ShiftValue(x, kind, a)
      else if kind == 3 then ShiftValue(x, kind, a % 32)
      else ShiftValue(x, kind, 32)
  }

  function Offset(base: Word, up: bool, offset: Word): Word {
    if up then Wrap(base + offset) else Wrap(base - offset)
  }

  function Address(s: Cpu, up: bool, rn: RegNo, op2: Operand2): Word {
    Offset(Reg(s, rn), up, EvalOp2(s, op2))
  }

  function Loaded(m: Memory, a: Word, byte: bool): Word {
    if byte then At(m, a) else LoadWord(m, a)
  }

  function SetFlags(s: Cpu, x: Word, y: Word): Cpu {
    var sum := Wrap(x + y);
    s.(n := sum >= 0x8000_0000, z := sum == 0, c := x + y >= TWO_32,
       v := (x < 0x8000_0000) == (y < 0x8000_0000) && (sum < 0x8000_0000) != (x < 0x8000_0000))
  }

  function SetVfp(s: Cpu, double: bool, vd: RegNo, a: Word): Cpu {
    if double then
      Next(s).(f := Update(Update(s.f, 2 * vd, LoadWord(s.mem, a)), 2 * vd + 1, LoadWord(s.mem, a + 4)))
    else Next(s).(f := Update(s.f, vd, LoadWord(s.mem, a)))
  }

  function Exec(i: Insn, s: Cpu): Cpu {
    if i.Unmodelled? then s
    else if !CondPasses(s, i.cond) then Next(s)
    else
      match i
      case Branch(_, offset) => s.(pc := Wrap(s.pc + 8 + offset))
      case LoadReg(_, byte, up, rn, rd, op2) => SetReg(s, rd, Loaded(s.mem, Address(s, up, rn, op2), byte))
      case StoreReg(_, byte, up, rn, rd, op2) =>
        var a := Address(s, up, rn, op2);
        if byte then Next(s).(mem := StoreByte(s.mem, a, Reg(s, rd) % 0x100))
        else Next(s).(mem := StoreWord(s.mem, a, Reg(s, rd)))
      case Add(_, flags, rn, rd, op2) =>
        var x := Reg(s, rn);
        var y := EvalOp2(s, op2);
        SetReg(if flags && rd != PC then SetFlags(s, x, y) else s, rd, Wrap(x + y))
      case VLoad(_, double, up, rn, vd, imm) => SetVfp(s, double, vd, Offset(Reg(s, rn), up, imm))
  }

  /** The machine is parametric in its decoder, so that what a trampoline does can be stated
      for any decoder that reads its words as intended; A32 is the instance that matters. */
  type Decoder = Quad -> Insn

  function A32(q: Quad): Insn {
    Decode(Bits(q.b3 as bv8, q.b2 as bv8, q.b1 as bv8, q.b0 as bv8))
  }

  function InsnAt(isa: Decoder, m: Memory, a: int): Insn {
    isa(Fetch(m, a))
  }

  function Step(isa: Decoder, s: Cpu): Cpu {
    if s.thumb then s else Exec(InsnAt(isa, s.mem, s.pc), s)
  }

  function Run(isa: Decoder, s: Cpu, k: nat): Cpu
    decreases k
  {
    if k == 0 then s else Run(isa, Step(isa, s), k - 1)
  }
}
