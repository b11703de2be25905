/** The few A64 instructions that pc-relative operands and their trampolines are made of (sections
    C6.2 and C7.2 of the Arm Architecture Reference Manual for A-profile).  Words, addresses and
    registers are numbers; instruction fields are taken apart by division. */
module A64Machine {

  import L = LittleEndian
  import M = ByteMemory

  const TWO_64: int := 0x1_0000_0000_0000_0000
  const TWO_63: int := 0x8000_0000_0000_0000

  function Wrap(x: int): nat { x % TWO_64 }

  /** A 64-bit number read as signed. */
  function Signed(x: nat): int { if x < TWO_63 then x else x - TWO_64 }

  /** An `n`-bit field read as signed, where `half` is 2 to the `n` - 1. */
  function Ext(x: nat, half: nat): int { if x < half then x else x - 2 * half }

  /** What a load reads, and how it is extended. */
  datatype Width = W | X | SW | S | D | Q

  datatype Insn =
    | Adr(rd: nat, imm: int)
    | Adrp(rd: nat, pages: int)
    | AddImm(rd: nat, rn: nat, imm: int)
    | LdrLiteral(width: Width, rt: nat, words: int)
    | LdrOffset(width: Width, rt: nat, rn: nat, imm: int)
    | Stur(rt: nat, rn: nat, imm: int)
    | Ldur(rt: nat, rn: nat, imm: int)
    | B(words: int)
    | Other

  predicate ToVector(width: Width) { width.S? || width.D? || width.Q? }

  function Bytes(width: Width): nat {
    match width
    case W => 4 case SW => 4 case S => 4
    case X => 8 case D => 8
    case Q => 16
  }

  // ----- decoding

  function Rd(w: nat): nat { w % 32 }
  function Rn(w: nat): nat { w / 32 % 32 }
  function Imm19(w: nat): nat { w / 32 % 0x8_0000 }
  function ImmLo(w: nat): nat { w / 0x2000_0000 % 4 }
  function Imm12(w: nat): nat { w / 0x400 % 0x1000 }
  function Imm9(w: nat): nat { w / 0x1000 % 0x200 }
  function Imm26(w: nat): nat { w % 0x400_0000 }

  function Literal(width: Width, w: nat): Insn { LdrLiteral(width, Rd(w), Ext(Imm19(w), 0x4_0000)) }

  function Offset(width: Width, w: nat): Insn { LdrOffset(width, Rd(w), Rn(w), Imm12(w) * Bytes(width)) }

  function Decode(w: nat): Insn {
    var op8, op10 := w / 0x100_0000 % 0x100, w / 0x40_0000 % 0x400;
    if op8 % 32 == 0x10 then
      var imm := Ext(Imm19(w) * 4 + ImmLo(w), 0x10_0000);
      if op8 < 0x80 then Adr(Rd(w), imm) else Adrp(Rd(w), imm)
    else if op10 == 0x244 then AddImm(Rd(w), Rn(w), Imm12(w))
    else if op8 == 0x18 then Literal(W, w)
    else if op8 == 0x58 then Literal(X, w)
    else if op8 == 0x98 then Literal(SW, w)
    else if op8 == 0x1C then Literal(S, w)
    else if op8 == 0x5C then Literal(D, w)
    else if op8 == 0x9C then Literal(Q, w)
    else if op10 == 0x2E5 then Offset(W, w)
    else if op10 == 0x3E5 then Offset(X, w)
    else if op10 == 0x2E6 then Offset(SW, w)
    else if op10 == 0x2F5 then Offset(S, w)
    else if op10 == 0x3F5 then Offset(D, w)
    else if op10 == 0x0F7 then Offset(Q, w)
    else if w / 0x20_0000 % 0x800 == 0x7C0 && w / 0x400 % 4 == 0 then Stur(Rd(w), Rn(w), Ext(Imm9(w), 0x100))
    else if w / 0x20_0000 % 0x800 == 0x7C2 && w / 0x400 % 4 == 0 then Ldur(Rd(w), Rn(w), Ext(Imm9(w), 0x100))
    else if w / 0x400_0000 % 0x40 == 5 then B(Ext(Imm26(w), 0x200_0000))
    else Other
  }

  // ----- execution

  /** Register 31 is not in `x`: it is the stack pointer where an instruction uses it as a base or
      adds to it, and the zero register elsewhere.  A vector register holds the bytes last loaded
      into it.  Instructions are fetched from elsewhere. */
  datatype Cpu = Cpu(pc: int, x: map<nat, nat>, sp: int, v: map<nat, seq<L.Byte>>, mem: M.Memory)

  function Reg(c: Cpu, r: nat): nat { if r in c.x then c.x[r] else 0 }

  function BaseReg(c: Cpu, r: nat): int { if r == 31 then c.sp else Reg(c, r) }

  function SetReg(c: Cpu, r: nat, v: nat): Cpu { if r == 31 then c else c.(x := c.x[r := v]) }

  function LoadWord(m: M.Memory, a: int, width: Width): nat {
    var y := L.Decode(M.LoadBytes(m, 8, a, Bytes(width)));
    if width.SW? && y >= 0x8000_0000 then Wrap(y - 0x1_0000_0000) else y
  }

  function LoadInto(c: Cpu, width: Width, rt: nat, a: int): Cpu {
    if ToVector(width) then c.(v := c.v[rt := M.LoadBytes(c.mem, 8, a, Bytes(width))])
    else SetReg(c, rt, LoadWord(c.mem, a, width))
  }

  function PageNo(a: nat): nat { a / 0x1000 }

  /** The address that a pc-relative instruction at `pc` forms or reads. */
  function Formed(i: Insn, pc: nat): nat {
    match i
    case Adr(_, imm) => Wrap(pc + imm)
    case Adrp(_, pages) => Wrap((PageNo(pc) + pages) * 0x1000)
    case LdrLiteral(_, _, words) => Wrap(pc + 4 * words)
    case _ => Wrap(pc)
  }

  function Exec(i: Insn, c: Cpu): Cpu
    requires c.pc >= 0
  {
    var n := c.(pc := Wrap(c.pc + 4));
    match i
    case Adr(rd, _) => SetReg(n, rd, Formed(i, c.pc))
    case Adrp(rd, _) => SetReg(n, rd, Formed(i, c.pc))
    case AddImm(rd, rn, imm) =>
      var v := Wrap(BaseReg(c, rn) + imm);
      if rd == 31 then n.(sp := v) else SetReg(n, rd, v)
    case LdrLiteral(width, rt, _) => LoadInto(n, width, rt, Formed(i, c.pc))
    case LdrOffset(width, rt, rn, imm) => LoadInto(n, width, rt, Wrap(BaseReg(c, rn) + imm))
    case Stur(rt, rn, imm) => n.(mem := M.StoreBytes(c.mem, 8, BaseReg(c, rn) + imm, L.Encode(8, Reg(c, rt))))
    case Ldur(rt, rn, imm) => SetReg(n, rt, L.Decode(M.LoadBytes(c.mem, 8, BaseReg(c, rn) + imm, 8)))
    case B(words) => c.(pc := Wrap(c.pc + 4 * words))
    case Other => c
  }

  type Code = map<int, Insn>

  function Run(code: Code, c: Cpu, n: nat): Cpu
    decreases n
  {
    if n == 0 then c
    else if c.pc >= 0 && c.pc in code then Run(code, Exec(code[c.pc], c), n - 1)
    else c
  }
}
