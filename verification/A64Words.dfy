/** Instruction words: changing the immediate of one, and building those of a trampoline.  The
    fields do not overlap, so putting one in is an addition. */
module A64Words {
  import opened A64Machine
  import opened A64Trampolines

  type Word = x: nat | x < 0x1_0000_0000

  predicate Fits21(x: int) { -0x10_0000 <= x < 0x10_0000 }
  predicate Fits19(x: int) { -0x4_0000 <= x < 0x4_0000 }

  predicate Int64(x: int) { -TWO_63 <= x < TWO_63 }

  /** Shifting a signed 64-bit number left by 43, which may lose bits, and right again. */
  function Shift43(x: int): int { Signed(Wrap(x * 0x800_0000_0000)) / 0x800_0000_0000 }

  function Shift45(x: int): int { Signed(Wrap(x * 0x2000_0000_0000)) / 0x2000_0000_0000 }

  lemma Shift43Iff(x: int)
    requires Int64(x)
    ensures Shift43(x) == x <==> Fits21(x)
  {
    var q, r := x / 0x20_0000, x % 0x20_0000;
    assert x * 0x800_0000_0000 == q * TWO_64 + r * 0x800_0000_0000;
    WrapOf(q, r * 0x800_0000_0000);
  }

  lemma Shift45Iff(x: int)
    requires Int64(x)
    ensures Shift45(x) == x <==> Fits19(x)
  {
    var q, r := x / 0x8_0000, x % 0x8_0000;
    assert x * 0x2000_0000_0000 == q * TWO_64 + r * 0x2000_0000_0000;
    WrapOf(q, r * 0x2000_0000_0000);
  }

  lemma WrapOf(q: int, r: nat)
    requires r < TWO_64
    ensures Wrap(q * TWO_64 + r) == r
  {
  }

  // ----- in place

  function SetImm21(w: Word, imm: int): int {
    w - ImmLo(w) * 0x2000_0000 - Imm19(w) * 32 + imm % 4 * 0x2000_0000 + imm / 4 % 0x8_0000 * 32
  }

  function SetImm19(w: Word, imm: int): int { w - Imm19(w) * 32 + imm % 0x8_0000 * 32 }

  /** A word as its fields: the top bit or byte, the immediates and the register. */
  lemma Fields21(w: Word)
    ensures w == w / 0x8000_0000 * 0x8000_0000 + ImmLo(w) * 0x2000_0000 + w / 0x100_0000 % 32 * 0x100_0000
                 + Imm19(w) * 32 + Rd(w)
  {
  }

  lemma Fields19(w: Word)
    ensures w == w / 0x100_0000 * 0x100_0000 + Imm19(w) * 32 + Rd(w)
  {
  }

  lemma FieldsOf21(top: nat, lo: nat, op: nat, hi: nat, rd: nat)
    requires top < 2 && lo < 4 && op < 32 && hi < 0x8_0000 && rd < 32
    ensures var w := top * 0x8000_0000 + lo * 0x2000_0000 + op * 0x100_0000 + hi * 32 + rd;
      && w < 0x1_0000_0000 && ImmLo(w) == lo && Imm19(w) == hi && Rd(w) == rd && w / 0x8000_0000 == top
      && w / 0x100_0000 % 32 == op
  {
  }

  lemma FieldsOf19(op: nat, hi: nat, rd: nat)
    requires op < 0x100 && hi < 0x8_0000 && rd < 32
    ensures var w := op * 0x100_0000 + hi * 32 + rd;
      w < 0x1_0000_0000 && Imm19(w) == hi && Rd(w) == rd && w / 0x100_0000 == op
  {
  }

  /** Only the immediate changes, and it becomes what it should if that fits. */
  lemma Reencoded21(w: Word, imm: int)
    ensures var v := SetImm21(w, imm);
      && 0 <= v < 0x1_0000_0000 && Rd(v) == Rd(w) && v / 0x8000_0000 == w / 0x8000_0000
      && v / 0x100_0000 % 32 == w / 0x100_0000 % 32
      && (Ext(Imm19(v) * 4 + ImmLo(v), 0x10_0000) == imm <==> Fits21(imm))
  {
    hide ImmLo, Imm19, Rd;
    var lo, hi := imm % 4, imm / 4 % 0x8_0000;
    Fields21(w);
    RdSmall(w);
    FieldsOf21(w / 0x8000_0000, lo, w / 0x100_0000 % 32, hi, Rd(w));
    assert imm == imm / 0x20_0000 * 0x20_0000 + hi * 4 + lo;
  }

  lemma RdSmall(w: nat)
    ensures Rd(w) < 32
  {
  }

  lemma Reencoded19(w: Word, imm: int)
    ensures var v := SetImm19(w, imm);
      && 0 <= v < 0x1_0000_0000 && Rd(v) == Rd(w) && v / 0x100_0000 == w / 0x100_0000
      && (Ext(Imm19(v), 0x4_0000) == imm <==> Fits19(imm))
  {
    hide Imm19, Rd;
    Fields19(w);
    RdSmall(w);
    FieldsOf19(w / 0x100_0000, imm % 0x8_0000, Rd(w));
  }

  // ----- new words

  function AdrpWord(rd: nat, imm: int): int { 0x9000_0000 + rd + imm % 4 * 0x2000_0000 + imm / 4 % 0x8_0000 * 32 }

  function AddWord(rd: nat, off: nat): int { 0x9100_0000 + rd + rd * 32 + off * 0x400 }

  /** `size` is the size bit of the original instruction: 0 for 4 bytes, 1 for 8. */
  function LdrWord(rd: nat, size: nat, off: nat): int {
    var scaled := if size == 0 then off / 4 else off / 8;
    0xB940_0000 + rd + rd * 32 + scaled * 0x400 + size * 0x4000_0000
  }

  function LdrswWord(rd: nat, off: nat): int { 0xB980_0000 + rd + rd * 32 + off / 4 * 0x400 }

  /** `opc` is the size field of the original instruction. */
  function VectorWord(rt: nat, opc: nat, off: nat): int
    requires opc < 3
  {
    var size := if opc == 0 then 4 else if opc == 1 then 8 else 16;
    var size2, opc2 := if opc == 0 then 2 else if opc == 1 then 3 else 0, if opc == 2 then 3 else 1;
    0x3D00_0000 + rt + off / size * 0x400 + size2 * 0x4000_0000 + opc2 * 0x40_0000
  }

  function BranchWord(at: int, to: int): int { 0x1400_0000 + (to - at) / 4 % 0x400_0000 }

  predicate InReach(at: int, to: int) { -0x800_0000 <= to - at < 0x800_0000 }

  lemma AdrpDecodes(rd: nat, imm: int)
    requires rd < 32 && Fits21(imm)
    ensures 0 <= AdrpWord(rd, imm) < 0x1_0000_0000 && Decode(AdrpWord(rd, imm)) == Adrp(rd, imm)
  {
    hide Rd, Imm19, ImmLo;
    var w, lo, hi := AdrpWord(rd, imm), imm % 4, imm / 4 % 0x8_0000;
    FieldsOf21(1, lo, 0x10, hi, rd);
    assert w == 1 * 0x8000_0000 + lo * 0x2000_0000 + 0x10 * 0x100_0000 + hi * 32 + rd;
    OpByte(w);
    SplitImm(imm);
    AdrpFromFields(w);
  }

  lemma SplitImm(imm: int)
    requires Fits21(imm)
    ensures Ext(imm / 4 % 0x8_0000 * 4 + imm % 4, 0x10_0000) == imm
  {
    assert imm / 4 % 0x8_0000 == if imm < 0 then imm / 4 + 0x8_0000 else imm / 4;
  }

  lemma OpByte(w: Word)
    ensures w / 0x100_0000 % 0x100 == w / 0x100_0000 && (w / 0x100_0000 >= 0x80 <==> w / 0x8000_0000 == 1)
  {
  }

  lemma AdrpFromFields(w: Word)
    requires w / 0x100_0000 % 0x100 == w / 0x100_0000 >= 0x80 && w / 0x100_0000 % 32 == 0x10
    ensures Decode(w) == Adrp(Rd(w), Ext(Imm19(w) * 4 + ImmLo(w), 0x10_0000))
  {
    hide Rd, Imm19, ImmLo;
  }

  /** A word whose top ten bits are `op`, then an immediate and two registers. */
  lemma FieldsOf12(op: nat, imm: nat, rn: nat, rd: nat)
    requires op < 0x400 && imm < 0x1000 && rn < 32 && rd < 32
    ensures var w := op * 0x40_0000 + imm * 0x400 + rn * 32 + rd;
      && 0 <= w < 0x1_0000_0000 && Rd(w) == rd && Rn(w) == rn && Imm12(w) == imm
      && w / 0x40_0000 % 0x400 == op && w / 0x100_0000 % 0x100 == op / 4
  {
    var low, rest := rn * 32 + rd, imm * 0x400 + rn * 32 + rd;
    var w := op * 0x40_0000 + rest;
    TopBits(op, rest);
    MiddleBits(op, imm, low);
    LowBits(op * 0x1000 + imm, rn, rd);
    assert w == (op * 0x1000 + imm) * 0x400 + low;
  }

  lemma TopBits(op: nat, rest: nat)
    requires op < 0x400 && rest < 0x40_0000
    ensures var w := op * 0x40_0000 + rest;
      w < 0x1_0000_0000 && w / 0x40_0000 % 0x400 == op && w / 0x100_0000 % 0x100 == op / 4
  {
  }

  lemma MiddleBits(op: nat, imm: nat, low: nat)
    requires imm < 0x1000 && low < 0x400
    ensures (op * 0x40_0000 + (imm * 0x400 + low)) / 0x400 % 0x1000 == imm
  {
  }

  lemma LowBits(high: nat, rn: nat, rd: nat)
    requires rn < 32 && rd < 32
    ensures var w := high * 0x400 + (rn * 32 + rd); w % 32 == rd && w / 32 % 32 == rn
  {
  }

  lemma AddDecodes(rd: nat, off: nat)
    requires rd < 32 && off < 0x1000
    ensures Decode(AddWord(rd, off)) == AddImm(rd, rd, off)
  {
    hide Rd, Rn, Imm12;
    FieldsOf12(0x244, off, rd, rd);
  }

  lemma LdrDecodes(rd: nat, size: nat, off: nat)
    requires rd < 32 && off < 0x1000 && size < 2
    ensures Decode(LdrWord(rd, size, off))
         == if size == 0 then LdrOffset(W, rd, rd, off / 4 * 4) else LdrOffset(X, rd, rd, off / 8 * 8)
  {
    hide Rd, Rn, Imm12;
    if size == 0 { FieldsOf12(0x2E5, off / 4, rd, rd); } else { FieldsOf12(0x3E5, off / 8, rd, rd); }
  }

  lemma LdrswDecodes(rd: nat, off: nat)
    requires rd < 32 && off < 0x1000
    ensures Decode(LdrswWord(rd, off)) == LdrOffset(SW, rd, rd, off / 4 * 4)
  {
    hide Rd, Rn, Imm12;
    FieldsOf12(0x2E6, off / 4, rd, rd);
  }

  lemma VectorDecodes(rt: nat, opc: nat, off: nat)
    requires rt < 32 && off < 0x1000 && opc < 3
    ensures Decode(VectorWord(rt, opc, off))
         == if opc == 0 then LdrOffset(S, rt, 0, off / 4 * 4)
            else if opc == 1 then LdrOffset(D, rt, 0, off / 8 * 8)
            else LdrOffset(Q, rt, 0, off / 16 * 16)
  {
    hide Rd, Rn, Imm12;
    if opc == 0 { FieldsOf12(0x2F5, off / 4, 0, rt); }
    else if opc == 1 { FieldsOf12(0x3F5, off / 8, 0, rt); }
    else { FieldsOf12(0x0F7, off / 16, 0, rt); }
  }

  lemma BranchDecodes(at: int, to: int)
    requires Address(at) && Address(to) && InReach(at, to)
    ensures 0 <= BranchWord(at, to) && Decode(BranchWord(at, to)) == Jump(at, to)
  {
    var imm := (to - at) / 4;
    var f := imm % 0x400_0000;
    assert f == if imm < 0 then imm + 0x400_0000 else imm;
    FieldsOf26(f);
    hide Imm26;
  }

  lemma FieldsOf26(f: nat)
    requires f < 0x400_0000
    ensures var w := 0x1400_0000 + f;
      && Imm26(w) == f && w / 0x400_0000 % 0x40 == 5 && 0x14 <= w / 0x100_0000 % 0x100 < 0x18
      && 0x50 <= w / 0x40_0000 % 0x400 < 0x60 && w / 0x20_0000 % 0x800 < 0xC0
  {
  }

  const SAVE_X0 := 0xF818_03E0
  const RESTORE_X0 := 0xF858_03E0

  lemma SaveRestoreDecode()
    ensures Decode(SAVE_X0) == Stur(0, 31, -128) && Decode(RESTORE_X0) == Ldur(0, 31, -128)
  {
  }
}
