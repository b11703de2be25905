/** The byte strings the ARM32 unpinning plugin edits and emits, and the instructions they
    decode to. */
module Arm32Words {
  import opened A32Machine
  import opened Arm32Trampoline
  import opened BvBytes

  type Bytes = b: seq<bv8> | |b| == 4 witness [0, 0, 0, 0]

  function WordOf(b: Bytes): bv32 {
    Bits(b[3], b[2], b[1], b[0])
  }

  function OrAt(b: Bytes, i: nat, x: bv8): Bytes
    requires i < 4
  {
    b[i := b[i] | x]
  }

  function AndAt(b: Bytes, i: nat, x: bv8): Bytes
    requires i < 4
  {
    b[i := b[i] & x]
  }

  predicate BytesAt(m: Memory, a: int, b: Bytes) {
    && At(m, a) == b[0] as int && At(m, a + 1) == b[1] as int
    && At(m, a + 2) == b[2] as int && At(m, a + 3) == b[3] as int
  }

  lemma Placed(m: Memory, a: int, b: Bytes)
    requires BytesAt(m, a, b)
    ensures InsnAt(A32, m, a) == Decode(WordOf(b))
  {
    hide Decode;
    ByteBack(b[0]);
    ByteBack(b[1]);
    ByteBack(b[2]);
    ByteBack(b[3]);
  }

  // ----- instructions written from scratch; the register number is or-ed into place

  function SpillTo(t: bv8, slot: bv8): Bytes { OrAt([slot, 0x00, 0x0d, 0xe5], 1, t << 4) }
  function RestoreFrom(t: bv8, slot: bv8): Bytes { OrAt([slot, 0x00, 0x1d, 0xe5], 1, t << 4) }
  function LiteralLoad(t: bv8, offset: bv8): Bytes { OrAt([offset, 0x00, 0x9f, 0xe5], 1, t << 4) }
  function PlusPc(t: bv8): Bytes { OrAt(OrAt([0x00, 0x00, 0x8f, 0xe0], 1, t << 4), 0, t) }
  function Sum(t: bv8, rd: bv8): Bytes { OrAt(OrAt(OrAt([0x00, 0x00, 0x80, 0xe0], 1, rd << 4), 2, t), 0, rd) }

  lemma SpillWord(t: bv8)
    requires t < 15
    ensures Decode(WordOf(SpillTo(t, 0xfc))) == Spill(t as int, 0xfc)
    ensures Decode(WordOf(SpillTo(t, 0xf8))) == Spill(t as int, 0xf8)
  {
    hide BranchOffset, ExpandImm, RegOperand2, IsAddImm, IsAddReg, IsVLoad;
  }

  lemma RestoreWord(t: bv8)
    requires t < 16
    ensures Decode(WordOf(RestoreFrom(t, 0xfc))) == Restore(t as int, 0xfc)
    ensures Decode(WordOf(RestoreFrom(t, 0xf8))) == Restore(t as int, 0xf8)
  {
    hide BranchOffset, ExpandImm, RegOperand2, IsAddImm, IsAddReg, IsVLoad;
  }

  lemma LiteralWord(t: bv8, offset: bv8)
    requires t < 15
    ensures Decode(WordOf(LiteralLoad(t, offset))) == LoadLiteral(t as int, offset as int)
  {
    hide BranchOffset, ExpandImm, RegOperand2, IsAddImm, IsAddReg, IsVLoad;
  }

  lemma AddPcWord(t: bv8)
    requires t < 15
    ensures Decode(WordOf(PlusPc(t))) == AddPc(t as int)
    ensures OrAt(PlusPc(t), 3, 0 << 4) == PlusPc(t)
  {
    hide BranchOffset, ExpandImm, IsVLoad;
  }

  /** With the S bit or-ed into the top byte, the word leaves the conditional encoding space. */
  lemma AddPcWordWithS(t: bv8)
    requires t < 15
    ensures Decode(WordOf(OrAt(PlusPc(t), 3, 1 << 4))).Unmodelled?
  {
  }

  /** Or-ing the byte-load flag into the top byte changes nothing: the word stays a word load. */
  lemma IndexedLoadWord(t: bv8, flag: bv8)
    requires t < 15 && flag <= 1
    ensures Decode(WordOf(OrAt(OrAt(OrAt([0x00, 0x00, 0x9f, 0xe7], 1, t << 4), 0, t), 3, flag << 6)))
         == LoadReg(AL, false, true, PC, t as int, ShiftedByImm(t as int, 0, 0))
  {
    hide BranchOffset, ExpandImm, IsAddImm, IsAddReg, IsVLoad, IsTransfer, RegOperand2;
    IndexedLoadFields(t, flag);
  }

  lemma IndexedLoadFields(t: bv8, flag: bv8)
    requires t < 15 && flag <= 1
    ensures var w := WordOf(OrAt(OrAt(OrAt([0x00, 0x00, 0x9f, 0xe7], 1, t << 4), 0, t), 3, flag << 6));
      && w == 0xe79f_0000 | ((t as bv32) << 12) | (t as bv32)
      && IsTransfer(w) && RegOperand2(w) == ShiftedByImm(t as int, 0, 0)
  {
    hide BranchOffset, ExpandImm, IsAddImm, IsAddReg, IsVLoad;
  }

  lemma SumWord(t: bv8, rd: bv8)
    requires t < 15 && rd < 15
    ensures Decode(WordOf(Sum(t, rd))) == Add(AL, false, t as int, rd as int, ShiftedByImm(rd as int, 0, 0))
  {
    hide BranchOffset, ExpandImm, IsVLoad;
  }

  // ----- copies of the original instruction with fields replaced

  function Always(b: Bytes): Bytes {
    OrAt(AndAt(b, 3, 0x0f), 3, 0xe0)
  }

  function WithBase(b: Bytes, t: bv8): Bytes {
    OrAt(AndAt(b, 2, 0xf0), 2, t)
  }

  /** `v` and `w` agree on every bit but the condition, the S bit, Rn and Rd. */
  predicate SameShape(v: bv32, w: bv32) {
    v & 0x0fe0_0fff == w & 0x0fe0_0fff
  }

  lemma SameOperands(v: bv32, w: bv32)
    requires SameShape(v, w)
    ensures Low12(v) == Low12(w) && RegOperand2(v) == RegOperand2(w) && ExpandImm(v) == ExpandImm(w)
  {
    assert v & 0xfff == w & 0xfff;
    hide RegOperand2, ExpandImm, SameShape;
    SameRegOperand(v, w);
    SameImmediate(v, w);
  }

  lemma SameRegOperand(v: bv32, w: bv32)
    requires v & 0xfff == w & 0xfff
    ensures RegOperand2(v) == RegOperand2(w)
  {
    assert Rm(v) == Rm(w) && Rs(v) == Rs(w);
    assert Bit(v, 4) == Bit(w, 4);
    assert (v >> 5) & 3 == (w >> 5) & 3 && (v >> 7) & 0x1f == (w >> 7) & 0x1f;
  }

  lemma SameImmediate(v: bv32, w: bv32)
    requires v & 0xfff == w & 0xfff
    ensures ExpandImm(v) == ExpandImm(w)
  {
    hide RotateRightTwice;
    assert v & 0xff == w & 0xff;
    assert (v >> 8) & 0xf == (w >> 8) & 0xf;
  }

  lemma SameClass(v: bv32, w: bv32)
    requires SameShape(v, w)
    ensures IsTransfer(v) == IsTransfer(w) && IsAddImm(v) == IsAddImm(w) && IsAddReg(v) == IsAddReg(w)
    ensures IsBranch(v) == IsBranch(w)
    ensures Bit(v, 22) == Bit(w, 22) && Bit(v, 23) == Bit(w, 23) && Bit(v, 25) == Bit(w, 25)
    ensures Bit(v, 8) == Bit(w, 8)
  {
    assert (v >> 24) & 0xf == (w >> 24) & 0xf;
    assert (v >> 21) & 0x7f == (w >> 21) & 0x7f;
    assert Bit(v, 4) == Bit(w, 4) && Bit(v, 7) == Bit(w, 7) && Bit(v, 21) == Bit(w, 21);
    assert Bit(v, 24) == Bit(w, 24) && Bit(v, 25) == Bit(w, 25);
    assert (v >> 26) & 3 == (w >> 26) & 3;
  }

  lemma BaseFields(b: Bytes, t: bv8)
    requires t < 15
    ensures var v, w := WordOf(WithBase(b, t)), WordOf(b);
            && SameShape(v, w) && Rn(v) == t as int && Rd(v) == Rd(w) && Cond(v) == Cond(w)
            && Bit(v, 20) == Bit(w, 20) && (v >> 20) & 3 == (w >> 20) & 3 && v & 0xff == w & 0xff
  {
  }

  lemma AlwaysFields(b: Bytes)
    ensures var v, w := WordOf(Always(b)), WordOf(b);
            && SameShape(v, w) && Rn(v) == Rn(w) && Rd(v) == Rd(w) && Cond(v) == AL
            && Bit(v, 20) == Bit(w, 20) && (v >> 20) & 3 == (w >> 20) & 3 && v & 0xff == w & 0xff
  {
  }

  lemma SameVLoad(v: bv32, w: bv32)
    requires SameShape(v, w) && (v >> 20) & 3 == (w >> 20) & 3
    ensures IsVLoad(v) == IsVLoad(w)
  {
    assert (v >> 24) & 0xf == (w >> 24) & 0xf && (v >> 9) & 7 == (w >> 9) & 7;
  }

  /** A vldr, as its fields say. */
  function VFields(w: bv32): Insn {
    VLoad(Cond(w), Bit(w, 8), Bit(w, 23), Rn(w),
          if Bit(w, 8) then Rd(w) + (if Bit(w, 22) then 16 else 0) else 2 * Rd(w) + (if Bit(w, 22) then 1 else 0),
          4 * ((w & 0xff) as int))
  }

  lemma VLoadIff(w: bv32)
    ensures Decode(w).VLoad? <==>
              && Cond(w) != UNCONDITIONAL && !IsBranch(w) && !IsTransfer(w)
              && !IsAddImm(w) && !IsAddReg(w) && IsVLoad(w)
    ensures Decode(w).VLoad? ==> Decode(w) == VFields(w)
  {
    hide IsTransfer, IsAddImm, IsAddReg, IsVLoad, Bit, Rd, Rn, Cond, BranchOffset, RegOperand2, ExpandImm, IsBranch;
  }

  lemma RebasedVldr(b: Bytes, t: bv8)
    requires t < 15 && Decode(WordOf(b)).VLoad?
    ensures Decode(WordOf(WithBase(b, t))) == Rebase(Decode(WordOf(b)), t as int, Cond(WordOf(b)))
  {
    hide Decode, IsTransfer, IsAddImm, IsAddReg, IsVLoad, IsBranch, Bit, Rd, Rn, Cond, SameShape, WordOf, WithBase;
    var v, w := WordOf(WithBase(b, t)), WordOf(b);
    BaseFields(b, t);
    SameClass(v, w);
    SameVLoad(v, w);
    VLoadIff(v);
    VLoadIff(w);
  }

  lemma RebasedLdr(b: Bytes, t: bv8)
    requires t < 15 && Decode(WordOf(b)).LoadReg?
    ensures Decode(WordOf(WithBase(Always(b), t))) == Rebase(Decode(WordOf(b)), t as int, AL)
  {
    hide IsTransfer, IsAddImm, IsAddReg, Bit, Rd, Rn, Cond, SameShape, BranchOffset, RegOperand2, ExpandImm;
    hide WordOf, WithBase, Always, IsVLoad, IsBranch, Low12;
    var u, v, w := WordOf(Always(b)), WordOf(WithBase(Always(b), t)), WordOf(b);
    AlwaysFields(b);
    BaseFields(Always(b), t);
    SameClass(u, w);
    SameClass(v, u);
    SameOperands(u, w);
    SameOperands(v, u);
  }

  lemma CopiedAdd(b: Bytes)
    requires Decode(WordOf(b)).Add?
    ensures var i := Decode(WordOf(b)); Decode(WordOf(Always(AndAt(b, 2, 0xef)))) == Add(AL, false, i.rn, i.rd, i.op2)
  {
    hide IsTransfer, IsAddImm, IsAddReg, Bit, Rd, Rn, Cond, SameShape, BranchOffset, RegOperand2, ExpandImm;
    hide WordOf, AndAt, Always, IsVLoad, IsBranch, Low12;
    var u, v, w := WordOf(AndAt(b, 2, 0xef)), WordOf(Always(AndAt(b, 2, 0xef))), WordOf(b);
    ClearedS(b);
    AlwaysFields(AndAt(b, 2, 0xef));
    SameClass(u, w);
    SameClass(v, u);
    SameOperands(u, w);
    SameOperands(v, u);
  }

  lemma ClearedS(b: Bytes)
    ensures var v, w := WordOf(AndAt(b, 2, 0xef)), WordOf(b);
            SameShape(v, w) && Rn(v) == Rn(w) && Rd(v) == Rd(w) && Cond(v) == Cond(w) && !Bit(v, 20)
  {
  }

  /** The copy that has its destination, its base and its condition replaced. */
  function Retargeted(b: Bytes, t: bv8): Bytes {
    OrAt(WithBase(AndAt(Always(b), 1, 0x0f), t), 1, t << 4)
  }

  lemma RetargetedFields(b: Bytes, t: bv8)
    requires t < 15
    ensures var v, w := WordOf(Retargeted(b, t)), WordOf(b);
            && SameShape(v, w) && Rn(v) == t as int && Rd(v) == t as int && Cond(v) == AL && Bit(v, 20) == Bit(w, 20)
  {
  }

  lemma RetargetedInsn(b: Bytes, t: bv8)
    requires t < 15 && (Decode(WordOf(b)).LoadReg? || Decode(WordOf(b)).Add?)
    ensures Decode(WordOf(Retargeted(b, t))) == Retarget(Decode(WordOf(b)), t as int)
  {
    hide IsTransfer, IsAddImm, IsAddReg, Bit, Rd, Rn, Cond, SameShape, BranchOffset, RegOperand2, ExpandImm;
    hide WordOf, Retargeted, IsVLoad, IsBranch, Low12;
    var v, w := WordOf(Retargeted(b, t)), WordOf(b);
    RetargetedFields(b, t);
    SameClass(v, w);
    SameOperands(v, w);
  }

  // ----- branches

  function BranchBytes(cond: bv8): Bytes { [0x00, 0x00, 0x00, cond] }

  /** A branch word whose low 24 bits hold `d`, as `applyPatch` leaves it. */
  predicate PatchedBranch(b: Bytes, c: bv8, d: int) {
    && b[3] == c && c & 0x0f == 0x0a && -0x80_0000 <= d < 0x80_0000
    && (b[0] as int) + 0x100 * (b[1] as int) + 0x1_0000 * (b[2] as int) == d % 0x100_0000
  }

  lemma JoinBytes(b2: bv8, b1: bv8, b0: bv8)
    ensures (Bits(0, b2, b1, b0)) as int == (b0 as int) + 0x100 * (b1 as int) + 0x1_0000 * (b2 as int)
  {
    hide Bits;
    SplitHalves(b2, b1, b0);
    JoinHalves(b2 as bv16, ((b1 as bv16) << 8) | (b0 as bv16));
    JoinLow(b1, b0);
    JoinLow(b2, b0);
  }

  lemma JoinLow(b1: bv8, b0: bv8)
    ensures (((b1 as bv16) << 8) | (b0 as bv16)) as int == (b1 as int) * 0x100 + b0 as int
    ensures (b1 as bv16) as int == b1 as int
  {
  }

  lemma SplitHalves(b2: bv8, b1: bv8, b0: bv8)
    ensures Bits(0, b2, b1, b0) == (((b2 as bv16) as bv32) << 16) | ((((b1 as bv16) << 8) | (b0 as bv16)) as bv32)
  {
  }

  lemma JoinHalves(hi: bv16, lo: bv16)
    ensures (((hi as bv32) << 16) | (lo as bv32)) as int == (hi as int) * 0x1_0000 + lo as int
  {
  }

  lemma SignBit(b3: bv8, b2: bv8, b1: bv8, b0: bv8)
    ensures Bits(b3, b2, b1, b0) & 0x00ff_ffff == Bits(0, b2, b1, b0)
    ensures Bit(Bits(b3, b2, b1, b0), 23) <==> b2 >= 0x80
  {
  }

  lemma TopBit(x: bv8)
    ensures x >= 0x80 <==> x as int >= 0x80
  {
  }

  lemma BranchFields(b: Bytes, c: bv8)
    requires b[3] == c && c & 0x0f == 0x0a
    ensures Cond(WordOf(b)) == (c >> 4) as int && IsBranch(WordOf(b))
  {
  }

  lemma SignExtend24(b0: int, b1: int, b2: int, d: int)
    requires 0 <= b0 < 0x100 && 0 <= b1 < 0x100 && 0 <= b2 < 0x100
    requires -0x80_0000 <= d < 0x80_0000 && b0 + 0x100 * b1 + 0x1_0000 * b2 == d % 0x100_0000
    ensures b0 + 0x100 * b1 + 0x1_0000 * b2 - (if b2 >= 0x80 then 0x100_0000 else 0) == d
  {
    assert d % 0x100_0000 == if d < 0 then d + 0x100_0000 else d;
  }

  lemma Low24Masks(b: Bytes)
    ensures Low24(WordOf(b)) == Bits(0, b[2], b[1], b[0]) as int
  {
    hide Low24, Bits, Bit;
    SignBit(b[3], b[2], b[1], b[0]);
    Low24Is(WordOf(b), Bits(0, b[2], b[1], b[0]));
  }

  lemma Low24Is(w: bv32, x: bv32)
    requires w & 0x00ff_ffff == x
    ensures Low24(w) == x as int
  {
  }

  lemma Low24Of(b: Bytes)
    ensures Low24(WordOf(b)) == (b[0] as int) + 0x100 * (b[1] as int) + 0x1_0000 * (b[2] as int)
  {
    hide Low24, WordOf, Bits;
    Low24Masks(b);
    JoinBytes(b[2], b[1], b[0]);
  }

  lemma Sign24Of(b: Bytes)
    ensures Bit(WordOf(b), 23) <==> b[2] as int >= 0x80
  {
    hide Bit, Bits;
    SignBit(b[3], b[2], b[1], b[0]);
    TopBit(b[2]);
  }

  lemma BranchOffsetIs(w: bv32, b0: int, b1: int, b2: int, d: int)
    requires 0 <= b0 < 0x100 && 0 <= b1 < 0x100 && 0 <= b2 < 0x100
    requires -0x80_0000 <= d < 0x80_0000 && b0 + 0x100 * b1 + 0x1_0000 * b2 == d % 0x100_0000
    requires Low24(w) == b0 + 0x100 * b1 + 0x1_0000 * b2 && (Bit(w, 23) <==> b2 >= 0x80)
    ensures BranchOffset(w) == 4 * d
  {
    hide Low24, Bit;
    SignExtend24(b0, b1, b2, d);
  }

  lemma BranchOffsetOf(b: Bytes, c: bv8, d: int)
    requires PatchedBranch(b, c, d)
    ensures BranchOffset(WordOf(b)) == 4 * d
  {
    hide BranchOffset, Low24, Bit, WordOf;
    Low24Of(b);
    Sign24Of(b);
    BranchOffsetIs(WordOf(b), b[0] as int, b[1] as int, b[2] as int, d);
  }

  lemma BranchDecodes(b: Bytes, c: bv8, d: int)
    requires PatchedBranch(b, c, d) && c >> 4 != 15
    ensures Decode(WordOf(b)) == Branch((c >> 4) as int, 4 * d)
  {
    hide IsTransfer, IsAddImm, IsAddReg, Bit, Cond, Bits, BranchOffset;
    BranchFields(b, c);
    BranchOffsetOf(b, c, d);
    CondIs15(c);
  }

  lemma CondIs15(c: bv8)
    requires c >> 4 != 15
    ensures (c >> 4) as int != 15
  {
  }

  // ----- fields of bytes

  /** The top byte of a branch with the condition of `b`. */
  function CondByte(b: Bytes): bv8 { (b[3] & 0xf0) | 0x0a }

  lemma CondByteIs(b: Bytes)
    ensures (0xea & 0x0f) | (b[3] & 0xf0) == CondByte(b)
    ensures CondByte(b) & 0x0f == 0x0a && (CondByte(b) >> 4) as int == Cond(WordOf(b))
  {
  }

  function RdField(b: Bytes): bv8 { (b[1] >> 4) & 0xf }

  lemma RdFieldIs(b: Bytes)
    ensures RdField(b) as int == Rd(WordOf(b))
    ensures Rd(WordOf(b)) != PC ==> RdField(b) < 15
  {
  }

  /** A register number as it is or-ed into a byte. */
  function Field(t: nat): bv8
    requires t < 16
  {
    ByteOf(t)
  }

  lemma FieldIs(t: nat)
    requires t < 15
    ensures Field(t) as int == t && Field(t) < 15
  {
    SmallField(Field(t));
  }

  function LowByte(x: int): bv8 { ByteOf(x % 0x100) }

  lemma LowByteIs(x: int)
    ensures LowByte(x) as int == x % 0x100
  {
  }
}
