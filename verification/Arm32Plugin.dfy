/** The output image and the plugin's entry point: instruction words are edited byte by byte and
    written, together with the literal each trampoline needs. */
module Arm32Plugin {
  import opened A32Machine
  import opened Arm32Trampoline
  import opened Arm32Simulation
  import opened Arm32Words
  import opened Arm32Unpin

  /** Every byte outside the `n` at `at` is the same. */
  ghost predicate Around(m: Memory, t: Memory, at: int, n: int) {
    forall x :: !(at <= x < at + n) ==> At(t, x) == At(m, x)
  }

  /** And so is every word. */
  ghost predicate BytesKept(m: Memory, t: Memory, at: int, n: int) {
    forall a: int, c: Bytes {:trigger BytesAt(m, a, c)} :: (a + 4 <= at || at + n <= a) && BytesAt(m, a, c)
        ==> BytesAt(t, a, c)
  }

  lemma StoreKeeps(m: Memory, at: int, b0: Byte, b1: Byte, b2: Byte, b3: Byte)
    ensures var t := Store4(m, at, b0, b1, b2, b3); Around(m, t, at, 4) && BytesKept(m, t, at, 4)
  {
  }

  /** `uint32_t` rotation as the source writes it. */
  function Rotr32(n: bv32, c: bv32): bv32 {
    var k := c & 31;
    (n >> k) | (n << ((0 - k) & 31))
  }

  lemma RotateCase(x: bv32, k: bv32)
    requires k < 16 && x < 0x100
    ensures Rotr32(x, 2 * k) == RotateRightTwice(x, k)
  {
    if k == 0 {} else if k == 1 {} else if k == 2 {} else if k == 3 {}
    else if k == 4 {} else if k == 5 {} else if k == 6 {} else if k == 7 {}
    else if k == 8 {} else if k == 9 {} else if k == 10 {} else if k == 11 {}
    else if k == 12 {} else if k == 13 {} else if k == 14 {} else {}
  }

  /** How the fields the source extracts relate to the decoded instruction. */
  lemma FieldsMatch(w: bv32)
    ensures var i := Decode(w);
            && (i.LoadReg?
                ==> Rd(w) == i.rd && Rn(w) == i.rn && (Bit(w, 25) <==> !i.op2.Immediate?) && Bit(w, 23) == i.up)
            && (i.Add? ==> Rd(w) == i.rd && Rn(w) == i.rn && (Bit(w, 25) <==> i.op2.Immediate?))
            && (i.VLoad? ==> Rn(w) == i.rn && Bit(w, 23) == i.up && Cond(w) == i.cond)
  {
    hide Rd, Rn, ExpandImm, BranchOffset, Cond;
  }

  // ----- the literals, as the source computes them (the 64-bit sums are truncated to 32 bits)

  function VldrLiteral(w: bv32, orig: Word, r: Reloc, l0: Word): Word {
    var field: int := ((w & 0xff) as int) * 4;
    var imm := if Bit(w, 23) then field else -field;
    if r.wrt.NoObject? then Wrap(orig - (l0 + 8) + r.addend)
    else Wrap(orig - (l0 + 8 + 8) + ToAddr(r) + r.addend - imm)
  }

  function LdrImmLiteral(w: bv32, orig: Word, r: Reloc, l0: Word): Word {
    var field: int := (w & 0xfff) as int;
    var imm := if Bit(w, 23) then field else -field;
    var addend := if r.wrt.NoObject? then 8 + imm else ToAddr(r) + r.addend;
    Wrap(orig - (l0 + 12) + addend)
  }

  function AddImmLiteral(w: bv32, orig: Word, r: Reloc, l0: Word): Word {
    var imm := Rotr32(w & 0xff, ((w >> 8) & 0xf) * 2) as int;
    var target := orig + 8 + imm;
    Wrap(target - (l0 + 12) + ToAddr(r) + r.addend)
  }

  function PlainLiteral(orig: Word, r: Reloc, at: int): Word {
    Wrap(orig - at + ToAddr(r) + r.addend)
  }

  lemma VldrDisplacement(w: bv32)
    requires Decode(w).VLoad?
    ensures var field: int := ((w & 0xff) as int) * 4; Displacement(Decode(w)) == if Bit(w, 23) then field else -field
  {
    hide IsTransfer, IsAddImm, IsAddReg, IsVLoad, IsBranch, Bit, Rd, Rn, Cond, BranchOffset, RegOperand2, ExpandImm;
  }

  lemma LiteralOfVldr(w: bv32, orig: Word, r: Reloc, l0: Word)
    requires Decode(w).VLoad?
    ensures VldrLiteral(w, orig, r, l0) == Literal(Decode(w), EffectivePc(Decode(w), orig, r), l0)
  {
    VldrDisplacement(w);
    hide Decode, Bit, Wrap;
    var d := Displacement(Decode(w));
    WrapMinus(orig + ToAddr(r) + r.addend - 8 - d, l0 + 8);
    WrapMinus(orig + r.addend, l0 + 8);
  }

  lemma WrapMinus(x: int, y: int)
    ensures Wrap(Wrap(x) - y) == Wrap(x - y)
  {
  }

  lemma LiteralOfLdrImm(w: bv32, orig: Word, r: Reloc, l0: Word)
    requires FormOf(Decode(w)) == LdrImmForm
    ensures LdrImmLiteral(w, orig, r, l0) == Literal(Decode(w), EffectivePc(Decode(w), orig, r), l0)
  {
    hide IsTransfer, IsAddImm, IsAddReg, IsVLoad, Bit, Rd, Rn, Cond, BranchOffset, ExpandImm, Wrap;
    var d := Displacement(Decode(w));
    WrapMinus(orig + ToAddr(r) + r.addend - 8 - d, l0 + 12 - 8 - d);
  }

  lemma LiteralOfAddImm(w: bv32, orig: Word, r: Reloc, l0: Word)
    requires FormOf(Decode(w)) == AddImmForm
    ensures AddImmLiteral(w, orig, r, l0) == Literal(Decode(w), EffectivePc(Decode(w), orig, r), l0)
  {
    hide IsTransfer, IsAddImm, IsAddReg, IsVLoad, Bit, Rd, Rn, Cond, BranchOffset, RotateRightTwice, Rotr32, Wrap;
    RotatedField(w);
    var imm := ExpandImm(w) as int;
    WrapMinus(orig + ToAddr(r) + r.addend, l0 + 12 - 8 - imm);
  }

  lemma RotatedField(w: bv32)
    ensures Rotr32(w & 0xff, ((w >> 8) & 0xf) * 2) == ExpandImm(w)
  {
    hide Rotr32, RotateRightTwice;
    RotateCase(w & 0xff, (w >> 8) & 0xf);
  }

  lemma LiteralOfOthers(w: bv32, orig: Word, r: Reloc, l0: Word)
    requires FormOf(Decode(w)) in {LdrRegForm, DispatchForm, AddRegForm}
    ensures PlainLiteral(orig, r, if FormOf(Decode(w)) == AddRegForm then l0 + 4 else l0 + 8)
         == Literal(Decode(w), EffectivePc(Decode(w), orig, r), l0)
  {
    hide Decode, Wrap;
    WrapMinus(orig + ToAddr(r) + r.addend, l0 + 8);
    WrapMinus(orig + ToAddr(r) + r.addend, l0 + 4);
  }

  /** The modified load, its B flag or-ed into byte 3. */
  function IndexedLoad(b: Bytes): Bytes {
    OrAt(OrAt(OrAt([0x00, 0x00, 0x9f, 0xe7], 1, RdField(b) << 4), 0, RdField(b)), 3, ((b[2] >> 6) & 1) << 6)
  }

  lemma ByteFlagIsLost(b: Bytes)
    requires RdField(b) < 15
    ensures Decode(WordOf(IndexedLoad(b)))
         == LoadReg(AL, false, true, PC, RdField(b) as int, ShiftedByImm(RdField(b) as int, 0, 0))
  {
    hide Decode, WordOf, OrAt, RdField;
    IndexedLoadWord(RdField(b), (b[2] >> 6) & 1);
  }

  /** The modified add, its S flag or-ed into byte 3. */
  function PlusPcWithS(b: Bytes): Bytes {
    OrAt(PlusPc(RdField(b)), 3, ((b[2] >> 4) & 1) << 4)
  }

  lemma SFlag(b: Bytes)
    ensures Bit(WordOf(b), 20) <==> (b[2] >> 4) & 1 == 1
    ensures (b[2] >> 4) & 1 == 0 || (b[2] >> 4) & 1 == 1
  {
  }

  lemma SFlagLeavesTheSpace(b: Bytes)
    requires RdField(b) < 15 && Decode(WordOf(b)).Add?
    ensures if Decode(WordOf(b)).s then Decode(WordOf(PlusPcWithS(b))).Unmodelled?
            else Decode(WordOf(PlusPcWithS(b))) == AddPc(RdField(b) as int)
  {
    hide PlusPc, WordOf, OrAt, RdField, IsTransfer, IsAddImm, IsAddReg, IsVLoad, Bit, Rd, Rn, Cond, BranchOffset,
         RegOperand2, ExpandImm;
    SFlag(b);
    AddPcWord(RdField(b));
    AddPcWordWithS(RdField(b));
  }

  // ----- the scratch register

  /** What the plugin takes for granted about an instruction, scratch register aside. */
  predicate Regular(i: Insn) {
    match FormOf(i)
    case LdrImmForm => i.rn == PC && i.rd < PC
    case AddImmForm => i.rn == PC && i.rd < PC && !i.s
    case VldrForm => i.rn == PC
    case LdrRegForm => i.rn == PC && i.rd < PC && !ReadsPc(i.op2)
    case DispatchForm => i.LoadReg? ==> !ReadsPc(i.op2)
    case AddRegForm => i.rd < PC
    case NotPatched => false
  }

  lemma OperandFields(w: bv32, t: nat)
    requires Decode(w).LoadReg? || Decode(w).Add?
    ensures Reads(Decode(w).op2, t) ==> t == Rm(w) || t == Rs(w)
  {
    hide IsTransfer, IsAddImm, IsAddReg, IsVLoad, Rd, Rn, Rm, Rs, Cond, BranchOffset, ExpandImm;
  }

  /** The register that was allocated is not one the instruction needs. */
  lemma ScratchFits(w: bv32, t: nat)
    requires Regular(Decode(w)) && t <= 6 && t !in {Rd(w), Rm(w), Rn(w), Rs(w), SP, PC}
    ensures Supported(Decode(w), t)
  {
    hide Decode, Rd, Rn, Rm, Rs, Bit;
    FieldsMatch(w);
    if Decode(w).LoadReg? || Decode(w).Add? {
      OperandFields(w, t);
    }
  }

  lemma BelievedPlace(i: Insn, orig: Word, r: Reloc)
    ensures var p, form := EffectivePc(i, orig, r), FormOf(i);
      var there := match r.wrt case NoObject => 0 case Scoop(start) => start case Instruction(location) => location;
      && (r.wrt.NoObject? && (form == LdrImmForm || r.addend == 0) ==> p == orig)
      && (if form == LdrImmForm || form == VldrForm
          then r.wrt.NoObject? || forall s :: AccessAt(i, s, p) == Wrap(orig + there + r.addend)
          else p == Wrap(orig + there + r.addend))
      && (form == VldrForm && r.wrt.NoObject? ==> p == Wrap(orig + r.addend))
  {
    hide EffectivePc, AccessAt;
    if r.wrt.NoObject? && (FormOf(i) == LdrImmForm || r.addend == 0) { NoObjectKeepsAddress(i, orig, r); }
    if FormOf(i) != LdrImmForm && (FormOf(i) == VldrForm ==> r.wrt.NoObject?) { OthersMoveAlong(i, orig, r); }
    if (FormOf(i) == LdrImmForm || FormOf(i) == VldrForm) && !r.wrt.NoObject? {
      forall s: Cpu ensures AccessAt(i, s, EffectivePc(i, orig, r)) == Wrap(orig + ToAddr(r) + r.addend) {
        ObjectLoadReads(i, orig, r, s);
      }
    }
  }

  class Plugin {
    /** The output image. */
    var ms: Memory

    method PlopBytes(at: int, b: Bytes)
      modifies this
      ensures BytesAt(ms, at, b)
      ensures Around(old(ms), ms, at, 4) && BytesKept(old(ms), ms, at, 4)
    {
      StoreKeeps(ms, at, b[0] as int, b[1] as int, b[2] as int, b[3] as int);
      ms := Store4(ms, at, b[0] as int, b[1] as int, b[2] as int, b[3] as int);
    }

    method PlopWord(at: int, x: Word)
      modifies this
      ensures LoadWord(ms, at) == x
      ensures Around(old(ms), ms, at, 4) && BytesKept(old(ms), ms, at, 4)
    {
      LoadStored(ms, at, x);
      StoreKeeps(ms, at, x % 0x100, x / 0x100 % 0x100, x / 0x1_0000 % 0x100, x / 0x100_0000);
      ms := StoreWord(ms, at, x);
    }

    /** Zipr's patch of a branch: its low 24 bits are made to reach `to`. */
    method ApplyPatch(at: int, to: int, ghost c: bv8)
      requires BytesAt(ms, at, BranchBytes(c)) && InReach(at, to)
      modifies this
      ensures BytesAt(ms, at, PatchBytes(c, BranchDistance(at, to)))
      ensures Around(old(ms), ms, at, 4) && BytesKept(old(ms), ms, at, 4)
    {
      hide LowByte, BytesAt, Store4;
      var d := BranchDistance(at, to);
      var top := At(ms, at + 3);
      PatchPlaced(ms, at, c, d);
      StoreKeeps(ms, at, d % 0x100, d / 0x100 % 0x100, d / 0x1_0000 % 0x100, top);
      ms := Store4(ms, at, d % 0x100, d / 0x100 % 0x100, d / 0x1_0000 % 0x100, top);
    }

    /** The branch that replaces the original instruction keeps its condition. */
    method PlopBranch(b: Bytes, fa: Word, l0: Word)
      requires InReach(fa, l0)
      modifies this
      ensures BytesAt(ms, fa, PatchBytes(CondByte(b), BranchDistance(fa, l0)))
      ensures Around(old(ms), ms, fa, 4)
    {
      var branch: Bytes := [0x00, 0x00, 0x00, 0xea];
      branch := AndAt(branch, 3, 0x0f);
      branch := OrAt(branch, 3, b[3] & 0xf0);
      PlopBytes(fa, branch);
      CondByteIs(b);
      ApplyPatch(fa, l0, CondByte(b));
    }

    method Short(b: Bytes, body: Bytes, fa: Word, l0: Word, k: Word)
      requires Placement(fa, l0, 16) && Returns(fa, l0, 16)
      modifies this
      ensures ShortBytes(ms, b, body, fa, l0, k) && OnlyIn(old(ms), ms, fa, l0, 16)
    {
      hide BytesAt, LoadWord, PatchBytes, OrAt, AndAt;
      PlopBranch(b, fa, l0);
      PlopBytes(l0, LiteralLoad(RdField(b), 0x04));
      PlopBytes(l0 + 4, body);
      PlopBytes(l0 + 8, BranchBytes(0xea));
      ApplyPatch(l0 + 8, fa + 4, 0xea);
      PlopWord(l0 + 12, k);
    }

    /** How a trampoline begins that borrows a register: it is spilled and set to a literal plus the
        program counter. */
    method PlopBorrow(t: bv8, l0: Word, k: bv8)
      modifies this
      ensures BytesAt(ms, l0, SpillTo(t, 0xfc)) && BytesAt(ms, l0 + 4, LiteralLoad(t, k))
              && BytesAt(ms, l0 + 8, PlusPc(t))
      ensures Around(old(ms), ms, l0, 12) && BytesKept(old(ms), ms, l0, 12)
    {
      hide BytesAt, SpillTo, LiteralLoad, PlusPc;
      PlopBytes(l0, SpillTo(t, 0xfc));
      PlopBytes(l0 + 4, LiteralLoad(t, k));
      PlopBytes(l0 + 8, PlusPc(t));
    }

    /** How most of them end: the register is restored, and a branch goes to `to`. */
    method PlopReturn(t: bv8, at: Word, to: int)
      requires InReach(at + 4, to)
      modifies this
      ensures BytesAt(ms, at, RestoreFrom(t, 0xfc)) && BytesAt(ms, at + 4, PatchBytes(0xea, BranchDistance(at + 4, to)))
      ensures Around(old(ms), ms, at, 8) && BytesKept(old(ms), ms, at, 8)
    {
      hide BytesAt, PatchBytes, RestoreFrom;
      PlopBytes(at, RestoreFrom(t, 0xfc));
      PlopBytes(at + 4, BranchBytes(0xea));
      ApplyPatch(at + 4, to, 0xea);
    }

    method Spilled(b: Bytes, t: bv8, body: Bytes, fa: Word, l0: Word, k: Word)
      requires Placement(fa, l0, 28) && Returns(fa, l0, 28)
      modifies this
      ensures SpillBytes(ms, b, t, body, fa, l0, k) && OnlyIn(old(ms), ms, fa, l0, 28)
    {
      hide BytesAt, LoadWord, PatchBytes, OrAt, AndAt, SpillTo, RestoreFrom, LiteralLoad, PlusPc;
      PlopBranch(b, fa, l0);
      PlopBorrow(t, l0, 0x0c);
      PlopBytes(l0 + 12, body);
      PlopReturn(t, l0 + 16, fa + 4);
      PlopWord(l0 + 24, k);
    }

    method Dispatched(b: Bytes, t: bv8, body: Bytes, fa: Word, l0: Word, k: Word)
      requires Placement(fa, l0, 32)
      modifies this
      ensures DispatchBytes(ms, b, t, body, fa, l0, k) && OnlyIn(old(ms), ms, fa, l0, 32)
    {
      hide BytesAt, LoadWord, PatchBytes, OrAt, AndAt, SpillTo, RestoreFrom, LiteralLoad, PlusPc;
      PlopBranch(b, fa, l0);
      PlopBorrow(t, l0, 0x10);
      PlopBytes(l0 + 12, body);
      PlopBytes(l0 + 16, SpillTo(t, 0xf8));
      PlopBytes(l0 + 20, RestoreFrom(t, 0xfc));
      PlopBytes(l0 + 24, RestoreFrom(0xf, 0xf8));
      PlopWord(l0 + 28, k);
    }

    method Added(b: Bytes, t: bv8, body: Bytes, fa: Word, l0: Word, k: Word)
      requires Placement(fa, l0, 28) && Returns(fa, l0, 28)
      modifies this
      ensures AddBytes(ms, b, t, body, fa, l0, k) && OnlyIn(old(ms), ms, fa, l0, 28)
    {
      hide BytesAt, LoadWord, PatchBytes, OrAt, AndAt, SpillTo, RestoreFrom, LiteralLoad, Sum, RdField;
      PlopBranch(b, fa, l0);
      PlopBytes(l0, SpillTo(t, 0xfc));
      PlopBytes(l0 + 4, body);
      PlopBytes(l0 + 8, LiteralLoad(t, 0x08));
      PlopBytes(l0 + 12, Sum(t, RdField(b)));
      PlopReturn(t, l0 + 16, fa + 4);
      PlopWord(l0 + 24, k);
    }

    /** The instruction `b`, originally at `orig`, is now at `fa`; `l0` is the fresh range that
        `getFreeRange` returned.  `p` is the address at which the instruction then believes itself: its
        original one if there is neither object nor addend. */
    method HandlePcrelReloc(b: Bytes, orig: Word, r: Reloc, fa: Word, l0: Word)
      returns (form: Form, t: nat, ghost p: Word)
      requires var f := FormOf(Decode(WordOf(b)));
               f != NotPatched ==> Placement(fa, l0, SizeOf(f)) && (f != DispatchForm ==> Returns(fa, l0, SizeOf(f)))
      requires FormOf(Decode(WordOf(b))) in {AddImmForm, AddRegForm} ==> Rd(WordOf(b)) != PC
      modifies this
      ensures form == FormOf(Decode(WordOf(b)))
      ensures t <= 6 && t !in {Rd(WordOf(b)), Rm(WordOf(b)), Rn(WordOf(b)), Rs(WordOf(b)), SP, PC}
      ensures form == NotPatched ==> ms == old(ms)
      ensures var i := Decode(WordOf(b));
              form != NotPatched ==> Installed(A32, ms, i, t, p, fa, l0) && OnlyIn(old(ms), ms, fa, l0, SizeOf(form))
      ensures var n := if form == LdrImmForm || form == AddImmForm then 16 else if form == DispatchForm then 32 else 28;
              forall x | !(fa <= x < fa + 4) && !(l0 <= x < l0 + n) :: At(ms, x) == At(old(ms), x)
      ensures r.wrt.NoObject? && (form == LdrImmForm || r.addend == 0) ==> p == orig
      ensures var there :=
              match r.wrt case NoObject => 0 case Scoop(start) => start case Instruction(location) => location;
              if form == LdrImmForm || form == VldrForm
              then r.wrt.NoObject? || forall s :: AccessAt(Decode(WordOf(b)), s, p) == Wrap(orig + there + r.addend)
              else p == Wrap(orig + there + r.addend)
      ensures form == VldrForm && r.wrt.NoObject? ==> p == Wrap(orig + r.addend)
    {
      hide A32, BytesAt, LoadWord, PatchBytes, Decode, WordOf, Cond, Rd, Rn, Rm, Rs, Bit, OrAt, AndAt, GoesTo;
      hide VldrLiteral, LdrImmLiteral, AddImmLiteral, PlainLiteral, Literal, EffectivePc, SpillBytes, ShortBytes,
           DispatchBytes, AddBytes, IndexedLoad;
      hide WithBase, Always, Retargeted, AccessAt;
      var w := WordOf(b);
      var insn := Decode(w);   // the disassembler's view: ldr, add or vldr
      FieldsMatch(w);
      t := AllocateReg({Rd(w), Rm(w), Rn(w), Rs(w), SP, PC});
      FieldIs(t);
      var tmp := Field(t);
      form := NotPatched;
      p := EffectivePc(insn, orig, r);
      BelievedPlace(insn, orig, r);
      if insn.VLoad? {
        form := VldrForm;
        RebasedVldr(b, tmp);
        LiteralOfVldr(w, orig, r, l0);
        Spilled(b, tmp, WithBase(b, tmp), fa, l0, VldrLiteral(w, orig, r, l0));
        SpillDecodes(ms, b, tmp, WithBase(b, tmp), fa, l0, VldrLiteral(w, orig, r, l0));
      } else if insn.LoadReg? && Rd(w) != PC && !Bit(w, 25) {
        form := LdrImmForm;
        LiteralOfLdrImm(w, orig, r, l0);
        RdFieldIs(b);
        ByteFlagIsLost(b);
        Short(b, IndexedLoad(b), fa, l0, LdrImmLiteral(w, orig, r, l0));
        ShortDecodes(ms, b, IndexedLoad(b), fa, l0, LdrImmLiteral(w, orig, r, l0));
      } else if insn.LoadReg? && Rd(w) != PC && Bit(w, 25) {
        form := LdrRegForm;
        RebasedLdr(b, tmp);
        LiteralOfOthers(w, orig, r, l0);
        Spilled(b, tmp, WithBase(Always(b), tmp), fa, l0, PlainLiteral(orig, r, l0 + 8));
        SpillDecodes(ms, b, tmp, WithBase(Always(b), tmp), fa, l0, PlainLiteral(orig, r, l0 + 8));
      } else if IsPcDispatch(insn) {
        form := DispatchForm;
        RetargetedInsn(b, tmp);
        LiteralOfOthers(w, orig, r, l0);
        Dispatched(b, tmp, Retargeted(b, tmp), fa, l0, PlainLiteral(orig, r, l0 + 8));
        DispatchDecodes(ms, b, tmp, Retargeted(b, tmp), fa, l0, PlainLiteral(orig, r, l0 + 8));
      } else if insn.Add? && Bit(w, 25) {
        form := AddImmForm;
        RdFieldIs(b);
        LiteralOfAddImm(w, orig, r, l0);
        SFlagLeavesTheSpace(b);
        Short(b, PlusPcWithS(b), fa, l0, AddImmLiteral(w, orig, r, l0));
        ShortDecodes(ms, b, PlusPcWithS(b), fa, l0, AddImmLiteral(w, orig, r, l0));
      } else if insn.Add? && !Bit(w, 25) {
        form := AddRegForm;
        CopiedAdd(b);
        LiteralOfOthers(w, orig, r, l0);
        Added(b, tmp, Always(AndAt(b, 2, 0xef)), fa, l0, PlainLiteral(orig, r, l0 + 4));
        AddDecodes(ms, b, tmp, Always(AndAt(b, 2, 0xef)), fa, l0, PlainLiteral(orig, r, l0 + 4));
      }
    }
  }
}
