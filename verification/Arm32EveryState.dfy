/** Which instructions have a trampoline that is right in every state, as can be seen from the
    instruction alone; and for each of the others a state in which it is wrong. */
module Arm32EveryState {
  import opened A32Machine
  import opened Arm32Trampoline
  import opened Arm32PcUses
  import opened Arm32Simulation

  /** No byte is loaded from a literal, no flags are set, and neither the indexed load nor the
      register add goes into the stack pointer. */
  predicate Plain(i: Insn) {
    match FormOf(i)
    case LdrImmForm => !i.byte
    case LdrRegForm => i.rd != SP
    case AddRegForm => !i.s && i.rd != SP
    case _ => true
  }

  /** Uses of the program counter are those that are expected. */
  predicate UsesPcOnce(i: Insn) {
    match FormOf(i)
    case AddRegForm => AddsPcOnce(i)
    case DispatchForm => !ReadsPc(i.op2)
    case _ => true
  }

  lemma PlainIsHonoured(s: Cpu, i: Insn, t: RegNo, p: Word, l0: Word)
    requires Supported(i, t) && UsesPcOnce(i) && Plain(i) && l0 + 12 < TWO_32
    ensures Honoured(s, i, t, p, l0)
  {
    hide Trampolined, SumAt, EvalOp2, Restores;
    if FormOf(i) == AddRegForm { OnceIsRight(i, s, p, l0); }
    if FormOf(i) == DispatchForm {
      PcFree(s, p, i.op2);
      PcFree(s, l0 + 12, i.op2);
    }
  }

  // ----- states to try

  /** A state in which the condition holds; `x` is a flag that is free to choose. */
  function Trial(cond: nat, x: bool, r: RegNo -> Word, m: Memory): Cpu {
    var n := if cond == 4 then true else if cond == 5 then false else x;
    var v := if cond == 6 then true else if cond == 7 then false else if cond == 11 then !n
             else if cond == 4 || cond == 5 then x else n;
    Cpu(r, 0x8000, false, n, cond == 0 || cond == 13, cond == 2 || cond == 8, v, (k: RegNo) => 0, m)
  }

  lemma TrialPasses(cond: nat, x: bool, r: RegNo -> Word, m: Memory)
    requires cond <= 14
    ensures CondPasses(Trial(cond, x, r, m), cond)
  {
  }

  /** The borrowed register holds 7, the stack pointer `sp`, and all others 0. */
  function Registers(t: RegNo, sp: Word): RegNo -> Word {
    (k: RegNo) => if k == t then 7 else if k == SP then sp else 0
  }

  // ----- bytes

  lemma ByteFails(i: Insn, t: RegNo, p: Word, l0: Word) returns (s: Cpu)
    requires FormOf(i) == LdrImmForm && i.byte && i.cond <= 14 && l0 + 12 < TWO_32
    ensures CondPasses(s, i.cond) && !Honoured(s, i, t, p, l0)
  {
    var a := Wrap(p + 8 + Displacement(i));
    s := Trial(i.cond, true, Registers(t, 0), map[a + 1 := 1]);
    TrialPasses(i.cond, true, Registers(t, 0), map[a + 1 := 1]);
  }

  // ----- flags

  /** Of two states that differ in one flag only, at most one has the flags that the add sets. */
  lemma FlagsFail(i: Insn, t: RegNo, p: Word, l0: Word) returns (s: Cpu)
    requires FormOf(i) == AddRegForm && i.s && i.cond <= 14 && l0 + 12 < TWO_32
    ensures CondPasses(s, i.cond) && !Honoured(s, i, t, p, l0)
  {
    hide Trampolined, SumAt, Restores, CondPasses, Registers;
    var a, b := Trial(i.cond, true, Registers(t, 0), map[]), Trial(i.cond, false, Registers(t, 0), map[]);
    TrialPasses(i.cond, true, Registers(t, 0), map[]);
    TrialPasses(i.cond, false, Registers(t, 0), map[]);
    SameSummands(a, b, i, p);
    s := if FlagsStay(a, i, p) then b else a;
  }

  lemma SameSummands(a: Cpu, b: Cpu, i: Insn, p: Word)
    requires i.Add? && a.r == b.r && a.c == b.c
    ensures Reg(a.(pc := p), i.rn) == Reg(b.(pc := p), i.rn) && OperandAt(i, a, p) == OperandAt(i, b, p)
  {
    hide ShiftValue, Wrap;
  }

  // ----- the stack pointer

  lemma SevenIff(slot: Word, a: Word)
    ensures LoadWord(StoreWord(map[], slot, 7), a) == 7 <==> a == slot
  {
  }

  /** With 7 in the borrowed register and memory otherwise empty, the register comes back only if the
      stack pointer stays where it is. */
  lemma RestoresIff(s: Cpu, i: Insn, t: RegNo, p: Word)
    requires s.mem == map[] && s.r(t) == 7
    ensures Restores(s, i, t, p) <==> Exec(i, s.(pc := p)).r(SP) == s.r(SP)
  {
    hide Exec, StoreWord, LoadWord;
    var sp: int := Exec(i, s.(pc := p)).r(SP);
    SevenIff(Slot(s, 0xfc), Wrap(sp - 0xfc));
  }

  lemma LoadFails(i: Insn, t: RegNo, p: Word, l0: Word) returns (s: Cpu)
    requires FormOf(i) == LdrRegForm && i.rd == SP && i.cond <= 14 && t < 13 && l0 + 12 < TWO_32
    ensures CondPasses(s, i.cond) && !Honoured(s, i, t, p, l0)
  {
    hide Restores, EvalOp2;
    s := Trial(i.cond, true, Registers(t, 4), map[]);
    TrialPasses(i.cond, true, Registers(t, 4), map[]);
    SameCond(s, s.(pc := p), i.cond);
    hide CondPasses;
    LoadsNothing(s.(pc := p), i);
    RestoresIff(s, i, t, p);
  }

  lemma LoadsNothing(s: Cpu, i: Insn)
    requires i.LoadReg? && i.rd == SP && s.mem == map[] && CondPasses(s, i.cond)
    ensures Exec(i, s).r(SP) == 0
  {
    hide CondPasses, Address;
  }

  predicate IsRrx(op2: Operand2) { op2.ShiftedByImm? && op2.amount % 32 == 0 && op2.kind == 3 }

  /** What becomes of 0, unless a flag is shifted in. */
  lemma OperandOfZeros(s: Cpu, op2: Operand2)
    requires !op2.Immediate? && !ReadsPc(op2) && s.r(op2.rm) == 0 && (op2.ShiftedByReg? ==> s.r(op2.rs) == 0)
    ensures EvalOp2(s, op2) == if IsRrx(op2) && s.c then 0x8000_0000 else 0
  {
    hide Pow2;
    if op2.ShiftedByImm? && op2.amount % 32 != 0 { ShiftOfZero(op2.kind, op2.amount % 32); }
    ShiftOfZero(op2.kind, 32);
    ShiftOfZero(op2.kind, 0);
  }

  lemma ShiftOfZero(kind: nat, a: nat)
    requires a <= 32
    ensures ShiftValue(0, kind, a) == 0
  {
  }

  lemma RrxIs(s: Cpu, op2: Operand2)
    requires IsRrx(op2) && op2.rm != PC
    ensures EvalOp2(s, op2) == Wrap((if s.c then 0x8000_0000 else 0) + s.r(op2.rm) / 2)
  {
  }

  /** A value of the stack pointer that the add changes.  0 will do, unless a shifted-in flag makes up
      for the address. */
  function StackToTry(i: Insn, p: Word, c: bool): Word
    requires i.Add?
  {
    if IsRrx(i.op2) && c && Wrap(p + 8 + 0x8000_0000) == 0 then 2 else 0
  }

  lemma StackMoves(s: Cpu, i: Insn, t: RegNo, p: Word, sp: Word)
    requires AddsPcOnce(i) && RebasableAdd(i, t) && i.op2.ShiftedByImm? && p + 8 < TWO_32 && sp == StackToTry(i, p, s.c)
    requires s.r == Registers(t, sp)
    ensures Wrap(Addend(i, s) + (p + 8)) != sp
  {
    if i.rn == PC && IsRrx(i.op2) {
      RrxIs(s, i.op2);
      hide EvalOp2;
    } else if i.rn == PC {
      hide EvalOp2, IsRrx;
      OperandOfZeros(s, i.op2);
    }
  }

  lemma StackMovesByReg(s: Cpu, i: Insn, t: RegNo, p: Word)
    requires AddsPcOnce(i) && RebasableAdd(i, t) && i.op2.ShiftedByReg? && p + 8 < TWO_32 && s.r == Registers(t, 0)
    ensures Wrap(Addend(i, s) + (p + 8)) != 0
  {
    hide EvalOp2;
    OperandOfZeros(s, i.op2);
  }

  lemma AddFails(i: Insn, t: RegNo, p: Word, l0: Word) returns (s: Cpu)
    requires FormOf(i) == AddRegForm && AddsPcOnce(i) && RebasableAdd(i, t) && i.rd == SP && i.cond <= 14
    requires p + 8 < TWO_32 && l0 + 12 < TWO_32
    ensures CondPasses(s, i.cond) && !Honoured(s, i, t, p, l0)
  {
    var sp := StackToTry(i, p, i.cond == 2 || i.cond == 8);
    s := Trial(i.cond, true, Registers(t, sp), map[]);
    TrialPasses(i.cond, true, Registers(t, sp), map[]);
    if i.op2.ShiftedByImm? { StackMoves(s, i, t, p, sp); } else { StackMovesByReg(s, i, t, p); }
    hide CondPasses, SumAt, Addend, EvalOp2, Trampolined, FlagsStay, StackToTry, AddsPcOnce;
    OnceSum(i, s, p);
    AddExec(s, i, p);
    hide Exec, Restores;
    RestoresIff(s, i, t, p);
  }

  // ----- all together

  /** For an instruction that uses the program counter as expected, the trampoline is right in every
      state in which the instruction is not skipped exactly if the instruction is plain.  (In the last
      eight bytes of memory the program counter reads as 0 or 4.) */
  lemma EveryStateIff(i: Insn, t: RegNo, p: Word, l0: Word)
    requires Supported(i, t) && UsesPcOnce(i) && i.cond <= 14 && p + 8 < TWO_32 && l0 + 12 < TWO_32
    ensures (forall s: Cpu :: CondPasses(s, i.cond) ==> Honoured(s, i, t, p, l0)) <==> Plain(i)
  {
    hide Honoured, CondPasses;
    if Plain(i) {
      forall s: Cpu | CondPasses(s, i.cond) ensures Honoured(s, i, t, p, l0) { PlainIsHonoured(s, i, t, p, l0); }
    } else {
      var s;
      if FormOf(i) == LdrImmForm {
        s := ByteFails(i, t, p, l0);
      } else if FormOf(i) == LdrRegForm {
        s := LoadFails(i, t, p, l0);
      } else if i.s {
        s := FlagsFail(i, t, p, l0);
      } else {
        s := AddFails(i, t, p, l0);
      }
      assert CondPasses(s, i.cond) && !Honoured(s, i, t, p, l0);
    }
  }

  /** So the trampoline of a plain instruction that stands for the instruction at `orig` does, in every
      state, what the instruction did there. */
  lemma ActsAsBefore(isa: Decoder, s: Cpu, i: Insn, t: RegNo, orig: Word, l0: Word) returns (t': Cpu)
    requires Ready(isa, s, i, t, orig, l0) && Supported(i, t) && StackClear(s, i, orig, l0)
    requires UsesPcOnce(i) && Plain(i)
    ensures Reaches(isa, s, t')
    ensures var o := Exec(i, s.(pc := orig));
      && Agrees(t', o, if FormOf(i) == DispatchForm && CondPasses(s, i.cond) then o.pc else s.pc + 4)
      && OnlyAt(s.mem, t'.mem, Slot(s, 0xfc), Slot(s, 0xf8))
  {
    hide Ready, StackClear, Reaches, Honoured, CondPasses, Exec, Agrees, OnlyAt, UsesPcOnce, Plain;
    SizeFits(isa, s, i, t, orig, l0);
    PlainIsHonoured(s, i, t, orig, l0);
    t' := TrampolineFaithfulIff(isa, s, i, t, orig, l0);
  }

  lemma SizeFits(isa: Decoder, s: Cpu, i: Insn, t: RegNo, p: Word, l0: Word)
    requires Ready(isa, s, i, t, p, l0)
    ensures l0 + 12 < TWO_32 && s.pc + 4 < TWO_32
  {
    hide Installed;
  }

  // ----- inputs that fail, at 0x1000 with a trampoline at 0x9000

  /** Registers 0 and 1 as given, the others and memory 0, flags clear. */
  function State(r0: Word, r1: Word): Cpu {
    Cpu((k: RegNo) => if k == 0 then r0 else if k == 1 then r1 else 0, 0x8000, false, false, false, false, false,
        (k: RegNo) => 0, map[])
  }

  /** `ldrb r2, [pc]` at 0x1000, where the byte after the one to be loaded is 1. */
  lemma ByteLoadReadsWord()
    ensures var i := LoadReg(AL, true, true, PC, 2, Immediate(0));
            FormOf(i) == LdrImmForm && Supported(i, 0)
                && !Honoured(State(0, 0).(mem := map[0x1009 := 1]), i, 0, 0x1000, 0x9000)
  {
  }

  /** `adds r2, pc, r1` at 0x1000, where the sum is 0, should set the zero flag. */
  lemma AddsLosesZeroFlag()
    ensures var i := Add(AL, true, PC, 2, ShiftedByImm(1, 0, 0));
            FormOf(i) == AddRegForm && Supported(i, 0) && !Honoured(State(7, TWO_32 - 0x1008), i, 0, 0x1000, 0x9000)
  {
    var s := State(7, TWO_32 - 0x1008);
    PlainRegister(s.(pc := 0x1000), 1);
    hide EvalOp2, Trampolined;
  }

  lemma NothingThere(a: int)
    ensures LoadWord(map[], a) == 0
  {
  }

  lemma AddSetsSp(s: Cpu, p: Word)
    ensures Exec(Add(AL, false, PC, SP, ShiftedByImm(1, 0, 0)), s.(pc := p)).r(SP) == Wrap(Wrap(p + 8) + s.r(1))
  {
    hide EvalOp2, CondPasses, Wrap;
    AlwaysPasses(s.(pc := p));
    PlainRegister(s.(pc := p), 1);
  }

  lemma SpilledFarAway()
    ensures !Restores(State(7, 0x4000), Add(AL, false, PC, SP, ShiftedByImm(1, 0, 0)), 0, 0x1000)
  {
    hide Exec, StoreWord, LoadWord;
    var s := State(7, 0x4000);
    AddSetsSp(s, 0x1000);
    LoadElsewhere(s.mem, Slot(s, 0xfc), 7, 0x5008 - 0xfc);
    NothingThere(0x5008 - 0xfc);
  }

  /** `add sp, pc, r1` at 0x1000 with register 0 borrowed, which holds 7.  It ends up as 0, which is
      what is below the new stack pointer. */
  lemma AddIntoSpLosesRegister()
    ensures var i := Add(AL, false, PC, SP, ShiftedByImm(1, 0, 0));
            FormOf(i) == AddRegForm && Supported(i, 0) && !Honoured(State(7, 0x4000), i, 0, 0x1000, 0x9000)
  {
    hide Restores, State, FlagsStay, Trampolined;
    SpilledFarAway();
  }
}
