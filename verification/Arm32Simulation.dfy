/** Running a trampoline is the same as running the instruction it replaces: for every
    instruction, original address, new address, trampoline address, relocation and state. */
module Arm32Simulation {
  import opened A32Machine
  import opened Modular
  import opened Arm32Trampoline

  lemma LiteralCancels(p: Word, at: Word, d: int)
    ensures Wrap(at + Wrap(p + d - at)) == Wrap(p + d)
  {
  }

  /** Control is at the patched instruction, and the trampoline is in place. */
  predicate Ready(isa: Decoder, s: Cpu, i: Insn, t: RegNo, p: Word, l0: Word) {
    && FormOf(i) != NotPatched && !s.thumb && s.pc + 8 <= TWO_32 && l0 + SizeOf(FormOf(i)) < TWO_32
    && Installed(isa, s.mem, i, t, p, s.pc, l0)
  }

  lemma Skipped(isa: Decoder, s: Cpu, i: Insn, t: RegNo, p: Word, l0: Word) returns (t': Cpu)
    requires Ready(isa, s, i, t, p, l0) && !CondPasses(s, i.cond)
    ensures Reaches(isa, s, t') && Faithful(s, t', i, p, s.pc)
  {
    hide GoesTo, InsnAt, Reaches, LoadWord, CondPasses, Literal;
    SameCond(s, s.(pc := p), i.cond);
    SkipsWhenCondFails(isa, s, i.cond, l0);
    t' := s.(pc := s.pc + 4);
  }

  /** The load goes to the right address, but is always a word load. */
  lemma LdrImmAlwaysWord(isa: Decoder, s: Cpu, i: Insn, t: RegNo, p: Word, l0: Word) returns (t': Cpu)
    requires Ready(isa, s, i, t, p, l0) && CondPasses(s, i.cond)
    requires FormOf(i) == LdrImmForm && i.rn == PC && i.rd < PC
    ensures Reaches(isa, s, t') && t'.mem == s.mem
    ensures Agrees(t', SetReg(s, i.rd, LoadWord(s.mem, Wrap(p + 8 + Displacement(i)))), s.pc + 4)
  {
    hide InsnAt, GoesTo, LoadWord, CondPasses, Reaches;
    LiteralCancels(p, l0 + 12, 8 + Displacement(i));
    t' := LdrImmRuns(isa, s, i.cond, i.rd, l0, Literal(i, p, l0));
  }

  lemma LdrImmExec(s: Cpu, i: Insn, p: Word)
    requires FormOf(i) == LdrImmForm && i.rn == PC && i.rd < PC && CondPasses(s, i.cond)
    ensures Exec(i, s.(pc := p)) == SetReg(s.(pc := p), i.rd, Loaded(s.mem, Wrap(p + 8 + Displacement(i)), i.byte))
  {
    hide Loaded, CondPasses, SetReg;
    SameCond(s, s.(pc := p), i.cond);
    WrapOffset(p, i.op2.imm);
  }

  lemma WrapOffset(p: Word, d: Word)
    ensures Offset(Wrap(p + 8), true, d) == Wrap(p + 8 + d)
    ensures Offset(Wrap(p + 8), false, d) == Wrap(p + 8 - d)
  {
    var less: int := 0 - d;
    ModTwice(p + 8, d, TWO_32);
    ModTwice(p + 8, less, TWO_32);
  }

  /** A byte load is honoured exactly when the three bytes above the one loaded are zero. */
  lemma LdrImmFaithfulIff(isa: Decoder, s: Cpu, i: Insn, t: RegNo, p: Word, l0: Word) returns (t': Cpu)
    requires Ready(isa, s, i, t, p, l0) && CondPasses(s, i.cond)
    requires FormOf(i) == LdrImmForm && i.rn == PC && i.rd < PC
    ensures Reaches(isa, s, t')
    ensures var a := Wrap(p + 8 + Displacement(i));
            Faithful(s, t', i, p, s.pc) <==>
              (i.byte ==> At(s.mem, a + 1) == 0 && At(s.mem, a + 2) == 0 && At(s.mem, a + 3) == 0)
  {
    hide InsnAt, GoesTo, LoadWord, CondPasses, Reaches, Installed, Wrap, Literal;
    t' := LdrImmAlwaysWord(isa, s, i, t, p, l0);
    LdrImmExec(s, i, p);
    var a := Wrap(p + 8 + Displacement(i));
    UpperBytes(s.mem, a);
    assert t'.r(i.rd) == LoadWord(s.mem, a);
    assert Exec(i, s.(pc := p)).r(i.rd) == Loaded(s.mem, a, i.byte);
  }

  lemma UpperBytes(m: Memory, a: int)
    ensures LoadWord(m, a) == At(m, a) <==> At(m, a + 1) == 0 && At(m, a + 2) == 0 && At(m, a + 3) == 0
  {
  }

  lemma AddImmFaithful(isa: Decoder, s: Cpu, i: Insn, t: RegNo, p: Word, l0: Word) returns (t': Cpu)
    requires Ready(isa, s, i, t, p, l0) && CondPasses(s, i.cond)
    requires FormOf(i) == AddImmForm && Supported(i, t)
    ensures Reaches(isa, s, t') && Faithful(s, t', i, p, s.pc)
  {
    hide InsnAt, GoesTo, LoadWord, CondPasses, Reaches, Wrap;
    LiteralCancels(p, l0 + 12, 8 + i.op2.imm);
    AddImmExec(s, i, p);
    t' := AddImmRuns(isa, s, i.cond, i.rd, l0, Literal(i, p, l0));
  }

  lemma AddImmExec(s: Cpu, i: Insn, p: Word)
    requires FormOf(i) == AddImmForm && i.rn == PC && i.rd < PC && !i.s && CondPasses(s, i.cond)
    ensures Exec(i, s.(pc := p)) == SetReg(s.(pc := p), i.rd, Wrap(p + 8 + i.op2.imm))
  {
    hide CondPasses, SetReg;
    SameCond(s, s.(pc := p), i.cond);
    WrapOffset(p, i.op2.imm);
  }

  /** With the S bit set, the add of the short trampoline is not an instruction: control never
      leaves it. */
  lemma AddImmWithSIsStuck(isa: Decoder, s: Cpu, i: Insn, t: RegNo, p: Word, l0: Word, k: nat)
    requires Ready(isa, s, i, t, p, l0) && CondPasses(s, i.cond)
    requires FormOf(i) == AddImmForm && i.s && i.rd < PC && k >= 2
    ensures Run(isa, s, k).pc == l0 + 4
  {
    hide GoesTo, LoadWord, CondPasses, InsnAt, Literal, Step;
    StepBranch(isa, s, i.cond, l0);
    var s1 := Step(isa, s);
    StepLoadLiteral(isa, s1, i.rd, 4);
    var s2 := Step(isa, s1);
    StuckForever(isa, s2, k - 2);
    assert Run(isa, s, k) == Run(isa, s1, k - 1) == Run(isa, s2, k - 2);
  }

  lemma StuckForever(isa: Decoder, u: Cpu, k: nat)
    requires InsnAt(isa, u.mem, u.pc).Unmodelled?
    ensures Run(isa, u, k) == u
    decreases k
  {
    hide InsnAt;
    assert Step(isa, u) == u;
    if k > 0 {
      StuckForever(isa, u, k - 1);
    }
  }

  /** `vldr` and `ldr` with a register offset. */
  lemma SpillFaithfulIff(isa: Decoder, s: Cpu, i: Insn, t: RegNo, p: Word, l0: Word) returns (t': Cpu)
    requires Ready(isa, s, i, t, p, l0) && CondPasses(s, i.cond)
    requires (FormOf(i) == VldrForm || FormOf(i) == LdrRegForm) && Supported(i, t) && StackClear(s, i, p, l0)
    ensures Reaches(isa, s, t') && (Faithful(s, t', i, p, s.pc) <==> Honoured(s, i, t, p, l0))
  {
    hide InsnAt, GoesTo, LoadWord, CondPasses, Reaches, Exec, AccessAt, AccessSize, Slot, Wrap, Restores;
    LiteralCancels(p, l0 + 16, 8);
    AlwaysPasses(s);
    if i.LoadReg? && i.rd == SP {
      t' := SpillRunsIntoSp(isa, s, i, t, l0, Literal(i, p, l0), p);
    } else {
      t' := SpillRuns(isa, s, i, if FormOf(i) == VldrForm then i.cond else AL, t, l0, Literal(i, p, l0), p);
    }
  }

  lemma DispatchFaithfulIff(isa: Decoder, s: Cpu, i: Insn, t: RegNo, p: Word, l0: Word) returns (t': Cpu)
    requires Ready(isa, s, i, t, p, l0) && CondPasses(s, i.cond)
    requires FormOf(i) == DispatchForm && Supported(i, t) && StackClear(s, i, p, l0)
    ensures Reaches(isa, s, t') && (Faithful(s, t', i, p, s.pc) <==> Honoured(s, i, t, p, l0))
  {
    hide InsnAt, GoesTo, LoadWord, CondPasses, Reaches, Exec, JumpClear, Slot, Wrap, EvalOp2;
    LiteralCancels(p, l0 + 16, 8);
    t' := DispatchRunsIff(isa, s, i, t, l0, Literal(i, p, l0), p);
    if i.LoadReg? { SameOperand(s.(pc := p), s.(pc := l0 + 12), i.op2, t); }
  }

  lemma AddRegFaithfulIff(isa: Decoder, s: Cpu, i: Insn, t: RegNo, p: Word, l0: Word) returns (t': Cpu)
    requires Ready(isa, s, i, t, p, l0) && CondPasses(s, i.cond)
    requires FormOf(i) == AddRegForm && Supported(i, t) && StackClear(s, i, p, l0)
    ensures Reaches(isa, s, t') && (Faithful(s, t', i, p, s.pc) <==> Honoured(s, i, t, p, l0))
  {
    hide InsnAt, GoesTo, LoadWord, CondPasses, Reaches, Exec, Slot, Wrap, Restores, FlagsStay, SumAt, Trampolined;
    t' := AddRegRunsIff(isa, s, i, t, l0, Literal(i, p, l0), p);
  }

  /** Every form of trampoline does what the instruction it replaces does at `p`: the registers,
      the flags and the place control goes to are the same, a failed condition skips it, and
      memory changes at most in the two words below the stack pointer that it borrows.  When the
      instruction is not skipped, this is so exactly if the state meets `Honoured`. */
  lemma TrampolineFaithfulIff(isa: Decoder, s: Cpu, i: Insn, t: RegNo, p: Word, l0: Word) returns (t': Cpu)
    requires Ready(isa, s, i, t, p, l0) && Supported(i, t) && StackClear(s, i, p, l0)
    ensures Reaches(isa, s, t')
    ensures Faithful(s, t', i, p, s.pc) <==> (CondPasses(s, i.cond) ==> Honoured(s, i, t, p, l0))
  {
    hide Installed, CondPasses, Reaches, Faithful, StackClear, Wrap, Restores, FlagsStay, SumAt, Trampolined, OperandAt;
    if !CondPasses(s, i.cond) {
      t' := Skipped(isa, s, i, t, p, l0);
    } else {
      match FormOf(i)
      case LdrImmForm => t' := LdrImmFaithfulIff(isa, s, i, t, p, l0);
      case AddImmForm => t' := AddImmFaithful(isa, s, i, t, p, l0);
      case DispatchForm => t' := DispatchFaithfulIff(isa, s, i, t, p, l0);
      case AddRegForm => t' := AddRegFaithfulIff(isa, s, i, t, p, l0);
      case _ => t' := SpillFaithfulIff(isa, s, i, t, p, l0);
    }
  }

  /** Where an instruction without a relocation object believes itself: at its original address. */
  lemma NoObjectKeepsAddress(i: Insn, orig: Word, r: Reloc)
    requires r.wrt.NoObject? && (FormOf(i) == LdrImmForm || r.addend == 0)
    ensures EffectivePc(i, orig, r) == orig
  {
  }

  /** A load with an immediate offset and a relocation object reads at the original address, plus where
      the object is, plus the addend: its own displacement does not count. */
  lemma ObjectLoadReads(i: Insn, orig: Word, r: Reloc, s: Cpu)
    requires (FormOf(i) == LdrImmForm || FormOf(i) == VldrForm) && !r.wrt.NoObject?
    ensures var there :=
            match r.wrt case NoObject => 0 case Scoop(start) => start case Instruction(location) => location;
            AccessAt(i, s, EffectivePc(i, orig, r)) == Wrap(orig + there + r.addend)
  {
    var d, sum := Displacement(i), orig + ToAddr(r) + r.addend;
    WrapLess(sum, 8 + d);
    OffsetBack(Wrap(sum), d, if i.VLoad? then i.imm else i.op2.imm, i.up);
  }

  lemma WrapLess(x: int, y: int)
    ensures Wrap(Wrap(x) - y) == Wrap(x - y)
  {
    ModTwice(x, 0 - y, TWO_32);
  }

  /** In every other case the instruction believes itself at its original address, plus where the
      object is, plus the addend. */
  lemma OthersMoveAlong(i: Insn, orig: Word, r: Reloc)
    requires FormOf(i) != LdrImmForm && (FormOf(i) == VldrForm ==> r.wrt.NoObject?)
    ensures var there :=
            match r.wrt case NoObject => 0 case Scoop(start) => start case Instruction(location) => location;
            EffectivePc(i, orig, r) == Wrap(orig + there + r.addend)
  {
  }

  /** A load whose relocation names a scoop, with minus the original address as its addend,
      reads the start of the scoop, wherever the scoop has gone. */
  lemma LoadHitsScoop(i: Insn, orig: Word, start: Word, s: Cpu)
    requires FormOf(i) == LdrImmForm || FormOf(i) == VldrForm
    ensures var p := EffectivePc(i, orig, Reloc(Scoop(start), Wrap(0 - orig)));
            AccessAt(i, s, p) == start
  {
    hide EffectivePc, AccessAt;
    ObjectLoadReads(i, orig, Reloc(Scoop(start), Wrap(0 - orig)), s);
    ScoopSum(orig, start);
  }

  lemma ScoopSum(orig: Word, start: Word)
    ensures Wrap(orig + start + Wrap(0 - orig)) == start
  {
  }

  lemma OffsetBack(start: Word, d: int, imm: Word, up: bool)
    requires d == if up then imm else 0 - imm
    ensures Offset(Wrap(Wrap(start - 8 - d) + 8), up, imm) == start
  {
  }
}
