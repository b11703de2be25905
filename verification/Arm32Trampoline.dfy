/** What a trampoline written by the ARM32 unpinning plugin has to look like in memory, and
    the proof that running it is the same as running the instruction it replaces. */
module Arm32Trampoline {
  import opened A32Machine

  /** The object a relocation is relative to, at its final address. */
  datatype Wrt = NoObject | Scoop(start: Word) | Instruction(location: Word)

  datatype Reloc = Reloc(wrt: Wrt, addend: Word)

  function ToAddr(r: Reloc): Word {
    match r.wrt
    case NoObject => 0
    case Scoop(start) => start
    case Instruction(location) => location
  }

  /** The shapes of trampoline the plugin knows, one per branch of its dispatch. */
  datatype Form = VldrForm | LdrImmForm | LdrRegForm | DispatchForm | AddImmForm | AddRegForm | NotPatched

  /** `ldrls`, `addne` or `addls` with the program counter as destination and base. */
  predicate IsPcDispatch(i: Insn) {
    && ((i.LoadReg? && !i.byte && i.cond == 9) || (i.Add? && !i.s && (i.cond == 1 || i.cond == 9)))
    && i.rd == PC && i.rn == PC
  }

  function FormOf(i: Insn): Form {
    if i.VLoad? then VldrForm
    else if i.LoadReg? && i.rd != PC && i.op2.Immediate? then LdrImmForm
    else if i.LoadReg? && i.rd != PC && !i.op2.Immediate? then LdrRegForm
    else if IsPcDispatch(i) then DispatchForm
    else if i.Add? && i.op2.Immediate? then AddImmForm
    else if i.Add? && !i.op2.Immediate? then AddRegForm
    else NotPatched
  }

  /** Which instructions get a trampoline, and of which shape: every vldr; every load and add, except
      that with the program counter as destination and base it must be `ldrls`, `addne` or `addls` to be
      dispatched, and that no other load may have it as destination. */
  lemma FormIs(i: Insn)
    ensures FormOf(i) == VldrForm <==> i.VLoad?
    ensures FormOf(i) == LdrImmForm <==> i.LoadReg? && i.rd != 15 && i.op2.Immediate?
    ensures FormOf(i) == LdrRegForm <==> i.LoadReg? && i.rd != 15 && !i.op2.Immediate?
    ensures FormOf(i) == DispatchForm <==>
            (i.LoadReg? && !i.byte && i.cond == 9 && i.rd == 15 && i.rn == 15)
            || (i.Add? && !i.s && (i.cond == 1 || i.cond == 9) && i.rd == 15 && i.rn == 15)
    ensures i.Add? && FormOf(i) != DispatchForm ==> FormOf(i) == if i.op2.Immediate? then AddImmForm else AddRegForm
    ensures FormOf(i) == AddImmForm || FormOf(i) == AddRegForm ==> i.Add?
  {
  }

  /** Instructions, literal word included, times four. */
  function SizeOf(f: Form): Word {
    match f
    case LdrImmForm => 16
    case AddImmForm => 16
    case DispatchForm => 32
    case _ => 28
  }

  /** The signed displacement of a load with an immediate offset. */
  function Displacement(i: Insn): int
    requires FormOf(i) == LdrImmForm || FormOf(i) == VldrForm
  {
    var d: int := if i.VLoad? then i.imm else i.op2.imm;
    if i.up then d else -d
  }

  /** The address the instruction should believe it is at: its original address, adjusted by
      the relocation.  A load with an immediate offset and a relocation object is made to hit
      `original address + object + addend` instead. */
  function EffectivePc(i: Insn, orig: Word, r: Reloc): Word {
    match FormOf(i)
    case LdrImmForm => if r.wrt.NoObject? then orig else Wrap(orig + ToAddr(r) + r.addend - 8 - Displacement(i))
    case VldrForm =>
      if r.wrt.NoObject? then Wrap(orig + r.addend) else Wrap(orig + ToAddr(r) + r.addend - 8 - Displacement(i))
    case _ => Wrap(orig + ToAddr(r) + r.addend)
  }

  /** The word a trampoline at `l0` keeps, so that the program counter it adds to it cancels. */
  function Literal(i: Insn, p: Word, l0: Word): Word {
    match FormOf(i)
    case LdrImmForm => Wrap(p + 8 + Displacement(i) - (l0 + 12))
    case AddImmForm => Wrap(p + 8 + i.op2.imm - (l0 + 12))
    case AddRegForm => Wrap(p - (l0 + 4))
    case _ => Wrap(p - (l0 + 8))
  }

  // ----- layouts

  predicate GoesTo(isa: Decoder, m: Memory, at: int, cond: nat, to: int) {
    var i := InsnAt(isa, m, at);
    i.Branch? && i.cond == cond && Wrap(at + 8 + i.offset) == to
  }

  function LoadLiteral(t: RegNo, offset: Word): Insn {
    LoadReg(AL, false, true, PC, t, Immediate(offset))
  }

  function Spill(t: RegNo, slot: Word): Insn { StoreReg(AL, false, false, SP, t, Immediate(slot)) }
  function Restore(t: RegNo, slot: Word): Insn { LoadReg(AL, false, false, SP, t, Immediate(slot)) }
  function AddPc(t: RegNo): Insn { Add(AL, false, PC, t, ShiftedByImm(t, 0, 0)) }

  /** `ldr rd, =k; ldr rd, [pc, rd]` or `ldr rd, =k; add rd, pc, rd`. */
  predicate ShortLayout(isa: Decoder, m: Memory, cond: nat, rd: RegNo, body: Insn, fa: Word, l0: Word, k: Word) {
    && GoesTo(isa, m, fa, cond, l0)
    && InsnAt(isa, m, l0) == LoadLiteral(rd, 4)
    && InsnAt(isa, m, l0 + 4) == body
    && GoesTo(isa, m, l0 + 8, AL, fa + 4)
    && LoadWord(m, l0 + 12) == k
  }

  /** Spill `t`, set it to `l0 + 16 + k`, run `body`, restore `t`. */
  predicate SpillLayout(isa: Decoder, m: Memory, cond: nat, t: RegNo, body: Insn, fa: Word, l0: Word, k: Word) {
    && GoesTo(isa, m, fa, cond, l0)
    && InsnAt(isa, m, l0) == Spill(t, 0xfc)
    && InsnAt(isa, m, l0 + 4) == LoadLiteral(t, 12)
    && InsnAt(isa, m, l0 + 8) == AddPc(t)
    && InsnAt(isa, m, l0 + 12) == body
    && InsnAt(isa, m, l0 + 16) == Restore(t, 0xfc)
    && GoesTo(isa, m, l0 + 20, AL, fa + 4)
    && LoadWord(m, l0 + 24) == k
  }

  /** As above, with the result of `body` left in `t` and jumped to through the stack. */
  predicate DispatchLayout(isa: Decoder, m: Memory, cond: nat, t: RegNo, body: Insn, fa: Word, l0: Word, k: Word) {
    && GoesTo(isa, m, fa, cond, l0)
    && InsnAt(isa, m, l0) == Spill(t, 0xfc)
    && InsnAt(isa, m, l0 + 4) == LoadLiteral(t, 16)
    && InsnAt(isa, m, l0 + 8) == AddPc(t)
    && InsnAt(isa, m, l0 + 12) == body
    && InsnAt(isa, m, l0 + 16) == Spill(t, 0xf8)
    && InsnAt(isa, m, l0 + 20) == Restore(t, 0xfc)
    && InsnAt(isa, m, l0 + 24) == Restore(PC, 0xf8)
    && LoadWord(m, l0 + 28) == k
  }

  /** Spill `t`, run `body` where it is, then add `k` to `rd`. */
  predicate AddLayout(isa: Decoder, m: Memory, cond: nat, t: RegNo, rd: RegNo, body: Insn, fa: Word, l0: Word,
                      k: Word) {
    && GoesTo(isa, m, fa, cond, l0)
    && InsnAt(isa, m, l0) == Spill(t, 0xfc)
    && InsnAt(isa, m, l0 + 4) == body
    && InsnAt(isa, m, l0 + 8) == LoadLiteral(t, 8)
    && InsnAt(isa, m, l0 + 12) == Add(AL, false, t, rd, ShiftedByImm(rd, 0, 0))
    && InsnAt(isa, m, l0 + 16) == Restore(t, 0xfc)
    && GoesTo(isa, m, l0 + 20, AL, fa + 4)
    && LoadWord(m, l0 + 24) == k
  }

  // ----- what runs promise

  /** The state after the replaced instruction, except that control is at `pc` and that memory
      may differ. */
  ghost predicate Agrees(t: Cpu, o: Cpu, pc: Word) {
    && (forall k: RegNo {:trigger t.r(k)} :: t.r(k) == o.r(k))
    && (forall k: RegNo {:trigger t.f(k)} :: t.f(k) == o.f(k))
    && t.n == o.n && t.z == o.z && t.c == o.c && t.v == o.v
    && t.thumb == o.thumb && t.pc == pc
  }

  function Slot(s: Cpu, below: Word): Word { Wrap(s.r(SP) - below) }

  /** The stack word at `a` does not overlap the `n` bytes at `l0`. */
  predicate Clear(a: int, l0: int, n: int) { a + 4 <= l0 || l0 + n <= a }

  ghost predicate SameCode(m: Memory, t: Memory, l0: int, n: int) {
    forall a :: l0 <= a < l0 + n ==> At(t, a) == At(m, a)
  }

  /** Nothing changed but the words at `a` and `b`. */
  ghost predicate OnlyAt(m: Memory, t: Memory, a: int, b: int) {
    forall x :: !(a <= x < a + 4) && !(b <= x < b + 4) ==> At(t, x) == At(m, x)
  }

  ghost predicate Reaches(isa: Decoder, s: Cpu, t: Cpu) {
    exists k: nat :: Run(isa, s, k) == t
  }

  lemma {:induction false} RunMore(isa: Decoder, s: Cpu, k: nat)
    ensures Run(isa, s, k + 1) == Step(isa, Run(isa, s, k))
    decreases k
  {
    hide Step;
    if k > 0 {
      RunMore(isa, Step(isa, s), k - 1);
    }
  }

  lemma ReachesSelf(isa: Decoder, s: Cpu)
    ensures Reaches(isa, s, s)
  {
    hide Step;
    assert Run(isa, s, 0) == s;
  }

  lemma ReachesNext(isa: Decoder, s: Cpu, t: Cpu)
    requires Reaches(isa, s, t)
    ensures Reaches(isa, s, Step(isa, t))
  {
    hide Step;
    var k: nat :| Run(isa, s, k) == t;
    RunMore(isa, s, k);
  }

  // ----- single steps

  lemma AlwaysPasses(s: Cpu)
    ensures CondPasses(s, AL)
  {
  }

  lemma PlainRegister(s: Cpu, rm: RegNo)
    ensures EvalOp2(s, ShiftedByImm(rm, 0, 0)) == Reg(s, rm)
  {
  }

  lemma StepBranch(isa: Decoder, s: Cpu, cond: nat, to: Word)
    requires !s.thumb && GoesTo(isa, s.mem, s.pc, cond, to)
    ensures Step(isa, s) == if CondPasses(s, cond) then s.(pc := to) else Next(s)
  {
    hide CondPasses;
  }

  lemma StepGoto(isa: Decoder, s: Cpu, to: Word)
    requires !s.thumb && GoesTo(isa, s.mem, s.pc, AL, to)
    ensures Step(isa, s) == s.(pc := to)
  {
    hide CondPasses;
    AlwaysPasses(s);
    StepBranch(isa, s, AL, to);
  }

  lemma StepLoad(isa: Decoder, s: Cpu, rn: RegNo, rd: RegNo, up: bool, op2: Operand2)
    requires !s.thumb && InsnAt(isa, s.mem, s.pc) == LoadReg(AL, false, up, rn, rd, op2)
    ensures Step(isa, s) == SetReg(s, rd, LoadWord(s.mem, Address(s, up, rn, op2)))
  {
    hide LoadWord, Address, SetReg;
  }

  lemma StepLoadLiteral(isa: Decoder, s: Cpu, rd: RegNo, offset: Word)
    requires !s.thumb && InsnAt(isa, s.mem, s.pc) == LoadLiteral(rd, offset) && rd != PC
    requires s.pc + 8 + offset < TWO_32
    ensures Step(isa, s) == s.(pc := s.pc + 4, r := Update(s.r, rd, LoadWord(s.mem, s.pc + 8 + offset)))
  {
    hide LoadWord, InsnAt;
    StepLoad(isa, s, PC, rd, true, Immediate(offset));
  }

  lemma StepAdd(isa: Decoder, s: Cpu, rn: RegNo, rd: RegNo, rm: RegNo)
    requires !s.thumb && InsnAt(isa, s.mem, s.pc) == Add(AL, false, rn, rd, ShiftedByImm(rm, 0, 0))
    requires rd != PC && s.pc + 4 < TWO_32
    ensures Step(isa, s) == s.(pc := s.pc + 4, r := Update(s.r, rd, Wrap(Reg(s, rn) + Reg(s, rm))))
  {
    hide EvalOp2;
    PlainRegister(s, rm);
  }

  lemma StepSpill(isa: Decoder, s: Cpu, t: RegNo, slot: Word)
    requires !s.thumb && InsnAt(isa, s.mem, s.pc) == Spill(t, slot) && t != PC
    requires s.pc + 4 < TWO_32
    ensures Step(isa, s) == s.(pc := s.pc + 4, mem := StoreWord(s.mem, Slot(s, slot), s.r(t)))
  {
    hide StoreWord, Fetch;
  }

  lemma StepRestore(isa: Decoder, s: Cpu, t: RegNo, slot: Word)
    requires !s.thumb && InsnAt(isa, s.mem, s.pc) == Restore(t, slot)
    ensures Step(isa, s) == SetReg(s, t, LoadWord(s.mem, Slot(s, slot)))
  {
    hide LoadWord, InsnAt, SetReg;
    StepLoad(isa, s, SP, t, false, Immediate(slot));
  }

  lemma CodeAfterStore(m: Memory, slot: Word, x: Word, l0: int, n: int)
    requires Clear(slot, l0, n)
    ensures SameCode(m, StoreWord(m, slot, x), l0, n)
    ensures OnlyAt(m, StoreWord(m, slot, x), slot, slot)
  {
  }

  lemma SameInsn(isa: Decoder, m: Memory, t: Memory, l0: int, n: int, a: int)
    requires SameCode(m, t, l0, n) && l0 <= a && a + 4 <= l0 + n
    ensures InsnAt(isa, t, a) == InsnAt(isa, m, a) && LoadWord(t, a) == LoadWord(m, a)
  {
    assert At(t, a) == At(m, a) && At(t, a + 1) == At(m, a + 1) && At(t, a + 2) == At(m, a + 2)
           && At(t, a + 3) == At(m, a + 3);
  }

  // ----- the short trampolines

  lemma ShortPrologue(isa: Decoder, s: Cpu, cond: nat, rd: RegNo, body: Insn, l0: Word, k: Word) returns (t: Cpu)
    requires !s.thumb && s.pc + 4 < TWO_32 && l0 + 16 < TWO_32 && rd != PC
    requires ShortLayout(isa, s.mem, cond, rd, body, s.pc, l0, k) && CondPasses(s, cond)
    ensures Reaches(isa, s, t) && t == s.(pc := l0 + 4, r := Update(s.r, rd, k))
  {
    hide InsnAt, GoesTo, Step, LoadWord, CondPasses, Reaches;
    ReachesSelf(isa, s);
    StepBranch(isa, s, cond, l0);
    ReachesNext(isa, s, s);
    t := Step(isa, s);
    StepLoadLiteral(isa, t, rd, 4);
    ReachesNext(isa, s, t);
    t := Step(isa, t);
  }

  lemma ShortEpilogue(isa: Decoder, s: Cpu, u: Cpu, to: Word) returns (t: Cpu)
    requires Reaches(isa, s, u) && !u.thumb && GoesTo(isa, u.mem, u.pc, AL, to)
    ensures Reaches(isa, s, t) && t == u.(pc := to)
  {
    hide GoesTo, Step, Reaches;
    StepGoto(isa, u, to);
    ReachesNext(isa, s, u);
    t := Step(isa, u);
  }

  lemma SkipsWhenCondFails(isa: Decoder, s: Cpu, cond: nat, l0: Word)
    requires !s.thumb && s.pc + 4 < TWO_32
    requires GoesTo(isa, s.mem, s.pc, cond, l0) && !CondPasses(s, cond)
    ensures Reaches(isa, s, s.(pc := s.pc + 4))
  {
    hide GoesTo, Step, Reaches, CondPasses;
    ReachesSelf(isa, s);
    StepBranch(isa, s, cond, l0);
    ReachesNext(isa, s, s);
  }

  /** The load: always a word, whatever the size of the load it replaces. */
  lemma LdrImmRuns(isa: Decoder, s: Cpu, cond: nat, rd: RegNo, l0: Word, k: Word) returns (t: Cpu)
    requires !s.thumb && s.pc + 4 < TWO_32 && l0 + 16 < TWO_32 && rd != PC && CondPasses(s, cond)
    requires ShortLayout(isa, s.mem, cond, rd, LoadReg(AL, false, true, PC, rd, ShiftedByImm(rd, 0, 0)), s.pc, l0, k)
    ensures Reaches(isa, s, t) && t.mem == s.mem
    ensures Agrees(t, SetReg(s, rd, LoadWord(s.mem, Wrap(l0 + 12 + k))), s.pc + 4)
  {
    hide InsnAt, GoesTo, Step, LoadWord, CondPasses, Reaches, EvalOp2;
    var body := LoadReg(AL, false, true, PC, rd, ShiftedByImm(rd, 0, 0));
    t := ShortPrologue(isa, s, cond, rd, body, l0, k);
    StepLoad(isa, t, PC, rd, true, ShiftedByImm(rd, 0, 0));
    PlainRegister(t, rd);
    ReachesNext(isa, s, t);
    t := Step(isa, t);
    t := ShortEpilogue(isa, s, t, s.pc + 4);
  }

  lemma AddImmRuns(isa: Decoder, s: Cpu, cond: nat, rd: RegNo, l0: Word, k: Word) returns (t: Cpu)
    requires !s.thumb && s.pc + 4 < TWO_32 && l0 + 16 < TWO_32 && rd != PC && CondPasses(s, cond)
    requires ShortLayout(isa, s.mem, cond, rd, AddPc(rd), s.pc, l0, k)
    ensures Reaches(isa, s, t) && t.mem == s.mem
    ensures Agrees(t, SetReg(s, rd, Wrap(l0 + 12 + k)), s.pc + 4)
  {
    hide InsnAt, GoesTo, Step, LoadWord, CondPasses, Reaches, EvalOp2;
    t := ShortPrologue(isa, s, cond, rd, AddPc(rd), l0, k);
    StepAdd(isa, t, PC, rd, rd);
    ReachesNext(isa, s, t);
    t := Step(isa, t);
    t := ShortEpilogue(isa, s, t, s.pc + 4);
  }

  // ----- the trampolines that borrow a register

  /** The borrowed register `t` is spilled and holds `base`; all else is as in `s`. */
  ghost predicate Borrowed(s: Cpu, u: Cpu, t: RegNo, base: Word, pc: Word) {
    && u.pc == pc && u.r(t) == base
    && (forall k: RegNo {:trigger u.r(k)} :: k != t ==> u.r(k) == s.r(k))
    && u.mem == StoreWord(s.mem, Slot(s, 0xfc), s.r(t))
    && u.f == s.f && u.thumb == s.thumb
    && u.n == s.n && u.z == s.z && u.c == s.c && u.v == s.v
  }

  lemma BorrowStart(isa: Decoder, s: Cpu, cond: nat, t: RegNo, l0: Word) returns (u: Cpu)
    requires !s.thumb && s.pc + 4 < TWO_32 && l0 + 4 < TWO_32 && t < 13 && CondPasses(s, cond)
    requires GoesTo(isa, s.mem, s.pc, cond, l0) && InsnAt(isa, s.mem, l0) == Spill(t, 0xfc)
    ensures Reaches(isa, s, u) && Borrowed(s, u, t, s.r(t), l0 + 4)
  {
    hide InsnAt, GoesTo, Step, CondPasses, Reaches, StoreWord;
    ReachesSelf(isa, s);
    StepBranch(isa, s, cond, l0);
    ReachesNext(isa, s, s);
    u := Step(isa, s);
    StepSpill(isa, u, t, 0xfc);
    ReachesNext(isa, s, u);
    u := Step(isa, u);
  }

  /** Setting the borrowed register keeps it borrowed. */
  lemma BorrowLiteral(isa: Decoder, s: Cpu, u: Cpu, t: RegNo, base: Word, offset: Word) returns (u': Cpu)
    requires Reaches(isa, s, u) && Borrowed(s, u, t, base, u.pc) && !s.thumb && t < 13
    requires InsnAt(isa, u.mem, u.pc) == LoadLiteral(t, offset) && u.pc + 8 + offset < TWO_32
    ensures Reaches(isa, s, u')
    ensures u.pc + 4 < TWO_32 && Borrowed(s, u', t, LoadWord(u.mem, u.pc + 8 + offset), u.pc + 4)
  {
    hide InsnAt, Step, Reaches, StoreWord, LoadWord;
    StepLoadLiteral(isa, u, t, offset);
    ReachesNext(isa, s, u);
    u' := Step(isa, u);
  }

  lemma BorrowAddPc(isa: Decoder, s: Cpu, u: Cpu, t: RegNo, base: Word) returns (u': Cpu)
    requires Reaches(isa, s, u) && Borrowed(s, u, t, base, u.pc) && !s.thumb && t < 13
    requires InsnAt(isa, u.mem, u.pc) == AddPc(t) && u.pc + 8 < TWO_32
    ensures Reaches(isa, s, u') && Borrowed(s, u', t, Wrap(u.pc + 8 + base), u.pc + 4)
  {
    hide InsnAt, Step, Reaches, StoreWord, EvalOp2;
    StepAdd(isa, u, PC, t, t);
    ReachesNext(isa, s, u);
    u' := Step(isa, u);
  }

  /** Spill, load the literal, add the program counter: `n` is the size of the trampoline. */
  lemma BorrowPrologue(isa: Decoder, s: Cpu, cond: nat, t: RegNo, l0: Word, n: Word, k: Word) returns (u: Cpu)
    requires !s.thumb && s.pc + 4 < TWO_32 && 28 <= n && l0 + n < TWO_32 && t < 13 && CondPasses(s, cond)
    requires Clear(Slot(s, 0xfc), l0, n)
    requires GoesTo(isa, s.mem, s.pc, cond, l0) && InsnAt(isa, s.mem, l0) == Spill(t, 0xfc)
    requires InsnAt(isa, s.mem, l0 + 4) == LoadLiteral(t, n - 16) && InsnAt(isa, s.mem, l0 + 8) == AddPc(t)
    requires LoadWord(s.mem, l0 + n - 4) == k
    ensures Reaches(isa, s, u) && Borrowed(s, u, t, Wrap(l0 + 16 + k), l0 + 12)
    ensures SameCode(s.mem, u.mem, l0, n)
  {
    hide InsnAt, GoesTo, CondPasses, Reaches, StoreWord, LoadWord, SameCode, OnlyAt;
    u := BorrowStart(isa, s, cond, t, l0);
    CodeAfterStore(s.mem, Slot(s, 0xfc), s.r(t), l0, n);
    SameInsn(isa, s.mem, u.mem, l0, n, l0 + 4);
    SameInsn(isa, s.mem, u.mem, l0, n, l0 + 8);
    SameInsn(isa, s.mem, u.mem, l0, n, l0 + n - 4);
    u := BorrowLiteral(isa, s, u, t, s.r(t), n - 16);
    u := BorrowAddPc(isa, s, u, t, k);
  }

  /** Restoring the borrowed register from its slot gives back its value, provided the stack
      pointer is what it was. */
  lemma BorrowReturn(isa: Decoder, s: Cpu, u: Cpu, o: Cpu, t: RegNo, fa: Word) returns (u': Cpu)
    requires Reaches(isa, s, u) && !u.thumb && t < 13 && u.pc + 8 < TWO_32
    requires InsnAt(isa, u.mem, u.pc) == Restore(t, 0xfc) && GoesTo(isa, u.mem, u.pc + 4, AL, fa)
    requires u.r(SP) == s.r(SP) && LoadWord(u.mem, Slot(s, 0xfc)) == o.r(t)
    requires forall k: RegNo {:trigger u.r(k)} :: k != t ==> u.r(k) == o.r(k)
    requires u.f == o.f && u.n == o.n && u.z == o.z && u.c == o.c && u.v == o.v && u.thumb == o.thumb
    ensures Reaches(isa, s, u') && Agrees(u', o, fa) && u'.mem == u.mem
  {
    hide InsnAt, GoesTo, Step, Reaches, LoadWord;
    StepRestore(isa, u, t, 0xfc);
    ReachesNext(isa, s, u);
    u' := Step(isa, u);
    u' := ShortEpilogue(isa, s, u', fa);
  }

  // ----- the rebased instruction

  predicate ReadsPc(op2: Operand2) {
    match op2
    case Immediate(_) => false
    case ShiftedByImm(rm, _, _) => rm == PC
    case ShiftedByReg(rm, _, rs) => rm == PC || rs == PC
  }

  predicate Reads(op2: Operand2, t: RegNo) {
    match op2
    case Immediate(_) => false
    case ShiftedByImm(rm, _, _) => rm == t
    case ShiftedByReg(rm, _, rs) => rm == t || rs == t
  }

  lemma SameOperand(s: Cpu, u: Cpu, op2: Operand2, t: RegNo)
    requires !ReadsPc(op2) && !Reads(op2, t) && u.c == s.c
    requires forall k: RegNo {:trigger u.r(k)} :: k != t ==> u.r(k) == s.r(k)
    ensures EvalOp2(u, op2) == EvalOp2(s, op2)
  {
    hide ShiftValue, Wrap;
  }

  /** The second operand of `i`, executed at `q`. */
  function OperandAt(i: Insn, s: Cpu, q: Word): Word
    requires i.LoadReg? || i.Add?
  {
    EvalOp2(s.(pc := q), i.op2)
  }

  /** The borrowed register does not matter to an operand that does not name it. */
  lemma SameOperandAt(s: Cpu, u: Cpu, op2: Operand2, t: RegNo)
    requires !Reads(op2, t) && t != PC && u.c == s.c && u.pc == s.pc
    requires forall k: RegNo {:trigger u.r(k)} :: k != t ==> u.r(k) == s.r(k)
    ensures EvalOp2(u, op2) == EvalOp2(s, op2)
  {
    hide ShiftValue, Wrap;
  }

  /** How many bytes of memory a load reads. */
  function AccessSize(i: Insn): nat
    requires i.LoadReg? || i.VLoad?
  {
    if i.LoadReg? then (if i.byte then 1 else 4) else if i.double then 8 else 4
  }

  /** The address a pc-relative load reads when it is executed at `p`. */
  function AccessAt(i: Insn, s: Cpu, p: Word): Word
    requires i.LoadReg? || i.VLoad?
  {
    Address(s.(pc := p), i.up, PC, if i.LoadReg? then i.op2 else Immediate(i.imm))
  }

  predicate RebasableLoad(i: Insn, t: RegNo) {
    && (i.LoadReg? || i.VLoad?) && i.rn == PC && t < 13
    && (i.LoadReg? ==> i.rd < PC && i.rd != t && !ReadsPc(i.op2) && !Reads(i.op2, t))
  }

  lemma SameLoaded(m: Memory, slot: Word, x: Word, a: Word, n: nat)
    requires a + n <= slot || slot + 4 <= a
    ensures n == 1 ==> At(StoreWord(m, slot, x), a) == At(m, a)
    ensures n >= 4 ==> LoadWord(StoreWord(m, slot, x), a) == LoadWord(m, a)
    ensures n >= 8 ==> LoadWord(StoreWord(m, slot, x), a + 4) == LoadWord(m, a + 4)
  {
    hide LoadWord;
    if n >= 4 { LoadElsewhere(m, slot, x, a); }
    if n >= 8 { LoadElsewhere(m, slot, x, a + 4); }
  }

  /** The instruction with another base register and condition. */
  function Rebase(i: Insn, t: RegNo, cond: nat): Insn {
    match i
    case LoadReg(_, byte, up, _, rd, op2) => LoadReg(cond, byte, up, t, rd, op2)
    case Add(_, flags, _, rd, op2) => Add(cond, flags, t, rd, op2)
    case VLoad(_, double, up, _, vd, imm) => VLoad(cond, double, up, t, vd, imm)
    case _ => i
  }

  /** `u'` is `o`, but for the borrowed register, memory and the program counter. */
  ghost predicate SameBut(u': Cpu, o: Cpu, t: RegNo) {
    && (forall k: RegNo {:trigger u'.r(k)} :: k != t ==> u'.r(k) == o.r(k))
    && u'.f == o.f && u'.n == o.n && u'.z == o.z && u'.c == o.c && u'.v == o.v && u'.thumb == o.thumb
  }

  lemma SameAddress(s: Cpu, u: Cpu, i: Insn, t: RegNo, p: Word)
    requires RebasableLoad(i, t) && Borrowed(s, u, t, Wrap(p + 8), u.pc)
    ensures Address(u, i.up, t, if i.LoadReg? then i.op2 else Immediate(i.imm)) == AccessAt(i, s, p)
  {
    hide EvalOp2, StoreWord;
    SameOperand(s.(pc := p), u, if i.LoadReg? then i.op2 else Immediate(i.imm), t);
  }

  lemma RebasedInteger(s: Cpu, u: Cpu, i: Insn, cond: nat, t: RegNo, p: Word)
    requires i.LoadReg?
    requires RebasableLoad(i, t) && CondPasses(s, i.cond) && CondPasses(u, cond)
    requires Borrowed(s, u, t, Wrap(p + 8), u.pc)
    requires AccessAt(i, s, p) + AccessSize(i) <= Slot(s, 0xfc) || Slot(s, 0xfc) + 4 <= AccessAt(i, s, p)
    ensures var o, u' := Exec(i, s.(pc := p)), Exec(Rebase(i, t, cond), u);
            SameBut(u', o, t) && o.r(t) == s.r(t) && u'.mem == u.mem && u'.pc == Wrap(u.pc + 4)
  {
    hide EvalOp2, StoreWord, LoadWord, CondPasses, Address, Slot, Wrap;
    SameCond(s, s.(pc := p), i.cond);
    SameAddress(s, u, i, t, p);
    SameLoaded(s.mem, Slot(s, 0xfc), s.r(t), AccessAt(i, s, p), AccessSize(i));
  }

  lemma ExecVload(s: Cpu, i: Insn, a: Word)
    requires i.VLoad? && CondPasses(s, i.cond) && a == Offset(Reg(s, i.rn), i.up, i.imm)
    ensures Exec(i, s) == SetVfp(s, i.double, i.vd, a)
  {
    hide CondPasses, Wrap, SetVfp;
  }

  lemma SameVfp(s: Cpu, u: Cpu, double: bool, vd: RegNo, a: Word)
    requires u.f == s.f && LoadWord(u.mem, a) == LoadWord(s.mem, a)
    requires double ==> LoadWord(u.mem, a + 4) == LoadWord(s.mem, a + 4)
    ensures SetVfp(u, double, vd, a) == Next(u).(f := SetVfp(s, double, vd, a).f)
    ensures SetVfp(s, double, vd, a) == Next(s).(f := SetVfp(s, double, vd, a).f)
  {
    hide LoadWord, Wrap;
  }

  lemma RebasedVector(s: Cpu, u: Cpu, i: Insn, cond: nat, t: RegNo, p: Word)
    requires i.VLoad?
    requires RebasableLoad(i, t) && CondPasses(s, i.cond) && CondPasses(u, cond)
    requires Borrowed(s, u, t, Wrap(p + 8), u.pc)
    requires AccessAt(i, s, p) + AccessSize(i) <= Slot(s, 0xfc) || Slot(s, 0xfc) + 4 <= AccessAt(i, s, p)
    ensures var o, u' := Exec(i, s.(pc := p)), Exec(Rebase(i, t, cond), u);
            SameBut(u', o, t) && o.r(t) == s.r(t) && u'.mem == u.mem && u'.pc == Wrap(u.pc + 4)
  {
    hide EvalOp2, StoreWord, LoadWord, CondPasses, Address, Slot, Wrap, SetVfp, Exec, AccessAt;
    var a := AccessAt(i, s, p);
    SameCond(s, s.(pc := p), i.cond);
    SameLoaded(s.mem, Slot(s, 0xfc), s.r(t), a, AccessSize(i));
    VloadAddress(s, u, i, t, p);
    ExecVload(s.(pc := p), i, a);
    ExecVload(u, Rebase(i, t, cond), a);
    SameVfp(s.(pc := p), u, i.double, i.vd, a);
  }

  /** A pc-relative load at `p` and the same load with the borrowed register as its base do the
      same thing, if the spill slot is not what is being loaded. */
  lemma RebasedLoad(s: Cpu, u: Cpu, i: Insn, cond: nat, t: RegNo, p: Word)
    requires RebasableLoad(i, t) && CondPasses(s, i.cond) && CondPasses(u, cond)
    requires Borrowed(s, u, t, Wrap(p + 8), u.pc)
    requires AccessAt(i, s, p) + AccessSize(i) <= Slot(s, 0xfc) || Slot(s, 0xfc) + 4 <= AccessAt(i, s, p)
    ensures var o, u' := Exec(i, s.(pc := p)), Exec(Rebase(i, t, cond), u);
            SameBut(u', o, t) && o.r(t) == s.r(t) && u'.mem == u.mem && u'.pc == Wrap(u.pc + 4)
  {
    hide Exec, StoreWord, CondPasses, AccessAt, Slot, Wrap, Rebase, SameBut, Borrowed;
    if i.LoadReg? {
      RebasedInteger(s, u, i, cond, t, p);
    } else {
      RebasedVector(s, u, i, cond, t, p);
    }
  }

  lemma SameCond(s: Cpu, u: Cpu, cond: nat)
    requires u.n == s.n && u.z == s.z && u.c == s.c && u.v == s.v
    ensures CondPasses(u, cond) == CondPasses(s, cond)
  {
  }

  lemma VloadAddress(s: Cpu, u: Cpu, i: Insn, t: RegNo, p: Word)
    requires i.VLoad? && RebasableLoad(i, t) && Borrowed(s, u, t, Wrap(p + 8), u.pc)
    ensures Offset(Reg(u, t), i.up, i.imm) == AccessAt(i, s, p) == Offset(Reg(s.(pc := p), PC), i.up, i.imm)
  {
    hide StoreWord;
  }

  /** `vldr` and `ldr` with a register offset: the result is that of the load at `p`. */
  lemma SpillRuns(isa: Decoder, s: Cpu, i: Insn, cond: nat, t: RegNo, l0: Word, k: Word, p: Word) returns (t': Cpu)
    requires !s.thumb && s.pc + 4 < TWO_32 && l0 + 28 < TWO_32
    requires RebasableLoad(i, t) && CondPasses(s, i.cond) && CondPasses(s, cond) && (i.LoadReg? ==> i.rd != SP)
    requires SpillLayout(isa, s.mem, i.cond, t, Rebase(i, t, cond), s.pc, l0, k)
    requires Clear(Slot(s, 0xfc), l0, 28) && Clear(Slot(s, 0xfc), AccessAt(i, s, p), AccessSize(i))
    requires Wrap(p + 8) == Wrap(l0 + 16 + k)
    ensures Reaches(isa, s, t') && Agrees(t', Exec(i, s.(pc := p)), s.pc + 4)
    ensures OnlyAt(s.mem, t'.mem, Slot(s, 0xfc), Slot(s, 0xfc))
  {
    hide InsnAt, GoesTo, Step, CondPasses, Reaches, StoreWord, LoadWord, SameCode, OnlyAt, Exec, EvalOp2;
    var slot := Slot(s, 0xfc);
    var u := BorrowPrologue(isa, s, i.cond, t, l0, 28, k);
    SameInsn(isa, s.mem, u.mem, l0, 28, l0 + 12);
    SameInsn(isa, s.mem, u.mem, l0, 28, l0 + 16);
    SameInsn(isa, s.mem, u.mem, l0, 28, l0 + 20);
    SameCond(s, u, cond);
    RebasedLoad(s, u, i, cond, t, p);
    ReachesExec(isa, s, u, Rebase(i, t, cond));
    CodeAfterStore(s.mem, slot, s.r(t), l0, 28);
    LoadStored(s.mem, slot, s.r(t));
    var v := Exec(Rebase(i, t, cond), u);
    LoadKeepsSp(s, i, t, p);
    GoesToSame(isa, s.mem, v.mem, l0 + 20, AL, s.pc + 4);
    t' := BorrowReturn(isa, s, v, Exec(i, s.(pc := p)), t, s.pc + 4);
  }

  /** After an instruction that sets the stack pointer, the word below the new one is the borrowed
      register's value. */
  predicate Restores(s: Cpu, i: Insn, t: RegNo, p: Word) {
    LoadWord(StoreWord(s.mem, Slot(s, 0xfc), s.r(t)), Wrap(Exec(i, s.(pc := p)).r(SP) - 0xfc)) == s.r(t)
  }

  /** A load into the stack pointer is not survived: the borrowed register is restored from
      below the stack pointer that was just loaded. */
  lemma SpillRunsIntoSp(isa: Decoder, s: Cpu, i: Insn, t: RegNo, l0: Word, k: Word, p: Word) returns (t': Cpu)
    requires !s.thumb && s.pc + 4 < TWO_32 && l0 + 28 < TWO_32
    requires RebasableLoad(i, t) && CondPasses(s, i.cond) && i.LoadReg? && i.rd == SP
    requires SpillLayout(isa, s.mem, i.cond, t, Rebase(i, t, AL), s.pc, l0, k)
    requires Clear(Slot(s, 0xfc), l0, 28) && Clear(Slot(s, 0xfc), AccessAt(i, s, p), AccessSize(i))
    requires Wrap(p + 8) == Wrap(l0 + 16 + k)
    ensures Reaches(isa, s, t') && t'.pc == s.pc + 4 && OnlyAt(s.mem, t'.mem, Slot(s, 0xfc), Slot(s, 0xfc))
    ensures Agrees(t', Exec(i, s.(pc := p)), s.pc + 4) <==> Restores(s, i, t, p)
  {
    hide InsnAt, GoesTo, Step, CondPasses, Reaches, StoreWord, LoadWord, SameCode, OnlyAt, Exec, EvalOp2;
    var u := BorrowPrologue(isa, s, i.cond, t, l0, 28, k);
    SameInsn(isa, s.mem, u.mem, l0, 28, l0 + 12);
    SameInsn(isa, s.mem, u.mem, l0, 28, l0 + 16);
    SameInsn(isa, s.mem, u.mem, l0, 28, l0 + 20);
    AlwaysPasses(u);
    RebasedLoad(s, u, i, AL, t, p);
    ReachesExec(isa, s, u, Rebase(i, t, AL));
    LoadKeepsMode(s, i, t, p);
    CodeAfterStore(s.mem, Slot(s, 0xfc), s.r(t), l0, 28);
    var v := Exec(Rebase(i, t, AL), u);
    GoesToSame(isa, s.mem, v.mem, l0 + 20, AL, s.pc + 4);
    StepRestore(isa, v, t, 0xfc);
    ReachesNext(isa, s, v);
    t' := ShortEpilogue(isa, s, Step(isa, v), s.pc + 4);
    var o := Exec(i, s.(pc := p));
    assert SameBut(v, o, t) && v.r(SP) == o.r(SP);
    assert t'.r(t) == LoadWord(StoreWord(s.mem, Slot(s, 0xfc), s.r(t)), Wrap(o.r(SP) - 0xfc));
    assert o.r(t) == s.r(t);
    assert forall k: RegNo {:trigger t'.r(k)} :: k != t ==> t'.r(k) == o.r(k);
  }

  lemma LoadKeepsMode(s: Cpu, i: Insn, t: RegNo, p: Word)
    requires RebasableLoad(i, t)
    ensures Exec(i, s.(pc := p)).thumb == s.thumb
  {
    hide EvalOp2, LoadWord, CondPasses, Wrap;
  }

  lemma ReachesExec(isa: Decoder, s: Cpu, u: Cpu, i: Insn)
    requires Reaches(isa, s, u) && !u.thumb && InsnAt(isa, u.mem, u.pc) == i
    ensures Reaches(isa, s, Exec(i, u))
  {
    hide Exec, InsnAt, Reaches;
    ReachesNext(isa, s, u);
  }

  lemma LoadKeepsSp(s: Cpu, i: Insn, t: RegNo, p: Word)
    requires RebasableLoad(i, t) && CondPasses(s, i.cond) && (i.LoadReg? ==> i.rd != SP)
    ensures Exec(i, s.(pc := p)).r(SP) == s.r(SP) && Exec(i, s.(pc := p)).thumb == s.thumb
  {
    hide EvalOp2, LoadWord, CondPasses, Wrap;
    SameCond(s, s.(pc := p), i.cond);
  }

  // ----- computed jumps

  predicate RebasableJump(i: Insn, t: RegNo) {
    && t < 13 && !i.Unmodelled? && ((i.LoadReg? && !i.byte) || (i.Add? && !i.s))
    && i.rn == PC && i.rd == PC && !Reads(i.op2, t) && (i.LoadReg? ==> !ReadsPc(i.op2))
  }

  /** The instruction with its base and its destination replaced. */
  function Retarget(i: Insn, t: RegNo): Insn {
    match i
    case LoadReg(_, byte, up, _, _, op2) => LoadReg(AL, byte, up, t, t, op2)
    case Add(_, flags, _, _, op2) => Add(AL, flags, t, t, op2)
    case _ => i
  }

  /** The address a computed jump goes to when its base is that of an instruction at `p`, and its
      operand is evaluated at `q`. */
  function JumpTarget(i: Insn, s: Cpu, p: Word, q: Word): Word
    requires i.LoadReg? || i.Add?
  {
    var base := Wrap(p + 8);
    if i.LoadReg? then LoadWord(s.mem, Offset(base, i.up, OperandAt(i, s, q))) else Wrap(base + OperandAt(i, s, q))
  }

  /** For a jump through memory, the word read does not overlap the word at `a`. */
  predicate JumpClear(i: Insn, s: Cpu, p: Word, a: Word)
    requires i.LoadReg? || i.Add?
  {
    i.LoadReg? ==> Clear(a, Offset(Wrap(p + 8), i.up, EvalOp2(s, i.op2)), 4)
  }

  lemma JumpIsTarget(s: Cpu, i: Insn, t: RegNo, p: Word)
    requires RebasableJump(i, t) && CondPasses(s, i.cond)
    ensures Exec(i, s.(pc := p)) == SetReg(s.(pc := p), PC, JumpTarget(i, s, p, p))
  {
    hide EvalOp2, LoadWord, CondPasses, SetReg, Wrap;
    SameCond(s, s.(pc := p), i.cond);
  }

  lemma RetargetedJump(s: Cpu, u: Cpu, i: Insn, t: RegNo, p: Word)
    requires RebasableJump(i, t) && Borrowed(s, u, t, Wrap(p + 8), u.pc) && u.pc + 4 < TWO_32
    requires JumpClear(i, s, p, Slot(s, 0xfc))
    ensures Exec(Retarget(i, t), u) == u.(pc := u.pc + 4, r := Update(u.r, t, JumpTarget(i, s, p, u.pc)))
  {
    hide EvalOp2, LoadWord, CondPasses, StoreWord, Slot, Wrap;
    AlwaysPasses(u);
    SameOperandAt(s.(pc := u.pc), u, i.op2, t);
    WrapSmall(u.pc + 4);
    if i.LoadReg? {
      SameOperand(s, s.(pc := u.pc), i.op2, t);
      LoadElsewhere(s.mem, Slot(s, 0xfc), s.r(t), Offset(Wrap(p + 8), i.up, EvalOp2(s, i.op2)));
    }
  }

  lemma WrapSmall(x: Word)
    ensures Wrap(x) == x
  {
  }

  /** Two targets are told apart by where they lead. */
  lemma JumpsTo(s: Cpu, t: Cpu, p: Word, x: Word, y: Word)
    requires !s.thumb && Agrees(t, SetReg(s.(pc := p), PC, x), SetReg(s, PC, x).pc)
    ensures Agrees(t, SetReg(s.(pc := p), PC, y), SetReg(s.(pc := p), PC, y).pc) <==> x == y
  {
  }

  lemma SumsDiffer(base: Word, x: Word, y: Word)
    ensures Wrap(base + x) == Wrap(base + y) <==> x == y
  {
  }

  lemma SlotsApart(s: Cpu)
    ensures Apart(Slot(s, 0xfc), Slot(s, 0xf8))
  {
  }

  /** Give the borrowed register back and load the program counter from the stack. */
  lemma JumpThroughStack(isa: Decoder, s: Cpu, v: Cpu, t: RegNo, target: Word, l0: Word) returns (t': Cpu)
    requires Reaches(isa, s, v) && !v.thumb && t < 13 && l0 + 32 < TWO_32 && v.pc == l0 + 20
    requires InsnAt(isa, v.mem, l0 + 20) == Restore(t, 0xfc) && InsnAt(isa, v.mem, l0 + 24) == Restore(PC, 0xf8)
    requires LoadWord(v.mem, Slot(v, 0xf8)) == target
    ensures Reaches(isa, s, t') && t' == SetReg(v.(r := Update(v.r, t, LoadWord(v.mem, Slot(v, 0xfc)))), PC, target)
  {
    hide InsnAt, Step, Reaches, LoadWord;
    StepRestore(isa, v, t, 0xfc);
    ReachesNext(isa, s, v);
    var w := Step(isa, v);
    StepRestore(isa, w, PC, 0xf8);
    ReachesNext(isa, s, w);
    t' := Step(isa, w);
  }

  /** Push the target: both stack words then hold what they are for. */
  lemma PushTarget(isa: Decoder, s: Cpu, u: Cpu, t: RegNo, target: Word, l0: Word) returns (v: Cpu)
    requires Reaches(isa, s, u) && !s.thumb && t < 13 && l0 + 32 < TWO_32 && Borrowed(s, u, t, target, l0 + 16)
    requires InsnAt(isa, u.mem, l0 + 16) == Spill(t, 0xf8) && Clear(Slot(s, 0xf8), l0, 32)
    ensures Reaches(isa, s, v) && v == u.(pc := l0 + 20, mem := StoreWord(u.mem, Slot(s, 0xf8), target))
    ensures InsnAt(isa, v.mem, l0 + 20) == InsnAt(isa, u.mem, l0 + 20)
    ensures InsnAt(isa, v.mem, l0 + 24) == InsnAt(isa, u.mem, l0 + 24)
    ensures LoadWord(v.mem, Slot(s, 0xf8)) == target && LoadWord(v.mem, Slot(s, 0xfc)) == s.r(t)
  {
    hide InsnAt, Step, Reaches, StoreWord, LoadWord, SameCode, OnlyAt, Wrap;
    var m := StoreWord(u.mem, Slot(s, 0xf8), target);
    CodeAfterStore(u.mem, Slot(s, 0xf8), target, l0, 32);
    SameInsn(isa, u.mem, m, l0, 32, l0 + 20);
    SameInsn(isa, u.mem, m, l0, 32, l0 + 24);
    SlotsApart(s);
    LoadStored(s.mem, Slot(s, 0xfc), s.r(t));
    LoadElsewhere(u.mem, Slot(s, 0xf8), target, Slot(s, 0xfc));
    LoadStored(u.mem, Slot(s, 0xf8), target);
    StepSpill(isa, u, t, 0xf8);
    ReachesNext(isa, s, u);
    v := Step(isa, u);
  }

  /** Push the target, give the register back, and load the program counter from the stack. */
  lemma DispatchEpilogue(isa: Decoder, s: Cpu, u: Cpu, t: RegNo, target: Word, l0: Word) returns (t': Cpu)
    requires Reaches(isa, s, u) && !s.thumb && t < 13 && l0 + 32 < TWO_32
    requires Borrowed(s, u, t, target, l0 + 16)
    requires InsnAt(isa, u.mem, l0 + 16) == Spill(t, 0xf8) && InsnAt(isa, u.mem, l0 + 20) == Restore(t, 0xfc)
    requires InsnAt(isa, u.mem, l0 + 24) == Restore(PC, 0xf8)
    requires Clear(Slot(s, 0xf8), l0, 32)
    ensures Reaches(isa, s, t') && t'.mem == StoreWord(u.mem, Slot(s, 0xf8), target)
    ensures forall p: Word :: Agrees(t', SetReg(s.(pc := p), PC, target), SetReg(s, PC, target).pc)
  {
    hide InsnAt, Step, Reaches, StoreWord, LoadWord, Wrap;
    var v := PushTarget(isa, s, u, t, target, l0);
    t' := JumpThroughStack(isa, s, v, t, target, l0);
  }

  /** `ldrls pc`, `addne pc` and `addls pc`: control reaches the address computed with the operand as
      it is in the trampoline. */
  lemma DispatchRuns(isa: Decoder, s: Cpu, i: Insn, t: RegNo, l0: Word, k: Word, p: Word) returns (t': Cpu)
    requires !s.thumb && s.pc + 4 < TWO_32 && l0 + 32 < TWO_32
    requires RebasableJump(i, t) && CondPasses(s, i.cond)
    requires DispatchLayout(isa, s.mem, i.cond, t, Retarget(i, t), s.pc, l0, k)
    requires Clear(Slot(s, 0xfc), l0, 32) && Clear(Slot(s, 0xf8), l0, 32) && JumpClear(i, s, p, Slot(s, 0xfc))
    requires Wrap(p + 8) == Wrap(l0 + 16 + k)
    ensures Reaches(isa, s, t')
    ensures var x := JumpTarget(i, s, p, l0 + 12); Agrees(t', SetReg(s.(pc := p), PC, x), SetReg(s, PC, x).pc)
    ensures OnlyAt(s.mem, t'.mem, Slot(s, 0xfc), Slot(s, 0xf8))
  {
    hide InsnAt, GoesTo, Step, CondPasses, Reaches, StoreWord, LoadWord, SameCode, Exec, EvalOp2, JumpTarget, JumpClear;
    var u := BorrowPrologue(isa, s, i.cond, t, l0, 32, k);
    SameInsn(isa, s.mem, u.mem, l0, 32, l0 + 12);
    SameInsn(isa, s.mem, u.mem, l0, 32, l0 + 16);
    SameInsn(isa, s.mem, u.mem, l0, 32, l0 + 20);
    SameInsn(isa, s.mem, u.mem, l0, 32, l0 + 24);
    RetargetedJump(s, u, i, t, p);
    ReachesExec(isa, s, u, Retarget(i, t));
    var target := JumpTarget(i, s, p, l0 + 12);
    var v := Exec(Retarget(i, t), u);
    CodeAfterStore(s.mem, Slot(s, 0xfc), s.r(t), l0, 32);
    CodeAfterStore(v.mem, Slot(s, 0xf8), target, l0, 32);
    t' := DispatchEpilogue(isa, s, v, t, target, l0);
  }

  /** So the jump is right exactly if the operand is the same there; for a load, which cannot have
      the program counter as its index, it always is. */
  lemma DispatchRunsIff(isa: Decoder, s: Cpu, i: Insn, t: RegNo, l0: Word, k: Word, p: Word) returns (t': Cpu)
    requires !s.thumb && s.pc + 4 < TWO_32 && l0 + 32 < TWO_32
    requires RebasableJump(i, t) && CondPasses(s, i.cond)
    requires DispatchLayout(isa, s.mem, i.cond, t, Retarget(i, t), s.pc, l0, k)
    requires Clear(Slot(s, 0xfc), l0, 32) && Clear(Slot(s, 0xf8), l0, 32) && JumpClear(i, s, p, Slot(s, 0xfc))
    requires Wrap(p + 8) == Wrap(l0 + 16 + k)
    ensures Reaches(isa, s, t') && OnlyAt(s.mem, t'.mem, Slot(s, 0xfc), Slot(s, 0xf8))
    ensures var o := Exec(i, s.(pc := p)); Agrees(t', o, o.pc) <==> OperandAt(i, s, l0 + 12) == OperandAt(i, s, p)
  {
    hide Exec, Reaches, CondPasses, DispatchLayout, SetReg, Agrees, EvalOp2, LoadWord, Wrap, OnlyAt, JumpClear, Slot;
    t' := DispatchRuns(isa, s, i, t, l0, k, p);
    JumpIsTarget(s, i, t, p);
    JumpsTo(s, t', p, JumpTarget(i, s, p, l0 + 12), JumpTarget(i, s, p, p));
    if i.LoadReg? {
      SameOperand(s.(pc := p), s.(pc := l0 + 12), i.op2, t);
    } else {
      SumsDiffer(Wrap(p + 8), OperandAt(i, s, l0 + 12), OperandAt(i, s, p));
    }
  }

  // ----- adds of a register to the program counter

  predicate RebasableAdd(i: Insn, t: RegNo) {
    i.Add? && t < 13 && i.rd < PC && i.rd != t && i.rn != t && !Reads(i.op2, t)
  }

  /** What the add gives when it is executed at `q`. */
  function SumAt(i: Insn, s: Cpu, q: Word): Word
    requires i.Add?
  {
    Wrap(Reg(s.(pc := q), i.rn) + OperandAt(i, s, q))
  }

  /** What its trampoline gives: the add is executed at `l0` + 4, and how far that is from `p` is
      added once, however the add uses the program counter. */
  function Trampolined(i: Insn, s: Cpu, p: Word, l0: Word): Word
    requires i.Add? && l0 + 4 < TWO_32
  {
    Wrap(Wrap(p - l0 - 4) + SumAt(i, s, l0 + 4))
  }

  lemma SameSum(s: Cpu, u: Cpu, i: Insn, q: Word)
    requires i.Add? && u.c == s.c && forall k: RegNo {:trigger u.r(k)} :: u.r(k) == s.r(k)
    ensures SumAt(i, u, q) == SumAt(i, s, q)
  {
    hide ShiftValue, Wrap;
  }

  lemma ExecAdd(s: Cpu, i: Insn, cond: nat)
    requires i.Add? && i.rd < PC && CondPasses(s, cond)
    ensures Exec(Add(cond, false, i.rn, i.rd, i.op2), s) == Next(s).(r := Update(s.r, i.rd, SumAt(i, s, s.pc)))
  {
    hide EvalOp2, CondPasses, Wrap;
    assert s.(pc := s.pc) == s;
  }

  lemma AddMiddle(isa: Decoder, s: Cpu, v: Cpu, t: RegNo, rd: RegNo, l0: Word, k: Word, x: Word) returns (t': Cpu)
    requires Reaches(isa, s, v) && !v.thumb && v.pc == l0 + 8 && l0 + 28 < TWO_32 && t < 13 && rd < PC && rd != t
    requires InsnAt(isa, v.mem, l0 + 8) == LoadLiteral(t, 8) && LoadWord(v.mem, l0 + 24) == k
    requires InsnAt(isa, v.mem, l0 + 12) == Add(AL, false, t, rd, ShiftedByImm(rd, 0, 0))
    requires x == Wrap(k + v.r(rd))
    ensures Reaches(isa, s, t') && t' == v.(pc := l0 + 16, r := Update(Update(v.r, t, k), rd, x))
  {
    hide InsnAt, Step, Reaches, LoadWord;
    StepLoadLiteral(isa, v, t, 8);
    ReachesNext(isa, s, v);
    t' := Step(isa, v);
    StepAdd(isa, t', t, rd, rd);
    ReachesNext(isa, s, t');
    t' := Step(isa, t');
  }

  /** Spill the borrowed register and run the copied add where it is. */
  lemma AddStart(isa: Decoder, s: Cpu, i: Insn, t: RegNo, l0: Word) returns (v: Cpu)
    requires !s.thumb && s.pc + 4 < TWO_32 && l0 + 28 < TWO_32
    requires RebasableAdd(i, t) && CondPasses(s, i.cond) && Clear(Slot(s, 0xfc), l0, 28)
    requires GoesTo(isa, s.mem, s.pc, i.cond, l0) && InsnAt(isa, s.mem, l0) == Spill(t, 0xfc)
    requires InsnAt(isa, s.mem, l0 + 4) == Add(AL, false, i.rn, i.rd, i.op2)
    ensures Reaches(isa, s, v) && v.mem == StoreWord(s.mem, Slot(s, 0xfc), s.r(t))
    ensures v == s.(pc := l0 + 8, mem := v.mem, r := v.r)
    ensures v.r(i.rd) == SumAt(i, s, l0 + 4)
    ensures forall k: RegNo {:trigger v.r(k)} :: k != i.rd ==> v.r(k) == s.r(k)
  {
    hide InsnAt, GoesTo, Step, CondPasses, Reaches, StoreWord, SameCode, OnlyAt, Exec, SumAt;
    var u := BorrowStart(isa, s, i.cond, t, l0);
    CodeAfterStore(s.mem, Slot(s, 0xfc), s.r(t), l0, 28);
    SameInsn(isa, s.mem, u.mem, l0, 28, l0 + 4);
    AlwaysPasses(u);
    SameSum(s, u, i, l0 + 4);
    ExecAdd(u, i, AL);
    ReachesExec(isa, s, u, Add(AL, false, i.rn, i.rd, i.op2));
    v := Exec(Add(AL, false, i.rn, i.rd, i.op2), u);
  }

  /** The trampoline up to where it restores the borrowed register. */
  lemma AddedUp(isa: Decoder, s: Cpu, i: Insn, t: RegNo, l0: Word, k: Word, p: Word) returns (w: Cpu)
    requires !s.thumb && s.pc + 4 < TWO_32 && l0 + 28 < TWO_32
    requires RebasableAdd(i, t) && CondPasses(s, i.cond)
    requires AddLayout(isa, s.mem, i.cond, t, i.rd, Add(AL, false, i.rn, i.rd, i.op2), s.pc, l0, k)
    requires Clear(Slot(s, 0xfc), l0, 28) && k == Wrap(p - l0 - 4)
    ensures Reaches(isa, s, w) && w == s.(pc := l0 + 16, mem := StoreWord(s.mem, Slot(s, 0xfc), s.r(t)), r := w.r)
    ensures w.r(i.rd) == Trampolined(i, s, p, l0)
    ensures forall k: RegNo {:trigger w.r(k)} :: k != t && k != i.rd ==> w.r(k) == s.r(k)
    ensures InsnAt(isa, w.mem, l0 + 16) == Restore(t, 0xfc) && GoesTo(isa, w.mem, l0 + 20, AL, s.pc + 4)
  {
    hide InsnAt, GoesTo, CondPasses, Reaches, StoreWord, LoadWord, SameCode, OnlyAt, Exec, SumAt, Wrap, Slot;
    var v := AddStart(isa, s, i, t, l0);
    CodeAfterStore(s.mem, Slot(s, 0xfc), s.r(t), l0, 28);
    SameInsn(isa, s.mem, v.mem, l0, 28, l0 + 8);
    SameInsn(isa, s.mem, v.mem, l0, 28, l0 + 12);
    SameInsn(isa, s.mem, v.mem, l0, 28, l0 + 16);
    SameInsn(isa, s.mem, v.mem, l0, 28, l0 + 20);
    SameInsn(isa, s.mem, v.mem, l0, 28, l0 + 24);
    w := AddMiddle(isa, s, v, t, i.rd, l0, k, Trampolined(i, s, p, l0));
    GoesToSame(isa, s.mem, w.mem, l0 + 20, AL, s.pc + 4);
  }

  /** `add rd, pc, rm` and its variants: everything there is to say about where the trampoline ends.
      The flags are left alone, whatever the S bit says, and the borrowed register is restored from
      below the stack pointer as it then is. */
  lemma AddRegRuns(isa: Decoder, s: Cpu, i: Insn, t: RegNo, l0: Word, k: Word, p: Word) returns (t': Cpu)
    requires !s.thumb && s.pc + 4 < TWO_32 && l0 + 28 < TWO_32
    requires RebasableAdd(i, t) && CondPasses(s, i.cond)
    requires AddLayout(isa, s.mem, i.cond, t, i.rd, Add(AL, false, i.rn, i.rd, i.op2), s.pc, l0, k)
    requires Clear(Slot(s, 0xfc), l0, 28) && k == Wrap(p - l0 - 4)
    ensures Reaches(isa, s, t') && t' == s.(pc := s.pc + 4, mem := StoreWord(s.mem, Slot(s, 0xfc), s.r(t)), r := t'.r)
    ensures t'.r(i.rd) == Trampolined(i, s, p, l0)
    ensures forall k: RegNo {:trigger t'.r(k)} :: k != t && k != i.rd ==> t'.r(k) == s.r(k)
    ensures t'.r(t) == LoadWord(t'.mem, Wrap((if i.rd == SP then Trampolined(i, s, p, l0) else s.r(SP)) - 0xfc))
  {
    hide InsnAt, GoesTo, CondPasses, Reaches, StoreWord, LoadWord, Exec, SumAt, Trampolined, Step;
    var w := AddedUp(isa, s, i, t, l0, k, p);
    StepRestore(isa, w, t, 0xfc);
    ReachesNext(isa, s, w);
    t' := ShortEpilogue(isa, s, Step(isa, w), s.pc + 4);
  }

  /** The flags that the add would set are what they are anyway. */
  predicate FlagsStay(s: Cpu, i: Insn, p: Word)
    requires i.Add?
  {
    var o := SetFlags(s, Reg(s.(pc := p), i.rn), OperandAt(i, s, p));
    i.s ==> o.n == s.n && o.z == s.z && o.c == s.c && o.v == s.v
  }

  lemma AddExec(s: Cpu, i: Insn, p: Word)
    requires i.Add? && i.rd < PC && CondPasses(s, i.cond)
    ensures var o := Exec(i, s.(pc := p));
      && o.r == Update(s.r, i.rd, SumAt(i, s, p)) && o.f == s.f && o.thumb == s.thumb
      && (FlagsStay(s, i, p) <==> o.n == s.n && o.z == s.z && o.c == s.c && o.v == s.v)
  {
    hide EvalOp2, CondPasses, Reg, Wrap;
    SameCond(s, s.(pc := p), i.cond);
  }

  /** The register add is right exactly if the sum is, the flags it ought to set stay as they are,
      and, for an add into the stack pointer, the borrowed register can be restored. */
  lemma AddRegRunsIff(isa: Decoder, s: Cpu, i: Insn, t: RegNo, l0: Word, k: Word, p: Word) returns (t': Cpu)
    requires !s.thumb && s.pc + 4 < TWO_32 && l0 + 28 < TWO_32
    requires RebasableAdd(i, t) && CondPasses(s, i.cond)
    requires AddLayout(isa, s.mem, i.cond, t, i.rd, Add(AL, false, i.rn, i.rd, i.op2), s.pc, l0, k)
    requires Clear(Slot(s, 0xfc), l0, 28) && k == Wrap(p - l0 - 4)
    ensures Reaches(isa, s, t') && OnlyAt(s.mem, t'.mem, Slot(s, 0xfc), Slot(s, 0xfc))
    ensures Agrees(t', Exec(i, s.(pc := p)), s.pc + 4)
       <==> Trampolined(i, s, p, l0) == SumAt(i, s, p) && FlagsStay(s, i, p) && (i.rd == SP ==> Restores(s, i, t, p))
  {
    hide InsnAt, GoesTo, CondPasses, Reaches, StoreWord, LoadWord, OnlyAt, Exec, EvalOp2, Wrap, Slot, FlagsStay,
         AddLayout, SumAt, Trampolined;
    AddExec(s, i, p);
    t' := AddRegRuns(isa, s, i, t, l0, k, p);
    CodeAfterStore(s.mem, Slot(s, 0xfc), s.r(t), l0, 28);
    AddAgreesIff(s, t', i, t, p, Trampolined(i, s, p, l0));
  }

  lemma AddAgreesIff(s: Cpu, t': Cpu, i: Insn, t: RegNo, p: Word, x: Word)
    requires RebasableAdd(i, t) && CondPasses(s, i.cond)
    requires t' == s.(pc := t'.pc, mem := StoreWord(s.mem, Slot(s, 0xfc), s.r(t)), r := t'.r) && t'.r(i.rd) == x
    requires forall k: RegNo {:trigger t'.r(k)} :: k != t && k != i.rd ==> t'.r(k) == s.r(k)
    requires t'.r(t) == LoadWord(t'.mem, Wrap((if i.rd == SP then x else s.r(SP)) - 0xfc))
    ensures Agrees(t', Exec(i, s.(pc := p)), t'.pc)
       <==> x == SumAt(i, s, p) && FlagsStay(s, i, p) && (i.rd == SP ==> Restores(s, i, t, p))
  {
    hide CondPasses, StoreWord, LoadWord, Exec, FlagsStay, SumAt, Wrap;
    AddExec(s, i, p);
    LoadStored(s.mem, Slot(s, 0xfc), s.r(t));
    var o := Exec(i, s.(pc := p));
    assert o.r(i.rd) == SumAt(i, s, p) && o.r(t) == s.r(t);
  }

  lemma GoesToSame(isa: Decoder, m: Memory, t: Memory, at: int, cond: nat, to: int)
    requires GoesTo(isa, m, at, cond, to) && InsnAt(isa, t, at) == InsnAt(isa, m, at)
    ensures GoesTo(isa, t, at, cond, to)
  {
  }

  // ----- every trampoline

  /** The trampoline for `i` is in memory: what `HandlePcrelReloc` leaves behind. */
  predicate Installed(isa: Decoder, m: Memory, i: Insn, t: RegNo, p: Word, fa: Word, l0: Word) {
    var k := Literal(i, p, l0);
    match FormOf(i)
    case LdrImmForm =>
      ShortLayout(isa, m, i.cond, i.rd, LoadReg(AL, false, true, PC, i.rd, ShiftedByImm(i.rd, 0, 0)), fa, l0, k)
    case AddImmForm =>
      && ShortLayout(isa, m, i.cond, i.rd, InsnAt(isa, m, l0 + 4), fa, l0, k)
      && (if i.s then InsnAt(isa, m, l0 + 4).Unmodelled? else InsnAt(isa, m, l0 + 4) == AddPc(i.rd))
    case VldrForm => SpillLayout(isa, m, i.cond, t, Rebase(i, t, i.cond), fa, l0, k)
    case LdrRegForm => SpillLayout(isa, m, i.cond, t, Rebase(i, t, AL), fa, l0, k)
    case DispatchForm => DispatchLayout(isa, m, i.cond, t, Retarget(i, t), fa, l0, k)
    case AddRegForm => AddLayout(isa, m, i.cond, t, i.rd, Add(AL, false, i.rn, i.rd, i.op2), fa, l0, k)
    case NotPatched => true
  }

  /** What the plugin takes for granted about the instructions it is given, and an add-immediate
      without its S bit, because the other kind gets stuck. */
  predicate Supported(i: Insn, t: RegNo) {
    match FormOf(i)
    case LdrImmForm => i.rn == PC && i.rd < PC
    case AddImmForm => i.rn == PC && i.rd < PC && !i.s
    case VldrForm => RebasableLoad(i, t)
    case LdrRegForm => RebasableLoad(i, t)
    case DispatchForm => RebasableJump(i, t)
    case AddRegForm => RebasableAdd(i, t)
    case NotPatched => false
  }

  /** What the state has to be like for the trampoline at `l0` to do what the instruction does at `p`.
      The byte-load flag and the S bit are not carried over, what the instruction leaves in the stack
      pointer is what the borrowed register is restored from, and uses of the program counter other
      than the one that is expected are left as they are. */
  predicate Honoured(s: Cpu, i: Insn, t: RegNo, p: Word, l0: Word)
    requires l0 + 12 < TWO_32
  {
    match FormOf(i)
    case LdrImmForm =>
      var a := Wrap(p + 8 + Displacement(i));
      i.byte ==> At(s.mem, a + 1) == 0 && At(s.mem, a + 2) == 0 && At(s.mem, a + 3) == 0
    case LdrRegForm => i.rd == SP ==> Restores(s, i, t, p)
    case DispatchForm => i.LoadReg? || OperandAt(i, s, l0 + 12) == OperandAt(i, s, p)
    case AddRegForm =>
      && Trampolined(i, s, p, l0) == SumAt(i, s, p) && FlagsStay(s, i, p)
      && (i.rd == SP ==> Restores(s, i, t, p))
    case _ => true
  }

  /** The stack words the trampoline writes are neither part of it nor what the instruction loads. */
  predicate StackClear(s: Cpu, i: Insn, p: Word, l0: Word) {
    var f := FormOf(i);
    f != LdrImmForm && f != AddImmForm ==>
      && Clear(Slot(s, 0xfc), l0, SizeOf(f))
      && (f == DispatchForm
          ==> Clear(Slot(s, 0xf8), l0, 32) && (i.LoadReg? || i.Add?) && JumpClear(i, s, p, Slot(s, 0xfc)))
      && (f == VldrForm || f == LdrRegForm ==> Clear(Slot(s, 0xfc), AccessAt(i, s, p), AccessSize(i)))
  }

  /** `t` is where the machine is after `i`, executed at `p`, on behalf of the instruction at `fa`. */
  ghost predicate Faithful(s: Cpu, t: Cpu, i: Insn, p: Word, fa: Word)
    requires fa + 4 < TWO_32
  {
    var o := Exec(i, s.(pc := p));
    && Agrees(t, o, if FormOf(i) == DispatchForm && CondPasses(s, i.cond) then o.pc else fa + 4)
    && OnlyAt(s.mem, t.mem, Slot(s, 0xfc), Slot(s, 0xf8))
  }
}
