/** Near calls of x86, and what is left of them when a call has been split into a push of the return
    address and a jump (section 2.1.5 of volume 2 of the Intel manual has the operand encodings). */
module X86Calls {
  import opened ByteMemory
  import opened Common
  import opened LittleEndian

  datatype Cpu = Cpu(regs: map<nat, nat>, mem: Memory)

  const SP := 4

  function Reg(c: Cpu, r: nat): nat { if r in c.regs then c.regs[r] else 0 }

  function Load(c: Cpu, w: Mode, a: int): nat { Decode(LoadBytes(c.mem, w, a, w)) }

  /** The slot that a push writes. */
  function Slot(c: Cpu, w: Mode): nat { Wrap(w, Reg(c, SP) - w) }

  function Push(c: Cpu, w: Mode, v: nat): Cpu {
    Cpu(c.regs[SP := Slot(c, w)], StoreBytes(c.mem, w, Slot(c, w), Encode(w, v)))
  }

  // ----- operands

  /** `rip` stands for an operand relative to the next instruction; what that is relative to is
      the business of another pass, which keeps it the same. */
  datatype Operand =
    | Register(r: nat)
    | Memory(base: Option<nat>, index: Option<nat>, scale: nat, rip: bool, disp: int)

  function OptReg(c: Cpu, r: Option<nat>): nat { match r case None => 0 case Some(n) => Reg(c, n) }

  function Address(op: Operand, c: Cpu, w: Mode, rip: int): nat
    requires op.Memory?
  {
    Wrap(w, OptReg(c, op.base) + OptReg(c, op.index) * op.scale + (if op.rip then rip else 0) + op.disp)
  }

  /** A register's value, or the address of the word in memory. */
  function Place(op: Operand, c: Cpu, w: Mode, rip: int): nat {
    match op case Register(r) => Reg(c, r) case Memory(_, _, _, _, _) => Address(op, c, w, rip)
  }

  function Target(op: Operand, c: Cpu, w: Mode, rip: int): nat {
    match op case Register(r) => Reg(c, r) case Memory(_, _, _, _, _) => Load(c, w, Address(op, c, w, rip))
  }

  // ----- encodings

  function Signed8(x: Byte): int { if x < 0x80 then x else x - 0x100 }

  /** In 64-bit mode a byte 0x40 to 0x4f before the opcode extends the register numbers. */
  function PrefixCount(b: seq<Byte>, w: Mode): nat { if w == 8 && b != [] && b[0] / 16 == 4 then 1 else 0 }

  function RexB(b: seq<Byte>, w: Mode): nat { if PrefixCount(b, w) == 1 && b[0] % 2 == 1 then 8 else 0 }
  function RexX(b: seq<Byte>, w: Mode): nat { if PrefixCount(b, w) == 1 && b[0] / 2 % 2 == 1 then 8 else 0 }

  function Mod(m: Byte): nat { m / 64 }
  function RegField(m: Byte): nat { m / 8 % 8 }
  function Rm(m: Byte): nat { m % 8 }

  function DispBytes(mod: nat): nat { if mod == 1 then 1 else if mod == 2 then 4 else 0 }

  /** Bytes of an indirect near call or jump, from its operand byte on, for a complete instruction. */
  predicate Complete(b: seq<Byte>, p: nat) {
    && p + 2 <= |b| && b[p] == 0xFF
    && var m := b[p + 1];
       if Mod(m) == 3 then |b| == p + 2
       else if Rm(m) == 4 then
         p + 3 <= |b| && |b| == p + 3 + (if Mod(m) == 0 && b[p + 2] % 8 == 5 then 4 else DispBytes(Mod(m)))
       else |b| == p + 2 + (if Mod(m) == 0 && Rm(m) == 5 then 4 else DispBytes(Mod(m)))
  }

  function Disp(b: seq<Byte>, at: nat): int
    requires at <= |b|
  {
    if |b| == at + 1 then Signed8(b[at]) else if |b| == at + 4 then Signed32(WordAt(b, at, 4)) else 0
  }

  function OperandOf(b: seq<Byte>, w: Mode): Operand
    requires Complete(b, PrefixCount(b, w))
  {
    var p := PrefixCount(b, w);
    var m := b[p + 1];
    if Mod(m) == 3 then Register(Rm(m) + RexB(b, w))
    else if Rm(m) == 4 then
      var sib := b[p + 2];
      var base := if Mod(m) == 0 && sib % 8 == 5 then None else Some(sib % 8 + RexB(b, w));
      var index := if sib / 8 % 8 + RexX(b, w) == 4 then None else Some(sib / 8 % 8 + RexX(b, w));
      var scale := if sib / 64 == 0 then 1 else if sib / 64 == 1 then 2 else if sib / 64 == 2 then 4 else 8;
      Memory(base, index, scale, false, Disp(b, p + 3))
    else if Mod(m) == 0 && Rm(m) == 5 then Memory(None, None, 1, w == 8, Disp(b, p + 2))
    else Memory(Some(Rm(m) + RexB(b, w)), None, 1, false, Disp(b, p + 2))
  }

  // ----- the two ways of calling

  /** State after the call, and where it goes. */
  function Call(op: Operand, c: Cpu, w: Mode, rip: int, ret: nat): (Cpu, nat) {
    (Push(c, w, ret), Target(op, c, w, rip))
  }

  function PushJump(op: Operand, c: Cpu, w: Mode, rip: int, ret: nat): (Cpu, nat) {
    (Push(c, w, ret), Target(op, Push(c, w, ret), w, rip))
  }

  predicate UsesSp(op: Operand) { if op.Register? then op.r == SP else op.base == Some(SP) }

  /** The push moves the place of an operand exactly when it involves the stack pointer, by one word. */
  lemma PlaceAfterPush(op: Operand, c: Cpu, w: Mode, rip: int, ret: nat, k: int)
    requires (op.Memory? ==> op.index != Some(SP)) && Reg(c, SP) < Modulus(w) && (op.Register? ==> k == 0)
    ensures var op' := if op.Memory? then op.(disp := op.disp + k) else op;
      Place(op', Push(c, w, ret), w, rip) == Place(op, c, w, rip)
      <==> (if UsesSp(op) then Wrap(w, k - w) == 0 else Wrap(w, k) == 0)
  {
    hide StoreBytes, Encode, Modulus;
    var d := Push(c, w, ret);
    assert d.regs == c.regs[SP := Slot(c, w)];
    if op.Memory? {
      var rest := OptReg(c, op.index) * op.scale + (if op.rip then rip else 0) + op.disp;
      assert OptReg(d, op.index) == OptReg(c, op.index);
      if UsesSp(op) {
        MovedBySlot(w, Reg(c, SP), rest, k);
      } else {
        assert OptReg(d, op.base) == OptReg(c, op.base);
        SameWrapIff(w, OptReg(c, op.base) + rest, k);
      }
    } else if op.r == SP {
      SlotMoves(w, Reg(c, SP));
      ModeWrap(w);
    } else {
      ModeWrap(w);
    }
  }

  lemma SameWrapIff(w: Mode, a: int, k: int)
    ensures Wrap(w, a + k) == Wrap(w, a) <==> Wrap(w, k) == 0
  {
  }

  lemma MovedBySlot(w: Mode, sp: nat, rest: int, k: int)
    ensures Wrap(w, Wrap(w, sp - w) + rest + k) == Wrap(w, sp + rest) <==> Wrap(w, k - w) == 0
  {
    var q := (sp - w) / Modulus(w);
    assert Wrap(w, sp - w) == sp - w - q * Modulus(w);
    WrapMultiple(w, sp + rest + (k - w), q);
    SameWrapIff(w, sp + rest, k - w);
  }

  lemma WrapMultiple(w: Mode, a: int, q: int)
    ensures Wrap(w, a - q * Modulus(w)) == Wrap(w, a)
  {
  }

  lemma SlotMoves(w: Mode, sp: nat)
    requires sp < Modulus(w)
    ensures Wrap(w, sp - w) != sp
  {
  }

  lemma ModeWrap(w: Mode)
    ensures Wrap(w, 0) == 0 && Wrap(w, 0 - w) != 0
  {
  }

  // ----- what the jump reads

  /** The word at `a` has nothing in common with the slot. */
  ghost predicate OffSlot(c: Cpu, w: Mode, a: int) { Clear(w, Slot(c, w), w, a, w) }

  lemma LoadAfterPush(c: Cpu, w: Mode, a: int, v: nat)
    requires OffSlot(c, w, a)
    ensures Load(Push(c, w, v), w, a) == Load(c, w, a)
  {
    hide Wrap, At, StoreBytes, LoadBytes, Decode, Encode, Slot;
    LoadElsewhere(c.mem, w, Slot(c, w), Encode(w, v), a, w);
  }

  lemma LoadPushed(c: Cpu, w: Mode, v: nat)
    requires v < Modulus(w)
    ensures Load(Push(c, w, v), w, Slot(c, w)) == v
  {
    hide At, StoreBytes, LoadBytes, Decode, Encode, Slot;
    LoadStored(c.mem, w, Slot(c, w), Encode(w, v));
    ModulusIsPower(w);
    DecodeEncode(w, v);
  }

  /** Splitting the call is faithful when the jump's operand names the same register value or word,
      which happens exactly if an operand that involves the stack pointer has been moved up by the
      word that was pushed, and the word does not overlap what was pushed. */
  lemma SplitCall(op: Operand, k: int, c: Cpu, w: Mode, rip: int, ret: nat)
    requires (op.Memory? ==> op.index != Some(SP)) && Reg(c, SP) < Modulus(w)
    requires (op.Register? ==> k == 0) && (!UsesSp(op) ==> k == 0)
    ensures var op' := if op.Memory? then op.(disp := op.disp + k) else op;
      && (Place(op', Push(c, w, ret), w, rip) == Place(op, c, w, rip) <==> (UsesSp(op) ==> Wrap(w, k - w) == 0))
      && ((UsesSp(op) ==> Wrap(w, k - w) == 0) && (op.Memory? ==> OffSlot(c, w, Address(op, c, w, rip)))
          ==> PushJump(op', c, w, rip, ret) == Call(op, c, w, rip, ret))
  {
    hide Address, Reg, Wrap, Slot, OffSlot, Load, Modulus, Push;
    var op' := if op.Memory? then op.(disp := op.disp + k) else op;
    PlaceAfterPush(op, c, w, rip, ret, k);
    ModeWrap(w);
    if op.Memory? && OffSlot(c, w, Address(op, c, w, rip)) {
      LoadAfterPush(c, w, Address(op, c, w, rip), ret);
    }
  }

  /** An operand just below the stack pointer is where the return address goes: the jump goes there
      instead of where the call would have gone. */
  lemma JumpReadsReturn(op: Operand, k: int, c: Cpu, w: Mode, rip: int, ret: nat)
    requires op.Memory? && op.index != Some(SP) && UsesSp(op) && Reg(c, SP) < Modulus(w) && Wrap(w, k - w) == 0
    requires ret < Modulus(w) && Address(op, c, w, rip) == Slot(c, w)
    ensures PushJump(op.(disp := op.disp + k), c, w, rip, ret).1 == ret
  {
    hide Address, Reg, Wrap, Slot, Load, Modulus, Push;
    PlaceAfterPush(op, c, w, rip, ret, k);
    LoadPushed(c, w, ret);
  }
}
