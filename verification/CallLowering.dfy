/** Turning a call into a push and a jump, and the push, later, into a call and a subtraction. */
module CallLowering {
  import opened ByteMemory
  import opened Common
  import opened LittleEndian
  import opened X86Calls

  predicate Indirect(b: seq<Byte>, w: Mode) {
    Complete(b, PrefixCount(b, w)) && RegField(b[PrefixCount(b, w) + 1]) == 2
  }

  predicate Direct(b: seq<Byte>, w: Mode) {
    var p := PrefixCount(b, w);
    |b| == p + 5 && b[p] == 0xE8
  }

  /** The one form that is put together anew: a 64-bit call through the top of the stack. */
  predicate ThroughTop(b: seq<Byte>, w: Mode)
    requires Indirect(b, w)
  {
    w == 8 && OperandOf(b, w) == Memory(Some(SP), None, 1, false, 0) && Mod(b[PrefixCount(b, w) + 1]) == 0
  }

  /** The forms whose displacement is edited. */
  predicate Adjusts32(b: seq<Byte>) { |b| == 7 && b[0] == 0xFF && b[1] == 0x94 && b[2] % 8 == 4 }
  predicate Adjusts8(b: seq<Byte>) { |b| == 4 && b[0] == 0xFF && b[1] == 0x54 && b[2] % 8 == 4 }

  /** How much the displacement grows. */
  function Growth(b: seq<Byte>, w: Mode): int
    requires Indirect(b, w)
  {
    if ThroughTop(b, w) then w
    else if Adjusts32(b) then Signed32((Signed32(WordAt(b, 3, 4)) + w) % 0x1_0000_0000) - Signed32(WordAt(b, 3, 4))
    else if Adjusts8(b) then w
    else 0
  }

  function Grown(op: Operand, k: int): Operand { if op.Memory? then op.(disp := op.disp + k) else op }

  function SetRegField(m: Byte, r: nat): Byte
    requires r < 8
  {
    m - RegField(m) * 8 + r * 8
  }

  lemma RegFieldSet(m: Byte, r: nat)
    requires r < 8
    ensures var n := SetRegField(m, r); Mod(n) == Mod(m) && Rm(n) == Rm(m) && RegField(n) == r
  {
  }

  /** Changing the register field of the operand byte leaves the operand alone. */
  lemma OtherOpcode(b: seq<Byte>, w: Mode)
    requires Complete(b, PrefixCount(b, w))
    ensures var p := PrefixCount(b, w); var c := b[p + 1 := SetRegField(b[p + 1], 4)];
      && PrefixCount(c, w) == p && Complete(c, p) && RegField(c[p + 1]) == 4 && OperandOf(c, w) == OperandOf(b, w)
  {
    hide Mod, Rm, RegField, SetRegField, Signed8, Signed32, WordAt;
    var p := PrefixCount(b, w);
    RegFieldSet(b[p + 1], 4);
    var c := b[p + 1 := SetRegField(b[p + 1], 4)];
    assert PrefixCount(c, w) == p;
    if Mod(b[p + 1]) != 3 {
      if Rm(b[p + 1]) == 4 { SameDisp(b, c, p + 3, p + 1); } else { SameDisp(b, c, p + 2, p + 1); }
    }
  }

  lemma SameDisp(b: seq<Byte>, c: seq<Byte>, at: nat, i: nat)
    requires i < at <= |b| == |c| && c == b[i := c[i]]
    ensures Disp(b, at) == Disp(c, at)
  {
    hide WordAt;
    if |b| == at + 4 { SameBytesSameWord(b, c, at, 4); }
  }

  /** A 32-bit displacement off the stack pointer. */
  lemma Adjusted32(b: seq<Byte>, w: Mode)
    requires Adjusts32(b)
    ensures var c := Patch(b, 3, 4, Signed32(WordAt(b, 3, 4)) + w);
      && Indirect(b, w) && Indirect(c, w) && PrefixCount(b, w) == PrefixCount(c, w) == 0
      && OperandOf(c, w) == Grown(OperandOf(b, w), Growth(b, w))
  {
    hide WordAt, Patch, Pow256;
    var x := Signed32(WordAt(b, 3, 4)) + w;
    PatchedElsewhere(b, 3, 4, x);
    PatchedWord(b, 3, 4, x);
    Pow4();
  }

  /** An 8-bit displacement that still fits after the addition. */
  lemma Adjusted8(b: seq<Byte>, w: Mode)
    requires Adjusts8(b) && b[3] < 0x7F - w
    ensures var c := b[3 := b[3] + w];
      && Indirect(b, w) && Indirect(c, w) && PrefixCount(b, w) == PrefixCount(c, w) == 0
      && OperandOf(c, w) == Grown(OperandOf(b, w), w) && Growth(b, w) == w
  {
  }

  function Widened(b: seq<Byte>, w: Mode): seq<Byte>
    requires Adjusts8(b)
  {
    [b[0], b[1] % 64 + 0x80, b[2]] + Encode(4, (Signed8(b[3]) + w) % 0x1_0000_0000)
  }

  /** One that does not becomes a 32-bit displacement. */
  lemma Adjusted8To32(b: seq<Byte>, w: Mode)
    requires Adjusts8(b)
    ensures var c := Widened(b, w);
      && Indirect(b, w) && Indirect(c, w) && PrefixCount(b, w) == PrefixCount(c, w) == 0
      && OperandOf(c, w) == Grown(OperandOf(b, w), w) && Growth(b, w) == w
  {
    hide Encode, Decode, Pow256;
    var c, x := Widened(b, w), (Signed8(b[3]) + w) % 0x1_0000_0000;
    assert c[3..7] == Encode(4, x);
    Pow4();
    DecodeEncode(4, x);
    assert WordAt(c, 3, 4) == x;
    assert Signed32(x) == Signed8(b[3]) + w;
  }

  class CallInsn {
    var bits: seq<Byte>

    constructor (bits: seq<Byte>)
      ensures this.bits == bits
    {
      this.bits := bits;
    }

    static method AdjustEspOffset(b: seq<Byte>, w: Mode) returns (c: seq<Byte>)
      requires Indirect(b, w) && !ThroughTop(b, w)
      ensures Indirect(c, w) && PrefixCount(c, w) == PrefixCount(b, w)
      ensures OperandOf(c, w) == Grown(OperandOf(b, w), Growth(b, w))
    {
      hide Indirect, OperandOf, Growth, ThroughTop, WordAt, Patch;
      var sibBase := if |b| > 2 then b[2] % 8 else 0;
      OpcodeFirst(b, w);
      if b[0] == 0xFF && b[1] == 0x94 && sibBase == 4 {
        Adjusted32(b, w);
        var newval := Signed32(WordAt(b, 3, 4)) + w;
        c := Patch(b, 3, 4, newval);
      } else if b[0] == 0xFF && b[1] == 0x54 && sibBase == 4 {
        if b[3] >= 0x7F - w {
          Adjusted8To32(b, w);
          c := Widened(b, w);
        } else {
          Adjusted8(b, w);
          c := b[3 := b[3] + w];
        }
      } else {
        NotAdjusted(b, w);
        c := b;
      }
    }

    /** Makes a near call a jump, moving an operand off the stack pointer up by a word where the
        source recognises one. */
    method ConvertToJump(w: Mode)
      requires Indirect(bits, w) || Direct(bits, w)
      modifies this
      ensures old(Direct(bits, w)) ==> bits == old(bits)[PrefixCount(old(bits), w) := 0xE9]
      ensures old(Indirect(bits, w)) ==>
        && Complete(bits, PrefixCount(bits, w)) && RegField(bits[PrefixCount(bits, w) + 1]) == 4
        && OperandOf(bits, w) == Grown(OperandOf(old(bits), w), Growth(old(bits), w))
        && Converted(old(bits), bits, w)
    {
      hide OperandOf, Growth, ThroughTop, Converted;
      var p := PrefixCount(bits, w);
      if bits[p] == 0xE8 {
        bits := bits[p := 0xE9];
        return;
      }
      if ThroughTop(bits, w) {
        TopAgain(bits, w);
        bits := [0xFF, 0x64, 0x24, 8];
        GrownIsConverted(old(bits), bits, w);
        return;
      }
      var adjusted := AdjustEspOffset(bits, w);
      OtherOpcode(adjusted, w);
      bits := adjusted[p + 1 := SetRegField(adjusted[p + 1], 4)];
      GrownIsConverted(old(bits), bits, w);
    }
  }

  lemma OpcodeFirst(b: seq<Byte>, w: Mode)
    requires Indirect(b, w)
    ensures |b| >= 2 && (b[0] == 0xFF && b[1] == 0x94 ==> |b| == 7) && (b[0] == 0xFF && b[1] == 0x54 ==> |b| == 4)
  {
  }

  lemma NotAdjusted(b: seq<Byte>, w: Mode)
    requires Indirect(b, w) && !ThroughTop(b, w) && !Adjusts32(b) && !Adjusts8(b)
    ensures Growth(b, w) == 0 && Grown(OperandOf(b, w), 0) == OperandOf(b, w)
  {
    hide OperandOf;
  }

  lemma TopAgain(b: seq<Byte>, w: Mode)
    requires Indirect(b, w) && ThroughTop(b, w)
    ensures var c: seq<Byte> := [0xFF, 0x64, 0x24, 8];
      && Complete(c, PrefixCount(c, w)) && RegField(c[PrefixCount(c, w) + 1]) == 4
      && OperandOf(c, w) == Grown(OperandOf(b, w), Growth(b, w))
  {
  }

  lemma OnlySpGrows(b: seq<Byte>, w: Mode)
    requires Indirect(b, w)
    ensures Growth(b, w) != 0 ==> OperandOf(b, w).Memory? && UsesSp(OperandOf(b, w))
    ensures OperandOf(b, w).Memory? ==> OperandOf(b, w).index != Some(SP)
  {
  }

  /** The encodings that survive being split: those that do not involve the stack pointer, and those
      whose displacement the source edits, unless a 64-bit displacement overflows. */
  predicate Survives(b: seq<Byte>, w: Mode)
    requires Indirect(b, w)
  {
    UsesSp(OperandOf(b, w)) ==>
      || ThroughTop(b, w) || Adjusts8(b)
      || (Adjusts32(b) && (w == 4 || Signed32(WordAt(b, 3, 4)) < 0x8000_0000 - 8))
  }

  lemma SurvivesIff(b: seq<Byte>, w: Mode)
    requires Indirect(b, w)
    ensures Survives(b, w) <==> (UsesSp(OperandOf(b, w)) ==> Wrap(w, Growth(b, w) - w) == 0)
  {
    hide OperandOf, WordAt, ThroughTop;
    ModeWrap(w);
    if Adjusts32(b) && !ThroughTop(b, w) {
      WordBound(b);
      GrowthWraps(WordAt(b, 3, 4), w);
    }
  }

  lemma WordBound(b: seq<Byte>)
    requires |b| == 7
    ensures WordAt(b, 3, 4) < 0x1_0000_0000
  {
    hide Decode;
    DecodeBound(b[3..7]);
    Pow4();
  }

  lemma GrowthWraps(x: nat, w: Mode)
    requires x < 0x1_0000_0000
    ensures Wrap(w, Signed32((Signed32(x) + w) % 0x1_0000_0000) - Signed32(x) - w) == 0
       <==> w == 4 || Signed32(x) < 0x8000_0000 - 8
  {
    var k := Signed32((Signed32(x) + w) % 0x1_0000_0000) - Signed32(x) - w;
    assert k == 0 || k == -0x1_0000_0000;
  }

  /** For every call instruction, register file and memory: the jump names the same register value
      or word as the call did exactly for the surviving encodings, and then pushing the return
      address and jumping does what calling does, as long as that word is not where the return
      address goes. */
  lemma LoweredCallIsFaithful(b: seq<Byte>, c: Cpu, w: Mode, rip: int, ret: nat)
    requires Indirect(b, w) && Reg(c, SP) < Modulus(w)
    ensures var op := OperandOf(b, w); var op' := Grown(op, Growth(b, w));
      && (Place(op', Push(c, w, ret), w, rip) == Place(op, c, w, rip) <==> Survives(b, w))
      && (Survives(b, w) && (op.Memory? ==> OffSlot(c, w, Address(op, c, w, rip)))
          ==> PushJump(op', c, w, rip, ret) == Call(op, c, w, rip, ret))
  {
    hide OperandOf, Growth, Place, Push, PushJump, Call, OffSlot, Address, Slot, Modulus, Reg, Wrap, Survives;
    OnlySpGrows(b, w);
    SurvivesIff(b, w);
    SplitCall(OperandOf(b, w), Growth(b, w), c, w, rip, ret);
  }

  // ----- the same, from the bytes alone

  /** The calls through the stack whose operand is moved up: FF 54 and FF 94 with any scale and index
      byte of base 4, the latter short of overflow in 64-bit code; and in 64-bit code FF 14 24, which
      may have a prefix that does not change its operand. */
  predicate MovedUp(b: seq<Byte>, w: Mode) {
    || (|b| == 4 && b[0] == 0xFF && b[1] == 0x54 && b[2] % 8 == 4)
    || (|b| == 7 && b[0] == 0xFF && b[1] == 0x94 && b[2] % 8 == 4
        && (w == 4 || Signed32(WordAt(b, 3, 4)) + 8 < 0x8000_0000))
    || (w == 8 && b == [0xFF, 0x14, 0x24])
    || (w == 8 && |b| == 4 && b[0] in {0x40, 0x44, 0x48, 0x4C} && b[1] == 0xFF && b[2] == 0x14 && b[3] == 0x24)
  }

  lemma TopBytes(b: seq<Byte>, w: Mode)
    requires Indirect(b, w)
    ensures ThroughTop(b, w) <==>
              (w == 8 && b == [0xFF, 0x14, 0x24])
              || (w == 8 && |b| == 4 && b[0] in {0x40, 0x44, 0x48, 0x4C} && b[1] == 0xFF && b[2] == 0x14
                  && b[3] == 0x24)
  {
    hide WordAt;
  }

  lemma MovedUpIff(b: seq<Byte>, w: Mode)
    requires Indirect(b, w)
    ensures Survives(b, w) <==> (UsesSp(OperandOf(b, w)) ==> MovedUp(b, w))
    ensures MovedUp(b, w) ==> UsesSp(OperandOf(b, w)) && OperandOf(b, w).Memory?
  {
    hide WordAt, OperandOf, ThroughTop;
    TopBytes(b, w);
    OffStack(b, w);
  }

  lemma OffStack(b: seq<Byte>, w: Mode)
    requires Indirect(b, w)
    ensures MovedUp(b, w) || Adjusts8(b) || Adjusts32(b) || ThroughTop(b, w) ==>
              UsesSp(OperandOf(b, w)) && OperandOf(b, w).Memory?
  {
    hide WordAt;
  }

  /** `d` is what the call `b` becomes.  The displacement is a word larger, at 32 bits in 32-bit code
      modulo 2^32, exactly for the calls listed above; and the jump then names what the call named
      exactly for those and for operands off the stack.  If it does, pushing and jumping does what
      calling does, unless the push overwrites the word. */
  ghost predicate Converted(b: seq<Byte>, d: seq<Byte>, w: Mode)
    requires Complete(b, PrefixCount(b, w)) && Complete(d, PrefixCount(d, w))
  {
    var op, jump := OperandOf(b, w), OperandOf(d, w);
    && (MovedUp(b, w) ==>
          && op.Memory? && (jump == op.(disp := op.disp + w) || (w == 4 && op.disp + 4 >= 0x8000_0000
                                                                 && jump == op.(disp := op.disp + 4 - 0x1_0000_0000))))
    && (!UsesSp(op) ==> jump == op)
    && forall c, rip, ret: nat | Reg(c, SP) < Modulus(w) :: ActsAsCall(op, jump, c, w, rip, ret, MovedUp(b, w))
  }

  ghost predicate ActsAsCall(op: Operand, jump: Operand, c: Cpu, w: Mode, rip: int, ret: nat, moved: bool) {
    && (Place(jump, Push(c, w, ret), w, rip) == Place(op, c, w, rip) <==> (UsesSp(op) ==> moved))
    && ((UsesSp(op) ==> moved) && (op.Memory? ==> OffSlot(c, w, Address(op, c, w, rip)))
        ==> PushJump(jump, c, w, rip, ret) == Call(op, c, w, rip, ret))
  }

  lemma GrownIsConverted(b: seq<Byte>, d: seq<Byte>, w: Mode)
    requires Indirect(b, w) && Complete(d, PrefixCount(d, w))
    requires OperandOf(d, w) == Grown(OperandOf(b, w), Growth(b, w))
    ensures Converted(b, d, w)
  {
    hide OperandOf, Growth, Place, Push, PushJump, Call, OffSlot, Address, Modulus, Reg, Survives, MovedUp;
    MovedUpIff(b, w);
    OnlySpGrows(b, w);
    if MovedUp(b, w) { MovedUpGrows(b, w); }
    assert Grown(OperandOf(b, w), 0) == OperandOf(b, w);
    forall c, rip, ret: nat | Reg(c, SP) < Modulus(w)
      ensures ActsAsCall(OperandOf(b, w), OperandOf(d, w), c, w, rip, ret, MovedUp(b, w))
    {
      LoweredCallIsFaithful(b, c, w, rip, ret);
    }
  }

  lemma MovedUpGrows(b: seq<Byte>, w: Mode)
    requires Indirect(b, w) && MovedUp(b, w)
    ensures Growth(b, w) == w || (w == 4 && Growth(b, w) == 4 - 0x1_0000_0000 && OperandOf(b, w).Memory?
                                  && OperandOf(b, w).disp + 4 >= 0x8000_0000)
  {
    hide WordAt, ThroughTop, Signed8;
    TopBytes(b, w);
    if |b| == 7 { WordBound(b); }
  }

  /** Encodings that do not survive: a 32-bit call through the top of the stack, a call through the
      stack pointer itself, and any form off the stack pointer that has a prefix. */
  lemma SomeDoNotSurvive()
    ensures var top: seq<Byte>, reg: seq<Byte> := [0xFF, 0x14, 0x24], [0xFF, 0xD4];
            var rex: seq<Byte> := [0x48, 0xFF, 0x54, 0x24, 8];
      && Indirect(top, 4) && !Survives(top, 4) && Indirect(reg, 4) && !Survives(reg, 4)
      && Indirect(rex, 8) && !Survives(rex, 8)
  {
  }
}
