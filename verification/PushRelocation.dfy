/** Pushing a return address under a load bias: the push becomes a call of the next instruction,
    which pushes an address close by, and a subtraction that turns that into the one wanted. */
module PushRelocation {
  import opened ByteMemory
  import opened Common
  import opened LittleEndian
  import opened X86Calls

  /** A difference of 64-bit addresses, as a signed number. */
  function Difference(a: int, b: int): int {
    var d := Wrap(8, a - b);
    if d < 0x8000_0000_0000_0000 then d else d - 0x1_0000_0000_0000_0000
  }

  function RexSkip(w: Mode): nat { if w == 8 then 1 else 0 }

  function Rex(w: Mode): seq<Byte> { if w == 8 then [0x48] else [] }

  /** sub [sp], imm32 */
  predicate IsSub(b: seq<Byte>, w: Mode) {
    |b| == RexSkip(w) + 7 && b[..RexSkip(w) + 3] == Rex(w) + [0x81, 0x2C, 0x24]
  }

  /** In 64-bit code the prefix makes it a subtraction of 64 bits; the operand is the top of the stack,
      as it would be for a call with the same operand bytes. */
  lemma SubIsOffStackTop(b: seq<Byte>, w: Mode)
    requires IsSub(b, w)
    ensures var p := |b| - 7;
      && b[p] == 0x81 && RegField(b[p + 1]) == 5 && (w == 8 ==> p == 1 && b[0] / 16 == 4 && b[0] / 8 % 2 == 1)
      && var call := b[..p] + [0xFF, b[p + 1], b[p + 2]];
         Complete(call, PrefixCount(call, w)) && OperandOf(call, w) == Memory(Some(SP), None, 1, false, 0)
  {
    assert b[..RexSkip(w) + 3][RexSkip(w)] == 0x81 && b[RexSkip(w) + 1] == 0x2C && b[RexSkip(w) + 2] == 0x24;
  }

  class ReturnPush {
    var bits: seq<Byte>      // the push, later the call
    var sub: seq<Byte>       // the subtraction, once there is one
    var subOffset: int       // the offset of its relocation, a signed 32-bit number

    /** push imm32 of the return address, less the file base, cut off at 32 bits. */
    constructor (next: int, fileBase: int)
      ensures |bits| == 5 && bits[0] == 0x68 && WordAt(bits, 1, 4) == (next - fileBase) % TWO_32
    {
      bits := [0x68] + Encode(4, (next - fileBase) % TWO_32);
      sub, subOffset := [], 0;
      new;
      Pow4();
      DecodeEncode(4, (next - fileBase) % TWO_32);
      assert bits[1..5] == Encode(4, (next - fileBase) % TWO_32);
    }

    method HandlePush64Relocation(w: Mode)
      requires |bits| == 5 && bits[0] == 0x68 && WordAt(bits, 1, 4) != 0
      modifies this
      ensures bits == [0xE8, 0, 0, 0, 0] && IsSub(sub, w)
      ensures sub == (if w == 8 then [0x48] else []) + [0x81, 0x2C, 0x24, 0xFF, 0xFF, 0xFF, 0xFF]
      ensures subOffset == Signed32(old(WordAt(bits, 1, 4)))
    {
      hide Decode;
      var pushAddr := WordAt(bits, 1, 4);
      assert pushAddr != 0;
      DecodeBound(bits[1..5]);
      bits := [0xE8, 0, 0, 0, 0];
      sub := Rex(w) + [0x81, 0x2C, 0x24, 0xFF, 0xFF, 0xFF, 0xFF];
      subOffset := Signed32(pushAddr);
    }

    /** `wrt` is the final address of the instruction to return to, if it was unpinned. */
    method UpdatePush64Add(w: Mode, callAddr: int, fileBase: int, wrt: Option<int>)
      requires |bits| == 5 && IsSub(sub, w)
      modifies this`sub
      ensures IsSub(sub, w)
      ensures var adjust := if wrt.Some? then wrt.value else fileBase + subOffset;
              WordAt(sub, |sub| - 4, 4) == (callAddr + 5 - adjust) % TWO_32
    {
      hide Decode, Patch;
      var ret := callAddr + |bits|;
      var adjust := if wrt.Some? then wrt.value else fileBase + subOffset;
      PatchedWord(sub, RexSkip(w) + 3, 4, ret - adjust);
      PatchedElsewhere(sub, RexSkip(w) + 3, 4, ret - adjust);
      Pow4();
      sub := Patch(sub, RexSkip(w) + 3, 4, ret - adjust);
    }
  }

  // ----- what the pair does

  /** The same registers, and memory that reads the same everywhere. */
  ghost predicate Same(c: Cpu, d: Cpu, w: Mode) {
    c.regs == d.regs && forall x :: At(c.mem, w, x) == At(d.mem, w, x)
  }

  /** call, loaded `bias` away from where it was linked, then sub [sp], imm. */
  function CallSub(c: Cpu, w: Mode, ret: int, bias: int, imm: int): Cpu {
    var d := Push(c, w, Wrap(w, ret + bias));
    d.(mem := StoreBytes(d.mem, w, Reg(d, SP), Encode(w, Wrap(w, Load(d, w, Reg(d, SP)) - imm))))
  }

  lemma CallSubPushes(c: Cpu, w: Mode, ret: int, bias: int, imm: int)
    ensures Same(CallSub(c, w, ret, bias, imm), Push(c, w, Wrap(w, ret + bias - imm)), w)
  {
    hide At, StoreBytes, Load, Encode, Modulus, Slot;
    var d, slot := Push(c, w, Wrap(w, ret + bias)), Slot(c, w);
    LoadPushed(c, w, Wrap(w, ret + bias));
    WrapLess(w, ret + bias, imm);
    var e := Encode(w, Wrap(w, ret + bias - imm));
    forall x ensures At(StoreBytes(d.mem, w, slot, e), w, x) == At(StoreBytes(c.mem, w, slot, e), w, x) {
      ModulusIsLarge(w);
      AtStored(d.mem, w, slot, e, x);
      AtStored(c.mem, w, slot, e, x);
      AtStored(c.mem, w, slot, Encode(w, Wrap(w, ret + bias)), x);
    }
  }

  lemma WrapLess(w: Mode, a: int, b: int)
    ensures Wrap(w, Wrap(w, a) - b) == Wrap(w, a - b)
  {
  }

  /** The value left on the stack is the return address under that bias.  In 32-bit code always; in
      64-bit code exactly when the distance between the two fits in 32 signed bits.  That the
      return address has itself been cut off at 32 bits on the way does not matter. */
  lemma PushedReturnIff(w: Mode, ret: int, next: int, fileBase: int, bias: int, wrt: Option<int>)
    ensures var offset := Signed32((next - fileBase) % TWO_32);
            var adjust := if wrt.Some? then wrt.value else fileBase + offset;
            var want := if wrt.Some? then wrt.value else next;
            var imm := Signed32((ret - adjust) % TWO_32);
            Wrap(w, ret + bias - imm) == Wrap(w, want + bias) <==> w == 4 || FitsInt32(Difference(ret, want))
  {
    var offset := Signed32((next - fileBase) % TWO_32);
    var adjust := if wrt.Some? then wrt.value else fileBase + offset;
    var want := if wrt.Some? then wrt.value else next;
    SameLow(ret, adjust, want, next - fileBase);
    var imm := Signed32((ret - want) % TWO_32);
    if w == 4 { Low32(ret, bias, want); } else { Low64(ret, bias, want); }
  }

  lemma SameLow(ret: int, adjust: int, want: int, x: int)
    requires adjust == want || adjust == want - x + Signed32(x % TWO_32)
    ensures (ret - adjust) % TWO_32 == (ret - want) % TWO_32
  {
  }

  lemma Low32(ret: int, bias: int, want: int)
    ensures Wrap(4, ret + bias - Signed32((ret - want) % TWO_32)) == Wrap(4, want + bias)
  {
  }

  lemma Low64(ret: int, bias: int, want: int)
    ensures Wrap(8, ret + bias - Signed32((ret - want) % TWO_32)) == Wrap(8, want + bias)
            <==> FitsInt32(Difference(ret, want))
  {
    var imm, diff := Signed32((ret - want) % TWO_32), Difference(ret, want);
    assert diff % TWO_32 == (ret - want) % TWO_32;
    assert imm == diff <==> FitsInt32(diff);
    SameIff64(ret + bias, imm, want + bias);
  }

  lemma SameIff64(a: int, imm: int, b: int)
    requires FitsInt32(imm)
    ensures Wrap(8, a - imm) == Wrap(8, b) <==> Difference(a, b) == imm
  {
  }

  /** From the call of the original program to the final image: the pair pushes the return address
      the original call would have pushed. */
  lemma PairPushesReturn(c: Cpu, w: Mode, ret: int, next: int, fileBase: int, bias: int, wrt: Option<int>)
    requires w == 4 || FitsInt32(Difference(ret, if wrt.Some? then wrt.value else next))
    ensures var adjust := if wrt.Some? then wrt.value else fileBase + Signed32((next - fileBase) % TWO_32);
            var imm := Signed32((ret - adjust) % TWO_32);
            Same(CallSub(c, w, ret, bias, imm), Push(c, w, Wrap(w, (if wrt.Some? then wrt.value else next) + bias)), w)
  {
    hide CallSub, Push, Wrap, Same, Signed32, FitsInt32;
    PushedReturnIff(w, ret, next, fileBase, bias, wrt);
    var adjust := if wrt.Some? then wrt.value else fileBase + Signed32((next - fileBase) % TWO_32);
    CallSubPushes(c, w, ret, bias, Signed32((ret - adjust) % TWO_32));
  }
}
