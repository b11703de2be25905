/** A call, all the way from the original program to the final image: split into a push and a jump,
    the push replaced by a call and a subtraction. */
module CallChain {
  import opened ByteMemory
  import opened Common
  import opened LittleEndian
  import opened X86Calls
  import opened CallLowering
  import opened PushRelocation

  lemma SameLoad(c: Cpu, d: Cpu, w: Mode, a: int)
    requires Same(c, d, w)
    ensures Load(c, w, a) == Load(d, w, a)
  {
    hide At, Decode;
    assert LoadBytes(c.mem, w, a, w) == LoadBytes(d.mem, w, a, w);
  }

  lemma SameTarget(op: Operand, c: Cpu, d: Cpu, w: Mode, rip: int)
    requires Same(c, d, w)
    ensures Target(op, c, w, rip) == Target(op, d, w, rip)
  {
    hide At, Load;
    if op.Memory? { SameLoad(c, d, w, Address(op, c, w, rip)); }
  }

  lemma SameBoth(c: Cpu, d: Cpu, e: Cpu, w: Mode)
    requires Same(c, d, w)
    ensures Same(c, e, w) <==> Same(d, e, w)
  {
    hide At;
  }

  /** Two pushes leave the same behind only if they push the same. */
  lemma SamePushIff(c: Cpu, w: Mode, x: nat, y: nat)
    requires x < Modulus(w) && y < Modulus(w)
    ensures Same(Push(c, w, x), Push(c, w, y), w) <==> x == y
  {
    hide At, Load, Slot, Modulus, StoreBytes, Encode;
    LoadPushed(c, w, x);
    LoadPushed(c, w, y);
    if Same(Push(c, w, x), Push(c, w, y), w) {
      SameLoad(Push(c, w, x), Push(c, w, y), w, Slot(c, w));
    }
  }

  /** Where the call is to return to, and what the subtraction takes off: `next` is the original
      return address, `ret` that of the new call. */
  function Wanted(next: int, wrt: Option<int>): int { if wrt.Some? then wrt.value else next }

  function Taken(ret: int, next: int, fileBase: int, wrt: Option<int>): int {
    Signed32((ret - if wrt.Some? then wrt.value else fileBase + Signed32((next - fileBase) % TWO_32)) % TWO_32)
  }

  /** Under every load bias, the call, the subtraction and the jump together do what the original
      call does: the stack and the registers are the same exactly if the distance to the return
      address fits (in 32-bit code always), and control goes to the same place. */
  lemma ChainIsCall(b: seq<Byte>, c: Cpu, w: Mode, rip: int, ret: int, next: int, fileBase: int, bias: int,
                    wrt: Option<int>)
    requires Indirect(b, w) && Survives(b, w) && Reg(c, SP) < Modulus(w)
    requires var op := OperandOf(b, w); op.Memory? ==> OffSlot(c, w, Address(op, c, w, rip))
    ensures var op, d := OperandOf(b, w), CallSub(c, w, ret, bias, Taken(ret, next, fileBase, wrt));
            var (called, target) := Call(op, c, w, rip, Wrap(w, Wanted(next, wrt) + bias));
      && (Same(d, called, w) <==> w == 4 || FitsInt32(Difference(ret, Wanted(next, wrt))))
      && Target(Grown(op, Growth(b, w)), d, w, rip) == target
  {
    var grown := Grown(OperandOf(b, w), Growth(b, w));
    hide OperandOf, Growth, Push, Address, Reg, Survives, Indirect, Same, CallSub, Target, FitsInt32, Difference, Grown,
         OffSlot;
    var imm := Taken(ret, next, fileBase, wrt);
    var d, pushed, want := CallSub(c, w, ret, bias, imm), Wrap(w, ret + bias - imm), Wrap(w, Wanted(next, wrt) + bias);
    CallSubPushes(c, w, ret, bias, imm);
    PushedReturnIff(w, ret, next, fileBase, bias, wrt);
    SamePushIff(c, w, pushed, want);
    SameBoth(d, Push(c, w, pushed), Push(c, w, want), w);
    LoweredCallIsFaithful(b, c, w, rip, pushed);
    SameTarget(grown, d, Push(c, w, pushed), w, rip);
  }
}
