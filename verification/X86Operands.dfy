/** Displacements and immediates of x86 instructions on their way through the three passes that
    edit them: normalising to address 0, taking out the base of a data scoop, and putting final
    addresses back.  The decoder is represented by what it tells the passes: at which offset the
    four operand bytes are. */
module X86Operands {
  import opened LittleEndian
  import opened Modular

  /** Only the four bytes at `off` differ. */
  ghost predicate OnlyField(b: seq<Byte>, c: seq<Byte>, off: nat) {
    |b| == |c| && forall k | 0 <= k < |b| && !(off <= k < off + 4) :: c[k] == b[k]
  }

  function Field(b: seq<Byte>, off: nat): int
    requires off + 4 <= |b|
  {
    Signed32(WordAt(b, off, 4))
  }

  lemma FieldElsewhere(b: seq<Byte>, c: seq<Byte>, off: nat, other: nat)
    requires OnlyField(b, c, off) && other + 4 <= |b| && (other + 4 <= off || off + 4 <= other)
    ensures Field(c, other) == Field(b, other)
  {
    SameBytesSameWord(c, b, other, 4);
  }

  method SetField(b: seq<Byte>, off: nat, x: int) returns (c: seq<Byte>)
    requires off + 4 <= |b|
    ensures OnlyField(b, c, off) && Field(c, off) == Signed32(x % TWO_32)
  {
    hide WordAt, Patch, Pow256;
    c := Patch(b, off, 4, x);
    Pow4();
    PatchedWord(b, off, 4, x);
    PatchedElsewhere(b, off, 4, x);
  }

  /** What an instruction at `at` refers to with a rip-relative operand. */
  function Target(b: seq<Byte>, off: nat, at: int): int
    requires off + 4 <= |b|
  {
    at + |b| + Field(b, off)
  }

  /** What taking out the base of a scoop that starts at `start` does to the operand at `off`. */
  ghost predicate TookBase(b: seq<Byte>, c: seq<Byte>, off: nat, moveable: bool, start: int)
    requires off + 4 <= |b|
  {
    && OnlyField(b, c, off)
    && Field(c, off) == if moveable then Signed32((Field(b, off) - start) % TWO_32) else Field(b, off)
  }

  class Insn {
    var bits: seq<Byte>
    var hasPcrelReloc: bool

    constructor (bits: seq<Byte>)
      ensures this.bits == bits && !hasPcrelReloc
    {
      this.bits, hasPcrelReloc := bits, false;
    }

    /** First pass, while the IR is built: `at` is where the instruction was found. */
    method Normalise(off: nat, at: int, fileBase: int)
      requires off + 4 <= |bits| && !hasPcrelReloc
      modifies this
      ensures var newdisp := Field(old(bits), off) + at - fileBase;
        && hasPcrelReloc == FitsInt32(newdisp)
        && OnlyField(old(bits), bits, off)
        && (if FitsInt32(newdisp) then Field(bits, off) == newdisp else bits == old(bits))
    {
      var newdisp := Field(bits, off) + at - fileBase;
      SignedIff(newdisp);
      if Signed32(newdisp % TWO_32) != newdisp { return; }
      bits := SetField(bits, off, newdisp);
      hasPcrelReloc := true;
    }

    /** Second pass: the operand refers to a scoop that starts at `start`, if that scoop can move. */
    method TakeBase(off: nat, moveable: bool, start: int)
      requires off + 4 <= |bits|
      modifies this`bits
      ensures TookBase(old(bits), bits, off, moveable, start)
    {
      if !moveable { return; }
      bits := SetField(bits, off, Field(bits, off) - start);
    }

    /** Third pass, rip-relative operands: `at` is where the instruction has been placed, `to` where
        the scoop has been, or 0 if the operand was not attributed to one. */
    method PutPcrel(off: nat, at: int, to: int, fileBase: int)
      requires off + 4 <= |bits|
      modifies this`bits
      ensures OnlyField(old(bits), bits, off)
      ensures Field(bits, off) == Signed32((Field(old(bits), off) + to - (at - fileBase)) % TWO_32)
    {
      var rel := Field(bits, off) + |bits|;
      var noFileBase := at - fileBase;
      var newdisp := rel + to - |bits| - noFileBase;
      bits := SetField(bits, off, newdisp);
    }

    /** Third pass, absolute operands. */
    method PutAbsolute(off: nat, to: int, addend: int, fileBase: int)
      requires off + 4 <= |bits|
      modifies this`bits
      ensures OnlyField(old(bits), bits, off)
      ensures Field(bits, off) == Signed32((Field(old(bits), off) + to + addend - fileBase) % TWO_32)
    {
      bits := SetField(bits, off, Field(bits, off) + to + addend - fileBase);
    }

    /** Third pass, immediates, which are the last four bytes. */
    method PutImmediate(to: int)
      requires 4 < |bits|
      modifies this`bits
      ensures OnlyField(old(bits), bits, |old(bits)| - 4)
      ensures Field(bits, |bits| - 4) == Signed32((Field(old(bits), |old(bits)| - 4) + to) % TWO_32)
    {
      bits := SetField(bits, |bits| - 4, Field(bits, |bits| - 4) + to);
    }
  }

  lemma FieldChain(d0: int, d1: int, d2: int, d3: int, x: int, y: int)
    requires d2 == Signed32((d1 + x) % TWO_32) && d3 == Signed32((d2 + y) % TWO_32) && d1 == d0
    ensures d3 == Signed32((d0 + x + y) % TWO_32)
  {
    SignedIff(d1 + x);
    var d := d2 % TWO_32;
    ModTwice(d1 + x, y, TWO_32);
    ModTwice(d2, y, TWO_32);
  }

  /** All three passes over a rip-relative operand.  The instruction moves from `at0` to `at1`; the
      scoop it refers to moves from `start` to `to` (both 0 if it refers to none).  The operand ends
      up referring to the byte that used to be its target, at its new address, exactly when the
      displacement that takes fits; no byte but the displacement changes either way.  An operand
      whose normalised displacement would not fit gets no relocation and is left alone. */
  method PcrelOperand(bits: seq<Byte>, off: nat, at0: int, at1: int, start: int, to: int, fileBase: int)
    returns (i: Insn)
    requires off + 4 <= |bits|
    ensures OnlyField(bits, i.bits, off)
    ensures !FitsInt32(Field(bits, off) + at0 - fileBase) ==> i.bits == bits
    ensures FitsInt32(Field(bits, off) + at0 - fileBase) ==> (
       Target(i.bits, off, at1) == Target(bits, off, at0) - start + to
       <==> FitsInt32(Field(bits, off) + at0 - start + to - at1))
  {
    hide WordAt, FitsInt32;
    i := new Insn(bits);
    i.Normalise(off, at0, fileBase);
    if !i.hasPcrelReloc { return; }
    ghost var d1 := Field(i.bits, off);
    ghost var b1 := i.bits;
    i.TakeBase(off, true, start);
    ghost var d2 := Field(i.bits, off);
    ghost var b2 := i.bits;
    i.PutPcrel(off, at1, to, fileBase);
    FieldChain(d1, d1, d2, Field(i.bits, off), -start, to - (at1 - fileBase));
    SignedIff(Field(bits, off) + at0 - start + to - at1);
    OnlyTrans(bits, b1, b2, off);
    OnlyTrans(bits, b2, i.bits, off);
  }

  lemma OnlyTrans(a: seq<Byte>, b: seq<Byte>, c: seq<Byte>, off: nat)
    requires OnlyField(a, b, off) && OnlyField(b, c, off)
    ensures OnlyField(a, c, off)
  {
  }

  /** An absolute operand keeps its referent, modulo 2^32, exactly when the file base is a multiple
      of 2^32. */
  method AbsoluteOperand(bits: seq<Byte>, off: nat, start: int, to: int, fileBase: int) returns (i: Insn)
    requires off + 4 <= |bits|
    ensures OnlyField(bits, i.bits, off)
    ensures Field(i.bits, off) % TWO_32 == (Field(bits, off) - start + to) % TWO_32 <==> fileBase % TWO_32 == 0
  {
    hide WordAt;
    i := new Insn(bits);
    i.TakeBase(off, true, start);
    ghost var d2 := Field(i.bits, off);
    ghost var b2 := i.bits;
    i.PutAbsolute(off, to, 0, fileBase);
    FieldChain(Field(bits, off), Field(bits, off), d2, Field(i.bits, off), -start, to - fileBase);
    SignedIff(Field(bits, off) - start + to - fileBase);
    SameModIff(Field(bits, off) - start + to - fileBase, fileBase, TWO_32);
    OnlyTrans(bits, b2, i.bits, off);
  }

  method ImmediateOperand(bits: seq<Byte>, start: int, to: int) returns (i: Insn)
    requires 4 < |bits|
    ensures OnlyField(bits, i.bits, |bits| - 4)
    ensures Field(i.bits, |bits| - 4) % TWO_32 == (Field(bits, |bits| - 4) - start + to) % TWO_32
  {
    hide WordAt;
    i := new Insn(bits);
    var off := |bits| - 4;
    i.TakeBase(off, true, start);
    ghost var d2 := Field(i.bits, off);
    ghost var b2 := i.bits;
    i.PutImmediate(to);
    FieldChain(Field(bits, off), Field(bits, off), d2, Field(i.bits, off), -start, to);
    SignedIff(Field(bits, off) - start + to);
    OnlyTrans(bits, b2, i.bits, off);
  }
}
