/** The ARM32 unpinning plugin's treatment of instructions with a pc-relative operand: an
    instruction that has moved is overwritten with a branch to a trampoline that does its work. */
module Arm32Unpin {
  import opened A32Machine
  import opened Arm32Trampoline
  import opened Arm32Words

  // ----- choosing a scratch register

  lemma {:induction false} Pigeonhole(used: set<nat>, k: nat)
    requires forall i: nat :: i < k ==> i in used
    ensures k <= |used|
    decreases k
  {
    if k > 0 {
      Pigeonhole(used - {k - 1}, k - 1);
    }
  }

  /** The lowest register not in use.  A free one always exists below the number of used ones,
      so the source's `assert(0)` after its loop cannot be reached. */
  method AllocateReg(used: set<nat>) returns (t: nat)
    requires |used| <= 14
    ensures t < 15 && t !in used && t <= |used|
    ensures forall i: nat :: i < t ==> i in used
  {
    t := 0;
    while t < 15
      invariant t <= 15 && forall i: nat :: i < t ==> i in used
    {
      if t !in used {
        Pigeonhole(used, t);
        return;
      }
      t := t + 1;
    }
    Pigeonhole(used, 15);
    assert false;
  }

  // ----- placing branches

  function BranchDistance(at: int, to: int): int { (to - at - 8) / 4 }

  /** `to` can be encoded as the target of a branch at `at`. */
  predicate InReach(at: int, to: int) {
    (to - at) % 4 == 0 && -0x80_0000 <= BranchDistance(at, to) < 0x80_0000
  }

  function PatchBytes(c: bv8, d: int): Bytes {
    [LowByte(d), LowByte(d / 0x100), LowByte(d / 0x1_0000), c]
  }

  lemma BranchPlaced(m: Memory, at: Word, c: bv8, to: Word)
    requires InReach(at, to) && c & 0x0f == 0x0a && c >> 4 != 15
    requires BytesAt(m, at, PatchBytes(c, BranchDistance(at, to)))
    ensures GoesTo(A32, m, at, (c >> 4) as int, to)
  {
    hide A32, Decode, WordOf, BytesAt, LowByte;
    var d := BranchDistance(at, to);
    LowByteIs(d);
    LowByteIs(d / 0x100);
    LowByteIs(d / 0x1_0000);
    Bytes24(d);
    BranchDecodes(PatchBytes(c, d), c, d);
    Placed(m, at, PatchBytes(c, d));
  }

  lemma Bytes24(d: int)
    ensures d % 0x100 + 0x100 * (d / 0x100 % 0x100) + 0x1_0000 * (d / 0x1_0000 % 0x100) == d % 0x100_0000
  {
    DivDiv(d);
    var q := d / 0x100;
    var r := q / 0x100;
    var e := d % 0x100 + 0x100 * (q % 0x100) + 0x1_0000 * (r % 0x100);
    assert d == e + 0x100_0000 * (r / 0x100);
    ModUnique(e, r / 0x100);
  }

  lemma ModUnique(e: int, k: int)
    requires 0 <= e < 0x100_0000
    ensures (e + 0x100_0000 * k) % 0x100_0000 == e
  {
  }

  lemma PatchPlaced(m: Memory, at: int, c: bv8, d: int)
    requires BytesAt(m, at, BranchBytes(c))
    ensures BytesAt(Store4(m, at, d % 0x100, d / 0x100 % 0x100, d / 0x1_0000 % 0x100, At(m, at + 3)), at,
                    PatchBytes(c, d))
  {
    hide LowByte;
    LowByteIs(d);
    LowByteIs(d / 0x100);
    LowByteIs(d / 0x1_0000);
  }

  lemma FormHasCondition(w: bv32)
    requires FormOf(Decode(w)) != NotPatched
    ensures Decode(w).cond == Cond(w) != 15
  {
    hide IsTransfer, IsAddImm, IsAddReg, IsVLoad, Bit, Cond, Rd, Rn, RegOperand2, ExpandImm, BranchOffset;
  }

  lemma PatchedHasCondition(b: Bytes)
    requires FormOf(Decode(WordOf(b))) != NotPatched
    ensures CondByte(b) >> 4 != 15
  {
    hide Decode, WordOf, FormOf;
    FormHasCondition(WordOf(b));
    CondByteIs(b);
  }

  lemma CondBranchPlaced(m: Memory, b: Bytes, fa: Word, l0: Word)
    requires FormOf(Decode(WordOf(b))) != NotPatched && InReach(fa, l0)
    requires BytesAt(m, fa, PatchBytes(CondByte(b), BranchDistance(fa, l0)))
    ensures GoesTo(A32, m, fa, Decode(WordOf(b)).cond, l0)
  {
    hide A32, Decode, WordOf, BytesAt, PatchBytes, CondByte, GoesTo, FormOf;
    FormHasCondition(WordOf(b));
    PatchedHasCondition(b);
    CondByteIs(b);
    BranchPlaced(m, fa, CondByte(b), l0);
  }

  lemma AlBranchPlaced(m: Memory, at: Word, to: Word)
    requires InReach(at, to) && BytesAt(m, at, PatchBytes(0xea, BranchDistance(at, to)))
    ensures GoesTo(A32, m, at, AL, to)
  {
    hide A32, Decode, WordOf, BytesAt, PatchBytes;
    BranchPlaced(m, at, 0xea, to);
  }

  // ----- trampolines as bytes

  /** The trampoline is fresh and can be branched to, and nothing wraps. */
  predicate Placement(fa: Word, l0: Word, n: int) {
    && fa + 8 <= TWO_32 && l0 + n < TWO_32 && Clear(fa, l0, n) && InReach(fa, l0)
  }

  /** The branch that ends a trampoline of `n` bytes can reach the instruction after `fa`. */
  predicate Returns(fa: Word, l0: Word, n: int) { InReach(l0 + n - 8, fa + 4) }

  ghost predicate OnlyIn(m: Memory, t: Memory, fa: int, l0: int, n: int) {
    forall x :: !(fa <= x < fa + 4) && !(l0 <= x < l0 + n) ==> At(t, x) == At(m, x)
  }

  predicate ShortBytes(m: Memory, b: Bytes, body: Bytes, fa: int, l0: int, k: Word) {
    && BytesAt(m, fa, PatchBytes(CondByte(b), BranchDistance(fa, l0)))
    && BytesAt(m, l0, LiteralLoad(RdField(b), 0x04))
    && BytesAt(m, l0 + 4, body)
    && BytesAt(m, l0 + 8, PatchBytes(0xea, BranchDistance(l0 + 8, fa + 4)))
    && LoadWord(m, l0 + 12) == k
  }

  predicate SpillBytes(m: Memory, b: Bytes, t: bv8, body: Bytes, fa: int, l0: int, k: Word) {
    && BytesAt(m, fa, PatchBytes(CondByte(b), BranchDistance(fa, l0)))
    && BytesAt(m, l0, SpillTo(t, 0xfc))
    && BytesAt(m, l0 + 4, LiteralLoad(t, 0x0c))
    && BytesAt(m, l0 + 8, PlusPc(t))
    && BytesAt(m, l0 + 12, body)
    && BytesAt(m, l0 + 16, RestoreFrom(t, 0xfc))
    && BytesAt(m, l0 + 20, PatchBytes(0xea, BranchDistance(l0 + 20, fa + 4)))
    && LoadWord(m, l0 + 24) == k
  }

  predicate DispatchBytes(m: Memory, b: Bytes, t: bv8, body: Bytes, fa: int, l0: int, k: Word) {
    && BytesAt(m, fa, PatchBytes(CondByte(b), BranchDistance(fa, l0)))
    && BytesAt(m, l0, SpillTo(t, 0xfc))
    && BytesAt(m, l0 + 4, LiteralLoad(t, 0x10))
    && BytesAt(m, l0 + 8, PlusPc(t))
    && BytesAt(m, l0 + 12, body)
    && BytesAt(m, l0 + 16, SpillTo(t, 0xf8))
    && BytesAt(m, l0 + 20, RestoreFrom(t, 0xfc))
    && BytesAt(m, l0 + 24, RestoreFrom(0xf, 0xf8))
    && LoadWord(m, l0 + 28) == k
  }

  predicate AddBytes(m: Memory, b: Bytes, t: bv8, body: Bytes, fa: int, l0: int, k: Word) {
    && BytesAt(m, fa, PatchBytes(CondByte(b), BranchDistance(fa, l0)))
    && BytesAt(m, l0, SpillTo(t, 0xfc))
    && BytesAt(m, l0 + 4, body)
    && BytesAt(m, l0 + 8, LiteralLoad(t, 0x08))
    && BytesAt(m, l0 + 12, Sum(t, RdField(b)))
    && BytesAt(m, l0 + 16, RestoreFrom(t, 0xfc))
    && BytesAt(m, l0 + 20, PatchBytes(0xea, BranchDistance(l0 + 20, fa + 4)))
    && LoadWord(m, l0 + 24) == k
  }

  // ----- what the bytes decode to

  lemma ShortDecodes(m: Memory, b: Bytes, body: Bytes, fa: Word, l0: Word, k: Word)
    requires FormOf(Decode(WordOf(b))) != NotPatched && Placement(fa, l0, 16) && Returns(fa, l0, 16)
             && Rd(WordOf(b)) != PC
    requires ShortBytes(m, b, body, fa, l0, k)
    ensures ShortLayout(A32, m, Decode(WordOf(b)).cond, Rd(WordOf(b)), Decode(WordOf(body)), fa, l0, k)
  {
    hide A32, Decode, BytesAt, LoadWord, PatchBytes, WordOf, Cond, Rd, OrAt, GoesTo, CondByte, RdField;
    RdFieldIs(b);
    LiteralWord(RdField(b), 0x04);
    Placed(m, l0, LiteralLoad(RdField(b), 0x04));
    Placed(m, l0 + 4, body);
    CondBranchPlaced(m, b, fa, l0);
    AlBranchPlaced(m, l0 + 8, fa + 4);
  }

  lemma SpillDecodes(m: Memory, b: Bytes, t: bv8, body: Bytes, fa: Word, l0: Word, k: Word)
    requires FormOf(Decode(WordOf(b))) != NotPatched && Placement(fa, l0, 28) && Returns(fa, l0, 28) && t < 15
    requires SpillBytes(m, b, t, body, fa, l0, k)
    ensures SpillLayout(A32, m, Decode(WordOf(b)).cond, t as int, Decode(WordOf(body)), fa, l0, k)
  {
    hide A32, Decode, BytesAt, LoadWord, PatchBytes, WordOf, GoesTo, CondByte, SpillTo, RestoreFrom, LiteralLoad,
         PlusPc;
    SpillWord(t);
    LiteralWord(t, 0x0c);
    AddPcWord(t);
    RestoreWord(t);
    Placed(m, l0, SpillTo(t, 0xfc));
    Placed(m, l0 + 4, LiteralLoad(t, 0x0c));
    Placed(m, l0 + 8, PlusPc(t));
    Placed(m, l0 + 12, body);
    Placed(m, l0 + 16, RestoreFrom(t, 0xfc));
    CondBranchPlaced(m, b, fa, l0);
    AlBranchPlaced(m, l0 + 20, fa + 4);
  }

  lemma DispatchDecodes(m: Memory, b: Bytes, t: bv8, body: Bytes, fa: Word, l0: Word, k: Word)
    requires FormOf(Decode(WordOf(b))) != NotPatched && InReach(fa, l0) && t < 15
    requires DispatchBytes(m, b, t, body, fa, l0, k)
    ensures DispatchLayout(A32, m, Decode(WordOf(b)).cond, t as int, Decode(WordOf(body)), fa, l0, k)
  {
    hide A32, Decode, BytesAt, LoadWord, PatchBytes, WordOf, GoesTo, CondByte, SpillTo, RestoreFrom, LiteralLoad,
         PlusPc;
    SpillWord(t);
    LiteralWord(t, 0x10);
    AddPcWord(t);
    RestoreWord(t);
    RestoreWord(0xf);
    Placed(m, l0, SpillTo(t, 0xfc));
    Placed(m, l0 + 4, LiteralLoad(t, 0x10));
    Placed(m, l0 + 8, PlusPc(t));
    Placed(m, l0 + 12, body);
    Placed(m, l0 + 16, SpillTo(t, 0xf8));
    Placed(m, l0 + 20, RestoreFrom(t, 0xfc));
    Placed(m, l0 + 24, RestoreFrom(0xf, 0xf8));
    CondBranchPlaced(m, b, fa, l0);
  }

  lemma AddDecodes(m: Memory, b: Bytes, t: bv8, body: Bytes, fa: Word, l0: Word, k: Word)
    requires FormOf(Decode(WordOf(b))) != NotPatched && Placement(fa, l0, 28) && Returns(fa, l0, 28) && t < 15
             && Rd(WordOf(b)) != PC
    requires AddBytes(m, b, t, body, fa, l0, k)
    ensures AddLayout(A32, m, Decode(WordOf(b)).cond, t as int, Rd(WordOf(b)), Decode(WordOf(body)), fa, l0, k)
  {
    hide A32, Decode, BytesAt, LoadWord, PatchBytes, WordOf, GoesTo, CondByte, SpillTo, RestoreFrom, LiteralLoad, Sum,
         RdField, Rd;
    RdFieldIs(b);
    SpillWord(t);
    LiteralWord(t, 0x08);
    SumWord(t, RdField(b));
    RestoreWord(t);
    Placed(m, l0, SpillTo(t, 0xfc));
    Placed(m, l0 + 4, body);
    Placed(m, l0 + 8, LiteralLoad(t, 0x08));
    Placed(m, l0 + 12, Sum(t, RdField(b)));
    Placed(m, l0 + 16, RestoreFrom(t, 0xfc));
    CondBranchPlaced(m, b, fa, l0);
    AlBranchPlaced(m, l0 + 20, fa + 4);
  }
}
