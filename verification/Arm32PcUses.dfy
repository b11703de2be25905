/** How an add may use the program counter.  Its trampoline makes up once for having moved, so it is
    right for an add that uses the program counter once, and for others hardly ever. */
module Arm32PcUses {
  import opened A32Machine
  import opened Arm32Trampoline
  import opened Modular

  /** The program counter is added once and unshifted, as base or as second operand: what the source
      assumes of a register add. */
  predicate AddsPcOnce(i: Insn) {
    i.Add? && ((i.rn == PC && !ReadsPc(i.op2)) || (i.rn != PC && i.op2 == ShiftedByImm(PC, 0, 0)))
  }

  /** What is added to the program counter. */
  function Addend(i: Insn, s: Cpu): Word
    requires i.Add?
  {
    if i.rn == PC then EvalOp2(s, i.op2) else s.r(i.rn)
  }

  /** The add multiplies the program counter by `m` and adds `y`. */
  ghost predicate Multiplies(i: Insn, s: Cpu, m: nat, y: int)
    requires i.Add?
  {
    forall q: Word :: SumAt(i, s, q) == Wrap(y + m * (q + 8))
  }

  lemma PcFree(s: Cpu, q: Word, op2: Operand2)
    requires !ReadsPc(op2)
    ensures EvalOp2(s.(pc := q), op2) == EvalOp2(s, op2)
  {
    hide ShiftValue, Wrap;
  }

  lemma WrapPlus(x: int, y: int)
    ensures Wrap(Wrap(x) + y) == Wrap(x + y)
  {
    ModTwice(x, y, TWO_32);
  }

  lemma OnceSum(i: Insn, s: Cpu, q: Word)
    requires AddsPcOnce(i)
    ensures SumAt(i, s, q) == Wrap(Addend(i, s) + 1 * (q + 8))
  {
    hide EvalOp2, Wrap;
    WrapPlus(q + 8, Addend(i, s));
    if i.rn == PC { PcFree(s, q, i.op2); } else { PlainRegister(s.(pc := q), PC); }
  }

  lemma OnceMultiplies(i: Insn, s: Cpu)
    requires AddsPcOnce(i)
    ensures Multiplies(i, s, 1, Addend(i, s))
  {
    assert i.Add?;
    hide SumAt, Wrap, AddsPcOnce;
    forall q: Word ensures SumAt(i, s, q) == Wrap(Addend(i, s) + 1 * (q + 8)) { OnceSum(i, s, q); }
  }

  /** The program counter shifted left. */
  lemma ShiftedPc(s: Cpu, q: Word, n: nat)
    requires n < 32
    ensures EvalOp2(s.(pc := q), ShiftedByImm(PC, 0, n)) == Wrap(Pow2(n) * (q + 8))
  {
    hide Pow2, Wrap;
    var x := Wrap(q + 8);
    assert EvalOp2(s.(pc := q), ShiftedByImm(PC, 0, n)) == Wrap(x * Pow2(n));
    WrapTimes(q + 8, Pow2(n));
  }

  lemma WrapTimes(x: int, m: int)
    ensures Wrap(Wrap(x) * m) == Wrap(m * x)
  {
    var k := x / TWO_32;
    assert x == TWO_32 * k + Wrap(x);
    assert m * x == TWO_32 * (k * m) + Wrap(x) * m;
    ModShift(Wrap(x) * m, k * m, TWO_32);
  }

  /** Shifted left and added to another register. */
  lemma ShiftedMultiplies(i: Insn, s: Cpu, n: nat)
    requires i.Add? && n < 32 && i.rn != PC && i.op2 == ShiftedByImm(PC, 0, n)
    ensures Multiplies(i, s, Pow2(n), s.r(i.rn))
  {
    hide EvalOp2, Wrap, Pow2;
    forall q: Word ensures SumAt(i, s, q) == Wrap(s.r(i.rn) + Pow2(n) * (q + 8)) {
      ShiftedPc(s, q, n);
      WrapPlus(Pow2(n) * (q + 8), s.r(i.rn));
    }
  }

  /** Both base and second operand. */
  lemma TwiceMultiplies(i: Insn, s: Cpu, n: nat)
    requires i.Add? && n < 32 && i.rn == PC && i.op2 == ShiftedByImm(PC, 0, n)
    ensures Multiplies(i, s, 1 + Pow2(n), 0)
  {
    hide EvalOp2, Wrap, Pow2;
    forall q: Word ensures SumAt(i, s, q) == Wrap(0 + (1 + Pow2(n)) * (q + 8)) {
      ShiftedPc(s, q, n);
      WrapPlus(q + 8, Wrap(Pow2(n) * (q + 8)));
      WrapPlus(Pow2(n) * (q + 8), q + 8);
      assert (1 + Pow2(n)) * (q + 8) == Pow2(n) * (q + 8) + (q + 8);
    }
  }

  /** Neither. */
  lemma UnusedMultiplies(i: Insn, s: Cpu)
    requires i.Add? && i.rn != PC && !ReadsPc(i.op2)
    ensures Multiplies(i, s, 0, s.r(i.rn) + EvalOp2(s, i.op2))
  {
    hide EvalOp2, Wrap;
    forall q: Word ensures SumAt(i, s, q) == Wrap(s.r(i.rn) + EvalOp2(s, i.op2) + 0 * (q + 8)) {
      PcFree(s, q, i.op2);
    }
  }

  // ----- when the trampoline makes up for it

  /** The trampoline gives the right sum exactly if the distance from `p` to the add in it, taken
      `m` - 1 times, is 0 modulo 2^32. */
  lemma TrampolinedIff(i: Insn, s: Cpu, m: nat, y: int, p: Word, l0: Word)
    requires i.Add? && l0 + 4 < TWO_32 && Multiplies(i, s, m, y)
    ensures Trampolined(i, s, p, l0) == SumAt(i, s, p) <==> ((m - 1) * (l0 + 4 - p)) % TWO_32 == 0
  {
    hide SumAt;
    var at: Word := l0 + 4;
    var here, there := y + m * (p + 8), y + m * (at + 8);
    assert SumAt(i, s, p) == Wrap(here) && SumAt(i, s, at) == Wrap(there);
    hide Multiplies, Wrap;
    WrapPlus(p - l0 - 4, Wrap(there));
    WrapPlus(there, p - l0 - 4);
    FactorSum(y, m, p, at);
    ModuloIff(here, (m - 1) * (at - p));
  }

  lemma FactorSum(y: int, m: nat, p: int, at: int)
    ensures y + m * (at + 8) + (p - at) == y + m * (p + 8) + (m - 1) * (at - p)
  {
    assert m * (at + 8) == m * (p + 8) + m * (at - p);
    assert (m - 1) * (at - p) == m * (at - p) - (at - p);
  }

  lemma ModuloIff(a: int, b: int)
    ensures Wrap(a + b) == Wrap(a) <==> b % TWO_32 == 0
  {
    SameModIff(a, b, TWO_32);
  }

  /** As the source assumes: always. */
  lemma OnceIsRight(i: Insn, s: Cpu, p: Word, l0: Word)
    requires AddsPcOnce(i) && l0 + 4 < TWO_32
    ensures Trampolined(i, s, p, l0) == SumAt(i, s, p)
  {
    assert i.Add?;
    hide AddsPcOnce, Multiplies, Trampolined, SumAt;
    OnceMultiplies(i, s);
    TrampolinedIff(i, s, 1, Addend(i, s), p, l0);
  }

  /** Shifted left, or not used at all: only if the instruction believes itself where the add of the
      trampoline is. */
  lemma ShiftedIff(i: Insn, s: Cpu, n: nat, p: Word, l0: Word)
    requires i.Add? && 0 < n < 32 && i.rn != PC && i.op2 == ShiftedByImm(PC, 0, n) && l0 + 4 < TWO_32
    ensures Trampolined(i, s, p, l0) == SumAt(i, s, p) <==> p == l0 + 4
  {
    hide Multiplies, Trampolined, SumAt, Pow2;
    OddPower(n);
    ShiftedMultiplies(i, s, n);
    TrampolinedIff(i, s, Pow2(n), s.r(i.rn), p, l0);
    OddDistance(Pow2(n) - 1, l0 + 4, p);
  }

  lemma UnusedIff(i: Insn, s: Cpu, p: Word, l0: Word)
    requires i.Add? && i.rn != PC && !ReadsPc(i.op2) && l0 + 4 < TWO_32
    ensures Trampolined(i, s, p, l0) == SumAt(i, s, p) <==> p == l0 + 4
  {
    hide Multiplies, Trampolined, SumAt, EvalOp2;
    UnusedMultiplies(i, s);
    TrampolinedIff(i, s, 0, s.r(i.rn) + EvalOp2(s, i.op2), p, l0);
    OddDistance(-1, l0 + 4, p);
  }

  /** Twice: exactly if the distance, shifted left as well, is 0 modulo 2^32. */
  lemma TwiceIff(i: Insn, s: Cpu, n: nat, p: Word, l0: Word)
    requires i.Add? && n < 32 && i.rn == PC && i.op2 == ShiftedByImm(PC, 0, n) && l0 + 4 < TWO_32
    ensures Trampolined(i, s, p, l0) == SumAt(i, s, p) <==> (Pow2(n) * (l0 + 4 - p)) % TWO_32 == 0
    ensures n == 0 ==> (Trampolined(i, s, p, l0) == SumAt(i, s, p) <==> p == l0 + 4)
  {
    assert n == 0 ==> Pow2(n) == 1;
    hide Multiplies, Trampolined, SumAt, Pow2;
    TwiceMultiplies(i, s, n);
    TrampolinedIff(i, s, 1 + Pow2(n), 0, p, l0);
    if n == 0 { OddDistance(1, l0 + 4, p); }
  }

  /** The jumps that add to the program counter keep their operand, so that must not use the program
      counter in its turn: exactly if, shifted left, the distance is 0 modulo 2^32. */
  lemma JumpOperandIff(i: Insn, s: Cpu, n: nat, p: Word, l0: Word)
    requires i.Add? && n < 32 && i.op2 == ShiftedByImm(PC, 0, n) && l0 + 12 < TWO_32
    ensures OperandAt(i, s, l0 + 12) == OperandAt(i, s, p) <==> (Pow2(n) * (l0 + 12 - p)) % TWO_32 == 0
  {
    hide EvalOp2, Wrap, Pow2;
    ShiftedPc(s, p, n);
    ShiftedPc(s, l0 + 12, n);
    assert Pow2(n) * (l0 + 12 + 8) == Pow2(n) * (p + 8) + Pow2(n) * (l0 + 12 - p);
    ModuloIff(Pow2(n) * (p + 8), Pow2(n) * (l0 + 12 - p));
  }

  // ----- odd factors

  lemma OddDistance(m: int, a: Word, b: Word)
    requires m % 2 == 1
    ensures (m * (a - b)) % TWO_32 == 0 <==> b == a
  {
    var d: int := a - b;
    Pow2Is32();
    OddFactor(m, d, 32);
    if d % TWO_32 == 0 { Small(d); }
  }

  lemma OddPower(n: nat)
    requires n > 0
    ensures (Pow2(n) - 1) % 2 == 1
  {
    var half := Pow2(n - 1);
    assert Pow2(n) == 2 * half;
    hide Pow2;
    LessThanEven(half);
  }

  lemma LessThanEven(k: int)
    ensures (2 * k - 1) % 2 == 1
  {
  }

  lemma Small(d: int)
    requires d % TWO_32 == 0 && -TWO_32 < d < TWO_32
    ensures d == 0
  {
  }

  lemma Pow2Is32()
    ensures Pow2(32) == TWO_32
  {
    assert Pow2(8) == 0x100;
    assert Pow2(16) == 0x1_0000;
    assert Pow2(24) == 0x100_0000;
  }

  /** A power of two divides a multiple by an odd number only if it divides the number itself. */
  lemma {:induction false} OddFactor(m: int, d: int, n: nat)
    requires m % 2 == 1
    ensures (m * d) % Pow2(n) == 0 <==> d % Pow2(n) == 0
    decreases n
  {
    if n > 0 {
      var q := Pow2(n - 1);
      OddProduct(m, d);
      if d % 2 == 0 {
        var e := d / 2;
        assert m * d == 2 * (m * e);
        OddFactor(m, e, n - 1);
        HalfIff(m * e, q);
        HalfIff(e, q);
      } else {
        OddNotMultiple(m * d, q);
        OddNotMultiple(d, q);
      }
    }
  }

  lemma OddProduct(m: int, d: int)
    requires m % 2 == 1
    ensures (m * d) % 2 == d % 2
  {
    var k := m / 2;
    assert m == 2 * k + 1;
    assert m * d == 2 * (k * d) + d;
  }

  lemma HalfIff(a: int, q: nat)
    requires q > 0
    ensures (2 * a) % (2 * q) == 0 <==> a % q == 0
  {
    var k, r := a / q, a % q;
    assert a == q * k + r;
    assert 2 * a == (2 * q) * k + 2 * r;
    ModUnique(2 * a, k, 2 * r, 2 * q);
  }

  lemma OddNotMultiple(a: int, q: nat)
    requires q > 0 && a % 2 == 1
    ensures a % (2 * q) != 0
  {
    var k, r := a / (2 * q), a % (2 * q);
    assert a == (2 * q) * k + r;
    assert a == 2 * (q * k) + r;
  }

  // ----- inputs that fail

  /** `add r2, pc, pc` and `add r2, r1, pc, lsl #2` at 0x1000, with their trampoline at 0x8000, are
      wrong in every state. */
  lemma OtherUsesFail(s: Cpu)
    ensures var twice, shifted := Add(AL, false, PC, 2, ShiftedByImm(PC, 0, 0)),
            Add(AL, false, 1, 2, ShiftedByImm(PC, 0, 2));
      && FormOf(twice) == FormOf(shifted) == AddRegForm && Supported(twice, 0) && Supported(shifted, 0)
      && !Honoured(s, twice, 0, 0x1000, 0x8000) && !Honoured(s, shifted, 0, 0x1000, 0x8000)
  {
    hide Trampolined, SumAt, FlagsStay, Restores;
    TwiceIff(Add(AL, false, PC, 2, ShiftedByImm(PC, 0, 0)), s, 0, 0x1000, 0x8000);
    ShiftedIff(Add(AL, false, 1, 2, ShiftedByImm(PC, 0, 2)), s, 2, 0x1000, 0x8000);
  }

  /** So is `addls pc, pc, pc`. */
  lemma JumpOverPcFails(s: Cpu)
    ensures var i := Add(9, false, PC, PC, ShiftedByImm(PC, 0, 0));
            FormOf(i) == DispatchForm && Supported(i, 0) && !Honoured(s, i, 0, 0x1000, 0x8000)
  {
    hide OperandAt;
    JumpOperandIff(Add(9, false, PC, PC, ShiftedByImm(PC, 0, 0)), s, 0, 0x1000, 0x8000);
  }
}
