/** What the trampolines that replace out-of-range pc-relative instructions do, wherever they are. */
module A64Trampolines {
  import opened A64Machine

  function PageOffset(a: nat): nat { a % 0x1000 }

  predicate Is(code: Code, at: int, i: Insn) { at in code && code[at] == i }

  /** A branch from `at` to `to`. */
  function Jump(at: int, to: int): Insn { B((to - at) / 4) }

  lemma RunOne(code: Code, c: Cpu, n: nat, i: Insn)
    requires c.pc >= 0 && Is(code, c.pc, i)
    ensures Run(code, c, n + 1) == Run(code, Exec(i, c), n)
  {
    hide Exec;
  }

  lemma RunNone(code: Code, c: Cpu)
    ensures Run(code, c, 0) == c
  {
  }

  predicate Address(a: int) { 0 <= a < TWO_64 && a % 4 == 0 }

  lemma Jumps(c: Cpu, to: int)
    requires Address(c.pc) && Address(to)
    ensures Exec(Jump(c.pc, to), c) == c.(pc := to)
  {
  }

  /** Three instructions reached by a branch at `at`, the third of which branches back to behind it. */
  predicate Installed3(code: Code, at: int, l0: int, first: Insn, second: Insn) {
    && Address(at) && Address(at + 4) && Address(l0) && Address(l0 + 8)
    && Is(code, at, Jump(at, l0)) && Is(code, l0, first) && Is(code, l0 + 4, second)
        && Is(code, l0 + 8, Jump(l0 + 8, at + 4))
  }

  lemma Runs3(code: Code, c: Cpu, at: int, l0: int, first: Insn, second: Insn, c2: Cpu, c3: Cpu)
    requires Installed3(code, at, l0, first, second) && c.pc == at
    requires c2 == Exec(first, c.(pc := l0)) && c2.pc == l0 + 4 && c3 == Exec(second, c2) && c3.pc == l0 + 8
    ensures Run(code, c, 4) == c3.(pc := at + 4)
  {
    hide Run, Exec;
    Jumps(c, l0);
    RunOne(code, c, 3, Jump(at, l0));
    RunOne(code, c.(pc := l0), 2, first);
    RunOne(code, c2, 1, second);
    Jumps(c3, at + 4);
    RunOne(code, c3, 0, Jump(l0 + 8, at + 4));
    RunNone(code, c3.(pc := at + 4));
  }

  lemma PagePlusOffset(a: nat)
    requires a < TWO_64
    ensures Wrap(Wrap(PageNo(a) * 0x1000) + PageOffset(a)) == a
  {
  }

  /** adrp, then add of the page offset. */
  lemma AdrRuns(code: Code, c: Cpu, at: int, l0: int, rd: nat, target: nat)
    requires c.pc == at && rd != 31 && target < TWO_64 && l0 >= 0
    requires Installed3(code, at, l0, Adrp(rd, PageNo(target) - PageNo(l0)), AddImm(rd, rd, PageOffset(target)))
    ensures Run(code, c, 4) == SetReg(c.(pc := at + 4), rd, target)
  {
    hide Run, PageOffset, PageNo;
    var c2 := SetReg(c.(pc := l0 + 4), rd, Wrap(PageNo(target) * 0x1000));
    var c3 := SetReg(c2.(pc := l0 + 8), rd, target);
    PagePlusOffset(target);
    Runs3(code, c, at, l0, Adrp(rd, PageNo(target) - PageNo(l0)), AddImm(rd, rd, PageOffset(target)), c2, c3);
    assert c3.x == c.x[rd := target];
  }

  /** adr into the zero register changes nothing, but its trampoline adds to the stack pointer, for
      which register 31 stands in an addition.  It is harmless only if the target starts a page. */
  lemma AdrIntoZeroMovesSp(code: Code, c: Cpu, at: int, l0: nat, target: nat)
    requires c.pc == at && target < TWO_64 && 0 <= c.sp < TWO_64
    requires Installed3(code, at, l0, Adrp(31, PageNo(target) - PageNo(l0)), AddImm(31, 31, PageOffset(target)))
    ensures Run(code, c, 4) == c.(pc := at + 4, sp := Wrap(c.sp + PageOffset(target)))
    ensures Run(code, c, 4) == c.(pc := at + 4) <==> PageOffset(target) == 0
  {
    hide Run, PageNo;
    var sp := Wrap(c.sp + PageOffset(target));
    Runs3(code, c, at, l0, Adrp(31, PageNo(target) - PageNo(l0)), AddImm(31, 31, PageOffset(target)),
          c.(pc := l0 + 4), c.(pc := l0 + 8, sp := sp));
    assert sp == c.sp <==> PageOffset(target) == 0;
  }

  /** Where an integer load of the trampoline reads: the page distance was worked out from the
      second instruction, but the first one adds it to its own page. */
  function Read(target: nat, l0: nat, scaled: nat): nat {
    Wrap(Wrap((PageNo(l0) + (PageNo(target) - PageNo(l0 + 4))) * 0x1000) + scaled)
  }

  /** adrp, then a load at the scaled page offset, for a general register. */
  lemma LdrRuns(code: Code, c: Cpu, at: int, l0: nat, width: Width, rt: nat, target: nat, scaled: nat)
    requires c.pc == at && !ToVector(width) && rt != 31
    requires Installed3(code, at, l0, Adrp(rt, PageNo(target) - PageNo(l0 + 4)), LdrOffset(width, rt, rt, scaled))
    ensures Run(code, c, 4) == LoadInto(c.(pc := at + 4), width, rt, Read(target, l0, scaled))
  {
    hide Run, PageNo, LoadWord;
    var c2 := SetReg(c.(pc := l0 + 4), rt, Wrap((PageNo(l0) + (PageNo(target) - PageNo(l0 + 4))) * 0x1000));
    var v := LoadWord(c.mem, Read(target, l0, scaled), width);
    var c3 := SetReg(c2.(pc := l0 + 8), rt, v);
    Runs3(code, c, at, l0, Adrp(rt, PageNo(target) - PageNo(l0 + 4)), LdrOffset(width, rt, rt, scaled), c2, c3);
    assert c3.x == c.x[rt := v];
  }

  /** A load into the zero register changes nothing, wherever the trampoline reads. */
  lemma LdrIntoZeroRuns(code: Code, c: Cpu, at: int, l0: nat, width: Width, target: nat, scaled: nat)
    requires c.pc == at && !ToVector(width)
    requires Installed3(code, at, l0, Adrp(31, PageNo(target) - PageNo(l0 + 4)), LdrOffset(width, 31, 31, scaled))
    ensures Run(code, c, 4) == c.(pc := at + 4)
  {
    hide Run, PageNo, LoadWord;
    Runs3(code, c, at, l0, Adrp(31, PageNo(target) - PageNo(l0 + 4)), LdrOffset(width, 31, 31, scaled),
          c.(pc := l0 + 4), c.(pc := l0 + 8));
  }

  /** The integer trampoline reads what it should exactly when its first two instructions are on
      one page and the literal is aligned to its size. */
  lemma ReadIff(target: nat, l0: nat, size: nat)
    requires target < TWO_64 && l0 + 4 < TWO_64 && size in {4, 8}
    ensures Read(target, l0, PageOffset(target) / size * size) == target
            <==> PageNo(l0) == PageNo(l0 + 4) && target % size == 0
  {
    var p, o := PageNo(target), PageOffset(target) / size * size;
    Split(target, size);
    NextPage(l0);
    hide PageNo, PageOffset;
    if PageNo(l0) == PageNo(l0 + 4) {
      WrapSmall(p * 0x1000);
      WrapSmall(p * 0x1000 + o);
    } else {
      PreviousPage(p, o);
      assert PageNo(Read(target, l0, o)) != p;
    }
  }

  lemma Split(target: nat, size: nat)
    requires size in {4, 8, 16}
    ensures target == PageNo(target) * 0x1000 + PageOffset(target)
    ensures PageOffset(target) / size * size <= PageOffset(target) < 0x1000
    ensures PageOffset(target) / size * size == PageOffset(target) <==> target % size == 0
  {
    if size == 4 { Split4(target); } else if size == 8 { Split8(target); } else { Split16(target); }
  }

  lemma Split4(t: nat)
    ensures t % 0x1000 / 4 * 4 <= t % 0x1000 && (t % 0x1000 / 4 * 4 == t % 0x1000 <==> t % 4 == 0)
  {
  }

  lemma Split8(t: nat)
    ensures t % 0x1000 / 8 * 8 <= t % 0x1000 && (t % 0x1000 / 8 * 8 == t % 0x1000 <==> t % 8 == 0)
  {
  }

  lemma Split16(t: nat)
    ensures t % 0x1000 / 16 * 16 <= t % 0x1000 && (t % 0x1000 / 16 * 16 == t % 0x1000 <==> t % 16 == 0)
  {
  }

  lemma NextPage(l0: nat)
    ensures PageNo(l0) == PageNo(l0 + 4) || PageNo(l0) + 1 == PageNo(l0 + 4)
  {
  }

  lemma WrapSmall(a: int)
    requires 0 <= a < TWO_64
    ensures Wrap(a) == a
  {
  }

  lemma PreviousPage(p: nat, o: nat)
    requires p * 0x1000 < TWO_64 && o < 0x1000
    ensures PageNo(Wrap(Wrap((p - 1) * 0x1000) + o)) != p
  {
  }

  // ----- vector loads

  /** Save x0 under the stack, adrp, load, restore x0. */
  predicate Installed5(code: Code, at: int, l0: int, width: Width, rt: nat, pages: int, scaled: nat) {
    && Address(at) && Address(at + 4) && Address(l0) && Address(l0 + 16)
    && Is(code, at, Jump(at, l0)) && Is(code, l0, Stur(0, 31, -128)) && Is(code, l0 + 4, Adrp(0, pages))
    && Is(code, l0 + 8, LdrOffset(width, rt, 0, scaled)) && Is(code, l0 + 12, Ldur(0, 31, -128))
    && Is(code, l0 + 16, Jump(l0 + 16, at + 4))
  }

  lemma Runs5(code: Code, c: Cpu, at: int, l0: int, width: Width, rt: nat, pages: int, scaled: nat, c2: Cpu, c3: Cpu,
              c4: Cpu, c5: Cpu)
    requires Installed5(code, at, l0, width, rt, pages, scaled) && c.pc == at
    requires c2 == Exec(Stur(0, 31, -128), c.(pc := l0)) && c2.pc == l0 + 4 && c3 == Exec(Adrp(0, pages), c2)
             && c3.pc == l0 + 8
    requires c4 == Exec(LdrOffset(width, rt, 0, scaled), c3) && c4.pc == l0 + 12
    requires c5 == Exec(Ldur(0, 31, -128), c4) && c5.pc == l0 + 16
    ensures Run(code, c, 6) == c5.(pc := at + 4)
  {
    hide Run, Exec;
    Jumps(c, l0);
    RunOne(code, c, 5, Jump(at, l0));
    RunOne(code, c.(pc := l0), 4, Stur(0, 31, -128));
    RunOne(code, c2, 3, Adrp(0, pages));
    RunOne(code, c3, 2, LdrOffset(width, rt, 0, scaled));
    RunOne(code, c4, 1, Ldur(0, 31, -128));
    Jumps(c5, at + 4);
    RunOne(code, c5, 0, Jump(l0 + 16, at + 4));
    RunNone(code, c5.(pc := at + 4));
  }

  /** With `v` stored in the slot, a load that stays clear of it reads what it did, and the slot
      holds `v`. */
  lemma UnderTheSpill(mem: M.Memory, slot: int, v: nat, target: nat, size: nat)
    requires v < TWO_64 && M.Clear(8, slot, 8, target, size)
    ensures var m := M.StoreBytes(mem, 8, slot, L.Encode(8, v));
      M.LoadBytes(m, 8, target, size) == M.LoadBytes(mem, 8, target, size) && L.Decode(M.LoadBytes(m, 8, slot, 8)) == v
  {
    hide M.LoadBytes, M.StoreBytes, M.Clear, M.Wrap, L.Encode, L.Decode, L.Pow256;
    M.LoadElsewhere(mem, 8, slot, L.Encode(8, v), target, size);
    M.LoadStored(mem, 8, slot, L.Encode(8, v));
    M.ModulusIsPower(8);
    L.DecodeEncode(8, v);
  }

  lemma SpillSteps(c: Cpu, pages: int, base: nat)
    requires Address(c.pc) && Address(c.pc + 8) && 0 in c.x && base == Wrap((PageNo(c.pc + 4) + pages) * 0x1000)
    ensures var m := M.StoreBytes(c.mem, 8, c.sp - 128, L.Encode(8, c.x[0])); var d := c.(pc := c.pc + 4, mem := m);
      && Exec(Stur(0, 31, -128), c) == d
      && Exec(Adrp(0, pages), d) == SetReg(d.(pc := c.pc + 8), 0, base)
  {
    hide M.StoreBytes, L.Encode, PageNo;
  }

  lemma LoadSteps(c: Cpu, width: Width, rt: nat, off: nat, target: nat, v: nat)
    requires Address(c.pc) && Address(c.pc + 8) && ToVector(width) && 0 in c.x && Wrap(c.x[0] + off) == target
    requires L.Decode(M.LoadBytes(c.mem, 8, c.sp - 128, 8)) == v
    ensures var d := c.(pc := c.pc + 4, v := c.v[rt := M.LoadBytes(c.mem, 8, target, Bytes(width))]);
      && Exec(LdrOffset(width, rt, 0, off), c) == d
      && Exec(Ldur(0, 31, -128), d) == SetReg(d.(pc := c.pc + 8), 0, v)
  {
    hide M.LoadBytes, L.Decode;
  }

  /** Where the vector load of the trampoline reads: its page distance is worked out from the adrp
      itself, so only the scaling of the offset can go wrong. */
  function VectorRead(target: nat, size: nat): nat
    requires size > 0
  {
    PageNo(target) * 0x1000 + PageOffset(target) / size * size
  }

  /** It reads what it should exactly when the literal is aligned to its size. */
  lemma VectorReadIff(target: nat, size: nat)
    requires target < TWO_64 && size in {4, 8, 16}
    ensures VectorRead(target, size) == target <==> target % size == 0
    ensures VectorRead(target, size) <= target
  {
    Split(target, size);
  }

  /** A literal of 16 bytes need only be aligned to 4; then something below it is loaded. */
  lemma UnalignedVector()
    ensures 0x1004 % 4 == 0 && VectorRead(0x1004, Bytes(Q)) == 0x1000
  {
  }

  /** The eight bytes 128 below the stack pointer are used; nothing else but the vector register
      differs from what it was. */
  lemma VectorRuns(code: Code, c: Cpu, at: int, l0: nat, width: Width, rt: nat, target: nat)
    requires c.pc == at && ToVector(width) && target < TWO_64 && 0 in c.x && c.x[0] < TWO_64
    requires M.Clear(8, c.sp - 128, 8, VectorRead(target, Bytes(width)), Bytes(width))
    requires Installed5(code, at, l0, width, rt, PageNo(target) - PageNo(l0 + 4),
                        PageOffset(target) / Bytes(width) * Bytes(width))
    ensures Run(code, c, 6)
         == LoadInto(c.(pc := at + 4), width, rt, VectorRead(target, Bytes(width)))
              .(mem := M.StoreBytes(c.mem, 8, c.sp - 128, L.Encode(8, c.x[0])))
  {
    hide Run, Exec, PageNo, PageOffset, M.LoadBytes, M.StoreBytes, M.Clear, M.Wrap, L.Encode, L.Decode, L.Pow256, Is;
    var size, saved, slot := Bytes(width), L.Encode(8, c.x[0]), c.sp - 128;
    var read := VectorRead(target, size);
    var m := M.StoreBytes(c.mem, 8, slot, saved);
    var c2 := c.(pc := l0 + 4, mem := m);
    Split(target, size);
    var base := PageNo(target) * 0x1000;
    WrapSmall(base);
    var c3 := SetReg(c2.(pc := l0 + 8), 0, base);
    WrapSmall(read);
    var c4 := c3.(pc := l0 + 12, v := c.v[rt := M.LoadBytes(c.mem, 8, read, size)]);
    UnderTheSpill(c.mem, slot, c.x[0], read, size);
    var c5 := SetReg(c4.(pc := l0 + 16), 0, c.x[0]);
    SpillSteps(c.(pc := l0), PageNo(target) - PageNo(l0 + 4), base);
    LoadSteps(c3, width, rt, PageOffset(target) / size * size, read, c.x[0]);
    Runs5(code, c, at, l0, width, rt, PageNo(target) - PageNo(l0 + 4), PageOffset(target) / size * size, c2, c3, c4,
          c5);
    assert c5.x == c.x;
  }
}
