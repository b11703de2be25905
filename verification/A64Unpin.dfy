/** Moving an A64 instruction with a pc-relative operand: in place if the operand can still be
    reached, through a trampoline if not. */
module A64Unpin {
  import opened A64Machine
  import opened A64Trampolines
  import opened A64Words

  // ----- in place

  /** The three new immediates, in the 64-bit arithmetic that works them out. */
  function NewAdr(imm: int, orig: nat, loc: nat, addend: int): int { Signed(Wrap(imm + orig - loc + addend)) }

  function NewAdrp(pages: int, orig: nat, loc: nat, addend: int): int { pages + PageNo(orig) - PageNo(loc) + addend }

  function NewLiteral(words: int, orig: nat, loc: nat, addend: int): int {
    Signed(Wrap(4 * words + orig + 4 - loc - 4 + addend)) / 4
  }

  function InPlaceWord(w: Word, orig: nat, loc: nat, addend: int): int {
    match Decode(w)
    case Adr(_, imm) => SetImm21(w, NewAdr(imm, orig, loc, addend))
    case Adrp(_, pages) => SetImm21(w, NewAdrp(pages, orig, loc, addend))
    case LdrLiteral(_, _, words) => SetImm19(w, NewLiteral(words, orig, loc, addend))
    case _ => w
  }

  predicate Reaches(i: Insn, orig: nat, loc: nat, addend: int) {
    match i
    case Adr(_, imm) => Fits21(NewAdr(imm, orig, loc, addend))
    case Adrp(_, pages) => Fits21(NewAdrp(pages, orig, loc, addend))
    case LdrLiteral(_, _, words) => Fits19(NewLiteral(words, orig, loc, addend))
    case _ => false
  }

  /** What the instruction should form or read at its new place.  An addend counts bytes, except for
      adrp, where it counts pages. */
  function Target(i: Insn, orig: nat, addend: int): nat {
    if i.Adrp? then Wrap(Formed(i, orig) + addend * 0x1000) else Wrap(Formed(i, orig) + addend)
  }

  predicate SameButImm(i: Insn, j: Insn) {
    match i
    case Adr(rd, _) => j.Adr? && j.rd == rd
    case Adrp(rd, _) => j.Adrp? && j.rd == rd
    case LdrLiteral(width, rt, _) => j.LdrLiteral? && j.rt == rt && j.width == width
    case _ => false
  }

  lemma AdrFields(w: Word)
    ensures Decode(w).Adr? || Decode(w).Adrp? <==> w / 0x100_0000 % 32 == 0x10
    ensures w / 0x100_0000 % 32 == 0x10 ==>
              Decode(w) == (var imm := Ext(Imm19(w) * 4 + ImmLo(w), 0x10_0000);
                            if w / 0x8000_0000 == 0 then Adr(Rd(w), imm) else Adrp(Rd(w), imm))
  {
    hide Rd, Rn, Imm12, Imm19, ImmLo, Imm9, Imm26, Bytes;
    OpByte(w);
  }

  lemma LiteralFields(w: Word, v: Word)
    requires Decode(w).LdrLiteral? && v / 0x100_0000 == w / 0x100_0000
    ensures Decode(w) == Literal(Decode(w).width, w) && Decode(v) == Literal(Decode(w).width, v)
  {
    hide Rd, Rn, Imm12, Imm19, ImmLo, Imm9, Imm26, Bytes;
    OpByte(w);
    OpByte(v);
    LiteralOp(w);
  }

  lemma LiteralOp(w: Word)
    requires Decode(w).LdrLiteral?
    ensures w / 0x100_0000 % 0x100 in {0x18, 0x58, 0x98, 0x1C, 0x5C, 0x9C} && w / 0x40_0000 % 0x400 != 0x244
  {
    hide Rd, Rn, Imm12, Imm19, ImmLo, Imm9, Imm26, Bytes;
  }

  lemma AdrInPlace(imm: int, orig: nat, loc: nat, addend: int)
    ensures Wrap(loc + NewAdr(imm, orig, loc, addend)) == Wrap(Wrap(orig + imm) + addend)
  {
  }

  lemma AdrpInPlace(pages: int, orig: nat, loc: nat, addend: int)
    ensures Wrap((PageNo(loc) + NewAdrp(pages, orig, loc, addend)) * 0x1000)
         == Wrap(Wrap((PageNo(orig) + pages) * 0x1000) + addend * 0x1000)
  {
  }

  /** The literal is reached exactly when the distance moved is a multiple of a word. */
  lemma LiteralInPlaceIff(words: int, orig: nat, loc: nat, addend: int)
    ensures Wrap(loc + 4 * NewLiteral(words, orig, loc, addend)) == Wrap(Wrap(orig + 4 * words) + addend)
       <==> (orig - loc + addend) % 4 == 0
  {
    hide Wrap, Signed;
    var d := 4 * words + orig - loc + addend;
    var k := SignedWrap(d);
    var s := d + k * TWO_64;
    var n, r := s / 4, s % 4;
    assert 4 * n == s - r;
    assert loc + 4 * n == (loc + d - r) + k * TWO_64;
    WrapShift(loc + d - r, k);
    ModFour(4 * words + orig - loc + addend, words, k);
    AddressAgain(orig + 4 * words, addend);
    OffByLittle(loc + d, r);
  }

  lemma SignedWrap(d: int) returns (k: int)
    ensures Signed(Wrap(d)) == d + k * TWO_64
  {
    k := -(d / TWO_64);
    assert Wrap(d) == d + k * TWO_64;
    if Wrap(d) >= TWO_63 { k := k - 1; }
  }

  lemma WrapShift(a: int, k: int)
    ensures Wrap(a + k * TWO_64) == Wrap(a)
  {
  }

  lemma ModFour(d: int, words: int, k: int)
    ensures (d + k * TWO_64) % 4 == (d - 4 * words) % 4
  {
    PlusFours(d - 4 * words, words + k * 0x4000_0000_0000_0000);
  }

  lemma PlusFours(a: int, j: int)
    ensures (a + 4 * j) % 4 == a % 4
  {
  }

  lemma OffByLittle(a: int, r: nat)
    requires r < 4
    ensures Wrap(a - r) == Wrap(a) <==> r == 0
  {
  }

  predicate PcRelative(i: Insn) { i.Adr? || i.Adrp? || i.LdrLiteral? }

  /** The edited word is the same instruction, and reaches its target from its new place. */
  lemma InPlaceIsRight(w: Word, orig: nat, loc: nat, addend: int)
    requires PcRelative(Decode(w)) && Reaches(Decode(w), orig, loc, addend)
    ensures var v := InPlaceWord(w, orig, loc, addend);
      && 0 <= v < 0x1_0000_0000 && SameButImm(Decode(w), Decode(v))
      && (Formed(Decode(v), loc) == Target(Decode(w), orig, addend)
          <==> (Decode(w).LdrLiteral? ==> (orig - loc + addend) % 4 == 0))
  {
    hide Decode, Wrap, Signed, PageNo, SetImm19, SetImm21, Imm19, ImmLo, Rd;
    AdrFields(w);
    match Decode(w) {
      case Adr(rd, imm) =>
        var n := NewAdr(imm, orig, loc, addend);
        Reencoded21(w, n);
        AdrFields(SetImm21(w, n));
        AdrInPlace(imm, orig, loc, addend);
      case Adrp(rd, pages) =>
        var n := NewAdrp(pages, orig, loc, addend);
        Reencoded21(w, n);
        AdrFields(SetImm21(w, n));
        AdrpInPlace(pages, orig, loc, addend);
      case LdrLiteral(width, rt, words) =>
        var n := NewLiteral(words, orig, loc, addend);
        Reencoded19(w, n);
        LiteralFields(w, SetImm19(w, n));
        LiteralInPlaceIff(words, orig, loc, addend);
    }
  }

  // ----- placing

  function Decoded(words: map<int, nat>): Code { map a | a in words :: Decode(words[a]) }

  datatype Form = InPlace | Three | Five

  function FormOf(i: Insn, orig: nat, loc: nat, addend: int): Form {
    if Reaches(i, orig, loc, addend) then InPlace
    else if i.LdrLiteral? && ToVector(i.width) then Five
    else Three
  }

  /** How many bytes of trampoline are written, and how many are reserved. */
  function Room(f: Form): nat { match f case InPlace => 0 case Three => 12 case Five => 20 }
  function Reserved(f: Form): nat { match f case InPlace => 0 case Three => 12 case Five => 12 }

  /** What placing leaves in the memory space. */
  predicate Placed(code: Code, f: Form, i: Insn, loc: int, l0: nat, target: nat) {
    match f
    case InPlace => loc in code && SameButImm(i, code[loc]) && loc >= 0 && Formed(code[loc], loc) == target
    case Three =>
      if i.Adr? then Installed3(code, loc, l0, Adrp(i.rd, PageNo(target) - PageNo(l0)),
                                AddImm(i.rd, i.rd, PageOffset(target)))
      else i.LdrLiteral? && Installed3(code, loc, l0, Adrp(i.rt, PageNo(target) - PageNo(l0 + 4)),
                                       LdrOffset(i.width, i.rt, i.rt,
                                                 PageOffset(target) / Bytes(i.width) * Bytes(i.width)))
    case Five =>
      i.LdrLiteral? && Installed5(code, loc, l0, i.width, i.rt, PageNo(target) - PageNo(l0 + 4),
                                  PageOffset(target) / Bytes(i.width) * Bytes(i.width))
  }

  /** What the assertions of the source and the placement of branches take for granted. */
  predicate Placeable(f: Form, i: Insn, loc: int, l0: int, target: nat) {
    && Address(loc) && Address(loc + 4)
    && (!f.InPlace? ==>
          && !i.Adrp? && Address(l0) && Address(l0 + Room(f) - 4) && (loc < l0 || l0 + Room(f) <= loc)
          && InReach(loc, l0) && InReach(l0 + Room(f) - 4, loc + 4)
          && Fits21(PageNo(target) - PageNo(if i.Adr? then l0 else l0 + 4)))
  }

  predicate OutOf(a: int, l0: int, n: nat) { !(l0 <= a < l0 + n) }

  /** Nothing changed but at `loc` and in the trampoline at `l0`. */
  ghost predicate OnlyThere<T>(before: map<int, T>, after: map<int, T>, loc: int, l0: int, n: nat) {
    forall a | a in before && a != loc && OutOf(a, l0, n) :: a in after && after[a] == before[a]
  }

  lemma OneWord(words: map<int, nat>, loc: int, word: nat, l0: int)
    ensures OnlyThere(words, words[loc := word], loc, l0, 0)
  {
  }

  class Unpin {
    var words: map<int, nat>

    method Plop(at: int, word: int)
      requires word >= 0
      modifies this
      ensures words == old(words)[at := word]
    {
      words := words[at := word];
    }

    method PlopThree(loc: int, l0: int, first: int, second: int)
      requires Address(loc) && Address(loc + 4) && Address(l0) && Address(l0 + 8) && (loc < l0 || l0 + 12 <= loc)
      requires InReach(loc, l0) && InReach(l0 + 8, loc + 4) && first >= 0 && second >= 0
      modifies this
      ensures Installed3(Decoded(words), loc, l0, Decode(first), Decode(second))
      ensures OnlyThere(old(words), words, loc, l0, 12)
    {
      hide Decode, BranchWord;
      BranchDecodes(loc, l0);
      BranchDecodes(l0 + 8, loc + 4);
      Plop(loc, BranchWord(loc, l0));
      Plop(l0, first);
      Plop(l0 + 4, second);
      Plop(l0 + 8, BranchWord(l0 + 8, loc + 4));
    }

    /** adr and adrp. */
    method MoveAdr(w: Word, orig: nat, loc: int, addend: int, l0: nat) returns (form: Form)
      requires (Decode(w).Adr? || Decode(w).Adrp?) && Address(orig) && Address(loc)
               && -0x1_0000_0000 < addend < 0x1_0000_0000
      requires Placeable(FormOf(Decode(w), orig, loc, addend), Decode(w), loc, l0, Target(Decode(w), orig, addend))
      modifies this
      ensures form == FormOf(Decode(w), orig, loc, addend)
      ensures Placed(Decoded(words), form, Decode(w), loc, l0, Target(Decode(w), orig, addend))
      ensures OnlyThere(old(words), words, loc, l0, Room(form))
    {
      hide Decode, Wrap, Signed, SetImm21, AdrpWord, AddWord, Decoded, OnlyThere;
      var i := Decode(w);
      ImmediatesAreSmall(w);
      var newImm := if i.Adr? then NewAdr(i.imm, orig, loc, addend) else NewAdrp(i.pages, orig, loc, addend);
      NewIs64(if i.Adr? then i.imm else i.pages, orig, loc, addend);
      Shift43Iff(newImm);
      if Shift43(newImm) == newImm {
        InPlaceIsRight(w, orig, loc, addend);
        OneWord(words, loc, SetImm21(w, newImm), l0);
        Plop(loc, SetImm21(w, newImm));
        DecodedAt(words, loc, SetImm21(w, newImm));
        return InPlace;
      }
      var address := Wrap(i.imm + orig + addend);
      AddressAgain(i.imm + orig, addend);
      OffsetSmall(address);
      AdrpDecodes(i.rd, PageNo(address) - PageNo(l0));
      AddDecodes(i.rd, PageOffset(address));
      AddWordPositive(i.rd, PageOffset(address));
      PlopThree(loc, l0, AdrpWord(i.rd, PageNo(address) - PageNo(l0)), AddWord(i.rd, PageOffset(address)));
      return Three;
    }

    method PlopFive(loc: int, l0: int, width: Width, rt: nat, pages: int, scaled: nat, second: int, third: int)
      requires Address(loc) && Address(loc + 4) && Address(l0) && Address(l0 + 16) && (loc < l0 || l0 + 20 <= loc)
      requires InReach(loc, l0) && InReach(l0 + 16, loc + 4) && second >= 0 && third >= 0
      requires Decode(second) == Adrp(0, pages) && Decode(third) == LdrOffset(width, rt, 0, scaled)
      modifies this
      ensures Installed5(Decoded(words), loc, l0, width, rt, pages, scaled)
      ensures OnlyThere(old(words), words, loc, l0, 20)
    {
      hide Decode, BranchWord, Decoded, Is, InReach;
      BranchDecodes(loc, l0);
      BranchDecodes(l0 + 16, loc + 4);
      SaveRestoreDecode();
      Plop(loc, BranchWord(loc, l0));
      Plop(l0, SAVE_X0);
      Plop(l0 + 4, second);
      Plop(l0 + 8, third);
      Plop(l0 + 12, RESTORE_X0);
      Plop(l0 + 16, BranchWord(l0 + 16, loc + 4));
      DecodedAt(words, loc, BranchWord(loc, l0));
      DecodedAt(words, l0, SAVE_X0);
      DecodedAt(words, l0 + 4, second);
      DecodedAt(words, l0 + 8, third);
      DecodedAt(words, l0 + 12, RESTORE_X0);
      DecodedAt(words, l0 + 16, BranchWord(l0 + 16, loc + 4));
    }

    /** ldr of a general or vector register, and ldrsw. */
    method MoveLiteral(w: Word, orig: nat, loc: int, addend: int, l0: nat) returns (form: Form)
      requires Decode(w).LdrLiteral? && Address(orig) && Address(loc) && addend % 4 == 0
      requires Placeable(FormOf(Decode(w), orig, loc, addend), Decode(w), loc, l0, Target(Decode(w), orig, addend))
      modifies this
      ensures form == FormOf(Decode(w), orig, loc, addend)
      ensures Placed(Decoded(words), form, Decode(w), loc, l0, Target(Decode(w), orig, addend))
      ensures OnlyThere(old(words), words, loc, l0, Room(form))
    {
      hide Decode, Wrap, Signed, SetImm19, AdrpWord, LdrWord, LdrswWord, VectorWord, Decoded, PageOffset, PageNo,
           OnlyThere;
      var i := Decode(w);
      ImmediatesAreSmall(w);
      var newImm := NewLiteral(i.words, orig, loc, addend);
      LiteralIs64(i.words, orig, loc, addend);
      Shift45Iff(newImm);
      if Shift45(newImm) == newImm {
        InPlaceIsRight(w, orig, loc, addend);
        OneWord(words, loc, SetImm19(w, newImm), l0);
        Plop(loc, SetImm19(w, newImm));
        DecodedAt(words, loc, SetImm19(w, newImm));
        return InPlace;
      }
      var address := Wrap(4 * i.words + orig + addend);
      AddressAgain(4 * i.words + orig, addend);
      OffsetSmall(address);
      form := if ToVector(i.width) then Five else Three;
      PlaceLiteral(w, loc, address, l0, form);
    }

    /** The trampoline for a literal at `address`. */
    method PlaceLiteral(w: Word, loc: int, address: nat, l0: nat, form: Form)
      requires Decode(w).LdrLiteral? && form == (if ToVector(Decode(w).width) then Five else Three)
      requires Placeable(form, Decode(w), loc, l0, address)
      modifies this
      ensures Placed(Decoded(words), form, Decode(w), loc, l0, address)
      ensures OnlyThere(old(words), words, loc, l0, Room(form))
    {
      hide Decode, AdrpWord, LdrWord, LdrswWord, VectorWord, Decoded, PageOffset, PageNo, Installed3, Installed5,
           OnlyThere;
      var i := Decode(w);
      ImmediatesAreSmall(w);
      OffsetSmall(address);
      SizeBits(w);
      var pages, off := PageNo(address) - PageNo(l0 + 4), PageOffset(address);
      WordsPositive(i.rt, off);
      if form == Five {
        var opc := w / 0x4000_0000 % 4;
        AdrpDecodes(0, pages);
        VectorDecodes(i.rt, opc, off);
        PlopFive(loc, l0, i.width, i.rt, pages, off / Bytes(i.width) * Bytes(i.width), AdrpWord(0, pages),
                 VectorWord(i.rt, opc, off));
      } else {
        AdrpDecodes(i.rt, pages);
        LdrswDecodes(i.rt, off);
        LdrDecodes(i.rt, w / 0x4000_0000 % 2, off);
        PlopThree(loc, l0, AdrpWord(i.rt, pages), if i.width.SW? then LdrswWord(i.rt, off)
                  else LdrWord(i.rt, w / 0x4000_0000 % 2, off));
      }
    }
  }

  lemma WordsPositive(rt: nat, off: nat)
    requires rt < 32 && off < 0x1000
    ensures LdrswWord(rt, off) >= 0
    ensures forall size :: 0 <= size < 2 ==> LdrWord(rt, size, off) >= 0
    ensures forall opc :: 0 <= opc < 3 ==> VectorWord(rt, opc, off) >= 0
  {
  }

  lemma LiteralIs64(words: int, orig: nat, loc: nat, addend: int)
    ensures Int64(NewLiteral(words, orig, loc, addend))
  {
  }

  // ----- what the moved instruction does

  /** `c` after the load or address formation, with `target` as its address. */
  function Done(i: Insn, c: Cpu, target: nat, next: int): Cpu {
    match i
    case Adr(rd, _) => SetReg(c.(pc := next), rd, target)
    case Adrp(rd, _) => SetReg(c.(pc := next), rd, target)
    case LdrLiteral(width, rt, _) => LoadInto(c.(pc := next), width, rt, target)
    case _ => c
  }

  /** That is what the instruction itself does at its own place. */
  lemma DoneIsExec(i: Insn, c: Cpu)
    requires PcRelative(i) && c.pc >= 0
    ensures Exec(i, c) == Done(i, c, Formed(i, c.pc), Wrap(c.pc + 4))
  {
  }

  /** A vector load also leaves the old x0 in the eight bytes 128 below the stack pointer. */
  function Result(f: Form, i: Insn, c: Cpu, target: nat, next: int): Cpu {
    var d := Done(i, c, target, next);
    if f.Five? then d.(mem := M.StoreBytes(c.mem, 8, c.sp - 128, L.Encode(8, Reg(c, 0)))) else d
  }

  /** The address that the moved instruction forms or reads. */
  function Used(f: Form, i: Insn, l0: nat, target: nat): nat {
    if !i.LdrLiteral? || f.InPlace? then target
    else if f.Five? then VectorRead(target, Bytes(i.width))
    else Read(target, l0, PageOffset(target) / Bytes(i.width) * Bytes(i.width))
  }

  /** It is the right one exactly if the literal is aligned to its size and, for a general register,
      the first two instructions of the trampoline are on one page. */
  lemma UsedIff(f: Form, i: Insn, l0: nat, target: nat)
    requires i.LdrLiteral? && !f.InPlace? && target < TWO_64 && l0 + 4 < TWO_64
    requires f.Five? <==> ToVector(i.width)
    ensures Used(f, i, l0, target) == target
            <==> target % Bytes(i.width) == 0 && (f.Five? || PageNo(l0) == PageNo(l0 + 4))
  {
    hide Read, VectorRead, PageNo, PageOffset;
    if f.Five? { VectorReadIff(target, Bytes(i.width)); } else { ReadIff(target, l0, Bytes(i.width)); }
  }

  /** What the trampolines need beyond being installed: adr does not name register 31, and a vector
      load stays clear of the eight bytes that are spilled to. */
  ghost predicate Suitable(f: Form, i: Insn, c: Cpu, l0: nat, target: nat) {
    && (f.Three? && i.Adr? ==> i.rd != 31)
    && (f.Five? ==> i.LdrLiteral? && 0 in c.x && c.x[0] < TWO_64
                    && M.Clear(8, c.sp - 128, 8, Used(f, i, l0, target), Bytes(i.width)))
  }

  function Steps(f: Form): nat { match f case InPlace => 1 case Three => 4 case Five => 6 }

  lemma InPlaceRuns(code: Code, i: Insn, c: Cpu, target: nat)
    requires PcRelative(i) && Address(c.pc) && Address(c.pc + 4) && Placed(code, InPlace, i, c.pc, 0, target)
    ensures Run(code, c, 1) == Done(i, c, target, c.pc + 4)
  {
    hide Run, Exec, LoadInto, Formed;
    RunOne(code, c, 0, code[c.pc]);
    RunNone(code, Exec(code[c.pc], c));
    DoneIsExec(code[c.pc], c);
  }

  /** From the place where the instruction used to be, and back to behind it: the destination holds
      what the instruction would have put there with the address that is used, and nothing else has
      changed, for every placement, register file and memory. */
  lemma MovedInsnSimulates(code: Code, f: Form, i: Insn, c: Cpu, l0: nat, target: nat)
    requires PcRelative(i) && (f.Five? <==> !f.InPlace? && i.LdrLiteral? && ToVector(i.width)) && target < TWO_64
    requires Address(c.pc) && Address(c.pc + 4) && Placed(code, f, i, c.pc, l0, target) && Suitable(f, i, c, l0, target)
    ensures Run(code, c, Steps(f)) == Result(f, i, c, Used(f, i, l0, target), c.pc + 4)
  {
    hide Run, Installed3, Installed5, LoadInto, M.Clear, PageNo, PageOffset, M.StoreBytes, L.Encode, VectorRead, Read;
    match f {
      case InPlace => InPlaceRuns(code, i, c, target);
      case Five => VectorRuns(code, c, c.pc, l0, i.width, i.rt, target);
      case Three =>
        if i.Adr? {
          AdrRuns(code, c, c.pc, l0, i.rd, target);
        } else {
          IntegerRuns(code, i, c, l0, target);
        }
    }
  }

  lemma IntegerRuns(code: Code, i: Insn, c: Cpu, l0: nat, target: nat)
    requires i.LdrLiteral? && !ToVector(i.width) && target < TWO_64 && Placed(code, Three, i, c.pc, l0, target)
    ensures Run(code, c, 4) == LoadInto(c.(pc := c.pc + 4), i.width, i.rt, Used(Three, i, l0, target))
  {
    hide Run, PageNo, PageOffset, LoadWord, Read;
    var scaled := PageOffset(target) / Bytes(i.width) * Bytes(i.width);
    if i.rt == 31 {
      LdrIntoZeroRuns(code, c, c.pc, l0, i.width, target, scaled);
    } else {
      LdrRuns(code, c, c.pc, l0, i.width, i.rt, target, scaled);
    }
  }

  /** What a relocation asks for: its addend counts bytes, except for adrp, where it counts pages. */
  lemma TargetIs(i: Insn, orig: nat, addend: int)
    requires PcRelative(i)
    ensures i.Adr? ==> Target(i, orig, addend) == Wrap(orig + i.imm + addend)
    ensures i.Adrp? ==> Target(i, orig, addend) == Wrap((orig / 0x1000 + i.pages + addend) * 0x1000)
    ensures i.LdrLiteral? ==> Target(i, orig, addend) == Wrap(orig + 4 * i.words + addend)
    ensures addend == 0 ==> Target(i, orig, addend) == Formed(i, orig)
  {
    var add: int := if i.Adrp? then addend * 0x1000 else addend;
    WrapTwice(if i.Adr? then orig + i.imm else if i.Adrp? then (PageNo(orig) + i.pages) * 0x1000
              else orig + 4 * i.words,
              add);
  }

  lemma WrapTwice(a: int, b: int)
    ensures Wrap(Wrap(a) + b) == Wrap(a + b)
  {
  }

  /** Without an addend, an instruction moved from `orig` still does what it did there, if a literal
      that is read through a trampoline is aligned to its size and, for a general register, the first
      two instructions of the trampoline are on one page. */
  lemma ActsAsBefore(code: Code, f: Form, i: Insn, c: Cpu, l0: nat, orig: nat)
    requires PcRelative(i) && (f.Five? <==> !f.InPlace? && i.LdrLiteral? && ToVector(i.width))
    requires Address(c.pc) && Address(c.pc + 4) && l0 + 4 < TWO_64
    requires Placed(code, f, i, c.pc, l0, Target(i, orig, 0)) && Suitable(f, i, c, l0, Target(i, orig, 0))
    requires i.LdrLiteral? && !f.InPlace? ==>
               Formed(i, orig) % Bytes(i.width) == 0 && (f.Five? || PageNo(l0) == PageNo(l0 + 4))
    ensures Run(code, c, Steps(f)) ==
            Exec(i, c.(pc := orig)).(
              pc := c.pc + 4,
              mem := if f.Five? then M.StoreBytes(c.mem, 8, c.sp - 128, L.Encode(8, Reg(c, 0))) else c.mem)
  {
    hide Run, Placed, Suitable, M.StoreBytes, L.Encode, Used, Formed, Target, PageNo;
    TargetIs(i, orig, 0);
    FormedBound(i, orig);
    MovedInsnSimulates(code, f, i, c, l0, Target(i, orig, 0));
    if i.LdrLiteral? && !f.InPlace? { UsedIff(f, i, l0, Target(i, orig, 0)); }
    UsedInPlace(f, i, l0, Target(i, orig, 0));
    DoneIsExec(i, c.(pc := orig));
  }

  lemma FormedBound(i: Insn, pc: nat)
    ensures Formed(i, pc) < TWO_64
  {
  }

  lemma UsedInPlace(f: Form, i: Insn, l0: nat, target: nat)
    ensures !i.LdrLiteral? || f.InPlace? ==> Used(f, i, l0, target) == target
  {
    hide VectorRead, Read, PageOffset;
  }

  // ----- placing another instruction later

  /** A trampoline starts with neither a restoring load nor a branch. */
  lemma FirstWord(code: Code, f: Form, i: Insn, loc: int, l0: nat, target: nat)
    requires Placed(code, f, i, loc, l0, target) && !f.InPlace?
    ensures l0 in code && l0 % 4 == 0 && (code[l0].Adrp? || code[l0].Stur?)
  {
    hide PageNo, PageOffset;
  }

  lemma FiveOutlives(before: Code, after: Code, loc: int, l0: nat, width: Width, rt: nat, pages: int, scaled: nat,
                     loc1: int, l1: nat, n: nat)
    requires Installed5(before, loc, l0, width, rt, pages, scaled) && OnlyThere(before, after, loc1, l1, n)
    requires loc1 != loc && OutOf(loc1, l0, 20) && OutOf(loc, l1, n) && (l1 + n <= l0 || l0 + 20 <= l1)
    ensures Installed5(after, loc, l0, width, rt, pages, scaled)
  {
    hide Address;
    Outlives(before, after, loc1, l1, n, loc);
    Outlives(before, after, loc1, l1, n, l0);
    Outlives(before, after, loc1, l1, n, l0 + 4);
    Outlives(before, after, loc1, l1, n, l0 + 8);
    Outlives(before, after, loc1, l1, n, l0 + 12);
    Outlives(before, after, loc1, l1, n, l0 + 16);
  }

  lemma Outlives(before: Code, after: Code, loc1: int, l1: nat, n: nat, a: int)
    requires OnlyThere(before, after, loc1, l1, n) && a in before && a != loc1 && OutOf(a, l1, n)
    ensures a in after && after[a] == before[a]
  {
  }

  /** The range of a later trampoline only keeps clear of what was reserved.  A vector trampoline
      outlives the later placement exactly if that does not start in the eight bytes it uses beyond
      its reservation. */
  lemma LaterPlacementIff(before: Code, after: Code, i: Insn, loc: int, l0: nat, target: nat,
                          f: Form, j: Insn, loc1: int, l1: nat, target1: nat)
    requires Placed(before, Five, i, loc, l0, target) && Placed(after, f, j, loc1, l1, target1) && !f.InPlace?
    requires OnlyThere(before, after, loc1, l1, Room(f))
    requires loc1 != loc && OutOf(loc1, l0, 20) && OutOf(loc, l1, Room(f))
    requires l1 + Room(f) <= l0 || l0 + Reserved(Five) <= l1
    ensures Placed(after, Five, i, loc, l0, target) <==> OutOf(l1, l0 + 12, 8)
  {
    hide PageNo, PageOffset, OnlyThere;
    FirstWord(after, f, j, loc1, l1, target1);
    if OutOf(l1, l0 + 12, 8) {
      hide Installed3, Installed5;
      FiveOutlives(before, after, loc, l0, i.width, i.rt, PageNo(target) - PageNo(l0 + 4),
                   PageOffset(target) / Bytes(i.width) * Bytes(i.width), loc1, l1, Room(f));
    } else {
      assert l1 == l0 + 12 || l1 == l0 + 16;
    }
  }

  lemma ImmediatesAreSmall(w: Word)
    ensures Decode(w).Adr? ==> Fits21(Decode(w).imm) && Decode(w).rd < 32
    ensures Decode(w).Adrp? ==> Fits21(Decode(w).pages) && Decode(w).rd < 32
    ensures Decode(w).LdrLiteral? ==> Fits19(Decode(w).words) && Decode(w).rt < 32
  {
    hide Rn, Imm12, Imm9, Imm26, Bytes;
  }

  lemma NewIs64(imm: int, orig: nat, loc: nat, addend: int)
    requires Fits21(imm) && orig < TWO_64 && loc < TWO_64 && -0x1_0000_0000 < addend < 0x1_0000_0000
    ensures Int64(NewAdr(imm, orig, loc, addend)) && Int64(NewAdrp(imm, orig, loc, addend))
  {
  }

  lemma AddressAgain(a: int, b: int)
    ensures Wrap(Wrap(a) + b) == Wrap(a + b)
  {
  }

  lemma OffsetSmall(a: nat)
    ensures PageOffset(a) < 0x1000
  {
  }

  lemma AddWordPositive(rd: nat, off: nat)
    ensures AddWord(rd, off) >= 0
  {
  }

  /** Which width goes with the size bits that the source looks at. */
  lemma SizeBits(w: Word)
    requires Decode(w).LdrLiteral?
    ensures match Decode(w).width
            case W => w / 0x4000_0000 % 2 == 0
            case X => w / 0x4000_0000 % 2 == 1
            case SW => true
            case S => w / 0x4000_0000 % 4 == 0
            case D => w / 0x4000_0000 % 4 == 1
            case Q => w / 0x4000_0000 % 4 == 2
  {
    hide Rd, Rn, Imm12, Imm19, ImmLo, Imm9, Imm26, Bytes;
    OpByte(w);
  }

  lemma DecodedAt(words: map<int, nat>, a: int, w: nat)
    requires a in words && words[a] == w
    ensures Is(Decoded(words), a, Decode(w))
  {
    hide Decode;
  }
}
