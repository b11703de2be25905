/** Slots of switch tables that are met more than once, and what patching them then comes to. */
module SharedSlots {
  import P = PatchedScoops
  import C = Coalescing
  import opened LittleEndian
  import opened Modular
  import opened MoveGlobals
  import opened UnpinBudget
  import opened UnpinTables
  import opened SwitchPatching

  function Front<T>(s: seq<T>): seq<T>
    requires s != []
  {
    s[..|s| - 1]
  }

  function Last<T>(s: seq<T>): T
    requires s != []
  {
    s[|s| - 1]
  }

  function Relocs(relocs: seq<Reloc>, slot: (nat, int)): nat {
    if relocs == [] then 0 else Relocs(Front(relocs), slot) + if Last(relocs).slot == slot then 1 else 0
  }

  /** How often a slot is looked at. */
  function Times(cs: seq<Candidate>, slot: (nat, int)): nat {
    if cs == [] then 0 else Times(Front(cs), slot) + if Last(cs).slot == slot then 1 else 0
  }

  function Relocated(log: seq<Scan>, slot: (nat, int)): nat {
    if log == [] then 0
    else Relocated(Front(log), slot) + if Last(log).slot == slot && Last(log).relocated then 1 else 0
  }

  lemma LookCounts(l: Ledger, c: Candidate, slot: (nat, int))
    ensures Relocs(Look(l, c).relocs, slot) - Relocs(l.relocs, slot)
            == Relocated(Look(l, c).log, slot) - Relocated(l.log, slot)
  {
    var m := Look(l, c);
    assert Front(m.log) == l.log;
    if m.relocs != l.relocs { assert Front(m.relocs) == l.relocs; }
  }

  lemma {:induction false} LookAllCounts(l: Ledger, cs: seq<Candidate>, slot: (nat, int))
    ensures Relocs(LookAll(l, cs).relocs, slot) - Relocs(l.relocs, slot)
         == Relocated(LookAll(l, cs).log, slot) - Relocated(l.log, slot)
  {
    hide Look, Relocs, Relocated;
    if cs != [] {
      LookAllCounts(l, Front(cs), slot);
      LookCounts(LookAll(l, Front(cs)), Last(cs), slot);
    }
  }

  lemma {:induction false} AllOrNoneRelocated(log: seq<Scan>, cs: seq<Candidate>, slot: (nat, int), all: bool)
    requires |log| == |cs| && forall k :: 0 <= k < |cs| ==> log[k].slot == cs[k].slot
    requires forall k :: 0 <= k < |cs| && cs[k].slot == slot ==> log[k].relocated == all
    ensures Relocated(log, slot) == if all then Times(cs, slot) else 0
  {
    if cs != [] {
      AllOrNoneRelocated(Front(log), Front(cs), slot, all);
    }
  }

  /** A slot gets one relocation each time it is looked at if its instruction is unpinned, and none
      otherwise. */
  lemma OneRelocPerLook(l: Ledger, cs: seq<Candidate>, slot: (nat, int), insn: nat)
    requires l.Sound() && l.log == [] && l.relocs == [] && forall c | c in cs && c.slot == slot :: c.insn == insn
    ensures Relocs(LookAll(l, cs).relocs, slot) == if insn in LookAll(l, cs).unpinned then Times(cs, slot) else 0
  {
    hide LookAll, Times, Relocated, Relocs, Ledger.Sound;
    var end := LookAll(l, cs);
    LookAllIsSound(l, cs);
    LooksAtEach(l, cs);
    LookAllCounts(l, cs, slot);
    forall k | 0 <= k < |cs| && cs[k].slot == slot ensures end.log[k].relocated == (insn in end.unpinned) {
      LoggedIff(end, k);
    }
    AllOrNoneRelocated(end.log, cs, slot, insn in end.unpinned);
    NoneYet(slot);
  }

  lemma LoggedIff(l: Ledger, k: nat)
    requires l.Sound() && k < |l.log|
    ensures l.log[k].relocated <==> l.log[k].insn in l.unpinned
  {
    assert l.log[k] in l.log;
  }

  lemma NoneYet(slot: (nat, int))
    ensures Relocs([], slot) == 0 && Relocated([], slot) == 0 && Times([], slot) == 0
  {
  }

  // ----- the same relocations, as the unpinner of scoops has them

  /** Scoops are known by number here, and a slot is somewhere in one. */
  predicate Resolved(relocs: seq<Reloc>, scoopOf: map<nat, DataScoop>) {
    forall r | r in relocs :: r.slot.0 in scoopOf && r.slot.1 >= 0
  }

  function AsScoopReloc(r: Reloc, scoopOf: map<nat, DataScoop>): U.ScoopReloc
    requires r.slot.0 in scoopOf && r.slot.1 >= 0
  {
    match r.kind
    case DataToInsnPtr => U.CodePtr(scoopOf[r.slot.0], r.slot.1, r.insn)
    case SwitchType4 => U.SwitchEntry(scoopOf[r.slot.0], r.slot.1, r.insn, r.addend)
  }

  function AsScoopRelocs(relocs: seq<Reloc>, scoopOf: map<nat, DataScoop>): (rs: seq<U.ScoopReloc>)
    requires Resolved(relocs, scoopOf)
    ensures |rs| == |relocs| && forall i :: 0 <= i < |rs| ==> rs[i] == AsScoopReloc(relocs[i], scoopOf)
  {
    if relocs == [] then []
    else
      assert Last(relocs) in relocs && forall r | r in Front(relocs) :: r in relocs;
      AsScoopRelocs(Front(relocs), scoopOf) + [AsScoopReloc(Last(relocs), scoopOf)]
  }

  ghost predicate Injective(scoopOf: map<nat, DataScoop>) {
    forall a, b | a in scoopOf && b in scoopOf && scoopOf[a] == scoopOf[b] :: a == b
  }

  lemma {:induction false} SameCount(relocs: seq<Reloc>, scoopOf: map<nat, DataScoop>, slot: (nat, int))
    requires Resolved(relocs, scoopOf) && Injective(scoopOf) && slot.0 in scoopOf && slot.1 >= 0
    ensures P.Count(AsScoopRelocs(relocs, scoopOf), scoopOf[slot.0], slot.1) == Relocs(relocs, slot)
  {
    hide AsScoopReloc;
    if relocs != [] {
      assert Last(relocs) in relocs && forall r | r in Front(relocs) :: r in relocs;
      SameCount(Front(relocs), scoopOf, slot);
      AsReloc(Last(relocs), scoopOf);
      assert Front(AsScoopRelocs(relocs, scoopOf)) == AsScoopRelocs(Front(relocs), scoopOf);
    }
  }

  lemma AsReloc(r: Reloc, scoopOf: map<nat, DataScoop>)
    requires r.slot.0 in scoopOf && r.slot.1 >= 0
    ensures var q := AsScoopReloc(r, scoopOf); q.from == scoopOf[r.slot.0] && q.offset == r.slot.1
  {
  }

  /** The bytes that a slot has, given those of a pointer. */
  function SlotWidth(kind: Kind, width: nat): nat { if kind == SwitchType4 then 4 else width }

  /** What else is looked at in the same scoop keeps clear of `e`. */
  ghost predicate OnlyOne(cs: seq<Candidate>, e: Candidate, width: nat) {
    forall c | c in cs && c.slot.0 == e.slot.0 :: c == e || Avoids(c, e, width)
  }

  ghost predicate OnlyEntry(cs: seq<Candidate>, e: Candidate, width: nat) {
    e.kind == SwitchType4 && OnlyOne(cs, e, width)
  }

  predicate Avoids(c: Candidate, e: Candidate, width: nat) {
    && c.slot.1 != e.slot.1
    && (e.slot.1 + SlotWidth(e.kind, width) <= c.slot.1 || c.slot.1 + SlotWidth(c.kind, width) <= e.slot.1)
  }

  lemma RelocsAlone(l: Ledger, cs: seq<Candidate>, e: Candidate, scoopOf: map<nat, DataScoop>, width: nat)
    requires l.relocs == [] && OnlyOne(cs, e, width) && Injective(scoopOf)
    requires Resolved(LookAll(l, cs).relocs, scoopOf) && e.slot.0 in scoopOf && e.slot.1 >= 0
    ensures P.Alone(AsScoopRelocs(LookAll(l, cs).relocs, scoopOf), AsScoopReloc(RelocOf(e), scoopOf), width)
  {
    hide LookAll;
    var relocs := LookAll(l, cs).relocs;
    var rs, q := AsScoopRelocs(relocs, scoopOf), AsScoopReloc(RelocOf(e), scoopOf);
    forall r | r in rs && r.from == q.from ensures r == q || (!P.Overlap(r, q, width) && r.offset != q.offset) {
      var i :| 0 <= i < |rs| && rs[i] == r;
      assert relocs[i] in relocs;
      RelocsStem(l, cs, i);
    }
  }

  // ----- pointers

  /** `final` is what the unpinner makes of the scoops `t`, given these relocations. */
  ghost predicate PatchedTo(relocs: seq<Reloc>, scoopOf: map<nat, DataScoop>, t: map<DataScoop, C.Scoop>,
                            final: map<DataScoop, C.Scoop>, code: U.Code, width: nat) {
    && Injective(scoopOf) && Resolved(relocs, scoopOf)
    && var rs := AsScoopRelocs(relocs, scoopOf);
    U.Known(t, rs, code, width) && final == U.Unpinned(t, rs, code, width)
  }

  /** After any run of tables, a pointer that was looked at holds the new location of its instruction,
      cut off at its width, if that is unpinned and may move, however often it was looked at; and what
      it held before if not. */
  lemma PointerSlotIff(w: World, p: Progress, ts: seq<Table>, e: Candidate, scoopOf: map<nat, DataScoop>,
                       t: map<DataScoop, C.Scoop>, final: map<DataScoop, C.Scoop>, code: U.Code)
    requires p.ledger.Sound() && p.ledger.log == [] && p.ledger.relocs == []
    requires e.kind == DataToInsnPtr && e in LookedAt(w, p, ts) && OnlyOne(LookedAt(w, p, ts), e, w.ptrSize)
    requires PatchedTo(Run(w, p, ts).ledger.relocs, scoopOf, t, final, code, w.ptrSize) && e.insn in code.loc
    requires e.slot.0 in scoopOf && e.slot.1 >= 0 && scoopOf[e.slot.0] in t && !t[scoopOf[e.slot.0]].Executable()
    requires e.slot.1 + w.ptrSize <= |t[scoopOf[e.slot.0]].contents|
    ensures var s := scoopOf[e.slot.0];
      && s in final && |final[s].contents| == |t[s].contents|
      && WordAt(final[s].contents, e.slot.1, w.ptrSize)
         == if e.insn in Run(w, p, ts).ledger.unpinned && e.insn !in code.pinned
            then code.loc[e.insn] % Pow256(w.ptrSize) else WordAt(t[s].contents, e.slot.1, w.ptrSize)
  {
    hide LookAll, Ledger.Sound, WordAt, Pow256, U.Applied, P.Alone, U.FitsIn, AsScoopRelocs, Resolved, Run, LookedAt,
         OnlyOne;
    var cs, s := LookedAt(w, p, ts), scoopOf[e.slot.0];
    RunIsLooks(w, p, ts);
    var l := LookAll(p.ledger, cs);
    RelocsAlone(p.ledger, cs, e, scoopOf, w.ptrSize);
    P.SharedPointer(t[s].contents, AsScoopRelocs(l.relocs, scoopOf), AsScoopReloc(RelocOf(e), scoopOf), t, code,
                    w.ptrSize);
    RelocatedIff(p.ledger, cs, e, scoopOf);
  }

  lemma RelocatedIff(l: Ledger, cs: seq<Candidate>, e: Candidate, scoopOf: map<nat, DataScoop>)
    requires l.Sound() && e in cs
    requires Injective(scoopOf) && Resolved(LookAll(l, cs).relocs, scoopOf) && e.slot.0 in scoopOf && e.slot.1 >= 0
    requires e.kind == DataToInsnPtr
    ensures AsScoopReloc(RelocOf(e), scoopOf) in AsScoopRelocs(LookAll(l, cs).relocs, scoopOf)
       <==> e.insn in LookAll(l, cs).unpinned
  {
    hide LookAll, Ledger.Sound;
    var l' := LookAll(l, cs);
    var relocs, rs, q := l'.relocs, AsScoopRelocs(l'.relocs, scoopOf), AsScoopReloc(RelocOf(e), scoopOf);
    AllEntriesRelocated(l, cs, e);
    LookAllIsSound(l, cs);
    if RelocOf(e) in relocs {
      var i :| 0 <= i < |relocs| && relocs[i] == RelocOf(e);
      assert rs[i] == q;
    }
    if q in rs {
      var i :| 0 <= i < |rs| && rs[i] == q;
      assert relocs[i] in relocs;
      OnlyUnpinned(l', relocs[i]);
    }
  }

  lemma OnlyUnpinned(l: Ledger, r: Reloc)
    requires l.Sound() && r in l.relocs
    ensures r.insn in l.unpinned
  {
  }

  // ----- entries of switch tables

  /** The instruction of `e` is unpinned by the pass whose state is `l`, and may move; and `final` is
      what the unpinner makes of the scoops, in which the entry used to be `word`. */
  ghost predicate Patches(l: Ledger, e: Candidate, scoopOf: map<nat, DataScoop>, word: nat, t: map<DataScoop, C.Scoop>,
                          final: map<DataScoop, C.Scoop>, code: U.Code, width: nat)
  {
    && e.insn in l.unpinned && e.insn in code.loc && e.insn !in code.pinned
    && PatchedTo(l.relocs, scoopOf, t, final, code, width) && e.slot.0 in scoopOf && e.slot.1 >= 0
    && var s := scoopOf[e.slot.0];
    && s in t && !t[s].Executable() && e.slot.1 + 4 <= |t[s].contents| && word == WordAt(t[s].contents, e.slot.1, 4)
  }

  /** What the entry is in the end. */
  ghost function FinalEntry(e: Candidate, scoopOf: map<nat, DataScoop>, final: map<DataScoop, C.Scoop>): nat
    requires e.slot.0 in scoopOf && e.slot.1 >= 0 && scoopOf[e.slot.0] in final
    requires e.slot.1 + 4 <= |final[scoopOf[e.slot.0]].contents|
  {
    WordAt(final[scoopOf[e.slot.0]].contents, e.slot.1, 4)
  }

  lemma HasFinalEntry(l: Ledger, e: Candidate, scoopOf: map<nat, DataScoop>, word: nat, t: map<DataScoop, C.Scoop>,
                      final: map<DataScoop, C.Scoop>, code: U.Code, width: nat)
    requires Patches(l, e, scoopOf, word, t, final, code, width)
    ensures e.slot.0 in scoopOf && e.slot.1 >= 0 && scoopOf[e.slot.0] in final
    ensures e.slot.1 + 4 <= |final[scoopOf[e.slot.0]].contents| && e.insn in code.loc && word < TWO_32
  {
    EntryBound(t[scoopOf[e.slot.0]].contents, e.slot.1);
  }

  lemma SumInEntry(l: Ledger, cs: seq<Candidate>, e: Candidate, scoopOf: map<nat, DataScoop>, word: nat,
                   t: map<DataScoop, C.Scoop>, final: map<DataScoop, C.Scoop>, code: U.Code, width: nat)
    requires l.Sound() && l.log == [] && l.relocs == [] && OnlyEntry(cs, e, width)
    requires Patches(LookAll(l, cs), e, scoopOf, word, t, final, code, width)
    ensures e.slot.0 in scoopOf && e.slot.1 >= 0 && scoopOf[e.slot.0] in final && e.insn in code.loc
    ensures e.slot.1 + 4 <= |final[scoopOf[e.slot.0]].contents|
    ensures FinalEntry(e, scoopOf, final) == (word + Times(cs, e.slot) * (e.addend + code.loc[e.insn])) % TWO_32
  {
    hide LookAll, Times, Ledger.Sound, WordAt, U.Applied, P.Count, P.Alone, U.FitsIn, AsScoopRelocs, Resolved;
    var relocs, s := LookAll(l, cs).relocs, scoopOf[e.slot.0];
    OneRelocPerLook(l, cs, e.slot, e.insn);
    SameCount(relocs, scoopOf, e.slot);
    RelocsAlone(l, cs, e, scoopOf, width);
    P.SharedWord(t[s].contents, AsScoopRelocs(relocs, scoopOf), U.SwitchEntry(s, e.slot.1, e.insn, e.addend), t, code,
                 width);
  }

  /** After any run of tables, an entry that was looked at `n` times leads to the new location exactly
      if the distance its instruction has moved, taken `n` - 1 times, is 0 modulo 2^32.  So it does
      if it was looked at once; if twice, only if the instruction has not moved. */
  lemma SharedSlotIff(w: World, p: Progress, ts: seq<Table>, e: Candidate, word: nat, tableStart: int,
                      scoopOf: map<nat, DataScoop>, t: map<DataScoop, C.Scoop>, final: map<DataScoop, C.Scoop>,
                      code: U.Code)
    requires p.ledger.Sound() && p.ledger.log == [] && p.ledger.relocs == []
    requires OnlyEntry(LookedAt(w, p, ts), e, w.ptrSize) && e.addend == -LookedUp(tableStart, word)
    requires Patches(Run(w, p, ts).ledger, e, scoopOf, word, t, final, code, w.ptrSize)
    ensures e.slot.0 in scoopOf && e.slot.1 >= 0 && scoopOf[e.slot.0] in final && e.insn in code.loc
    ensures e.slot.1 + 4 <= |final[scoopOf[e.slot.0]].contents|
    ensures var n, moved := Times(LookedAt(w, p, ts), e.slot), code.loc[e.insn] - LookedUp(tableStart, word);
      GoesTo(tableStart, FinalEntry(e, scoopOf, final)) % TWO_32 == code.loc[e.insn] % TWO_32
      <==> ((n - 1) * moved) % TWO_32 == 0
  {
    hide LookAll, Times, GoesTo, LookedUp, Ledger.Sound, Run, LookedAt, Patches, OnlyEntry, FinalEntry;
    var cs := LookedAt(w, p, ts);
    RunIsLooks(w, p, ts);
    HasFinalEntry(Run(w, p, ts).ledger, e, scoopOf, word, t, final, code, w.ptrSize);
    SumInEntry(p.ledger, cs, e, scoopOf, word, t, final, code, w.ptrSize);
    var n, d := Times(cs, e.slot), code.loc[e.insn] - LookedUp(tableStart, word);
    GoesToMod(tableStart, word + n * d);
    SameLooked(tableStart, word);
    LeadsIff(tableStart, word, n, d, LookedUp(tableStart, word), code.loc[e.insn]);
  }

  lemma EntryBound(c: seq<Byte>, at: nat)
    requires at + 4 <= |c|
    ensures WordAt(c, at, 4) < TWO_32
  {
    hide Decode;
    DecodeBound(c[at..at + 4]);
    Pow4();
  }

  lemma SameLooked(tableStart: int, entry: nat)
    requires entry < TWO_32
    ensures LookedUp(tableStart, entry) % TWO_32 == (tableStart + entry) % TWO_32
  {
  }

  lemma LeadsIff(tableStart: int, entry: nat, n: nat, d: int, was: int, newLoc: int)
    requires was % TWO_32 == (tableStart + entry) % TWO_32 && d == newLoc - was
    ensures (tableStart + (entry + n * d)) % TWO_32 == newLoc % TWO_32 <==> ((n - 1) * d) % TWO_32 == 0
  {
    assert (n - 1) * d == n * d - d;
    ModTwice(tableStart + entry, n * d, TWO_32);
    ModTwice(was, n * d, TWO_32);
    SameModIff(newLoc, (n - 1) * d, TWO_32);
  }

  // ----- two dispatches through one table

  lemma {:induction false} TimesJoined(cs: seq<Candidate>, ds: seq<Candidate>, slot: (nat, int))
    ensures Times(cs + ds, slot) == Times(cs, slot) + Times(ds, slot)
  {
    if ds == [] {
      assert cs + ds == cs;
    } else {
      TimesJoined(cs, Front(ds), slot);
      assert Front(cs + ds) == cs + Front(ds);
    }
  }

  lemma TimesOneMore(cs: seq<Candidate>, c: Candidate, slot: (nat, int))
    ensures Times(cs + [c], slot) == Times(cs, slot) + if c.slot == slot then 1 else 0
  {
    assert Front(cs + [c]) == cs;
  }

  /** The last entry of a table adds at most one candidate, at the last slot. */
  lemma LastEntry(w: World, targets: map<int, bv32>, scoop: nat, entries: seq<int>, tableStart: int, offset: int)
    returns (last: seq<Candidate>)
    requires entries != []
    ensures Type4Candidates(w.insnAt, targets, w.alwaysComplete, scoop, entries, tableStart, offset)
         == Type4Candidates(w.insnAt, targets, w.alwaysComplete, scoop, Front(entries), tableStart, offset) + last
    ensures var vo := Last(entries) + tableStart;
            if Type4Eligible(w.insnAt, targets, w.alwaysComplete, vo)
            then last == [Candidate((scoop, offset + 4 * (|entries| - 1)), w.insnAt[vo], SwitchType4, -vo)]
            else last == []
  {
    hide AreOnlyTheseSet, Bits;
    var vo := Last(entries) + tableStart;
    var rest := Type4Candidates(w.insnAt, targets, w.alwaysComplete, scoop, Front(entries), tableStart, offset);
    last := if Type4Eligible(w.insnAt, targets, w.alwaysComplete, vo)
            then [Candidate((scoop, offset + 4 * (|entries| - 1)), w.insnAt[vo], SwitchType4, -vo)] else [];
    assert rest + [] == rest;
  }

  /** The candidate that entry `i` of a table is, if it is eligible. */
  function EntryOf(w: World, t: Table, i: nat): Candidate
    requires t.Type4Table? && i < |t.entries| && t.entries[i] + t.tableStart in w.insnAt
  {
    var vo := t.entries[i] + t.tableStart;
    Candidate((t.scoop, t.offset + 4 * i), w.insnAt[vo], SwitchType4, -vo)
  }

  predicate Eligible(w: World, targets: map<int, bv32>, t: Table, i: nat) {
    && t.Type4Table? && t.entrySize == 4 && t.multiplier == 1 && i < |t.entries|
    && Type4Eligible(w.insnAt, targets, w.alwaysComplete, t.entries[i] + t.tableStart)
  }

  /** A table has each slot once, and its other slots keep clear. */
  lemma {:induction false} OnceInATable(w: World, targets: map<int, bv32>, scoop: nat, entries: seq<int>,
                                        tableStart: int, offset: int, i: nat, e: Candidate)
    requires i < |entries| && Type4Eligible(w.insnAt, targets, w.alwaysComplete, entries[i] + tableStart)
    requires var vo := entries[i] + tableStart; e == Candidate((scoop, offset + 4 * i), w.insnAt[vo], SwitchType4, -vo)
    ensures var cs := Type4Candidates(w.insnAt, targets, w.alwaysComplete, scoop, entries, tableStart, offset);
      && e in cs && Times(cs, e.slot) == 1 && OnlyEntry(cs, e, w.ptrSize)
  {
    hide Type4Eligible, Times, Type4Candidates;
    var n := |entries| - 1;
    var rest := Type4Candidates(w.insnAt, targets, w.alwaysComplete, scoop, Front(entries), tableStart, offset);
    var last := LastEntry(w, targets, scoop, entries, tableStart, offset);
    assert rest + [] == rest;
    if last != [] { TimesOneMore(rest, last[0], e.slot); }
    if i < n {
      OnceInATable(w, targets, scoop, Front(entries), tableStart, offset, i, e);
    } else {
      AllBefore(w, targets, scoop, Front(entries), tableStart, offset, i, e);
    }
  }

  lemma {:induction false} AllBefore(w: World, targets: map<int, bv32>, scoop: nat, entries: seq<int>,
                                     tableStart: int, offset: int, i: int, e: Candidate)
    requires i >= |entries| && e.slot == (scoop, offset + 4 * i) && e.kind == SwitchType4
    ensures var cs := Type4Candidates(w.insnAt, targets, w.alwaysComplete, scoop, entries, tableStart, offset);
            Times(cs, e.slot) == 0 && forall c | c in cs :: c.slot.0 == scoop && Avoids(c, e, w.ptrSize)
  {
    if entries != [] {
      hide Type4Eligible, Times, Type4Candidates;
      var rest := Type4Candidates(w.insnAt, targets, w.alwaysComplete, scoop, Front(entries), tableStart, offset);
      var last := LastEntry(w, targets, scoop, entries, tableStart, offset);
      AllBefore(w, targets, scoop, Front(entries), tableStart, offset, i, e);
      assert rest + [] == rest;
      if last != [] { TimesOneMore(rest, last[0], e.slot); }
    }
  }

  /** Nothing that is looked at touches the entry. */
  ghost predicate Untouched(cs: seq<Candidate>, e: Candidate, width: nat) {
    forall c | c in cs && c.slot.0 == e.slot.0 :: Avoids(c, e, width)
  }

  lemma {:induction false} UntouchedTimes(cs: seq<Candidate>, e: Candidate, width: nat)
    requires Untouched(cs, e, width)
    ensures Times(cs, e.slot) == 0
  {
    hide Avoids;
    if cs != [] {
      assert Last(cs) in cs && forall c | c in Front(cs) :: c in cs;
      UntouchedTimes(Front(cs), e, width);
      AvoidsIsElsewhere(Last(cs), e, width);
    }
  }

  lemma AvoidsIsElsewhere(c: Candidate, e: Candidate, width: nat)
    requires c.slot.0 == e.slot.0 ==> Avoids(c, e, width)
    ensures c.slot != e.slot
  {
  }

  lemma OfTable(w: World, targets: map<int, bv32>, t: Table, i: nat)
    requires Eligible(w, targets, t, i)
    ensures t.entries[i] + t.tableStart in w.insnAt
    ensures var cs, e := Candidates(w, targets, t), EntryOf(w, t, i);
      e in cs && Times(cs, e.slot) == 1 && OnlyEntry(cs, e, w.ptrSize)
  {
    OnceInATable(w, targets, t.scoop, t.entries, t.tableStart, t.offset, i, EntryOf(w, t, i));
  }

  lemma OneTable(w: World, p: Progress, t: Table)
    ensures LookedAt(w, p, [t]) == Candidates(w, p.targets, t)
  {
    hide Candidates;
    assert LookedAt(w, p, []) == [] && Run(w, p, []) == p && [t][..0] == [];
    assert [] + Candidates(w, p.targets, t) == Candidates(w, p.targets, t);
  }

  lemma Joined(cs: seq<Candidate>, ds: seq<Candidate>, e: Candidate, width: nat)
    requires (OnlyEntry(cs, e, width) || (e.kind == SwitchType4 && Untouched(cs, e, width)))
    requires (OnlyEntry(ds, e, width) || (e.kind == SwitchType4 && Untouched(ds, e, width)))
    ensures OnlyEntry(cs + ds, e, width) && Times(cs + ds, e.slot) == Times(cs, e.slot) + Times(ds, e.slot)
  {
    hide Avoids, Times;
    TimesJoined(cs, ds, e.slot);
  }

  /** A run of any tables, those of the object format among them, in which the table `t` comes twice;
      its entry `i` is eligible both times, and no other table touches it. */
  ghost predicate Twice(w: World, p: Progress, a: seq<Table>, t: Table, b: seq<Table>, c: seq<Table>, i: nat,
                        e: Candidate) {
    && Eligible(w, Run(w, p, a).targets, t, i) && Eligible(w, Run(w, p, a + [t] + b).targets, t, i)
    && t.entries[i] + t.tableStart in w.insnAt && e == EntryOf(w, t, i)
    && Untouched(LookedAt(w, p, a), e, w.ptrSize) && Untouched(LookedAt(w, Run(w, p, a + [t]), b), e, w.ptrSize)
    && Untouched(LookedAt(w, Run(w, p, a + [t] + b + [t]), c), e, w.ptrSize)
  }

  lemma TwoLooks(w: World, p: Progress, a: seq<Table>, t: Table, b: seq<Table>, c: seq<Table>, i: nat, e: Candidate)
    requires Twice(w, p, a, t, b, c, i, e)
    ensures var cs := LookedAt(w, p, a + [t] + b + [t] + c);
      e in cs && OnlyEntry(cs, e, w.ptrSize) && Times(cs, e.slot) == 2
  {
    hide Times, Run, LookedAt, Candidates, Eligible, OnlyEntry, Untouched;
    OfTable(w, Run(w, p, a).targets, t, i);
    OneTable(w, Run(w, p, a), t);
    LookedAtJoined(w, p, a, [t]);
    LookedOnce(LookedAt(w, p, a), LookedAt(w, Run(w, p, a), [t]), e, w.ptrSize);
    LookedAtJoined(w, p, a + [t], b);
    Later(LookedAt(w, p, a + [t]), LookedAt(w, Run(w, p, a + [t]), b), e, w.ptrSize);
    OfTable(w, Run(w, p, a + [t] + b).targets, t, i);
    OneTable(w, Run(w, p, a + [t] + b), t);
    LookedAtJoined(w, p, a + [t] + b, [t]);
    Joined(LookedAt(w, p, a + [t] + b), LookedAt(w, Run(w, p, a + [t] + b), [t]), e, w.ptrSize);
    LookedAtJoined(w, p, a + [t] + b + [t], c);
    Later(LookedAt(w, p, a + [t] + b + [t]), LookedAt(w, Run(w, p, a + [t] + b + [t]), c), e, w.ptrSize);
  }

  lemma LookedOnce(cs: seq<Candidate>, ds: seq<Candidate>, e: Candidate, width: nat)
    requires Untouched(cs, e, width) && OnlyEntry(ds, e, width) && e in ds
    ensures e in cs + ds && OnlyEntry(cs + ds, e, width) && Times(cs + ds, e.slot) == Times(ds, e.slot)
  {
    hide Avoids, Times;
    UntouchedTimes(cs, e, width);
    Joined(cs, ds, e, width);
  }

  lemma Later(cs: seq<Candidate>, ds: seq<Candidate>, e: Candidate, width: nat)
    requires OnlyEntry(cs, e, width) && e in cs && Untouched(ds, e, width)
    ensures e in cs + ds && OnlyEntry(cs + ds, e, width) && Times(cs + ds, e.slot) == Times(cs, e.slot)
  {
    hide Avoids, Times;
    UntouchedTimes(ds, e, width);
    Joined(cs, ds, e, width);
  }

  /** Two dispatches through one table: if its instruction is unpinned, the patched entry leads to the
      new location only if the instruction has not moved, modulo 2^32. */
  lemma TwoDispatchesIff(w: World, p: Progress, a: seq<Table>, table: Table, b: seq<Table>, c: seq<Table>, i: nat,
                         e: Candidate, word: nat, scoopOf: map<nat, DataScoop>, t: map<DataScoop, C.Scoop>,
                         final: map<DataScoop, C.Scoop>, code: U.Code)
    requires p.ledger.Sound() && p.ledger.log == [] && p.ledger.relocs == [] && Twice(w, p, a, table, b, c, i, e)
    requires Patches(Run(w, p, a + [table] + b + [table] + c).ledger, e, scoopOf, word, t, final, code, w.ptrSize)
    requires table.Type4Table? && i < |table.entries| && Signed32(word) == table.entries[i]
    ensures e.slot.0 in scoopOf && e.slot.1 >= 0 && scoopOf[e.slot.0] in final && e.insn in code.loc
    ensures e.slot.1 + 4 <= |final[scoopOf[e.slot.0]].contents|
    ensures GoesTo(table.tableStart, FinalEntry(e, scoopOf, final)) % TWO_32 == code.loc[e.insn] % TWO_32
       <==> (code.loc[e.insn] - (table.entries[i] + table.tableStart)) % TWO_32 == 0
  {
    hide *;
    var ts := a + [table] + b + [table] + c;
    TwoLooks(w, p, a, table, b, c, i, e);
    WasLookedUp(w, p, a, table, b, c, i, e, word);
    SharedSlotIff(w, p, ts, e, word, table.tableStart, scoopOf, t, final, code);
    Single(code.loc[e.insn] - LookedUp(table.tableStart, word));
  }

  lemma WasLookedUp(w: World, p: Progress, a: seq<Table>, t: Table, b: seq<Table>, c: seq<Table>, i: nat, e: Candidate,
                    word: nat)
    requires Twice(w, p, a, t, b, c, i, e) && t.Type4Table? && i < |t.entries| && Signed32(word) == t.entries[i]
    ensures e.addend == -LookedUp(t.tableStart, word) && LookedUp(t.tableStart, word) == t.entries[i] + t.tableStart
  {
    hide Eligible, Untouched, Run, LookedAt;
  }

  lemma Single(d: int)
    ensures (2 - 1) * d == d
  {
  }
}
