/** Unpinning the targets of ELF tables and switch tables under a limit on the number of unpins. */
module UnpinBudget {

  // ----- where a target came from: a set of bits

  const GOTPLT: bv32 := 1 << 2
  const INITARRAY: bv32 := 1 << 3
  const FINIARRAY: bv32 := 1 << 4
  const STARS_SWITCH: bv32 := 1 << 12
  const STARS_DATA: bv32 := 1 << 13
  const SWITCH_TYPE3: bv32 := 1 << 19
  const SWITCH_TYPE4: bv32 := 1 << 20
  const RODATA: bv32 := 1 << 27
  const GOT: bv32 := 1 << 29
  const RET: bv32 := 1 << 30

  predicate AreOnlyTheseSet(value: bv32, t: bv32) { value & !t == 0 }

  const ELF_BITS: bv32 := INITARRAY | FINIARRAY | GOTPLT | GOT | STARS_DATA
  const TYPE3_BITS: bv32 := SWITCH_TYPE3 | STARS_SWITCH | RODATA
  const TYPE3_LEFT: bv32 := SWITCH_TYPE3 | STARS_SWITCH
  const TYPE4_BITS: bv32 := SWITCH_TYPE4 | STARS_SWITCH | RET

  /** A provenance that was never recorded is empty. */
  function Bits(targets: map<int, bv32>, address: int): bv32 {
    if address in targets then targets[address] else 0
  }

  lemma LeftIsType3()
    ensures AreOnlyTheseSet(TYPE3_LEFT, TYPE3_BITS)
  {
  }

  /** A target that both kinds of table may unpin is one with no mark but the shared one.  Once a
      type-3 table has been through it, a type-4 table no longer may. */
  lemma BothKindsIff(value: bv32)
    ensures AreOnlyTheseSet(value, TYPE3_BITS) && AreOnlyTheseSet(value, TYPE4_BITS)
            <==> AreOnlyTheseSet(value, STARS_SWITCH)
    ensures !AreOnlyTheseSet(TYPE3_LEFT, TYPE4_BITS)
  {
  }

  datatype Kind = DataToInsnPtr | SwitchType4

  /** A relocation that names an instruction: where it is, what it is, and its addend. */
  datatype Reloc = Reloc(slot: (nat, int), kind: Kind, insn: nat, addend: int)

  /** An eligible table entry that was looked at, and whether it got a relocation. */
  datatype Scan = Scan(slot: (nat, int), insn: nat, relocated: bool)

  /** The state of the pass.  `log` lists the eligible entries looked at so far, `ibta0` is what the
      indirect branch target addresses were at first. */
  datatype Ledger = Ledger(limit: int, total: nat, unpinned: set<nat>, relocs: seq<Reloc>, ibta: map<nat, int>,
                           ibta0: map<nat, int>, log: seq<Scan>)
  {
    predicate Spent() { limit != -1 && total > limit }

    ghost predicate HasReloc(e: Scan) { exists r | r in relocs :: r.slot == e.slot && r.insn == e.insn }

    /** Every eligible entry that names an unpinned instruction has its relocation, and no entry that
        names another one has been given one. */
    ghost predicate AllOrNothing() {
      && (forall e | e in log :: e.relocated <==> e.insn in unpinned)
      && (forall e | e in log && e.relocated :: HasReloc(e))
    }

    /** Exactly the unpinned instructions have lost their pin in this pass. */
    ghost predicate PinsCleared() {
      && (forall i | i in unpinned :: i in ibta && ibta[i] == 0)
      && (forall i | i in ibta && i !in unpinned :: i in ibta0 && ibta[i] == ibta0[i])
      && ibta0.Keys <= ibta.Keys
    }

    ghost predicate WithinLimit() {
      && ((exists e :: e in log && !e.relocated) ==> Spent())
      && |unpinned| <= total && (limit >= 0 ==> |unpinned| <= limit) && (limit < -1 ==> unpinned == {})
    }

    ghost predicate NoStray() { forall r | r in relocs :: r.insn in unpinned }

    ghost predicate Sound() { AllOrNothing() && PinsCleared() && WithinLimit() && NoStray() }

    function Tried(): Ledger { this.(total := total + 1) }

    function Unpin(slot: (nat, int), insn: nat, kind: Kind, addend: int): Ledger {
      this.(unpinned := unpinned + {insn}, relocs := relocs + [Reloc(slot, kind, insn, addend)],
            ibta := ibta[insn := 0], log := log + [Scan(slot, insn, true)])
    }

    function Elide(slot: (nat, int), insn: nat): Ledger { this.(log := log + [Scan(slot, insn, false)]) }
  }

  predicate Extends(a: Ledger, b: Ledger) {
    a.log <= b.log && a.total <= b.total && a.unpinned <= b.unpinned && a.relocs <= b.relocs && a.ibta0 == b.ibta0
        && a.limit == b.limit
  }

  /** An instruction not unpinned before is unpinned only if the limit allows it; then no entry that
      names it has been elided before. */
  lemma UnpinIsSound(l: Ledger, slot: (nat, int), insn: nat, kind: Kind, addend: int)
    requires l.Sound() && (!l.Tried().Spent() || insn in l.unpinned)
    ensures l.Tried().Unpin(slot, insn, kind, addend).Sound()
  {
    var m := l.Tried().Unpin(slot, insn, kind, addend);
    assert insn !in l.unpinned ==> forall e | e in l.log :: e.relocated;
    assert m.relocs[|l.relocs|] == Reloc(slot, kind, insn, addend);
    forall e | e in m.log && e.relocated ensures m.HasReloc(e) {
      if e in l.log {
        var r :| r in l.relocs && r.slot == e.slot && r.insn == e.insn;
        assert r in m.relocs;
      }
    }
  }

  lemma ElideIsSound(l: Ledger, slot: (nat, int), insn: nat)
    requires l.Sound() && l.Tried().Spent() && insn !in l.unpinned
    ensures l.Tried().Elide(slot, insn).Sound()
  {
    var m := l.Tried().Elide(slot, insn);
    forall e | e in m.log && e.relocated ensures m.HasReloc(e) {
      assert e in l.log && l.HasReloc(e);
    }
  }

  /** An elided entry stays elided: once one was, its instruction is never unpinned. */
  lemma ElidedForGood(l: Ledger, m: Ledger, e: Scan)
    requires Extends(l, m) && m.Sound() && e in l.log && !e.relocated
    ensures e.insn !in m.unpinned && e in m.log
  {
  }

  lemma ExtendsTrans(a: Ledger, b: Ledger, c: Ledger)
    requires Extends(a, b) && Extends(b, c)
    ensures Extends(a, c)
  {
  }

  // ----- what looking at a table comes to

  /** An eligible table entry. */
  datatype Candidate = Candidate(slot: (nat, int), insn: nat, kind: Kind, addend: int)

  function RelocOf(c: Candidate): Reloc { Reloc(c.slot, c.kind, c.insn, c.addend) }

  /** Counts an entry, and unpins unless that is a new unpin over the limit. */
  function Look(l: Ledger, c: Candidate): Ledger {
    if !l.Tried().Spent() || c.insn in l.unpinned then l.Tried().Unpin(c.slot, c.insn, c.kind, c.addend)
    else l.Tried().Elide(c.slot, c.insn)
  }

  function LookAll(l: Ledger, cs: seq<Candidate>): Ledger {
    if cs == [] then l else Look(LookAll(l, cs[..|cs| - 1]), cs[|cs| - 1])
  }

  lemma NothingLookedAt(l: Ledger)
    ensures LookAll(l, []) == l
  {
  }

  lemma LookKeepsAddresses(l: Ledger, c: Candidate)
    ensures l.ibta.Keys <= Look(l, c).ibta.Keys
  {
  }

  lemma LookIsSound(l: Ledger, c: Candidate)
    requires l.Sound()
    ensures Look(l, c).Sound() && Extends(l, Look(l, c))
  {
    hide Ledger.Sound;
    if !l.Tried().Spent() || c.insn in l.unpinned {
      UnpinIsSound(l, c.slot, c.insn, c.kind, c.addend);
    } else {
      ElideIsSound(l, c.slot, c.insn);
    }
  }

  /** Whatever the tables, in whatever order: all-or-nothing is kept, and nothing is undone. */
  lemma {:induction false} LookAllIsSound(l: Ledger, cs: seq<Candidate>)
    requires l.Sound()
    ensures LookAll(l, cs).Sound() && Extends(l, LookAll(l, cs))
  {
    hide Ledger.Sound;
    if cs != [] {
      var m := LookAll(l, cs[..|cs| - 1]);
      LookAllIsSound(l, cs[..|cs| - 1]);
      LookIsSound(m, cs[|cs| - 1]);
      ExtendsTrans(l, m, LookAll(l, cs));
    }
  }

  /** Every entry is looked at, in order, and no other. */
  lemma {:induction false} LooksAtEach(l: Ledger, cs: seq<Candidate>)
    ensures var log := LookAll(l, cs).log;
      && |log| == |l.log| + |cs| && log[..|l.log|] == l.log && LookAll(l, cs).total == l.total + |cs|
      && forall k :: 0 <= k < |cs| ==> log[|l.log| + k].slot == cs[k].slot && log[|l.log| + k].insn == cs[k].insn
  {
    if cs != [] {
      LooksAtEach(l, cs[..|cs| - 1]);
    }
  }

  lemma {:induction false} LookAllJoined(l: Ledger, cs: seq<Candidate>, ds: seq<Candidate>)
    ensures LookAll(l, cs + ds) == LookAll(LookAll(l, cs), ds)
  {
    hide Look;
    if ds == [] {
      assert cs + ds == cs;
    } else {
      var n := |ds| - 1;
      LookAllJoined(l, cs, ds[..n]);
      assert (cs + ds)[..|cs + ds| - 1] == cs + ds[..n];
    }
  }

  lemma LookOneMore(l: Ledger, cs: seq<Candidate>, c: Candidate)
    ensures LookAll(l, cs + [c]) == Look(LookAll(l, cs), c)
  {
    assert (cs + [c])[..|cs + [c]| - 1] == cs;
  }

  /** An entry that was looked at has its relocation exactly if its instruction is unpinned in the
      end, be it through this entry, an earlier or a later one. */
  lemma {:induction false} AllEntriesRelocated(l: Ledger, cs: seq<Candidate>, c: Candidate)
    requires l.Sound() && c in cs
    ensures RelocOf(c) in LookAll(l, cs).relocs <==> c.insn in LookAll(l, cs).unpinned
  {
    hide Ledger.AllOrNothing, Ledger.PinsCleared, Ledger.WithinLimit;
    var n := |cs| - 1;
    var m, end := LookAll(l, cs[..n]), LookAll(l, cs);
    LookAllIsSound(l, cs[..n]);
    LookIsSound(m, cs[n]);
    if c == cs[n] {
      LookedRelocated(m, c);
    } else {
      assert c in cs[..n];
      AllEntriesRelocated(l, cs[..n], c);
      if c.insn !in m.unpinned {
        var e := LoggedElided(l, cs[..n], c);
        ElidedForGood(m, end, e);
      }
    }
  }

  lemma LookedRelocated(l: Ledger, c: Candidate)
    requires l.Sound()
    ensures RelocOf(c) in Look(l, c).relocs <==> c.insn in Look(l, c).unpinned
  {
    hide Ledger.AllOrNothing, Ledger.PinsCleared, Ledger.WithinLimit;
    assert !l.Tried().Spent() || c.insn in l.unpinned ==> Look(l, c).relocs[|l.relocs|] == RelocOf(c);
  }

  lemma LoggedElided(l: Ledger, cs: seq<Candidate>, c: Candidate) returns (e: Scan)
    requires l.Sound() && c in cs && c.insn !in LookAll(l, cs).unpinned
    ensures e in LookAll(l, cs).log && e.insn == c.insn && !e.relocated
  {
    hide LookAll, Ledger.PinsCleared, Ledger.WithinLimit;
    LookAllIsSound(l, cs);
    LooksAtEach(l, cs);
    var k :| 0 <= k < |cs| && cs[k] == c;
    e := LookAll(l, cs).log[|l.log| + k];
  }

  /** There is no other new relocation. */
  lemma {:induction false} RelocsStem(l: Ledger, cs: seq<Candidate>, k: nat)
    requires |l.relocs| <= k < |LookAll(l, cs).relocs|
    ensures exists c | c in cs :: LookAll(l, cs).relocs[k] == RelocOf(c)
  {
    if cs != [] {
      var n := |cs| - 1;
      var m := LookAll(l, cs[..n]);
      if k < |m.relocs| {
        RelocsStem(l, cs[..n], k);
        var c :| c in cs[..n] && m.relocs[k] == RelocOf(c);
        assert c in cs;
      } else {
        assert cs[n] in cs;
      }
    }
  }

  /** What the limit means: the instruction is unpinned exactly if one of its entries is among the
      first that the limit allows, counted over everything that was looked at. */
  lemma {:induction false} UnpinnedIff(l: Ledger, cs: seq<Candidate>, insn: nat)
    ensures insn in LookAll(l, cs).unpinned <==>
              insn in l.unpinned
              || exists k :: 0 <= k < |cs| && cs[k].insn == insn && (l.limit == -1 || l.total + k + 1 <= l.limit)
  {
    if cs != [] {
      var n := |cs| - 1;
      var m := LookAll(l, cs[..n]);
      UnpinnedIff(l, cs[..n], insn);
      LooksAtEach(l, cs[..n]);
      SameLimit(l, cs[..n]);
      assert forall k :: 0 <= k < n ==> cs[..n][k] == cs[k];
    }
  }

  lemma {:induction false} SameLimit(l: Ledger, cs: seq<Candidate>)
    ensures LookAll(l, cs).limit == l.limit
  {
    if cs != [] { SameLimit(l, cs[..|cs| - 1]); }
  }

  // ----- which entries of a table are eligible

  predicate ElfEligible(insnAt: map<int, nat>, targets: map<int, bv32>, vo: int) {
    vo != 0 && vo in insnAt && AreOnlyTheseSet(Bits(targets, vo), ELF_BITS)
  }

  predicate Type3Eligible(insnAt: map<int, nat>, targets: map<int, bv32>, vo: int) {
    vo in insnAt && AreOnlyTheseSet(Bits(targets, vo), TYPE3_BITS)
  }

  predicate Type4Eligible(insnAt: map<int, nat>, targets: map<int, bv32>, alwaysComplete: set<nat>, vo: int) {
    vo in insnAt && AreOnlyTheseSet(Bits(targets, vo), TYPE4_BITS) && insnAt[vo] in alwaysComplete
  }

  function ElfCandidates(insnAt: map<int, nat>, targets: map<int, bv32>, scoop: nat, entries: seq<int>, start: nat,
                         ptrSize: nat): seq<Candidate> {
    if |entries| <= start then []
    else
      var n := |entries| - 1;
      var rest := ElfCandidates(insnAt, targets, scoop, entries[..n], start, ptrSize);
      if ElfEligible(insnAt, targets, entries[n])
      then rest + [Candidate((scoop, n * ptrSize), insnAt[entries[n]], DataToInsnPtr, 0)] else rest
  }

  function Type3Candidates(insnAt: map<int, nat>, targets: map<int, bv32>, scoop: nat, entries: seq<int>, offset: int,
                           ptrSize: nat): seq<Candidate> {
    if entries == [] then []
    else
      var n := |entries| - 1;
      var rest := Type3Candidates(insnAt, targets, scoop, entries[..n], offset, ptrSize);
      if Type3Eligible(insnAt, targets, entries[n])
      then rest + [Candidate((scoop, offset + n * ptrSize), insnAt[entries[n]], DataToInsnPtr, 0)] else rest
  }

  /** An entry is a distance from the start of the table. */
  function Type4Candidates(insnAt: map<int, nat>, targets: map<int, bv32>, alwaysComplete: set<nat>, scoop: nat,
                           entries: seq<int>, tableStart: int, offset: int): seq<Candidate> {
    if entries == [] then []
    else
      var n := |entries| - 1;
      var rest := Type4Candidates(insnAt, targets, alwaysComplete, scoop, entries[..n], tableStart, offset);
      var vo := entries[n] + tableStart;
      if Type4Eligible(insnAt, targets, alwaysComplete, vo)
      then rest + [Candidate((scoop, offset + 4 * n), insnAt[vo], SwitchType4, -vo)] else rest
  }

  // ----- the relocations of a table, entry by entry

  /** The relocations of those entries, from entry `start` on, that are not null, name an instruction
      and have no other provenance than these five. */
  ghost function ElfEntries(insnAt: map<int, nat>, targets: map<int, bv32>, scoop: nat, entries: seq<int>, start: nat,
                            ptrSize: nat): Reloc -> bool {
    (r: Reloc) =>
      exists i ::
        && start <= i < |entries| && entries[i] != 0 && entries[i] in insnAt
        && Bits(targets, entries[i]) & !(INITARRAY | FINIARRAY | GOTPLT | GOT | STARS_DATA) == 0
        && r == Reloc((scoop, i * ptrSize), DataToInsnPtr, insnAt[entries[i]], 0)
  }

  ghost function Type3Entries(insnAt: map<int, nat>, targets: map<int, bv32>, scoop: nat, entries: seq<int>,
                              offset: int, ptrSize: nat): Reloc -> bool {
    (r: Reloc) =>
      exists i ::
        && 0 <= i < |entries| && entries[i] in insnAt
        && Bits(targets, entries[i]) & !(SWITCH_TYPE3 | STARS_SWITCH | RODATA) == 0
        && r == Reloc((scoop, offset + i * ptrSize), DataToInsnPtr, insnAt[entries[i]], 0)
  }

  ghost function Type4Entries(insnAt: map<int, nat>, targets: map<int, bv32>, alwaysComplete: set<nat>, scoop: nat,
                              entries: seq<int>, tableStart: int, offset: int): Reloc -> bool {
    (r: Reloc) =>
      exists i ::
        && 0 <= i < |entries| && entries[i] + tableStart in insnAt
        && Bits(targets, entries[i] + tableStart) & !(SWITCH_TYPE4 | STARS_SWITCH | RET) == 0
        && insnAt[entries[i] + tableStart] in alwaysComplete && r.slot == (scoop, offset + 4 * i)
        && r.kind == SwitchType4 && r.insn == insnAt[entries[i] + tableStart]
        && r.addend == -(entries[i] + tableStart)
  }

  lemma {:induction false} ElfCandidatesIff(insnAt: map<int, nat>, targets: map<int, bv32>, scoop: nat,
                                            entries: seq<int>, start: nat, ptrSize: nat, c: Candidate)
    ensures c in ElfCandidates(insnAt, targets, scoop, entries, start, ptrSize)
       <==> ElfEntries(insnAt, targets, scoop, entries, start, ptrSize)(RelocOf(c))
  {
    if |entries| > start {
      var n := |entries| - 1;
      ElfCandidatesIff(insnAt, targets, scoop, entries[..n], start, ptrSize, c);
      assert forall i :: 0 <= i < n ==> entries[..n][i] == entries[i];
    }
  }

  lemma {:induction false} Type3CandidatesIff(insnAt: map<int, nat>, targets: map<int, bv32>, scoop: nat,
                                              entries: seq<int>, offset: int, ptrSize: nat, c: Candidate)
    ensures c in Type3Candidates(insnAt, targets, scoop, entries, offset, ptrSize)
       <==> Type3Entries(insnAt, targets, scoop, entries, offset, ptrSize)(RelocOf(c))
  {
    if entries != [] {
      var n := |entries| - 1;
      Type3CandidatesIff(insnAt, targets, scoop, entries[..n], offset, ptrSize, c);
      assert forall i :: 0 <= i < n ==> entries[..n][i] == entries[i];
    }
  }

  lemma {:induction false} Type4CandidatesIff(insnAt: map<int, nat>, targets: map<int, bv32>, alwaysComplete: set<nat>,
                                              scoop: nat, entries: seq<int>, tableStart: int, offset: int, c: Candidate)
    ensures c in Type4Candidates(insnAt, targets, alwaysComplete, scoop, entries, tableStart, offset)
       <==> Type4Entries(insnAt, targets, alwaysComplete, scoop, entries, tableStart, offset)(RelocOf(c))
  {
    if entries != [] {
      var n := |entries| - 1;
      Type4CandidatesIff(insnAt, targets, alwaysComplete, scoop, entries[..n], tableStart, offset, c);
      assert forall i :: 0 <= i < n ==> entries[..n][i] == entries[i];
    }
  }

  /** `after` is `before` with relocations of such entries, and each such entry has one exactly if its
      instruction is unpinned. */
  ghost predicate Relocated(before: seq<Reloc>, after: seq<Reloc>, unpinned: set<nat>, isEntry: Reloc -> bool) {
    && before <= after
    && (forall k :: |before| <= k < |after| ==> isEntry(after[k]))
    && (forall r | isEntry(r) :: r in after <==> r.insn in unpinned)
  }

  lemma LookAllRelocates(l: Ledger, cs: seq<Candidate>, isEntry: Reloc -> bool)
    requires l.Sound() && forall c :: c in cs <==> isEntry(RelocOf(c))
    ensures LookAll(l, cs).Sound() && Relocated(l.relocs, LookAll(l, cs).relocs, LookAll(l, cs).unpinned, isEntry)
  {
    hide Ledger.Sound, LookAll;
    var m := LookAll(l, cs);
    LookAllIsSound(l, cs);
    forall k | |l.relocs| <= k < |m.relocs| ensures isEntry(m.relocs[k]) {
      RelocsStem(l, cs, k);
    }
    forall r | isEntry(r) ensures r in m.relocs <==> r.insn in m.unpinned {
      var c := Candidate(r.slot, r.insn, r.kind, r.addend);
      assert RelocOf(c) == r;
      AllEntriesRelocated(l, cs, c);
    }
  }

  lemma ElfTableRelocates(l: Ledger, insnAt: map<int, nat>, targets: map<int, bv32>, scoop: nat, entries: seq<int>,
                          start: nat, ptrSize: nat)
    requires l.Sound()
    ensures var m := LookAll(l, ElfCandidates(insnAt, targets, scoop, entries, start, ptrSize));
      m.Sound()
      && Relocated(l.relocs, m.relocs, m.unpinned, ElfEntries(insnAt, targets, scoop, entries, start, ptrSize))
  {
    hide *;
    var cs, es := ElfCandidates(insnAt, targets, scoop, entries, start, ptrSize),
                  ElfEntries(insnAt, targets, scoop, entries, start, ptrSize);
    forall c ensures c in cs <==> es(RelocOf(c)) {
      ElfCandidatesIff(insnAt, targets, scoop, entries, start, ptrSize, c);
    }
    LookAllRelocates(l, cs, es);
  }

  lemma Type3TableRelocates(l: Ledger, insnAt: map<int, nat>, targets: map<int, bv32>, scoop: nat, entries: seq<int>,
                            offset: int, ptrSize: nat)
    requires l.Sound()
    ensures var m := LookAll(l, Type3Candidates(insnAt, targets, scoop, entries, offset, ptrSize));
      m.Sound()
      && Relocated(l.relocs, m.relocs, m.unpinned, Type3Entries(insnAt, targets, scoop, entries, offset, ptrSize))
  {
    hide *;
    var cs, es := Type3Candidates(insnAt, targets, scoop, entries, offset, ptrSize),
                  Type3Entries(insnAt, targets, scoop, entries, offset, ptrSize);
    forall c ensures c in cs <==> es(RelocOf(c)) {
      Type3CandidatesIff(insnAt, targets, scoop, entries, offset, ptrSize, c);
    }
    LookAllRelocates(l, cs, es);
  }

  lemma Type4TableRelocates(l: Ledger, insnAt: map<int, nat>, targets: map<int, bv32>, alwaysComplete: set<nat>,
                            scoop: nat, entries: seq<int>, tableStart: int, offset: int)
    requires l.Sound()
    ensures var cs := Type4Candidates(insnAt, targets, alwaysComplete, scoop, entries, tableStart, offset);
      var m := LookAll(l, cs);
      m.Sound()
      && Relocated(l.relocs, m.relocs, m.unpinned,
                   Type4Entries(insnAt, targets, alwaysComplete, scoop, entries, tableStart, offset))
  {
    hide *;
    var cs, es := Type4Candidates(insnAt, targets, alwaysComplete, scoop, entries, tableStart, offset),
                  Type4Entries(insnAt, targets, alwaysComplete, scoop, entries, tableStart, offset);
    forall c ensures c in cs <==> es(RelocOf(c)) {
      Type4CandidatesIff(insnAt, targets, alwaysComplete, scoop, entries, tableStart, offset, c);
    }
    LookAllRelocates(l, cs, es);
  }

  // ----- what a type-3 table does to the provenance of its targets

  function Cleared(insnAt: map<int, nat>, targets: map<int, bv32>, entries: seq<int>, unpinned: set<nat>): set<int> {
    set a | a in entries && Type3Eligible(insnAt, targets, a) && insnAt[a] in unpinned
  }

  /** An unpinned target no longer counts as being in read-only data. */
  function Marked(insnAt: map<int, nat>, targets: map<int, bv32>, entries: seq<int>, unpinned: set<nat>)
    : map<int, bv32>
  {
    targets + map a | a in Cleared(insnAt, targets, entries, unpinned) :: TYPE3_LEFT
  }

  ghost predicate AllUnpinned(insnAt: map<int, nat>, targets: map<int, bv32>, entries: seq<int>, unpinned: set<nat>) {
    forall a | a in entries && Type3Eligible(insnAt, targets, a) :: insnAt[a] in unpinned
  }

  /** What is left of a provenance after such a table. */
  lemma MarkedBits(insnAt: map<int, nat>, targets: map<int, bv32>, entries: seq<int>, unpinned: set<nat>, a: int)
    ensures var now := Bits(Marked(insnAt, targets, entries, unpinned), a);
      if a in entries && a in insnAt && Bits(targets, a) & !(SWITCH_TYPE3 | STARS_SWITCH | RODATA) == 0
         && insnAt[a] in unpinned
      then now == SWITCH_TYPE3 | STARS_SWITCH else now == Bits(targets, a)
  {
  }

  lemma NothingMarked(insnAt: map<int, nat>, targets: map<int, bv32>, unpinned: set<nat>)
    ensures Marked(insnAt, targets, [], unpinned) == targets && AllUnpinned(insnAt, targets, [], unpinned)
  {
  }

  /** So it stays eligible for such tables. */
  lemma MarksKeepEligible(insnAt: map<int, nat>, targets: map<int, bv32>, seen: seq<int>, unpinned: set<nat>, a: int)
    ensures var now := Marked(insnAt, targets, seen, unpinned);
            Type3Eligible(insnAt, targets, a) <==> a in insnAt && AreOnlyTheseSet(Bits(now, a), TYPE3_BITS)
  {
    LeftIsType3();
    hide AreOnlyTheseSet;
  }

  /** An instruction that is unpinned for the first time has not been met before in the table. */
  lemma MarkOne(insnAt: map<int, nat>, targets: map<int, bv32>, seen: seq<int>, unpinned: set<nat>, entry: int)
    requires Type3Eligible(insnAt, targets, entry)
    requires AllUnpinned(insnAt, targets, seen, unpinned) || insnAt[entry] in unpinned
    ensures Marked(insnAt, targets, seen + [entry], unpinned + {insnAt[entry]})
         == Marked(insnAt, targets, seen, unpinned)[entry := TYPE3_LEFT]
    ensures AllUnpinned(insnAt, targets, seen, unpinned)
            ==> AllUnpinned(insnAt, targets, seen + [entry], unpinned + {insnAt[entry]})
  {
    hide AreOnlyTheseSet, Bits, AllUnpinned, Cleared;
    ClearedOne(insnAt, targets, seen, unpinned, entry);
    UnpinnedOne(insnAt, targets, seen, unpinned, entry);
  }

  lemma ClearedOne(insnAt: map<int, nat>, targets: map<int, bv32>, seen: seq<int>, unpinned: set<nat>, entry: int)
    requires Type3Eligible(insnAt, targets, entry)
    requires AllUnpinned(insnAt, targets, seen, unpinned) || insnAt[entry] in unpinned
    ensures Cleared(insnAt, targets, seen + [entry], unpinned + {insnAt[entry]})
         == Cleared(insnAt, targets, seen, unpinned) + {entry}
  {
    hide AreOnlyTheseSet, Bits;
  }

  lemma UnpinnedOne(insnAt: map<int, nat>, targets: map<int, bv32>, seen: seq<int>, unpinned: set<nat>, entry: int)
    requires Type3Eligible(insnAt, targets, entry)
    ensures AllUnpinned(insnAt, targets, seen, unpinned)
            ==> AllUnpinned(insnAt, targets, seen + [entry], unpinned + {insnAt[entry]})
  {
    hide AreOnlyTheseSet, Bits;
  }

  lemma MarkNone(insnAt: map<int, nat>, targets: map<int, bv32>, seen: seq<int>, unpinned: set<nat>, entry: int)
    requires !Type3Eligible(insnAt, targets, entry) || insnAt[entry] !in unpinned
    ensures Marked(insnAt, targets, seen + [entry], unpinned) == Marked(insnAt, targets, seen, unpinned)
    ensures AllUnpinned(insnAt, targets, seen, unpinned) && !Type3Eligible(insnAt, targets, entry)
            ==> AllUnpinned(insnAt, targets, seen + [entry], unpinned)
  {
    hide AreOnlyTheseSet, Bits;
    assert Cleared(insnAt, targets, seen + [entry], unpinned) == Cleared(insnAt, targets, seen, unpinned);
  }

  class Unpinner {
    const insnAt: map<int, nat>
    const limit: int
    var targets: map<int, bv32>
    var total: nat
    var unpinned: set<nat>
    var relocs: seq<Reloc>
    var ibta: map<nat, int>  // indirect branch target addresses; 0 is not pinned
    ghost var log: seq<Scan>
    ghost var ibta0: map<nat, int>

    constructor (insnAt: map<int, nat>, limit: int, targets: map<int, bv32>, ibta: map<nat, int>)
      ensures Now() == Ledger(limit, 0, {}, [], ibta, ibta, []) && Now().Sound()
      ensures this.insnAt == insnAt && this.targets == targets
    {
      this.insnAt, this.limit, this.targets := insnAt, limit, targets;
      this.total, this.unpinned, this.relocs, this.ibta := 0, {}, [], ibta;
      this.log, this.ibta0 := [], ibta;
    }

    ghost function Now(): Ledger
      reads this
    {
      Ledger(limit, total, unpinned, relocs, ibta, ibta0, log)
    }

    /** One eligible entry, in any kind of table. */
    method Entry(c: Candidate) returns (done: bool)
      modifies this`total, this`unpinned, this`relocs, this`ibta, this`log
      ensures Now() == Look(old(Now()), c) && (done <==> c.insn in unpinned)
      ensures done <==> limit == -1 || old(total) + 1 <= limit || c.insn in old(unpinned)
      ensures total == old(total) + 1 && unpinned == old(unpinned) + if done then {c.insn} else {}
      ensures relocs == old(relocs) + if done then [Reloc(c.slot, c.kind, c.insn, c.addend)] else []
      ensures ibta == if done then old(ibta)[c.insn := 0] else old(ibta)
    {
      total := total + 1;
      var allowUnpin := true;
      if limit != -1 && total > limit { allowUnpin := false; }
      done := allowUnpin || c.insn in unpinned;
      if done {
        unpinned := unpinned + {c.insn};
        relocs := relocs + [Reloc(c.slot, c.kind, c.insn, c.addend)];
        ibta := ibta[c.insn := 0];
      }
      log := log + [Scan(c.slot, c.insn, done)];
    }

    /** A table of the object file, in scoop `scoop`, from entry `start` on.  Only the global offset
        table may have entries that name no instruction; elsewhere a null entry comes last. */
    method UnpinElfTable(scoop: nat, isGot: bool, entries: seq<int>, start: nat, ptrSize: nat)
      requires Now().Sound()
      requires !isGot ==> forall i ::
               start <= i < |entries| ==> if entries[i] == 0 then i == |entries| - 1 else entries[i] in insnAt
      requires forall i :: start <= i < |entries| && entries[i] != 0 && entries[i] in insnAt ==> entries[i] in targets
      modifies this`total, this`unpinned, this`relocs, this`ibta, this`log
      ensures Now() == LookAll(old(Now()), ElfCandidates(insnAt, targets, scoop, entries, start, ptrSize))
      ensures Now().Sound() && Relocated(old(relocs), relocs, unpinned,
                                         ElfEntries(insnAt, targets, scoop, entries, start, ptrSize))
    {
      hide AreOnlyTheseSet, LookAll, Look, Bits, Ledger.Sound;
      ghost var l := Now();
      NothingLookedAt(l);
      var i := start;
      while i < |entries|
        invariant start <= i
        invariant var seen := if i <= |entries| then entries[..i] else entries;
                  Now() == LookAll(l, ElfCandidates(insnAt, targets, scoop, seen, start, ptrSize))
      {
        var vo := entries[i];
        assert entries[..i + 1][..i] == entries[..i];
        if isGot && (vo == 0 || vo !in insnAt) {
          i := i + 1;
          continue;
        }
        if vo == 0 {
          assert entries[..i + 1] == entries;
          break;
        }
        var insn := insnAt[vo];
        assert vo in targets;
        if AreOnlyTheseSet(Bits(targets, vo), ELF_BITS) {
          var c := Candidate((scoop, i * ptrSize), insn, DataToInsnPtr, 0);
          LookOneMore(l, ElfCandidates(insnAt, targets, scoop, entries[..i], start, ptrSize), c);
          var done := Entry(c);
        }
        i := i + 1;
      }
      assert i <= |entries| ==> entries[..|entries|] == entries;
      ElfTableRelocates(l, insnAt, targets, scoop, entries, start, ptrSize);
    }

    /** A table of addresses that a switch dispatches through.  What is left of a target's provenance
        afterwards does not depend on its being in read-only data as well. */
    method UnpinType3SwitchTable(scoop: nat, entries: seq<int>, offset: int, ptrSize: nat)
      requires Now().Sound()
      modifies this`total, this`unpinned, this`relocs, this`ibta, this`log, this`targets
      ensures Now() == LookAll(old(Now()), Type3Candidates(insnAt, old(targets), scoop, entries, offset, ptrSize))
      ensures Now().Sound() && targets == Marked(insnAt, old(targets), entries, unpinned)
      ensures Relocated(old(relocs), relocs, unpinned,
                        Type3Entries(insnAt, old(targets), scoop, entries, offset, ptrSize))
    {
      hide AreOnlyTheseSet, LookAll, Bits, Ledger.Sound, Type3Eligible, Cleared, Marked, AllUnpinned;
      ghost var l, targets0 := Now(), targets;
      NothingLookedAt(l);
      NothingMarked(insnAt, targets0, unpinned);
      var i, slot := 0, offset;
      while i < |entries|
        invariant 0 <= i <= |entries| && slot == offset + i * ptrSize && Now().Sound()
        invariant Now() == LookAll(l, Type3Candidates(insnAt, targets0, scoop, entries[..i], offset, ptrSize))
        invariant targets == Marked(insnAt, targets0, entries[..i], unpinned)
        invariant !Now().Spent() ==> AllUnpinned(insnAt, targets0, entries[..i], unpinned)
      {
        var entry := entries[i];
        ghost var seen := entries[..i];
        assert entries[..i + 1] == seen + [entry] && entries[..i + 1][..i] == seen;
        MarksKeepEligible(insnAt, targets0, seen, unpinned, entry);
        if entry in insnAt {
          var ibt := insnAt[entry];
          if AreOnlyTheseSet(Bits(targets, entry), TYPE3_BITS) {
            var c := Candidate((scoop, slot), ibt, DataToInsnPtr, 0);
            LookOneMore(l, Type3Candidates(insnAt, targets0, scoop, seen, offset, ptrSize), c);
            LookIsSound(Now(), c);
            ghost var before := unpinned;
            var done := Entry(c);
            if done {
              MarkOne(insnAt, targets0, seen, before, entry);
              targets := targets[entry := TYPE3_LEFT];
            } else {
              MarkNone(insnAt, targets0, seen, before, entry);
            }
          } else {
            MarkNone(insnAt, targets0, seen, unpinned, entry);
          }
        } else {
          MarkNone(insnAt, targets0, seen, unpinned, entry);
        }
        slot := slot + ptrSize;
        i := i + 1;
      }
      assert entries[..i] == entries;
      Type3TableRelocates(l, insnAt, targets0, scoop, entries, offset, ptrSize);
    }

    /** A table of signed 32-bit distances from its own start, which the dispatch adds to that start. */
    method UnpinType4SwitchTable(scoop: nat, entries: seq<int>, tableStart: int, offset: int, entrySize: nat,
                                 multiplier: int,
                                 alwaysComplete: set<nat>)
      requires Now().Sound()
      requires forall i ::
               0 <= i < |entries| && entries[i] + tableStart in insnAt ==> insnAt[entries[i] + tableStart] in ibta
      modifies this`total, this`unpinned, this`relocs, this`ibta, this`log
      ensures var cs := Type4Candidates(insnAt, targets, alwaysComplete, scoop, entries, tableStart, offset);
              Now() == if entrySize == 4 && multiplier == 1 then LookAll(old(Now()), cs) else old(Now())
      ensures Now().Sound()
      ensures entrySize == 4 && multiplier == 1 ==>
        Relocated(old(relocs), relocs, unpinned,
                  Type4Entries(insnAt, targets, alwaysComplete, scoop, entries, tableStart, offset))
    {
      hide AreOnlyTheseSet, LookAll, Look, Bits, Ledger.Sound;
      if entrySize != 4 || multiplier != 1 { return; }
      ghost var l := Now();
      NothingLookedAt(l);
      var i := 0;
      while i < |entries|
        invariant 0 <= i <= |entries| && old(ibta).Keys <= ibta.Keys
        invariant var cs := Type4Candidates(insnAt, targets, alwaysComplete, scoop, entries[..i], tableStart, offset);
                  Now() == LookAll(l, cs)
      {
        var address := entries[i] + tableStart;
        assert entries[..i + 1][..i] == entries[..i];
        if address in insnAt && AreOnlyTheseSet(Bits(targets, address), TYPE4_BITS)
            && insnAt[address] in alwaysComplete {
          var ibt := insnAt[address];
          assert ibt in ibta;
          var c := Candidate((scoop, offset + 4 * i), ibt, SwitchType4, -address);
          LookOneMore(l, Type4Candidates(insnAt, targets, alwaysComplete, scoop, entries[..i], tableStart, offset), c);
          LookKeepsAddresses(Now(), c);
          var done := Entry(c);
        }
        i := i + 1;
      }
      assert entries[..i] == entries;
      Type4TableRelocates(l, insnAt, targets, alwaysComplete, scoop, entries, tableStart, offset);
    }
  }
}
