/** All tables of a file, one after another: first those of the object format, then those of
    switches. */
module UnpinTables {
  import opened Common
  import opened UnpinBudget

  /** A scoop of pointers, read as such. */
  datatype ElfScoop = ElfScoop(name: string, id: nat, entries: seq<int>)

  /** A dispatch for which a table was found.  `complete` says that every target of the table is
      known, `analysed` that so are those of the dispatch itself; there is no `scoop` if the table
      is in none. */
  datatype Dispatch = Dispatch(complete: bool, ibTargets: set<nat>, analysed: bool, switchType: bv32,
                               scoop: Option<nat>,
                               entries: seq<int>, tableStart: int, offset: int, entrySize: nat, multiplier: int)

  datatype Table =
    | ElfTable(scoop: nat, isGot: bool, entries: seq<int>, start: nat)
    | Type3Table(scoop: nat, entries: seq<int>, offset: int)
    | Type4Table(scoop: nat, entries: seq<int>, tableStart: int, offset: int, entrySize: nat, multiplier: int)

  /** What does not change while tables are looked at. */
  datatype World = World(insnAt: map<int, nat>, alwaysComplete: set<nat>, ptrSize: nat)

  /** What does. */
  datatype Progress = Progress(ledger: Ledger, targets: map<int, bv32>)

  function Candidates(w: World, targets: map<int, bv32>, t: Table): seq<Candidate> {
    match t
    case ElfTable(scoop, _, entries, start) => ElfCandidates(w.insnAt, targets, scoop, entries, start, w.ptrSize)
    case Type3Table(scoop, entries, offset) => Type3Candidates(w.insnAt, targets, scoop, entries, offset, w.ptrSize)
    case Type4Table(scoop, entries, tableStart, offset, entrySize, multiplier) =>
      if entrySize == 4 && multiplier == 1
      then Type4Candidates(w.insnAt, targets, w.alwaysComplete, scoop, entries, tableStart, offset) else []
  }

  function Step(w: World, p: Progress, t: Table): Progress {
    var l := LookAll(p.ledger, Candidates(w, p.targets, t));
    Progress(l, if t.Type3Table? then Marked(w.insnAt, p.targets, t.entries, l.unpinned) else p.targets)
  }

  function Run(w: World, p: Progress, ts: seq<Table>): Progress {
    if ts == [] then p else Step(w, Run(w, p, ts[..|ts| - 1]), ts[|ts| - 1])
  }

  lemma RunOneMore(w: World, p: Progress, ts: seq<Table>, t: Table)
    ensures Run(w, p, ts + [t]) == Step(w, Run(w, p, ts), t)
  {
    assert (ts + [t])[..|ts + [t]| - 1] == ts;
  }

  lemma {:induction false} RunJoined(w: World, p: Progress, ts: seq<Table>, us: seq<Table>)
    ensures Run(w, p, ts + us) == Run(w, Run(w, p, ts), us)
  {
    hide Step;
    if us == [] {
      assert ts + us == ts;
    } else {
      var n := |us| - 1;
      RunJoined(w, p, ts, us[..n]);
      RunOneMore(w, p, ts + us[..n], us[n]);
      assert ts + us == (ts + us[..n]) + [us[n]];
    }
  }

  /** All entries that a run looks at. */
  function LookedAt(w: World, p: Progress, ts: seq<Table>): seq<Candidate> {
    if ts == [] then []
    else LookedAt(w, p, ts[..|ts| - 1]) + Candidates(w, Run(w, p, ts[..|ts| - 1]).targets, ts[|ts| - 1])
  }

  /** A run comes to looking at them one after another. */
  lemma {:induction false} RunIsLooks(w: World, p: Progress, ts: seq<Table>)
    ensures Run(w, p, ts).ledger == LookAll(p.ledger, LookedAt(w, p, ts))
  {
    hide LookAll, Candidates, Marked;
    if ts == [] {
      NothingLookedAt(p.ledger);
    } else {
      var q := Run(w, p, ts[..|ts| - 1]);
      RunIsLooks(w, p, ts[..|ts| - 1]);
      LookAllJoined(p.ledger, LookedAt(w, p, ts[..|ts| - 1]), Candidates(w, q.targets, ts[|ts| - 1]));
    }
  }

  lemma {:induction false} LookedAtJoined(w: World, p: Progress, ts: seq<Table>, us: seq<Table>)
    ensures LookedAt(w, p, ts + us) == LookedAt(w, p, ts) + LookedAt(w, Run(w, p, ts), us)
  {
    hide Step, Candidates;
    if us == [] {
      assert ts + us == ts;
      assert LookedAt(w, p, ts) + [] == LookedAt(w, p, ts);
    } else {
      var n := |us| - 1;
      var cs := Candidates(w, Run(w, Run(w, p, ts), us[..n]).targets, us[n]);
      LookedAtJoined(w, p, ts, us[..n]);
      RunJoined(w, p, ts, us[..n]);
      assert (ts + us)[..|ts + us| - 1] == ts + us[..n];
      assert LookedAt(w, p, ts + us[..n]) + cs == LookedAt(w, p, ts) + (LookedAt(w, Run(w, p, ts), us[..n]) + cs);
    }
  }

  /** Over any run of tables and under any limit all-or-nothing is kept, and nothing is undone. */
  lemma {:induction false} RunIsSound(w: World, p: Progress, ts: seq<Table>)
    requires p.ledger.Sound()
    ensures Run(w, p, ts).ledger.Sound() && Extends(p.ledger, Run(w, p, ts).ledger)
  {
    hide Ledger.Sound, Candidates, Marked, LookAll;
    if ts != [] {
      var n := |ts| - 1;
      var q := Run(w, p, ts[..n]);
      RunIsSound(w, p, ts[..n]);
      LookAllIsSound(q.ledger, Candidates(w, q.targets, ts[n]));
      ExtendsTrans(p.ledger, q.ledger, Run(w, p, ts).ledger);
    }
  }

  /** The relocations that are due to a table. */
  ghost function Entries(w: World, targets: map<int, bv32>, t: Table): Reloc -> bool {
    match t
    case ElfTable(scoop, _, entries, start) => ElfEntries(w.insnAt, targets, scoop, entries, start, w.ptrSize)
    case Type3Table(scoop, entries, offset) => Type3Entries(w.insnAt, targets, scoop, entries, offset, w.ptrSize)
    case Type4Table(scoop, entries, tableStart, offset, entrySize, multiplier) =>
      if entrySize == 4 && multiplier == 1
      then Type4Entries(w.insnAt, targets, w.alwaysComplete, scoop, entries, tableStart, offset) else _ => false
  }

  lemma CandidatesIff(w: World, targets: map<int, bv32>, t: Table, c: Candidate)
    ensures c in Candidates(w, targets, t) <==> Entries(w, targets, t)(RelocOf(c))
  {
    hide ElfEntries, Type3Entries, Type4Entries, ElfCandidates, Type3Candidates, Type4Candidates;
    match t
    case ElfTable(scoop, _, entries, start) =>
      ElfCandidatesIff(w.insnAt, targets, scoop, entries, start, w.ptrSize, c);
    case Type3Table(scoop, entries, offset) =>
      Type3CandidatesIff(w.insnAt, targets, scoop, entries, offset, w.ptrSize, c);
    case Type4Table(scoop, entries, tableStart, offset, _, _) =>
      Type4CandidatesIff(w.insnAt, targets, w.alwaysComplete, scoop, entries, tableStart, offset, c);
  }

  lemma {:induction false} LookedAtIff(w: World, p: Progress, ts: seq<Table>, c: Candidate)
    ensures c in LookedAt(w, p, ts) <==>
            exists k :: 0 <= k < |ts| && Entries(w, Run(w, p, ts[..k]).targets, ts[k])(RelocOf(c))
  {
    hide Entries, Candidates, Step, Run;
    if ts != [] {
      var n := |ts| - 1;
      LookedAtIff(w, p, ts[..n], c);
      CandidatesIff(w, Run(w, p, ts[..n]).targets, ts[n], c);
      assert forall k :: 0 <= k < n ==> ts[..n][k] == ts[k] && ts[..n][..k] == ts[..k];
    }
  }

  /** The point of it all: after any run, each entry of any table that its provenance allowed when the
      table was looked at has its relocation exactly if its instruction has lost its pin. */
  lemma EveryEntryRelocated(w: World, p: Progress, ts: seq<Table>, k: nat, r: Reloc)
    requires p.ledger.Sound() && k < |ts| && Entries(w, Run(w, p, ts[..k]).targets, ts[k])(r)
    ensures r in Run(w, p, ts).ledger.relocs <==> r.insn in Run(w, p, ts).ledger.unpinned
  {
    hide *;
    var c := Candidate(r.slot, r.insn, r.kind, r.addend);
    assert RelocOf(c) == r by { SameReloc(c); }
    LookedAtIff(w, p, ts, c);
    RunIsLooks(w, p, ts);
    AllEntriesRelocated(p.ledger, LookedAt(w, p, ts), c);
  }

  lemma SameReloc(c: Candidate)
    ensures RelocOf(c) == Reloc(c.slot, c.kind, c.insn, c.addend)
  {
  }

  /** And no relocation is due to anything else. */
  lemma NoOtherReloc(w: World, p: Progress, ts: seq<Table>, j: nat)
    requires |p.ledger.relocs| <= j < |Run(w, p, ts).ledger.relocs|
    ensures exists k :: 0 <= k < |ts|
                        && Entries(w, Run(w, p, ts[..k]).targets, ts[k])(Run(w, p, ts).ledger.relocs[j])
  {
    hide *;
    RunIsLooks(w, p, ts);
    RelocsStem(p.ledger, LookedAt(w, p, ts), j);
    var c :| c in LookedAt(w, p, ts) && Run(w, p, ts).ledger.relocs[j] == RelocOf(c);
    LookedAtIff(w, p, ts, c);
  }

  /** An instruction with an elided entry in any table is never unpinned later. */
  lemma ElidedInARun(w: World, p: Progress, ts: seq<Table>, e: Scan)
    requires p.ledger.Sound() && e in p.ledger.log && !e.relocated
    ensures e.insn !in Run(w, p, ts).ledger.unpinned
  {
    hide Ledger.Sound, Run;
    RunIsSound(w, p, ts);
    ElidedForGood(p.ledger, Run(w, p, ts).ledger, e);
  }

  // ----- which tables

  function ElfTables(scoops: seq<ElfScoop>): seq<Table> {
    if scoops == [] then []
    else
      var n := |scoops| - 1;
      ElfTables(scoops[..n]) + (if IsElfTable(scoops[n].name) then [AsTable(scoops[n])] else [])
  }

  predicate IsElfTable(name: string) {
    name == ".init_array" || name == ".fini_array" || name == ".got.plt" || name == ".got"
  }

  /** The first three entries of .got.plt are not pointers to code. */
  function AsTable(s: ElfScoop): Table {
    ElfTable(s.id, s.name == ".got", s.entries, if s.name == ".got.plt" then 3 else 0)
  }

  function SwitchTables(ds: seq<Dispatch>): seq<Table> {
    if ds == [] then []
    else
      var n := |ds| - 1;
      SwitchTables(ds[..n]) + TableOf(ds[n])
  }

  function TableOf(d: Dispatch): seq<Table> {
    if !d.analysed || d.scoop == None then []
    else if AreOnlyTheseSet(d.switchType, TYPE3_BITS) then [Type3Table(d.scoop.value, d.entries, d.offset)]
    else if AreOnlyTheseSet(d.switchType, SWITCH_TYPE4 | RODATA | STARS_SWITCH)
    then [Type4Table(d.scoop.value, d.entries, d.tableStart, d.offset, d.entrySize, d.multiplier)]
    else []
  }

  /** Which tables of the object format there are, and where their pointers to code begin. */
  lemma {:induction false} ElfTablesIff(scoops: seq<ElfScoop>, t: Table)
    ensures t in ElfTables(scoops) <==>
            exists s | s in scoops ::
              && s.name in {".init_array", ".fini_array", ".got", ".got.plt"}
              && t == ElfTable(s.id, s.name == ".got", s.entries, if s.name == ".got.plt" then 3 else 0)
  {
    if scoops != [] {
      var n := |scoops| - 1;
      ElfTablesIff(scoops[..n], t);
      assert forall s | s in scoops :: s in scoops[..n] || s == scoops[n];
    }
  }

  /** Which switches have a table, and of which type. */
  lemma {:induction false} SwitchTablesIff(ds: seq<Dispatch>, t: Table)
    ensures t in SwitchTables(ds) <==> exists d | d in ds :: IsTableOf(d, t)
  {
    if ds != [] {
      hide TableOf, IsTableOf;
      var n := |ds| - 1;
      SwitchTablesIff(ds[..n], t);
      TableOfIff(ds[n], t);
      assert forall d | d in ds :: d in ds[..n] || d == ds[n];
    }
  }

  ghost predicate IsTableOf(d: Dispatch, t: Table) {
    && d.analysed && d.scoop.Some?
    && if IsType3(d.switchType) then t == Type3Table(d.scoop.value, d.entries, d.offset)
       else IsType4(d.switchType)
            && t == Type4Table(d.scoop.value, d.entries, d.tableStart, d.offset, d.entrySize, d.multiplier)
  }

  predicate IsType3(v: bv32) { v & !(SWITCH_TYPE3 | STARS_SWITCH | RODATA) == 0 }

  predicate IsType4(v: bv32) { v & !(SWITCH_TYPE4 | STARS_SWITCH | RODATA) == 0 }

  lemma TableOfIff(d: Dispatch, t: Table)
    ensures t in TableOf(d) <==> IsTableOf(d, t)
  {
    hide AreOnlyTheseSet, IsType3, IsType4;
    TypesIff(d.switchType);
  }

  lemma TypesIff(v: bv32)
    ensures AreOnlyTheseSet(v, TYPE3_BITS) <==> IsType3(v)
    ensures AreOnlyTheseSet(v, SWITCH_TYPE4 | RODATA | STARS_SWITCH) <==> IsType4(v)
  {
  }

  ghost predicate AlwaysComplete(ds: seq<Dispatch>, insn: nat) {
    && (exists d | d in ds :: d.complete && insn in d.ibTargets)
    && (forall d | d in ds && insn in d.ibTargets :: d.complete)
  }

  method AlwaysCompleteTargets(ds: seq<Dispatch>) returns (r: set<nat>)
    ensures forall insn :: insn in r <==> AlwaysComplete(ds, insn)
    ensures forall insn :: insn in r <==>
              && (exists d | d in ds :: d.complete && insn in d.ibTargets)
              && (forall d | d in ds && insn in d.ibTargets :: d.complete)
  {
    var complete: set<nat>, other: set<nat> := {}, {};
    var i := 0;
    while i < |ds|
      invariant 0 <= i <= |ds|
      invariant forall insn :: insn in complete <==> exists d | d in ds[..i] :: d.complete && insn in d.ibTargets
      invariant forall insn :: insn in other <==> exists d | d in ds[..i] :: !d.complete && insn in d.ibTargets
    {
      assert ds[..i + 1] == ds[..i] + [ds[i]];
      if ds[i].complete { complete := complete + ds[i].ibTargets; } else { other := other + ds[i].ibTargets; }
      i := i + 1;
    }
    assert ds[..i] == ds;
    r := complete - other;
  }

  // ----- the passes

  /** What the pass asserts of a table of the object format. */
  ghost predicate ElfAsserts(insnAt: map<int, nat>, targets: map<int, bv32>, t: Table) {
    t.ElfTable? ==>
      && (!t.isGot ==> forall i :: t.start <= i < |t.entries|
                         ==> if t.entries[i] == 0 then i == |t.entries| - 1 else t.entries[i] in insnAt)
      && forall i :: t.start <= i < |t.entries| && t.entries[i] != 0 && t.entries[i] in insnAt
          ==> t.entries[i] in targets
  }

  method UnpinElfTables(u: Unpinner, scoops: seq<ElfScoop>, ghost w: World, ptrSize: nat)
    requires w.insnAt == u.insnAt && w.ptrSize == ptrSize && u.Now().Sound()
    requires forall s | s in scoops && IsElfTable(s.name) :: ElfAsserts(u.insnAt, u.targets, AsTable(s))
    modifies u`total, u`unpinned, u`relocs, u`ibta, u`log
    ensures Progress(u.Now(), u.targets) == Run(w, Progress(old(u.Now()), u.targets), ElfTables(scoops))
  {
    hide Ledger.Sound, IsElfTable, ElfCandidates, ElfEntries, Relocated, LookAll;
    ghost var p := Progress(u.Now(), u.targets);
    var i := 0;
    while i < |scoops|
      invariant 0 <= i <= |scoops| && u.Now().Sound()
      invariant Progress(u.Now(), u.targets) == Run(w, p, ElfTables(scoops[..i]))
    {
      assert scoops[..i + 1][..i] == scoops[..i];
      var s := scoops[i];
      assert ElfTables(scoops[..i]) + [] == ElfTables(scoops[..i]);
      if IsElfTable(s.name) {
        RunOneMore(w, p, ElfTables(scoops[..i]), AsTable(s));
        u.UnpinElfTable(s.id, s.name == ".got", s.entries, if s.name == ".got.plt" then 3 else 0, ptrSize);
      }
      i := i + 1;
    }
    assert scoops[..i] == scoops;
  }

  /** What the pass asserts of a switch table. */
  ghost predicate SwitchAsserts(insnAt: map<int, nat>, ibta: map<nat, int>, t: Table) {
    t.Type4Table? ==> forall i :: 0 <= i < |t.entries| && t.entries[i] + t.tableStart in insnAt
                        ==> insnAt[t.entries[i] + t.tableStart] in ibta
  }

  lemma StepKeepsAddresses(l: Ledger, cs: seq<Candidate>, insnAt: map<int, nat>, t: Table)
    requires SwitchAsserts(insnAt, l.ibta, t)
    ensures SwitchAsserts(insnAt, LookAll(l, cs).ibta, t)
  {
    LookAllKeepsAddresses(l, cs);
  }

  lemma {:induction false} LookAllKeepsAddresses(l: Ledger, cs: seq<Candidate>)
    ensures l.ibta.Keys <= LookAll(l, cs).ibta.Keys
  {
    if cs != [] {
      LookAllKeepsAddresses(l, cs[..|cs| - 1]);
      LookKeepsAddresses(LookAll(l, cs[..|cs| - 1]), cs[|cs| - 1]);
    }
  }

  method UnpinSwitchTable(u: Unpinner, d: Dispatch, w: World)
    requires w.insnAt == u.insnAt && u.Now().Sound()
    requires forall t | t in TableOf(d) :: SwitchAsserts(u.insnAt, u.ibta, t)
    modifies u`total, u`unpinned, u`relocs, u`ibta, u`log, u`targets
    ensures u.Now().Sound()
    ensures Progress(u.Now(), u.targets) == Run(w, Progress(old(u.Now()), old(u.targets)), TableOf(d))
  {
    hide Ledger.Sound, LookAll, AreOnlyTheseSet;
    ghost var p := Progress(u.Now(), u.targets);
    RunIsSound(w, p, TableOf(d));
    NothingLookedAt(u.Now());
    if !d.analysed || d.scoop == None { return; }
    RunOneMore(w, p, [], if AreOnlyTheseSet(d.switchType, TYPE3_BITS)
                         then Type3Table(d.scoop.value, d.entries, d.offset)
                         else Type4Table(d.scoop.value, d.entries, d.tableStart, d.offset, d.entrySize, d.multiplier));
    if AreOnlyTheseSet(d.switchType, TYPE3_BITS) {
      u.UnpinType3SwitchTable(d.scoop.value, d.entries, d.offset, w.ptrSize);
    } else if AreOnlyTheseSet(d.switchType, SWITCH_TYPE4 | RODATA | STARS_SWITCH) {
      var t := Type4Table(d.scoop.value, d.entries, d.tableStart, d.offset, d.entrySize, d.multiplier);
      assert t in TableOf(d);
      u.UnpinType4SwitchTable(d.scoop.value, d.entries, d.tableStart, d.offset, d.entrySize, d.multiplier,
                              w.alwaysComplete);
    }
  }

  method UnpinSwitches(u: Unpinner, ds: seq<Dispatch>, ptrSize: nat) returns (w: World)
    requires u.Now().Sound()
    requires forall d, t | d in ds && t in TableOf(d) :: SwitchAsserts(u.insnAt, u.ibta, t)
    modifies u`total, u`unpinned, u`relocs, u`ibta, u`log, u`targets
    ensures w.insnAt == u.insnAt && w.ptrSize == ptrSize && forall i :: i in w.alwaysComplete <==> AlwaysComplete(ds, i)
    ensures Progress(u.Now(), u.targets) == Run(w, Progress(old(u.Now()), old(u.targets)), SwitchTables(ds))
  {
    hide Ledger.Sound, TableOf, SwitchAsserts, Step, AlwaysComplete;
    var always_complete_targets := AlwaysCompleteTargets(ds);
    w := World(u.insnAt, always_complete_targets, ptrSize);
    ghost var p := Progress(u.Now(), u.targets);
    var i := 0;
    while i < |ds|
      invariant 0 <= i <= |ds| && u.Now().Sound()
      invariant forall d, t | d in ds && t in TableOf(d) :: SwitchAsserts(u.insnAt, u.ibta, t)
      invariant Progress(u.Now(), u.targets) == Run(w, p, SwitchTables(ds[..i]))
    {
      assert ds[..i + 1][..i] == ds[..i];
      RunJoined(w, p, SwitchTables(ds[..i]), TableOf(ds[i]));
      ghost var q := Progress(u.Now(), u.targets);
      UnpinSwitchTable(u, ds[i], w);
      forall d, t | d in ds && t in TableOf(d) ensures SwitchAsserts(u.insnAt, u.ibta, t) {
        RunKeepsAddresses(w, q, TableOf(ds[i]), t);
      }
      i := i + 1;
    }
    assert ds[..i] == ds;
  }

  lemma {:induction false} RunKeepsAddresses(w: World, p: Progress, ts: seq<Table>, t: Table)
    requires SwitchAsserts(w.insnAt, p.ledger.ibta, t)
    ensures SwitchAsserts(w.insnAt, Run(w, p, ts).ledger.ibta, t)
  {
    hide SwitchAsserts, LookAll, Candidates, Marked;
    if ts != [] {
      var q := Run(w, p, ts[..|ts| - 1]);
      RunKeepsAddresses(w, p, ts[..|ts| - 1], t);
      StepKeepsAddresses(q.ledger, Candidates(w, q.targets, ts[|ts| - 1]), w.insnAt, t);
    }
  }

  /** Both passes: every entry of every table, under one limit. */
  method Unpin(u: Unpinner, scoops: seq<ElfScoop>, ds: seq<Dispatch>, ptrSize: nat) returns (w: World)
    requires u.Now().Sound()
    requires forall s | s in scoops && IsElfTable(s.name) :: ElfAsserts(u.insnAt, u.targets, AsTable(s))
    requires forall d, t | d in ds && t in TableOf(d) :: SwitchAsserts(u.insnAt, u.ibta, t)
    modifies u`total, u`unpinned, u`relocs, u`ibta, u`log, u`targets
    ensures w.insnAt == u.insnAt && w.ptrSize == ptrSize && forall i :: i in w.alwaysComplete <==> AlwaysComplete(ds, i)
    ensures Progress(u.Now(), u.targets)
         == Run(w, Progress(old(u.Now()), old(u.targets)), ElfTables(scoops) + SwitchTables(ds))
    ensures u.Now().Sound()
  {
    hide Ledger.Sound, Step, AlwaysComplete, ElfAsserts, SwitchAsserts, ElfTables, SwitchTables, TableOf;
    ghost var p, w0 := Progress(u.Now(), u.targets), World(u.insnAt, {}, ptrSize);
    UnpinElfTables(u, scoops, w0, ptrSize);
    RunIsSound(w0, p, ElfTables(scoops));
    forall d, t | d in ds && t in TableOf(d) ensures SwitchAsserts(u.insnAt, u.ibta, t) {
      RunKeepsAddresses(w0, p, ElfTables(scoops), t);
    }
    w := UnpinSwitches(u, ds, ptrSize);
    ElfRunsAlike(w0, w, p, scoops);
    RunJoined(w, p, ElfTables(scoops), SwitchTables(ds));
    RunIsSound(w, p, ElfTables(scoops) + SwitchTables(ds));
  }

  /** Tables of the object format do not depend on what is known of switches. */
  lemma {:induction false} ElfRunsAlike(w: World, v: World, p: Progress, scoops: seq<ElfScoop>)
    requires v == w.(alwaysComplete := v.alwaysComplete)
    ensures Run(w, p, ElfTables(scoops)) == Run(v, p, ElfTables(scoops))
  {
    if scoops != [] {
      var n := |scoops| - 1;
      ElfRunsAlike(w, v, p, scoops[..n]);
      assert ElfTables(scoops[..n]) + [] == ElfTables(scoops[..n]);
      RunOneMore(w, p, ElfTables(scoops[..n]), AsTable(scoops[n]));
      RunOneMore(v, p, ElfTables(scoops[..n]), AsTable(scoops[n]));
    }
  }
}
