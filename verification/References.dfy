/** What merging does to the references recorded before it: each still names the same byte. */
module References {
  import opened Common
  import opened LittleEndian
  import opened Coalescing
  import opened Tracking

  /** How far into its merged scoop an original scoop begins. */
  function Shift<Id(==)>(st0: State<Id>, st: State<Id>, home: map<Id, Id>, s: Id): (d: nat) {
    if s in home && s in st0.scoops && home[s] in st.scoops && st.scoops[home[s]].start <= st0.scoops[s].start
    then st0.scoops[s].start - st.scoops[home[s]].start else 0
  }

  function MovedInsn<Id(==)>(home: map<Id, Id>, f: InsnFixup<Id>): InsnFixup<Id> {
    InsnFixup(f.insn, Where(home, f.to))
  }

  function MovedData<Id(==)>(st0: State<Id>, st: State<Id>, home: map<Id, Id>, f: DataFixup<Id>): DataFixup<Id> {
    DataFixup(Where(home, f.from), f.offset + Shift(st0, st, home, f.from), Where(home, f.to))
  }

  function WhereOpt<Id(==)>(home: map<Id, Id>, o: Option<Id>): Option<Id> {
    match o case None => None case Some(s) => Some(Where(home, s))
  }

  function ShiftOpt<Id(==)>(st0: State<Id>, st: State<Id>, home: map<Id, Id>, o: Option<Id>): nat {
    match o case None => 0 case Some(s) => Shift(st0, st, home, s)
  }

  function MovedReloc<Id(==)>(st0: State<Id>, st: State<Id>, home: map<Id, Id>, r: Reloc<Id>): Reloc<Id> {
    Reloc(WhereOpt(home, r.owner), r.offset + ShiftOpt(st0, st, home, r.owner),
          WhereOpt(home, r.wrt), (r.addend + ShiftOpt(st0, st, home, r.wrt)) % TWO_32)
  }

  /** Every reference is where, and names what, the map of merged scoops says. */
  ghost predicate InsnsFollow<Id>(before: set<InsnFixup<Id>>, now: set<InsnFixup<Id>>, home: map<Id, Id>) {
    now == set f | f in before :: MovedInsn(home, f)
  }

  ghost predicate DataFollows<Id>(st0: State<Id>, st: State<Id>, home: map<Id, Id>) {
    st.data == set f | f in st0.data :: MovedData(st0, st, home, f)
  }

  ghost predicate RelocsFollow<Id>(st0: State<Id>, st: State<Id>, home: map<Id, Id>) {
    && st.relocs.Keys == st0.relocs.Keys
    && forall r | r in st0.relocs :: st.relocs[r] == MovedReloc(st0, st, home, st0.relocs[r])
  }

  lemma MergeShift<Id>(st0: State<Id>, st: State<Id>, t: State<Id>, home: map<Id, Id>, s1: Id, s2: Id, s: Id)
    requires Merged(st, t, s1, s2) && Homes(st0, st, home)
    ensures Shift(st0, t, Rehome(home, s1, s2), s)
         == Shift(st0, st, home, s) + (if Where(home, s) == s2 then st.scoops[s1].Size() else 0)
    ensures Where(Rehome(home, s1, s2), s) == Instead(Where(home, s), s1, s2)
  {
  }

  lemma MergeInsnsFollow<Id>(st0: State<Id>, st: State<Id>, home: map<Id, Id>, s1: Id, s2: Id,
                             before: set<InsnFixup<Id>>, now: set<InsnFixup<Id>>)
    requires Homes(st0, st, home) && s1 in st.moveable && s2 in st.moveable && InsnsFollow(before, now, home)
    ensures InsnsFollow(before, MergeInsn(now, s1, s2), Rehome(home, s1, s2))
  {
    var h, merged := Rehome(home, s1, s2), MergeInsn(now, s1, s2);
    forall f | f in before
      ensures MovedInsn(h, f) == InsnFixup(f.insn, Instead(Where(home, f.to), s1, s2))
      ensures MovedInsn(h, f) in merged
    {
      assert MovedInsn(home, f) in now;
    }
    forall g | g in merged ensures exists f :: f in before && g == MovedInsn(h, f) {
      var g0 :| g0 in now && g == InsnFixup(g0.insn, Instead(g0.to, s1, s2));
      var f :| f in before && g0 == MovedInsn(home, f);
      assert g == MovedInsn(h, f);
    }
  }

  lemma MergeDataRefFollows<Id>(st0: State<Id>, st: State<Id>, t: State<Id>, home: map<Id, Id>, s1: Id, s2: Id,
                                f: DataFixup<Id>)
    requires Merged(st, t, s1, s2) && Homes(st0, st, home)
    ensures st.scoops[s1].Size() >= 0
    ensures MovedData(st0, t, Rehome(home, s1, s2), f)
         == MergeDataRef(MovedData(st0, st, home, f), s1, s2, st.scoops[s1].Size())
  {
    hide Homes, Shift, Where, Rehome;
    MergeShift(st0, st, t, home, s1, s2, f.from);
    MergeShift(st0, st, t, home, s1, s2, f.to);
  }

  lemma MergeDataFollows<Id>(st0: State<Id>, st: State<Id>, t: State<Id>, home: map<Id, Id>, s1: Id, s2: Id)
    requires Merged(st, t, s1, s2) && Homes(st0, st, home) && DataFollows(st0, st, home)
    requires st.scoops[s1].Size() >= 0 && t.data == MergeData(st.data, s1, s2, st.scoops[s1].Size())
    ensures DataFollows(st0, t, Rehome(home, s1, s2))
  {
    hide Homes, MovedData, MergeDataRef, Rehome;
    var h, n := Rehome(home, s1, s2), st.scoops[s1].Size();
    forall f | f in st0.data
      ensures MovedData(st0, t, h, f) == MergeDataRef(MovedData(st0, st, home, f), s1, s2, n)
      ensures MovedData(st0, t, h, f) in t.data
    {
      MergeDataRefFollows(st0, st, t, home, s1, s2, f);
      assert MovedData(st0, st, home, f) in st.data;
    }
    forall g | g in t.data ensures exists f :: f in st0.data && g == MovedData(st0, t, h, f) {
      var g0 :| g0 in st.data && g == MergeDataRef(g0, s1, s2, n);
      var f :| f in st0.data && g0 == MovedData(st0, st, home, f);
      assert g == MovedData(st0, t, h, f);
    }
  }

  lemma AddMod32(a: nat, b: nat, c: nat)
    ensures ((a + b) % TWO_32 + c) % TWO_32 == (a + (b + c)) % TWO_32
  {
  }

  lemma MergeRelocFollows<Id>(st0: State<Id>, st: State<Id>, t: State<Id>, home: map<Id, Id>, s1: Id, s2: Id,
                              r: Reloc<Id>)
    requires Merged(st, t, s1, s2) && Homes(st0, st, home)
    ensures st.scoops[s1].Size() >= 0
    ensures MovedReloc(st0, t, Rehome(home, s1, s2), r)
         == MergeReloc(MovedReloc(st0, st, home, r), s1, s2, st.scoops[s1].Size(), |st.scoops[s1].contents|)
  {
    hide Homes, Shift, Where, Rehome;
    assert |st.scoops[s1].contents| == st.scoops[s1].Size();
    if r.owner.Some? { MergeShift(st0, st, t, home, s1, s2, r.owner.value); }
    if r.wrt.Some? {
      MergeShift(st0, st, t, home, s1, s2, r.wrt.value);
      AddMod32(r.addend, Shift(st0, st, home, r.wrt.value), st.scoops[s1].Size());
    }
  }

  lemma MergeRelocsFollow<Id>(st0: State<Id>, st: State<Id>, t: State<Id>, home: map<Id, Id>, s1: Id, s2: Id)
    requires Merged(st, t, s1, s2) && Homes(st0, st, home) && RelocsFollow(st0, st, home)
    requires st.scoops[s1].Size() >= 0 && t.relocs.Keys == st.relocs.Keys
    requires forall r | r in st.relocs ::
               t.relocs[r] == MergeReloc(st.relocs[r], s1, s2, st.scoops[s1].Size(), |st.scoops[s1].contents|)
    ensures RelocsFollow(st0, t, Rehome(home, s1, s2))
  {
    hide Homes, MovedReloc, MergeReloc, Rehome, Merged;
    forall r | r in st0.relocs ensures t.relocs[r] == MovedReloc(st0, t, Rehome(home, s1, s2), st0.relocs[r]) {
      MergeRelocFollows(st0, st, t, home, s1, s2, st0.relocs[r]);
    }
  }

  // ----- the same, in terms of addresses

  lemma ShiftedStart<Id>(st0: State<Id>, st: State<Id>, home: map<Id, Id>, s: Id)
    requires Homes(st0, st, home) && s in st0.scoops
    ensures Where(home, s) in st.scoops
    ensures st.scoops[Where(home, s)].start + Shift(st0, st, home, s) == st0.scoops[s].start
    ensures s in home || st.scoops[Where(home, s)] == st0.scoops[s]
  {
  }

  /** A reference to `from` has become one to `to`: the same bytes at the same addresses are in there. */
  ghost predicate StandsFor<Id>(st0: State<Id>, st: State<Id>, to: Id, from: Id) {
    && from in st0.scoops && to in st.scoops
    && st.scoops[to].start <= st0.scoops[from].start && st0.scoops[from].end <= st.scoops[to].end
  }

  /** The relocation is at the same address, and the address it is relative to, plus the addend, is the
      same modulo 2^32. */
  ghost predicate SameReloc<Id>(st0: State<Id>, st: State<Id>, r: Reloc<Id>, q: Reloc<Id>) {
    && (if r.owner.Some? then
          && q.owner.Some? && StandsFor(st0, st, q.owner.value, r.owner.value)
          && st.scoops[q.owner.value].start + q.offset == st0.scoops[r.owner.value].start + r.offset
        else q.owner == None && q.offset == r.offset)
    && (if r.wrt.Some? then
          && q.wrt.Some? && StandsFor(st0, st, q.wrt.value, r.wrt.value)
          && (st.scoops[q.wrt.value].start + q.addend) % TWO_32
             == (st0.scoops[r.wrt.value].start + r.addend) % TWO_32
        else q.wrt == None && q.addend == r.addend)
  }

  lemma RelocKeepsAddresses<Id>(st0: State<Id>, st: State<Id>, home: map<Id, Id>, r: Reloc<Id>)
    requires Homes(st0, st, home) && r.addend < TWO_32
    requires (r.owner.Some? ==> r.owner.value in st0.scoops) && (r.wrt.Some? ==> r.wrt.value in st0.scoops)
    ensures SameReloc(st0, st, r, MovedReloc(st0, st, home, r))
  {
    if r.owner.Some? {
      ShiftedStart(st0, st, home, r.owner.value);
      HomeStandsFor(st0, st, home, r.owner.value);
    }
    if r.wrt.Some? {
      ShiftedStart(st0, st, home, r.wrt.value);
      HomeStandsFor(st0, st, home, r.wrt.value);
      AddendMoves(st.scoops[Where(home, r.wrt.value)].start, r.addend, Shift(st0, st, home, r.wrt.value));
    }
  }

  lemma AddendMoves(start: int, addend: nat, shift: nat)
    ensures (start + (addend + shift) % TWO_32) % TWO_32 == (start + shift + addend) % TWO_32
  {
  }

  lemma HomeStandsFor<Id>(st0: State<Id>, st: State<Id>, home: map<Id, Id>, s: Id)
    requires Homes(st0, st, home) && s in st0.scoops
    ensures StandsFor(st0, st, Where(home, s), s)
  {
  }

  /** The pointer is at the same address, and its target is where the original target was. */
  ghost predicate SameDataFixup<Id>(st0: State<Id>, st: State<Id>, f: DataFixup<Id>, g: DataFixup<Id>) {
    && StandsFor(st0, st, g.from, f.from) && StandsFor(st0, st, g.to, f.to)
    && st.scoops[g.from].start + g.offset == st0.scoops[f.from].start + f.offset
  }

  lemma DataKeepsAddresses<Id>(st0: State<Id>, st: State<Id>, home: map<Id, Id>, f: DataFixup<Id>)
    requires Homes(st0, st, home) && f.from in st0.scoops && f.to in st0.scoops
    ensures SameDataFixup(st0, st, f, MovedData(st0, st, home, f))
  {
    ShiftedStart(st0, st, home, f.from);
    HomeStandsFor(st0, st, home, f.from);
    HomeStandsFor(st0, st, home, f.to);
  }

  ghost predicate SameInsnFixup<Id>(st0: State<Id>, st: State<Id>, f: InsnFixup<Id>, g: InsnFixup<Id>) {
    g.insn == f.insn && StandsFor(st0, st, g.to, f.to)
  }

  /** References were recorded for scoops that there are. */
  ghost predicate RefsKnown<Id>(st: State<Id>) {
    && (forall f | f in st.pcrel + st.absolute + st.immed :: f.to in st.scoops)
    && (forall f | f in st.data :: f.from in st.scoops && f.to in st.scoops)
    && (forall n | n in st.relocs ::
          && st.relocs[n].addend < TWO_32
          && (st.relocs[n].owner.Some? ==> st.relocs[n].owner.value in st.scoops)
          && (st.relocs[n].wrt.Some? ==> st.relocs[n].wrt.value in st.scoops))
  }

  ghost predicate SameInsnFixups<Id>(st0: State<Id>, st: State<Id>, before: set<InsnFixup<Id>>,
                                     now: set<InsnFixup<Id>>) {
    && (forall f | f in before :: exists g :: g in now && SameInsnFixup(st0, st, f, g))
    && (forall g | g in now :: exists f :: f in before && SameInsnFixup(st0, st, f, g))
  }

  lemma InsnsKeepAddresses<Id>(st0: State<Id>, st: State<Id>, home: map<Id, Id>, before: set<InsnFixup<Id>>,
                               now: set<InsnFixup<Id>>)
    requires Homes(st0, st, home) && InsnsFollow(before, now, home) && forall f | f in before :: f.to in st0.scoops
    ensures SameInsnFixups(st0, st, before, now)
  {
    hide Homes, Where, StandsFor;
    forall f | f in before ensures MovedInsn(home, f) in now && SameInsnFixup(st0, st, f, MovedInsn(home, f)) {
      HomeStandsFor(st0, st, home, f.to);
    }
  }

  /** No reference appears or disappears, and each is still about the same addresses. */
  ghost predicate SameAddresses<Id>(st0: State<Id>, st: State<Id>) {
    && SameInsnFixups(st0, st, st0.pcrel, st.pcrel)
    && SameInsnFixups(st0, st, st0.absolute, st.absolute)
    && SameInsnFixups(st0, st, st0.immed, st.immed)
    && (forall f | f in st0.data :: exists g :: g in st.data && SameDataFixup(st0, st, f, g))
    && (forall g | g in st.data :: exists f :: f in st0.data && SameDataFixup(st0, st, f, g))
    && st.relocs.Keys == st0.relocs.Keys
    && (forall n | n in st.relocs :: SameReloc(st0, st, st0.relocs[n], st.relocs[n]))
  }

  lemma RefsKeepAddresses<Id>(st0: State<Id>, st: State<Id>, home: map<Id, Id>)
    requires Homes(st0, st, home) && RefsKnown(st0) && DataFollows(st0, st, home) && RelocsFollow(st0, st, home)
    requires InsnsFollow(st0.pcrel, st.pcrel, home) && InsnsFollow(st0.absolute, st.absolute, home)
    requires InsnsFollow(st0.immed, st.immed, home)
    ensures SameAddresses(st0, st)
  {
    hide Homes, MovedData, MovedReloc, SameDataFixup, SameReloc, InsnsFollow, SameInsnFixups;
    InsnsKeepAddresses(st0, st, home, st0.pcrel, st.pcrel);
    InsnsKeepAddresses(st0, st, home, st0.absolute, st.absolute);
    InsnsKeepAddresses(st0, st, home, st0.immed, st.immed);
    forall f | f in st0.data
      ensures MovedData(st0, st, home, f) in st.data && SameDataFixup(st0, st, f, MovedData(st0, st, home, f))
    {
      DataKeepsAddresses(st0, st, home, f);
    }
    forall n | n in st.relocs ensures SameReloc(st0, st, st0.relocs[n], st.relocs[n]) {
      RelocKeepsAddresses(st0, st, home, st0.relocs[n]);
    }
  }
}
