/** Data regions ("scoops"), the ties that keep some of them together, and what merging two tied
    scoops does to everything that refers to them.  The scoop type parameter `Id` stands for the
    identity of a scoop object. */
module Coalescing {
  import opened Common
  import opened LittleEndian

  datatype Scoop = Scoop(name: string, start: int, end: int, contents: seq<Byte>, relRo: bool, perms: bv8) {
    function Size(): int { end - start + 1 }

    /** The unpinner insists on this for every scoop. */
    predicate Sized() { |contents| == Size() }

    predicate Executable() { perms & 1 == 1 }
  }

  datatype InsnFixup<Id> = InsnFixup(insn: nat, to: Id)
  datatype DataFixup<Id> = DataFixup(from: Id, offset: nat, to: Id)
  datatype Reloc<Id> = Reloc(owner: Option<Id>, offset: nat, wrt: Option<Id>, addend: nat)

  datatype State<Id> = State(
    scoops: map<Id, Scoop>, moveable: set<Id>, tied: set<(Id, Id)>,
    pcrel: set<InsnFixup<Id>>, absolute: set<InsnFixup<Id>>, immed: set<InsnFixup<Id>>,
    data: set<DataFixup<Id>>, relocs: map<nat, Reloc<Id>>)

  // ----- pinning

  predicate DontCoalesce(name: string) { name == ".dynamic" || name == ".jcr" }

  /** No tie crosses the boundary of `u`. */
  ghost predicate Closed<Id>(u: set<Id>, ties: set<(Id, Id)>) {
    forall p | p in ties :: p.0 in u <==> p.1 in u
  }

  ghost predicate Bounds<Id>(all: set<Id>, ties: set<(Id, Id)>, m: set<Id>) {
    forall u | u <= all && Closed(u, ties) :: u <= m
  }

  /** `m` is the largest subset of `all` that no tie crosses. */
  ghost predicate Greatest<Id>(all: set<Id>, ties: set<(Id, Id)>, m: set<Id>) {
    m <= all && Closed(m, ties) && Bounds(all, ties, m)
  }

  /** Whatever the order in which ties are visited, there is one answer. */
  lemma GreatestIsUnique<Id>(all: set<Id>, ties: set<(Id, Id)>, m: set<Id>, n: set<Id>)
    requires Greatest(all, ties, m) && Greatest(all, ties, n)
    ensures m == n
  {
    assert m <= n && n <= m;
  }

  /** A scoop tied to one that cannot move cannot move either. */
  lemma PinKeepsBound<Id>(all: set<Id>, ties: set<(Id, Id)>, m: set<Id>, p: (Id, Id), s: Id)
    requires Bounds(all, ties, m) && p in ties && ((s == p.0 && p.1 !in m) || (s == p.1 && p.0 !in m))
    ensures Bounds(all, ties, m - {s})
  {
    forall u | u <= all && Closed(u, ties) ensures u <= m - {s} {
      assert u <= m;
    }
  }

  // ----- merging

  predicate Touch(a: Scoop, b: Scoop) { a.end + 1 == b.start }

  /** `a` once any gap before `b` has been absorbed: its end moves, its contents do not. */
  function Padded(a: Scoop, b: Scoop): Scoop {
    if a.end + 1 < b.start then a.(end := b.start - 1) else a
  }

  function Joined(a: Scoop, b: Scoop): Scoop {
    Scoop(a.name + " coalesced w/" + b.name, a.start, b.end, a.contents + b.contents,
          a.relRo && b.relRo, a.perms | b.perms)
  }

  /** Once a gap has been absorbed, the size of the first scoop is how far it is to the second, so what is
      shifted by it keeps its address.  What is shifted by the length of the contents does only if there
      was no gap. */
  lemma PaddedReaches(a: Scoop, b: Scoop)
    requires a.end < b.start
    ensures a.start + Padded(a, b).Size() == b.start
    ensures a.Sized() ==> (a.start + |a.contents| == b.start <==> a.end + 1 == b.start)
  {
  }

  /** The scanner of relocation sections looks for a merged one under this name. */
  lemma MergedRelocSections(a: Scoop, b: Scoop)
    requires a.name == ".rela.dyn" && b.name == ".rela.plt"
    ensures Joined(a, b).name == ".rela.dyn coalesced w/.rela.plt"
  {
  }

  function Instead<Id(==)>(s: Id, s1: Id, s2: Id): Id { if s == s2 then s1 else s }

  function InsteadOpt<Id(==)>(o: Option<Id>, s1: Id, s2: Id): Option<Id> {
    if o == Some(s2) then Some(s1) else o
  }

  function MergeInsn<Id(==)>(refs: set<InsnFixup<Id>>, s1: Id, s2: Id): set<InsnFixup<Id>> {
    set f | f in refs :: InsnFixup(f.insn, Instead(f.to, s1, s2))
  }

  function MergeDataRef<Id(==)>(f: DataFixup<Id>, s1: Id, s2: Id, size: nat): DataFixup<Id> {
    DataFixup(Instead(f.from, s1, s2), if f.from == s2 then f.offset + size else f.offset, Instead(f.to, s1, s2))
  }

  function MergeData<Id(==)>(refs: set<DataFixup<Id>>, s1: Id, s2: Id, size: nat): set<DataFixup<Id>> {
    set f | f in refs :: MergeDataRef(f, s1, s2, size)
  }

  /** `size` is the padded size of the first scoop, `length` the length of its contents. */
  function MergeReloc<Id(==)>(r: Reloc<Id>, s1: Id, s2: Id, size: nat, length: nat): Reloc<Id> {
    Reloc(InsteadOpt(r.owner, s1, s2),
          if r.owner == Some(s2) then r.offset + length else r.offset,
          InsteadOpt(r.wrt, s1, s2),
          if r.wrt == Some(s2) then (r.addend + size) % TWO_32 else r.addend)
  }

  function MergeTies<Id(==)>(tied: set<(Id, Id)>, s1: Id, s2: Id): set<(Id, Id)> {
    set p | p in tied && p != (s1, s2) :: (Instead(p.0, s1, s2), p.1)
  }

  /** One round of the coalescing loop, for the tie `(s1, s2)`. */
  function Merge<Id(==)>(st: State<Id>, s1: Id, s2: Id): State<Id>
    requires s1 in st.scoops && s2 in st.scoops && st.scoops[s1].start <= Padded(st.scoops[s1], st.scoops[s2]).end + 1
  {
    var a, b := st.scoops[s1], st.scoops[s2];
    var size: nat := Padded(a, b).Size();
    State(
      (st.scoops - {s2})[s1 := Joined(a, b)], st.moveable - {s2}, MergeTies(st.tied, s1, s2),
      MergeInsn(st.pcrel, s1, s2), MergeInsn(st.absolute, s1, s2), MergeInsn(st.immed, s1, s2),
      MergeData(st.data, s1, s2, size),
      map r | r in st.relocs :: MergeReloc(st.relocs[r], s1, s2, size, |a.contents|))
  }

  // ----- what keeps the loop's assertions true

  ghost predicate Disjoint<Id>(st: State<Id>) {
    && st.moveable <= st.scoops.Keys
    && (forall a | a in st.moveable :: st.scoops[a].start <= st.scoops[a].end)
    && (forall a, b | a in st.moveable && b in st.moveable && a != b ::
          st.scoops[a].end < st.scoops[b].start || st.scoops[b].end < st.scoops[a].start)
  }

  /** `b` comes after `a`, with no moveable scoop between them. */
  ghost predicate Consecutive<Id>(st: State<Id>, a: Id, b: Id)
    requires st.moveable <= st.scoops.Keys && a in st.moveable && b in st.moveable
  {
    && st.scoops[a].start < st.scoops[b].start
    && forall c | c in st.moveable ::
        st.scoops[c].start <= st.scoops[a].start || st.scoops[b].start <= st.scoops[c].start
  }

  ghost predicate Ordered<Id>(st: State<Id>) {
    && Disjoint(st)
    && (forall p | p in st.tied :: p.0 in st.moveable && p.1 in st.moveable && Consecutive(st, p.0, p.1))
    && (forall p | p in st.tied :: !DontCoalesce(st.scoops[p.0].name) && !DontCoalesce(st.scoops[p.1].name))
  }

  // ----- what pinning leaves behind

  /** The ties that the pass may act on. */
  ghost function Plain<Id>(st: State<Id>): set<(Id, Id)> {
    set p | p in st.tied && p.0 in st.scoops && p.1 in st.scoops
            && !DontCoalesce(st.scoops[p.0].name) && !DontCoalesce(st.scoops[p.1].name)
  }

  ghost function Inside<Id>(ties: set<(Id, Id)>, m: set<Id>): set<(Id, Id)> {
    set p | p in ties && p.0 in m && p.1 in m
  }

  /** Before pinning: a tie the pass may act on joins consecutive scoops, if both may move. */
  ghost predicate InOrder<Id>(st: State<Id>) {
    && Disjoint(st)
    && forall p | p in Inside(Plain(st), st.moveable) :: Consecutive(st, p.0, p.1)
  }

  lemma PinningKeepsOrder<Id>(st: State<Id>, m: set<Id>)
    requires InOrder(st) && m <= st.moveable
    ensures Ordered(st.(moveable := m, tied := Inside(Plain(st), m)))
  {
    var t := st.(moveable := m, tied := Inside(Plain(st), m));
    forall p | p in t.tied ensures Consecutive(t, p.0, p.1) {
      assert p in Inside(Plain(st), st.moveable);
    }
  }

  /** Ties form paths: a scoop starts at most one and ends at most one. */
  lemma TiesArePaths<Id>(st: State<Id>, p: (Id, Id), q: (Id, Id))
    requires Ordered(st) && p in st.tied && q in st.tied
    ensures p.0 == q.0 <==> p == q
    ensures p.1 == q.1 <==> p == q
    ensures p.0 != p.1
  {
    assert Consecutive(st, p.0, p.1) && Consecutive(st, q.0, q.1);
  }

  /** The order and overlap assertions of the loop hold. */
  lemma TiedAreInOrder<Id>(st: State<Id>, s1: Id, s2: Id)
    requires Ordered(st) && (s1, s2) in st.tied
    ensures s1 in st.moveable && s2 in st.moveable && s1 != s2
    ensures st.scoops[s1].start < st.scoops[s2].start && st.scoops[s1].end < st.scoops[s2].start
  {
    var p := (s1, s2);
    assert Consecutive(st, p.0, p.1);
  }

  lemma JoinedNameIsPlain(a: string, b: string)
    ensures !DontCoalesce(a + " coalesced w/" + b)
  {
    assert |a + " coalesced w/" + b| >= 13;
  }

  /** After a merge the remaining ties still join consecutive, disjoint, moveable scoops. */
  lemma MergeKeepsOrder<Id>(st: State<Id>, s1: Id, s2: Id)
    requires Ordered(st) && (s1, s2) in st.tied && s1 in st.scoops && s2 in st.scoops
    requires st.scoops[s1].start <= Padded(st.scoops[s1], st.scoops[s2]).end + 1
    ensures Ordered(Merge(st, s1, s2))
  {
    TiedAreInOrder(st, s1, s2);
    var t := Merge(st, s1, s2);
    MergeKeepsDisjoint(st, s1, s2);
    forall q | q in t.tied
      ensures q.0 in t.moveable && q.1 in t.moveable && Consecutive(t, q.0, q.1)
      ensures !DontCoalesce(t.scoops[q.0].name) && !DontCoalesce(t.scoops[q.1].name)
    {
      var p :| p in st.tied && p != (s1, s2) && q == (Instead(p.0, s1, s2), p.1);
      RetiedIsConsecutive(st, s1, s2, p);
    }
  }

  lemma RetiedIsConsecutive<Id>(st: State<Id>, s1: Id, s2: Id, p: (Id, Id))
    requires Ordered(st) && (s1, s2) in st.tied && p in st.tied && p != (s1, s2) && s1 in st.scoops && s2 in st.scoops
    requires st.scoops[s1].start <= Padded(st.scoops[s1], st.scoops[s2]).end + 1
    ensures var t := Merge(st, s1, s2); var q0 := Instead(p.0, s1, s2);
            && t.moveable <= t.scoops.Keys && q0 in t.moveable && p.1 in t.moveable && Consecutive(t, q0, p.1)
            && !DontCoalesce(t.scoops[q0].name) && !DontCoalesce(t.scoops[p.1].name)
  {
    TiesArePaths(st, p, (s1, s2));
    assert Consecutive(st, p.0, p.1) && Consecutive(st, s1, s2);
    JoinedNameIsPlain(st.scoops[s1].name, st.scoops[s2].name);
  }

  lemma MergeKeepsDisjoint<Id>(st: State<Id>, s1: Id, s2: Id)
    requires Ordered(st) && (s1, s2) in st.tied && s1 in st.scoops && s2 in st.scoops
    requires st.scoops[s1].start <= Padded(st.scoops[s1], st.scoops[s2]).end + 1
    ensures Disjoint(Merge(st, s1, s2))
  {
    TiedAreInOrder(st, s1, s2);
    assert Consecutive(st, s1, s2);
  }

  lemma RetieOne<Id>(tied: set<(Id, Id)>, s1: Id, s2: Id, p: (Id, Id))
    requires p in tied && p.0 == s2 && s1 != s2
    requires forall q | q in tied && q.0 == s2 :: q == p
    ensures MergeTies(tied, s1, s2) == tied - {(s1, s2)} - {p} + {(s1, p.1)}
  {
    var m, n := MergeTies(tied, s1, s2), tied - {(s1, s2)} - {p} + {(s1, p.1)};
    forall q | q in n ensures q in m {
      if q in tied && q != (s1, s2) && q != p {
        assert q == (Instead(q.0, s1, s2), q.1);
      } else {
        assert q == (Instead(p.0, s1, s2), p.1);
      }
    }
  }

  lemma RetieNone<Id>(tied: set<(Id, Id)>, s1: Id, s2: Id)
    requires forall q | q in tied :: q.0 != s2
    ensures MergeTies(tied, s1, s2) == tied - {(s1, s2)}
  {
    var m, n := MergeTies(tied, s1, s2), tied - {(s1, s2)};
    forall q | q in n ensures q in m {
      assert q == (Instead(q.0, s1, s2), q.1);
    }
  }

  /** Every merge uses up exactly one tie. */
  lemma MergeUsesATie<Id>(st: State<Id>, s1: Id, s2: Id)
    requires Ordered(st) && (s1, s2) in st.tied
    ensures |MergeTies(st.tied, s1, s2)| == |st.tied| - 1
  {
    hide Ordered, Instead, MergeTies;
    var cur := (s1, s2);
    TiesArePaths(st, cur, cur);
    if p :| p in st.tied && p.0 == s2 {
      forall q | q in st.tied && q.0 == s2 ensures q == p { TiesArePaths(st, p, q); }
      RetieOne(st.tied, s1, s2, p);
      if (s1, p.1) in st.tied {
        TiesArePaths(st, (s1, p.1), cur);
        TiesArePaths(st, p, cur);
      }
    } else {
      RetieNone(st.tied, s1, s2);
    }
  }
}
