/** From the analysis of the original file to the final image: data pointers keep their referents. */
module Referents {
  import opened Common
  import opened LittleEndian
  import opened Coalescing
  import opened Modular
  import opened Tracking
  import opened References
  import opened Components
  import opened CoalescingRun
  import opened Relocating
  import opened MoveGlobals
  import opened UnpinScoops
  import opened PatchedScoops

  lemma MovedFits<Id>(st0: State<Id>, st: State<Id>, home: map<Id, Id>, f: DataFixup<Id>, w: nat)
    requires Homes(st0, st, home) && f.from in st0.scoops && f.to in st0.scoops
             && f.offset + w <= |st0.scoops[f.from].contents|
    ensures var g := MovedData(st0, st, home, f);
            g.from in st.scoops && g.to in st.scoops && g.offset + w <= |st.scoops[g.from].contents|
  {
    if f.from in home {
      assert st0.scoops[f.from].Sized() && st.scoops[home[f.from]].Sized();
    }
  }

  lemma MovedApart<Id>(st0: State<Id>, st: State<Id>, home: map<Id, Id>, f: DataFixup<Id>, g: DataFixup<Id>, w: nat)
    requires Homes(st0, st, home) && Disjoint(st0) && Fits(st0.scoops, st0.data, w) && Apart(st0.data, w)
    requires f in st0.data && g in st0.data && f != g
             && MovedData(st0, st, home, f).from == MovedData(st0, st, home, g).from
    ensures var f', g' := MovedData(st0, st, home, f), MovedData(st0, st, home, g);
            f'.offset + w <= g'.offset || g'.offset + w <= f'.offset
  {
    if f.from != g.from {
      assert f.from in home && g.from in home;
      assert st0.scoops[f.from].Sized() && st0.scoops[g.from].Sized();
    }
  }

  /** The fixups recorded for the original scoops still lie inside the merged ones, one apart from
      another. */
  lemma FixupsStayApart<Id>(st0: State<Id>, st: State<Id>, home: map<Id, Id>, w: nat)
    requires Homes(st0, st, home) && DataFollows(st0, st, home) && Disjoint(st0)
    requires Fits(st0.scoops, st0.data, w) && Apart(st0.data, w)
    ensures Fits(st.scoops, st.data, w) && Apart(st.data, w)
  {
    hide Homes, Disjoint, MovedData;
    forall g | g in st.data
      ensures g.from in st.scoops && g.to in st.scoops && g.offset + w <= |st.scoops[g.from].contents|
    {
      var f :| f in st0.data && g == MovedData(st0, st, home, f);
      MovedFits(st0, st, home, f, w);
    }
    forall f', g' | f' in st.data && g' in st.data && f' != g' && f'.from == g'.from
      ensures f'.offset + w <= g'.offset || g'.offset + w <= f'.offset
    {
      var f :| f in st0.data && f' == MovedData(st0, st, home, f);
      var g :| g in st0.data && g' == MovedData(st0, st, home, g);
      MovedApart(st0, st, home, f, g, w);
    }
  }

  /** Merging leaves the value of each recorded pointer alone. */
  lemma MovedWord<Id>(st0: State<Id>, st: State<Id>, home: map<Id, Id>, f: DataFixup<Id>, w: nat)
    requires Homes(st0, st, home) && Kept(st0, st, home)
    requires f.from in st0.scoops && f.to in st0.scoops && f.offset + w <= |st0.scoops[f.from].contents|
    requires var g := MovedData(st0, st, home, f); g.from in st.scoops && g.offset + w <= |st.scoops[g.from].contents|
    ensures var g := MovedData(st0, st, home, f);
            WordAt(st.scoops[g.from].contents, g.offset, w) == WordAt(st0.scoops[f.from].contents, f.offset, w)
  {
    hide WordAt;
    var g := MovedData(st0, st, home, f);
    var a, b := st0.scoops[f.from], st.scoops[g.from];
    if f.from in home {
      assert a.Sized() && b.Sized();
      forall k | f.offset <= k < f.offset + w ensures a.contents[k] == b.contents[k - f.offset + g.offset] {
        assert In(a, a.start + k);
      }
    }
    SameBytesMovedWord(a.contents, f.offset, b.contents, g.offset, w);
  }

  lemma SameBytesMovedWord(c: seq<Byte>, i: nat, d: seq<Byte>, j: nat, w: nat)
    requires i + w <= |c| && j + w <= |d| && forall k :: i <= k < i + w ==> c[k] == d[k - i + j]
    ensures WordAt(c, i, w) == WordAt(d, j, w)
  {
    var x, y := c[i..i + w], d[j..j + w];
    forall k | 0 <= k < w ensures x[k] == y[k] {
      assert c[i + k] == d[j + k];
    }
    assert x == y;
  }

  /** Where the first byte of an original scoop is once the merged scoops have been placed. */
  function NewAddress<Id(==)>(st0: State<Id>, st: State<Id>, home: map<Id, Id>, placed: Table<Id>, s: Id): int
    requires Where(home, s) in placed
  {
    placed[Where(home, s)].start + Shift(st0, st, home, s)
  }

  /** The scoops have been put somewhere, as they are. */
  ghost predicate AsDetached(detached: Table<DataScoop>, placed: Table<DataScoop>) {
    && placed.Keys == detached.Keys
    && forall s | s in placed ::
         placed[s].contents == detached[s].contents && placed[s].Executable() == detached[s].Executable()
  }

  /** A pointer should end up as far from where its referent now is as it was from where it used to
      be, even if both the scoop it is in and the one it points to were merged into others.  So it
      does, unless it is in an executable scoop or in one merged with an executable scoop: those the
      unpinner skips, and the base is not put back, which does no harm only if it is 0 modulo the
      pointer width. */
  ghost predicate RightIff(st0: State<DataScoop>, st: State<DataScoop>, home: map<DataScoop, DataScoop>,
                           final: Table<DataScoop>,
                           f: DataFixup<DataScoop>, w: nat)
  {
    var g := MovedData(st0, st, home, f);
    && f.from in st0.scoops && f.to in st0.scoops && f.offset + w <= |st0.scoops[f.from].contents|
    && g.from in final && g.to in final && g.offset + w <= |final[g.from].contents|
    && (WordAt(final[g.from].contents, g.offset, w)
        == (WordAt(st0.scoops[f.from].contents, f.offset, w) + NewAddress(st0, st, home, final, f.to)
            - st0.scoops[f.to].start) % Pow256(w)
        <==> !BesideCode(st0, f.from) || final[g.to].start % Pow256(w) == 0)
  }

  /** The relocation that detaching leaves behind. */
  function PointerOf(f: DataFixup<DataScoop>): ScoopReloc { DataPtr(f.from, f.offset, f.to, 0) }

  /** `detached` is what the scoops hold once bases have been taken out, `placed` what they hold
      when the unpinner sees them, wherever they have been put, and `final` what it makes of them. */
  lemma DataPointerRightIff(
      st0: State<DataScoop>, st: State<DataScoop>, home: map<DataScoop, DataScoop>, w: nat,
      detached: Table<DataScoop>, placed: Table<DataScoop>, final: Table<DataScoop>,
      relocs: seq<ScoopReloc>, code: Code, f: DataFixup<DataScoop>)
    requires Invariant(st0, st, home) && st.tied == {} && NoGaps(st0) && Disjoint(st0)
    requires Fits(st0.scoops, st0.data, w) && Apart(st0.data, w) && f in st0.data
    requires Fits(st.scoops, st.data, w) && Added(st.scoops, detached, st.data, w, Taken(st.scoops))
    requires AsDetached(detached, placed) && Known(placed, relocs, code, w)
             && final == Unpinned(placed, relocs, code, w)
    requires var g := MovedData(st0, st, home, f); PointerOf(g) in relocs && Separate(relocs, g.from, w)
    ensures RightIff(st0, st, home, final, f, w)
  {
    hide Homes, Kept, NoneMadeUp, InsnsFollow, RelocsFollow, Added, WordAt, Pow256, Apart, Disjoint, BesideCode,
         FlagsFollow, TiesFollow;
    hide Ordered, NoSurplus, InsnsOnce, Sized, AllTouch, Scoop.Executable;
    var g := MovedData(st0, st, home, f);
    assert g in st.data;
    MovedFits(st0, st, home, f, w);
    MovedWord(st0, st, home, f, w);
    ShiftedStart(st0, st, home, f.to);
    FromCode(st0, st, home, f.from);
    FinalWord(st.scoops, detached, placed, final, st.data, w, relocs, code, g);
    SameModIff(WordAt(st0.scoops[f.from].contents, f.offset, w) - st.scoops[g.to].start, placed[g.to].start, Pow256(w));
  }

  /** The last two passes, over the merged scoops. */
  lemma FinalWord(t: Table<DataScoop>, detached: Table<DataScoop>, placed: Table<DataScoop>, final: Table<DataScoop>,
                  refs: set<DataFixup<DataScoop>>, w: nat, relocs: seq<ScoopReloc>, code: Code, g: DataFixup<DataScoop>)
    requires Fits(t, refs, w) && Added(t, detached, refs, w, Taken(t)) && AsDetached(detached, placed) && g in refs
    requires Known(placed, relocs, code, w) && final == Unpinned(placed, relocs, code, w)
    requires PointerOf(g) in relocs && Separate(relocs, g.from, w)
    ensures g.from in t && g.to in t && g.to in final && g.to in placed && final[g.to].start == placed[g.to].start
    ensures g.from in final && |final[g.from].contents| == |t[g.from].contents|
    ensures var x := WordAt(t[g.from].contents, g.offset, w) - t[g.to].start;
            WordAt(final[g.from].contents, g.offset, w)
            == (if t[g.from].Executable() then x else x + placed[g.to].start) % Pow256(w)
  {
    hide Added, Known, Scoop.Executable, WordAt, Pow256, Applied, Separate;
    DetachedWord(t, detached, refs, w, g);
    if !t[g.from].Executable() {
      LivePointer(placed, relocs, code, w, g);
      ModTwice(WordAt(t[g.from].contents, g.offset, w) - t[g.to].start, placed[g.to].start, Pow256(w));
    }
  }

  lemma LivePointer(placed: Table<DataScoop>, relocs: seq<ScoopReloc>, code: Code, w: nat, g: DataFixup<DataScoop>)
    requires Known(placed, relocs, code, w) && PointerOf(g) in relocs && Separate(relocs, g.from, w)
    requires g.from in placed && !placed[g.from].Executable() && g.to in placed
    requires g.offset + w <= |placed[g.from].contents|
    ensures WordAt(Unpinned(placed, relocs, code, w)[g.from].contents, g.offset, w)
         == (WordAt(placed[g.from].contents, g.offset, w) + placed[g.to].start) % Pow256(w)
  {
    hide Known, WordAt, Pow256, Applied, Separate, Scoop.Executable;
    KnownIn(placed, relocs, code, w, g.from);
    var i :| 0 <= i < |relocs| && relocs[i] == PointerOf(g);
    AppliedWord(placed[g.from].contents, relocs, g.from, placed, code, w, i);
  }

  lemma KnownIn(t: Table<DataScoop>, relocs: seq<ScoopReloc>, code: Code, w: nat, s: DataScoop)
    requires Known(t, relocs, code, w) && s in t && !t[s].Executable()
    ensures FitsIn(|t[s].contents|, relocs, s, t, code, w)
  {
  }

  // ----- relocations that were there before

  /** A relocation of the unpinner's kind that came with the original file: merging moves it along, and
      adds to its addend what its target was shifted by. */
  ghost predicate Earlier(st0: State<DataScoop>, id: nat, from: DataScoop, offset: nat, to: DataScoop, w: nat) {
    && id in st0.relocs && st0.relocs[id].owner == Some(from) && st0.relocs[id].offset == offset
    && st0.relocs[id].wrt == Some(to) && from in st0.scoops && to in st0.scoops
    && offset + w <= |st0.scoops[from].contents|
    && forall f | f in st0.data && f.from == from :: offset + w <= f.offset || f.offset + w <= offset
  }

  /** Its word holds a distance from the start of its target.  But the unpinner does not look at
      addends: the word ends up right exactly if its target is at the start of the scoop that it was
      merged into, modulo the pointer width. */
  lemma EarlierPointerRightIff(
      st0: State<DataScoop>, st: State<DataScoop>, home: map<DataScoop, DataScoop>, w: nat,
      detached: Table<DataScoop>, placed: Table<DataScoop>, final: Table<DataScoop>,
      relocs: seq<ScoopReloc>, code: Code, id: nat, from: DataScoop, offset: nat, to: DataScoop)
    requires Carried(st0, st, home) && Earlier(st0, id, from, offset, to, w) && Disjoint(st0)
    requires Fits(st0.scoops, st0.data, w)
    requires Fits(st.scoops, st.data, w) && Added(st.scoops, detached, st.data, w, Taken(st.scoops))
    requires AsDetached(detached, placed) && Known(placed, relocs, code, w)
             && final == Unpinned(placed, relocs, code, w)
    requires id in st.relocs && var r := st.relocs[id];
      && r.owner.Some? && r.wrt.Some? && DataPtr(r.owner.value, r.offset, r.wrt.value, r.addend) in relocs
      && Separate(relocs, r.owner.value, w) && r.owner.value in st.scoops && !st.scoops[r.owner.value].Executable()
    ensures var r := st.relocs[id];
      && r.owner.value == Where(home, from) && r.offset == offset + Shift(st0, st, home, from)
      && Where(home, to) in placed && r.owner.value in final && r.offset + w <= |final[r.owner.value].contents|
      && (WordAt(final[r.owner.value].contents, r.offset, w)
          == (WordAt(st0.scoops[from].contents, offset, w) + NewAddress(st0, st, home, placed, to)) % Pow256(w)
          <==> Shift(st0, st, home, to) % Pow256(w) == 0)
  {
    hide Homes, Kept, NoneMadeUp, InsnsFollow, DataFollows, Added, WordAt, Pow256, Disjoint, Known, Separate, Applied,
         Fits;
    var r, f := st.relocs[id], DataFixup(from, offset, to);
    assert r == MovedReloc(st0, st, home, st0.relocs[id]);
    var g := MovedData(st0, st, home, f);
    MovedFits(st0, st, home, f, w);
    MovedWord(st0, st, home, f, w);
    ShiftedStart(st0, st, home, to);
    NotDetached(st0, st, home, detached, w, f);
    assert placed[g.from].contents == detached[g.from].contents && !placed[g.from].Executable();
    KnownIn(placed, relocs, code, w, g.from);
    var i :| 0 <= i < |relocs| && relocs[i] == DataPtr(g.from, g.offset, g.to, r.addend);
    AppliedWord(placed[g.from].contents, relocs, g.from, placed, code, w, i);
    SameModIff(WordAt(st0.scoops[from].contents, offset, w) + placed[g.to].start, Shift(st0, st, home, to), Pow256(w));
  }

  /** Detaching does not touch it. */
  lemma NotDetached(st0: State<DataScoop>, st: State<DataScoop>, home: map<DataScoop, DataScoop>,
                    detached: Table<DataScoop>, w: nat, f: DataFixup<DataScoop>)
    requires Homes(st0, st, home) && DataFollows(st0, st, home) && Disjoint(st0) && Fits(st0.scoops, st0.data, w)
    requires f.from in st0.scoops && f.to in st0.scoops && f.offset + w <= |st0.scoops[f.from].contents|
    requires forall e | e in st0.data && e.from == f.from :: f.offset + w <= e.offset || e.offset + w <= f.offset
    requires Fits(st.scoops, st.data, w) && Added(st.scoops, detached, st.data, w, Taken(st.scoops))
    ensures var g := MovedData(st0, st, home, f);
      && detached.Keys == st.scoops.Keys && g.from in st.scoops && g.offset + w <= |st.scoops[g.from].contents|
      && |detached[g.from].contents| == |st.scoops[g.from].contents|
      && detached[g.from].Executable() == st.scoops[g.from].Executable()
      && WordAt(detached[g.from].contents, g.offset, w) == WordAt(st.scoops[g.from].contents, g.offset, w)
  {
    hide WordAt, Pow256, Homes, Disjoint, MovedData;
    var g := MovedData(st0, st, home, f);
    MovedFits(st0, st, home, f, w);
    forall k | g.offset <= k < g.offset + w ensures detached[g.from].contents[k] == st.scoops[g.from].contents[k] {
      if Hit(st.data, w, g.from, k) {
        var h :| h in st.data && h.from == g.from && h.offset <= k < h.offset + w;
        var e :| e in st0.data && h == MovedData(st0, st, home, e);
        MovedApartFrom(st0, st, home, e, f, w);
      }
    }
    SameBytesSameWord(detached[g.from].contents, st.scoops[g.from].contents, g.offset, w);
  }

  lemma MovedApartFrom<Id>(st0: State<Id>, st: State<Id>, home: map<Id, Id>, e: DataFixup<Id>, f: DataFixup<Id>, w: nat)
    requires Homes(st0, st, home) && Disjoint(st0) && e.from in st0.scoops && f.from in st0.scoops
    requires e.offset + w <= |st0.scoops[e.from].contents| && f.offset + w <= |st0.scoops[f.from].contents|
    requires e.from == f.from ==> f.offset + w <= e.offset || e.offset + w <= f.offset
    requires MovedData(st0, st, home, e).from == MovedData(st0, st, home, f).from
    ensures var e', f' := MovedData(st0, st, home, e), MovedData(st0, st, home, f);
            e'.offset + w <= f'.offset || f'.offset + w <= e'.offset
  {
    if e.from != f.from {
      assert e.from in home && f.from in home;
      assert st0.scoops[e.from].Sized() && st0.scoops[f.from].Sized();
    }
  }

  lemma FromCode(st0: State<DataScoop>, st: State<DataScoop>, home: map<DataScoop, DataScoop>, s: DataScoop)
    requires Invariant(st0, st, home) && st.tied == {} && Homes(st0, st, home) && s in st0.scoops
    ensures Where(home, s) in st.scoops && (st.scoops[Where(home, s)].Executable() <==> BesideCode(st0, s))
  {
    hide Ordered, NoSurplus, InsnsOnce, BesideCode, Scoop.Executable, FlagsFollow, TiesFollow;
    CodeResult(st0, st, home, s);
  }

  lemma DetachedWord(t: Table<DataScoop>, u: Table<DataScoop>, refs: set<DataFixup<DataScoop>>, w: nat,
                     f: DataFixup<DataScoop>)
    requires Fits(t, refs, w) && Added(t, u, refs, w, Taken(t)) && f in refs
    ensures u.Keys == t.Keys && |u[f.from].contents| == |t[f.from].contents|
    ensures u[f.from].Executable() == t[f.from].Executable()
    ensures WordAt(u[f.from].contents, f.offset, w)
            == (WordAt(t[f.from].contents, f.offset, w) - t[f.to].start) % Pow256(w)
  {
    hide WordAt, Pow256;
  }

  /** A table of pointers, next to one that is executable and tied to it, points into a scoop that
      never moves. */
  function Constructors(a: DataScoop, b: DataScoop, c: DataScoop): State<DataScoop> {
    State(map[a := Scoop(".init_array", 0x1000, 0x1003, [2, 0x20, 0, 0], false, 6),
              b := Scoop(".ctor", 0x1004, 0x1007, [0, 0, 0, 0], false, 5),
              c := Scoop(".data", 0x2000, 0x2003, [0, 0, 0, 0], false, 6)],
          {a, b}, {(a, b)}, {}, {}, {}, {DataFixup(a, 0, c)}, map[])
  }

  lemma ConstructorsReady(a: DataScoop, b: DataScoop, c: DataScoop)
    requires a != b && b != c && a != c
    ensures var st := Constructors(a, b, c);
            Ready(st, 4) && InOrder(st) && Ordered(st) && NoGaps(st) && BesideCode(st, a)
  {
    hide BesideCode, Ordered, InOrder, Fits, Apart, InsnsOnce;
    ConstructorsTied(a, b, c);
    ConstructorsLinked(a, b, c);
    ConstructorsFit(a, b, c);
  }

  lemma ConstructorsFit(a: DataScoop, b: DataScoop, c: DataScoop)
    requires a != b && b != c && a != c
    ensures var st := Constructors(a, b, c); InsnsOnce(st) && Fits(st.scoops, st.data, 4) && Apart(st.data, 4)
  {
  }

  lemma ConstructorsTied(a: DataScoop, b: DataScoop, c: DataScoop)
    requires a != b && b != c && a != c
    ensures var st := Constructors(a, b, c); Ordered(st) && InOrder(st)
  {
  }

  lemma ConstructorsLinked(a: DataScoop, b: DataScoop, c: DataScoop)
    requires a != b && b != c && a != c
    ensures BesideCode(Constructors(a, b, c), a)
  {
    var st := Constructors(a, b, c);
    assert (a, b) in st.tied;
    assert Linked(st.moveable, st.tied, a, b) && st.scoops[b].Executable();
  }

  /** What a pointer into the table that goes away would be off by. */
  lemma ConstructorsShift(a: DataScoop, b: DataScoop, c: DataScoop, t: State<DataScoop>)
    requires a != b && b != c && a != c && var st := Constructors(a, b, c);
      && st.scoops[a].start <= Padded(st.scoops[a], st.scoops[b]).end + 1 && t == Merge(st, a, b)
    ensures Shift(Constructors(a, b, c), t, Rehome(Itself(Constructors(a, b, c)), a, b), b) == 4
  {
  }

  lemma LowWord(rest: seq<Byte>)
    ensures WordAt([2, 0x20, 0, 0] + rest, 0, 4) == 0x2002 && Pow256(4) == TWO_32
  {
    var c := [2, 0x20, 0, 0] + rest;
    assert c[0..4] == [2, 0x20, 0, 0];
    assert Decode([0, 0]) == 0 && Decode([0x20, 0, 0]) == 0x20;
    assert [2, 0x20, 0, 0][1..] == [0x20, 0, 0] && [0x20, 0, 0][1..] == [0, 0];
    Pow4();
  }

  /** Its pointer to 0x2002 ends up as 2, wherever the merged table goes. */
  lemma CodeLosesBase(a: DataScoop, b: DataScoop, c: DataScoop, t: State<DataScoop>,
                      detached: Table<DataScoop>, placed: Table<DataScoop>, final: Table<DataScoop>, code: Code)
    requires a != b && b != c && a != c && var st := Constructors(a, b, c);
      && st.scoops[a].start <= Padded(st.scoops[a], st.scoops[b]).end + 1 && t == Merge(st, a, b)
    requires Fits(t.scoops, t.data, 4) && Added(t.scoops, detached, t.data, 4, Taken(t.scoops))
             && AsDetached(detached, placed)
    requires var relocs := [PointerOf(DataFixup(a, 0, c))];
             Known(placed, relocs, code, 4) && final == Unpinned(placed, relocs, code, 4)
    ensures a in final && |final[a].contents| == 8 && WordAt(final[a].contents, 0, 4) == 2
    ensures WordAt(Constructors(a, b, c).scoops[a].contents, 0, 4) == 0x2002
  {
    hide Fits, Added, AsDetached, WordAt, Pow256, Known, Unpinned;
    LowWord([]);
    assert [2, 0x20, 0, 0] + [] == [2, 0x20, 0, 0];
    LowWord([0, 0, 0, 0]);
    var st := Constructors(a, b, c);
    assert MergeDataRef(DataFixup(a, 0, c), a, b, 4) in t.data;
    assert t.scoops[a].contents == [2, 0x20, 0, 0] + [0, 0, 0, 0];
    FinalWord(t.scoops, detached, placed, final, t.data, 4, [PointerOf(DataFixup(a, 0, c))], code, DataFixup(a, 0, c));
  }

  // ----- all passes, one after another

  function At(c: Scoop, at: int): Scoop { c.(start := c.start + at, end := c.end + at) }

  function Located(t: Table<DataScoop>, moveable: set<DataScoop>, places: map<DataScoop, int>): Table<DataScoop>
    requires moveable <= places.Keys
  {
    map s | s in t :: if s in moveable then At(t[s], places[s]) else t[s]
  }

  /** Where the scoops at address 0 go is decided outside this model. */
  method Place(scoops: set<DataScoop>, moveable: set<DataScoop>, places: map<DataScoop, int>)
    requires moveable <= scoops && moveable <= places.Keys
    modifies scoops
    ensures TableOf(scoops) == Located(old(TableOf(scoops)), moveable, places)
  {
    var rest := moveable;
    while rest != {}
      invariant rest <= moveable
      invariant forall s | s in scoops ::
                s.Value() == (if s in moveable - rest then At(old(s.Value()), places[s]) else old(s.Value()))
      decreases rest
    {
      var s :| s in rest;
      rest := rest - {s};
      s.start, s.end := s.start + places[s], s.end + places[s];
    }
  }

  /** What the passes need to begin with, and what pinning keeps. */
  ghost predicate Ready(st: State<DataScoop>, w: nat) {
    && Sized(st) && InsnsOnce(st) && (forall s | s in st.scoops :: st.scoops[s].Sized())
    && (forall p | p in st.tied :: p.0 in st.scoops && p.1 in st.scoops && Touch(st.scoops[p.0], st.scoops[p.1]))
    && (forall r | r in st.relocs :: st.relocs[r].addend < TWO_32)
    && Fits(st.scoops, st.data, w) && Apart(st.data, w) && forall f | f in st.data :: st.scoops[f.to].start != 0
  }

  /** The recorded operands are where the decoder says they are. */
  ghost predicate OperandsReady(st: State<DataScoop>, dispAt: map<nat, nat>, bits: map<nat, seq<Byte>>) {
    && OperandsFit(st.pcrel, dispAt, bits, st.scoops.Keys) && OperandsFit(st.absolute, dispAt, bits, st.scoops.Keys)
    && OperandsFit(st.immed, ImmediateAt(bits), bits, st.scoops.Keys)
  }

  lemma MovedOperandsFit(st0: State<DataScoop>, st: State<DataScoop>, home: map<DataScoop, DataScoop>,
                         before: set<InsnFixup<DataScoop>>, now: set<InsnFixup<DataScoop>>, at: map<nat, nat>,
                         bits: map<nat, seq<Byte>>)
    requires Homes(st0, st, home) && InsnsFollow(before, now, home) && OperandsFit(before, at, bits, st0.scoops.Keys)
    ensures OperandsFit(now, at, bits, st.scoops.Keys)
  {
    forall g | g in now ensures g.to in st.scoops && g.insn in at && g.insn in bits
        && at[g.insn] + 4 <= |bits[g.insn]| {
      var f :| f in before && g == MovedInsn(home, f);
      ShiftedStart(st0, st, home, f.to);
    }
  }

  lemma MergedOperandsReady(st0: State<DataScoop>, st: State<DataScoop>, home: map<DataScoop, DataScoop>,
                            dispAt: map<nat, nat>, bits: map<nat, seq<Byte>>)
    requires Invariant(st0, st, home) && NoGaps(st0) && OperandsReady(st0, dispAt, bits)
    ensures OperandsReady(st, dispAt, bits) && InsnsOnce(st)
  {
    hide Homes, Ordered, NoSurplus, TiesFollow, FlagsFollow, Kept, NoneMadeUp, InsnsFollow, DataFollows, RelocsFollow,
         OncePerInsn;
    hide OperandsFit, NoGaps;
    MovedOperandsFit(st0, st, home, st0.pcrel, st.pcrel, dispAt, bits);
    MovedOperandsFit(st0, st, home, st0.absolute, st.absolute, dispAt, bits);
    MovedOperandsFit(st0, st, home, st0.immed, st.immed, ImmediateAt(bits), bits);
  }

  ghost predicate Pinned(st: State<DataScoop>, pinned: State<DataScoop>) {
    && Greatest(st.moveable, Plain(st), pinned.moveable)
    && pinned == st.(moveable := pinned.moveable, tied := Inside(Plain(st), pinned.moveable))
  }

  /** Pinning leaves only ties of scoops that touch. */
  lemma PinnedReady(st: State<DataScoop>, pinned: State<DataScoop>, w: nat)
    requires Ready(st, w) && InOrder(st) && Pinned(st, pinned)
    ensures Ready(pinned, w) && NoGaps(pinned) && Disjoint(pinned) && pinned.moveable <= st.moveable
  {
    hide Fits, Apart, OncePerInsn;
  }

  lemma MergedReady(pinned: State<DataScoop>, merged: State<DataScoop>, home: map<DataScoop, DataScoop>, w: nat)
    requires Ready(pinned, w) && Invariant(pinned, merged, home) && NoGaps(pinned) && Disjoint(pinned)
    ensures Fits(merged.scoops, merged.data, w) && Apart(merged.data, w) && merged.moveable <= merged.scoops.Keys
    ensures forall s | s in merged.scoops :: merged.scoops[s].Sized()
    ensures (forall g | g in merged.data :: g.to !in merged.moveable ==> merged.scoops[g.to].start != 0)
    ensures merged.moveable <= pinned.moveable
  {
    hide Ordered, NoSurplus, InsnsOnce, TiesFollow, FlagsFollow, Fits, Apart, Disjoint, Kept, NoneMadeUp, InsnsFollow,
         RelocsFollow;
    FixupsStayApart(pinned, merged, home, w);
    MergedSizes(pinned, merged, home);
    forall g | g in merged.data && g.to !in merged.moveable ensures g.to in merged.scoops
        && merged.scoops[g.to].start != 0 {
      var f :| f in pinned.data && g == MovedData(pinned, merged, home, f);
      TargetInPlace(pinned, merged, home, w, f);
    }
  }

  lemma TargetInPlace(st0: State<DataScoop>, st: State<DataScoop>, home: map<DataScoop, DataScoop>, w: nat,
                      f: DataFixup<DataScoop>)
    requires Homes(st0, st, home) && Fits(st0.scoops, st0.data, w) && f in st0.data && Where(home, f.to) !in st.moveable
    ensures Where(home, f.to) == f.to && f.to in st.scoops && f.to in st0.scoops && st.scoops[f.to] == st0.scoops[f.to]
  {
  }

  lemma MergedSizes(st0: State<DataScoop>, st: State<DataScoop>, home: map<DataScoop, DataScoop>)
    requires Homes(st0, st, home) && Rest(st) == Rest(st0) && forall s | s in st0.scoops :: st0.scoops[s].Sized()
    ensures (forall s | s in st.scoops :: st.scoops[s].Sized()) && st.moveable <= st0.moveable
  {
    forall s | s in st.scoops ensures st.scoops[s].Sized() {
      if s !in st.moveable { assert s in Rest(st0); }
    }
  }

  /** What the unpinner insists on. */
  lemma PlacedReady(merged: State<DataScoop>, w: nat, detached: Table<DataScoop>, placed: Table<DataScoop>,
                    places: map<DataScoop, int>)
    requires Fits(merged.scoops, merged.data, w) && Added(merged.scoops, detached, merged.data, w, Taken(merged.scoops))
    requires forall s | s in merged.scoops :: merged.scoops[s].Sized()
    requires forall g | g in merged.data :: g.to !in merged.moveable ==> merged.scoops[g.to].start != 0
    requires merged.moveable <= places.Keys
             && placed == Located(Unplaced(detached, merged.moveable), merged.moveable, places)
    requires forall s | s in merged.moveable :: places[s] != 0
    ensures AsDetached(detached, placed) && Fits(placed, merged.data, w)
    ensures (forall s | s in placed :: placed[s].Sized()) && forall g | g in merged.data :: placed[g.to].start != 0
    ensures forall s | s in merged.moveable && s in placed :: placed[s].start == places[s]
  {
    hide WordAt, Pow256;
    assert SameShape(merged.scoops, detached);
    hide Added;
  }

  /** There is a relocation for each recorded pointer, and no other. */
  ghost predicate Lists(relocs: seq<ScoopReloc>, refs: set<DataFixup<DataScoop>>) {
    && (forall f | f in refs :: PointerOf(f) in relocs)
    && (forall r | r in relocs :: exists f | f in refs :: r == PointerOf(f))
    && forall i, j | 0 <= i < j < |relocs| :: relocs[i] != relocs[j]
  }

  lemma AllRightIff(st0: State<DataScoop>, st: State<DataScoop>, home: map<DataScoop, DataScoop>, w: nat,
                    detached: Table<DataScoop>, placed: Table<DataScoop>, final: Table<DataScoop>,
                    relocs: seq<ScoopReloc>, code: Code)
    requires Invariant(st0, st, home) && st.tied == {} && NoGaps(st0) && Disjoint(st0) && Ready(st0, w)
    requires Fits(st.scoops, st.data, w) && Added(st.scoops, detached, st.data, w, Taken(st.scoops))
             && Apart(st.data, w)
    requires AsDetached(detached, placed) && Lists(relocs, st.data)
    requires Known(placed, relocs, code, w) && final == Unpinned(placed, relocs, code, w)
    ensures forall f | f in st0.data :: RightIff(st0, st, home, final, f, w)
  {
    hide Fits, Apart, NoGaps, Disjoint, RightIff, Added, AsDetached, InsnsOnce, Sized, Known, Unpinned, Separate;
    forall f | f in st0.data ensures RightIff(st0, st, home, final, f, w) {
      PointersSeparate(st.data, relocs, MovedData(st0, st, home, f).from, w);
      FollowsInto(st0, st, home, f);
      DataPointerRightIff(st0, st, home, w, detached, placed, final, relocs, code, f);
    }
  }

  lemma FollowsInto(st0: State<DataScoop>, st: State<DataScoop>, home: map<DataScoop, DataScoop>,
                    f: DataFixup<DataScoop>)
    requires Invariant(st0, st, home) && NoGaps(st0) && f in st0.data
    ensures MovedData(st0, st, home, f) in st.data
  {
  }

  lemma PointersKnown(t: Table<DataScoop>, refs: set<DataFixup<DataScoop>>, relocs: seq<ScoopReloc>, code: Code, w: nat)
    requires Fits(t, refs, w) && Lists(relocs, refs)
    ensures Known(t, relocs, code, w)
  {
  }

  lemma PointersSeparate(refs: set<DataFixup<DataScoop>>, relocs: seq<ScoopReloc>, s: DataScoop, w: nat)
    requires Apart(refs, w) && Lists(relocs, refs)
    ensures Separate(relocs, s, w)
  {
    forall i, j | 0 <= i < j < |relocs|
        && relocs[i].from == s == relocs[j].from ensures !Overlap(relocs[i], relocs[j], w) {
      assert relocs[i] in relocs && relocs[j] in relocs;
      var f :| f in refs && relocs[i] == PointerOf(f);
      var g :| g in refs && relocs[j] == PointerOf(g);
    }
  }

  /** The relocations of data pointers in some order. */
  method InSomeOrder(refs: set<DataFixup<DataScoop>>) returns (relocs: seq<ScoopReloc>)
    ensures Lists(relocs, refs)
  {
    relocs := [];
    var rest := refs;
    while rest != {}
      invariant rest <= refs && Lists(relocs, refs - rest)
      decreases rest
    {
      var f :| f in rest;
      rest := rest - {f};
      OneMoreListed(relocs, refs - rest - {f}, f);
      assert refs - rest - {f} + {f} == refs - rest;
      relocs := relocs + [PointerOf(f)];
    }
    assert refs - rest == refs;
  }

  lemma OneMoreListed(relocs: seq<ScoopReloc>, refs: set<DataFixup<DataScoop>>, f: DataFixup<DataScoop>)
    requires Lists(relocs, refs) && f !in refs
    ensures Lists(relocs + [PointerOf(f)], refs + {f})
  {
    var all := relocs + [PointerOf(f)];
    forall r | r in all ensures exists e | e in refs + {f} :: r == PointerOf(e) {
      if r in relocs {
        var e :| e in refs && r == PointerOf(e);
        assert e in refs + {f};
      }
    }
    forall r | r in relocs ensures r != PointerOf(f) {
      var e :| e in refs && r == PointerOf(e);
      assert e != f;
    }
    forall i, j | 0 <= i < j < |all| ensures all[i] != all[j] {
      assert i < |relocs| && relocs[i] in relocs;
    }
  }

  /** The unpinner, when there are no pointers to code. */
  method PutBasesBack(scoops: set<DataScoop>, dataptrs: set<DataFixup<DataScoop>>, w: nat)
    returns (ghost relocs: seq<ScoopReloc>)
    requires Fits(TableOf(scoops), dataptrs, w)
    requires forall s | s in TableOf(scoops) :: TableOf(scoops)[s].Sized()
    requires forall r | r in dataptrs :: TableOf(scoops)[r.to].start != 0
    modifies scoops
    ensures Lists(relocs, dataptrs)
    ensures var t, code := old(TableOf(scoops)), Code(map[], {});
            Known(t, relocs, code, w) && TableOf(scoops) == Unpinned(t, relocs, code, w)
  {
    hide Known, Unpinned, Applied;
    var code := Code(map[], {});
    var list := InSomeOrder(dataptrs);
    relocs := list;
    var unpin := new Unpin(scoops, list, code);
    TargetsPlaced(scoops, dataptrs, relocs, w);
    PointersKnown(TableOf(scoops), dataptrs, relocs, code, w);
    unpin.DoUpdateForScoops(w);
  }

  lemma TargetsPlaced(scoops: set<DataScoop>, dataptrs: set<DataFixup<DataScoop>>, relocs: seq<ScoopReloc>, w: nat)
    requires Fits(TableOf(scoops), dataptrs, w) && Lists(relocs, dataptrs)
    requires forall r | r in dataptrs :: TableOf(scoops)[r.to].start != 0
    ensures forall r | r in relocs && r.DataPtr? :: r.to.start != 0
  {
    forall r | r in relocs && r.DataPtr? ensures r.to.start != 0 {
      var f :| f in dataptrs && r == PointerOf(f);
      assert TableOf(scoops)[f.to] == f.to.Value();
    }
  }

  /** The passes after merging. */
  method DetachPlaceUnpin(mg: MoveGlobals, w: nat, places: map<DataScoop, int>)
    returns (ghost detached: Table<DataScoop>, ghost placed: Table<DataScoop>,
             ghost b1: map<nat, seq<Byte>>, ghost b2: map<nat, seq<Byte>>, ghost relocs: seq<ScoopReloc>)
    requires mg.Recorded(w) && mg.moveable <= mg.scoops && mg.dataptrs == {}
    requires forall s | s in mg.Scoops() :: mg.Scoops()[s].Sized()
    requires forall g | g in mg.dataRefs :: g.to !in mg.moveable ==> mg.Scoops()[g.to].start != 0
    requires mg.moveable <= places.Keys && forall s | s in mg.moveable :: places[s] != 0
    modifies mg`dataptrs, mg.scoops, mg.insns.Values
    ensures Detached(old(mg.Abs()), mg.dispAt, old(BitsOf(mg.insns)), b1, b2, BitsOf(mg.insns))
    ensures old(Fits(mg.Scoops(), mg.dataRefs, w))
    ensures Added(old(mg.Scoops()), detached, mg.dataRefs, w, Taken(old(mg.Scoops()))) && AsDetached(detached, placed)
    ensures var code := Code(map[], {});
            Lists(relocs, mg.dataRefs) && Known(placed, relocs, code, w)
                && mg.Scoops() == Unpinned(placed, relocs, code, w)
    ensures forall s | s in mg.moveable && s in mg.Scoops() :: mg.Scoops()[s].start == places[s]
  {
    hide Fits, Apart, Detached, OperandsFit, OncePerInsn, Distinct, BitsOf, Added, AsDetached, Unplaced, Located, Taken,
         Known, Applied, Lists;
    ghost var merged := mg.Abs();
    detached, b1, b2 := mg.UpdateScoopLocations(w);
    Place(mg.scoops, mg.moveable, places);
    placed := mg.Scoops();
    PlacedReady(merged, w, detached, placed, places);
    relocs := PutBasesBack(mg.scoops, mg.dataptrs, w);
  }

  /** Pins, merges, detaches, places and unpins.  `pinned` is the state after pinning, `merged` the
      one after merging; `b1` and `b2` are what instructions are between the three kinds of operands. */
  method MoveAndUnpin(mg: MoveGlobals, w: nat, places: map<DataScoop, int>)
    returns (ghost pinned: State<DataScoop>, ghost merged: State<DataScoop>, ghost home: map<DataScoop, DataScoop>,
             ghost b1: map<nat, seq<Byte>>, ghost b2: map<nat, seq<Byte>>)
    requires Ready(mg.Abs(), w) && InOrder(mg.Abs()) && mg.dataptrs == {}
    requires OperandsReady(mg.Abs(), mg.dispAt, BitsOf(mg.insns)) && Distinct(mg.insns)
    requires mg.moveable <= places.Keys && forall s | s in mg.moveable :: places[s] != 0
    modifies mg, mg.scoops, mg.insns.Values
    ensures Pinned(old(mg.Abs()), pinned)
    ensures Invariant(pinned, merged, home) && merged.tied == {} && mg.moveable == merged.moveable
    ensures forall s | s in mg.moveable && s in mg.Scoops() :: s in places && mg.Scoops()[s].start == places[s]
    ensures Detached(merged, mg.dispAt, old(BitsOf(mg.insns)), b1, b2, BitsOf(mg.insns))
    ensures forall f | f in old(mg.dataRefs) :: RightIff(pinned, merged, home, mg.Scoops(), f, w)
  {
    hide Invariant, Plain, Inside, Greatest, OncePerInsn, Sized, Fits, Apart, RightIff, InOrder, Disjoint, Detached;
    hide OperandsFit, Distinct, BitsOf, Added, AsDetached, Taken, Known, Unpinned, Lists;
    ghost var st := mg.Abs();
    pinned, home := mg.FilterAndCoalesceTiedScoops();
    PinnedReady(st, pinned, w);
    merged := mg.Abs();
    MergedReady(pinned, merged, home, w);
    MergedOperandsReady(pinned, merged, home, mg.dispAt, BitsOf(mg.insns));
    assert merged.scoops.Keys == mg.scoops;
    ghost var detached, placed, relocs;
    detached, placed, b1, b2, relocs := DetachPlaceUnpin(mg, w, places);
    AllRightIff(pinned, merged, home, w, detached, placed, mg.Scoops(), relocs, Code(map[], {}));
  }
}
