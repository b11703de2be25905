/** The pass that pins, merges and detaches data scoops, working on scoop objects in place. */
module MoveGlobals {
  import opened Common
  import opened LittleEndian
  import opened Coalescing
  import opened Tracking
  import opened Components
  import opened CoalescingRun
  import opened Relocating
  import opened X86Operands

  class DataScoop {
    var name: string
    var start: int
    var end: int
    var contents: seq<Byte>
    var relRo: bool
    var perms: bv8

    function Value(): Scoop reads this {
      Scoop(name, start, end, contents, relRo, perms)
    }
  }

  function TableOf(scoops: set<DataScoop>): map<DataScoop, Scoop> reads scoops {
    map s | s in scoops :: s.Value()
  }

  type Tie = (DataScoop, DataScoop)

  predicate Skipped(p: Tie)
    reads p.0, p.1
  {
    DontCoalesce(p.0.name) || DontCoalesce(p.1.name)
  }

  // ----- merging, one step at a time

  function Redirected(r: Reloc<DataScoop>, s1: DataScoop, s2: DataScoop, size: nat): Reloc<DataScoop> {
    if r.wrt == Some(s2) then r.(wrt := Some(s1), addend := (r.addend + size) % TWO_32) else r
  }

  function Adopted(r: Reloc<DataScoop>, s1: DataScoop, s2: DataScoop, length: nat): Reloc<DataScoop> {
    if r.owner == Some(s2) then r.(offset := r.offset + length, owner := Some(s1)) else r
  }

  lemma BothRelocSteps(relocs: map<nat, Reloc<DataScoop>>, s1: DataScoop, s2: DataScoop, size: nat, length: nat)
    requires s1 != s2
    ensures var mid := map r | r in relocs :: Redirected(relocs[r], s1, s2, size);
            (map r | r in mid :: Adopted(mid[r], s1, s2, length)) == map r | r in relocs ::
                MergeReloc(relocs[r], s1, s2, size, length)
  {
  }

  method CloseGap(s1: DataScoop, s2: DataScoop)
    requires s1 != s2 && s1.start < s2.start && s1.end < s2.start
    modifies s1`end
    ensures s1.Value() == Padded(old(s1.Value()), s2.Value())
  {
    assert s1.start < s2.start;
    if s1.end + 1 < s2.start {
      s1.end := s2.start - 1;
    } else if s1.end + 1 == s2.start {
    } else {
      assert false;
    }
  }

  method Append(s1: DataScoop, s2: DataScoop)
    requires s1 != s2
    modifies s1
    ensures s1.Value() == Joined(old(s1.Value()), s2.Value())
  {
    s1.end := s2.end;
    s1.contents := s1.contents + s2.contents;
    s1.name := s1.name + " coalesced w/" + s2.name;
    if !s2.relRo { s1.relRo := false; }
    s1.perms := s1.perms | s2.perms;
  }

  lemma InvariantOfATie(st0: State<DataScoop>, st: State<DataScoop>, home: map<DataScoop, DataScoop>, s1: DataScoop,
                        s2: DataScoop)
    requires Invariant(st0, st, home) && (s1, s2) in st.tied
    ensures Ordered(st) && InsnsOnce(st) && s1 in st.moveable && s2 in st.moveable && s1 in st.scoops && s2 in st.scoops
    ensures !DontCoalesce(st.scoops[s1].name) && !DontCoalesce(st.scoops[s2].name)
    ensures st.scoops[s1].start <= Padded(st.scoops[s1], st.scoops[s2]).end + 1
    ensures |Merge(st, s1, s2).tied| < |st.tied|
  {
    hide MergeTies, InsnsOnce, Carried, TiesFollow, NoGaps, NoSurplus;
    TiedAreInOrder(st, s1, s2);
    MergeUsesATie(st, s1, s2);
    assert (s1, s2).0 == s1;
  }

  lemma TiedAreSound(st: State<DataScoop>, s1: DataScoop, s2: DataScoop)
    requires Ordered(st) && (s1, s2) in st.tied
    ensures s1 in st.moveable && s1 in st.scoops && st.scoops[s1].start <= st.scoops[s1].end
  {
    TiedAreInOrder(st, s1, s2);
  }

  // ----- detaching

  function BitsOf(insns: map<nat, Insn>): map<nat, seq<Byte>> reads insns.Values {
    map n | n in insns :: insns[n].bits
  }

  ghost predicate Distinct(insns: map<nat, Insn>) {
    forall m, n | m in insns && n in insns && insns[m] == insns[n] :: m == n
  }

  ghost predicate OperandsFit(refs: set<InsnFixup<DataScoop>>, at: map<nat, nat>, bits: map<nat, seq<Byte>>,
                              scoops: set<DataScoop>) {
    forall f | f in refs :: f.to in scoops && f.insn in at && f.insn in bits && at[f.insn] + 4 <= |bits[f.insn]|
  }

  /** Each operand in `refs` has lost the base of a scoop that can move; no other byte has changed. */
  ghost predicate BasesTaken(refs: set<InsnFixup<DataScoop>>, at: map<nat, nat>, moveable: set<DataScoop>,
                             t: Table<DataScoop>,
                             b: map<nat, seq<Byte>>, c: map<nat, seq<Byte>>)
    requires OperandsFit(refs, at, b, t.Keys)
  {
    && b.Keys == c.Keys
    && (forall f | f in refs :: TookBase(b[f.insn], c[f.insn], at[f.insn], f.to in moveable, t[f.to].start))
    && (forall n | n in b && !(exists f | f in refs :: f.insn == n) :: c[n] == b[n])
  }

  /** An immediate is the last four bytes. */
  function ImmediateAt(bits: map<nat, seq<Byte>>): map<nat, nat> {
    map n | n in bits && 4 < |bits[n]| :: |bits[n]| - 4
  }

  ghost predicate Detached(st: State<DataScoop>, dispAt: map<nat, nat>,
                           b: map<nat, seq<Byte>>, b1: map<nat, seq<Byte>>, b2: map<nat, seq<Byte>>,
                           b3: map<nat, seq<Byte>>)
  {
    var all := st.scoops.Keys;
    && OperandsFit(st.pcrel, dispAt, b, all) && OperandsFit(st.absolute, dispAt, b1, all)
    && OperandsFit(st.immed, ImmediateAt(b2), b2, all)
    && BasesTaken(st.pcrel, dispAt, st.moveable, st.scoops, b, b1)
    && BasesTaken(st.absolute, dispAt, st.moveable, st.scoops, b1, b2)
    && BasesTaken(st.immed, ImmediateAt(b2), st.moveable, st.scoops, b2, b3)
  }

  lemma StillFit(refs: set<InsnFixup<DataScoop>>, at: map<nat, nat>, moveable: set<DataScoop>, t: Table<DataScoop>,
                 b: map<nat, seq<Byte>>, c: map<nat, seq<Byte>>, others: set<InsnFixup<DataScoop>>,
                 othersAt: map<nat, nat>)
    requires OperandsFit(refs, at, b, t.Keys) && BasesTaken(refs, at, moveable, t, b, c)
             && OperandsFit(others, othersAt, b, t.Keys)
    ensures OperandsFit(others, othersAt, c, t.Keys) && ImmediateAt(c) == ImmediateAt(b)
  {
    forall n | n in b ensures |c[n]| == |b[n]| {
      if f :| f in refs && f.insn == n {
        assert TookBase(b[f.insn], c[f.insn], at[f.insn], f.to in moveable, t[f.to].start);
      }
    }
  }

  function AtZero(c: Scoop): Scoop { c.(end := c.end - c.start, start := 0) }

  function Unplaced(t: Table<DataScoop>, moveable: set<DataScoop>): Table<DataScoop> {
    map s | s in t :: if s in moveable then AtZero(t[s]) else t[s]
  }

  /** What detaching adds to a pointer, by target. */
  function Taken(t: Table<DataScoop>): (delta: map<DataScoop, int>)
    ensures delta.Keys == t.Keys
  {
    map s | s in t :: -t[s].start
  }

  lemma NothingAdded(t: Table<DataScoop>, refs: set<DataFixup<DataScoop>>, w: nat, delta: map<DataScoop, int>)
    requires Fits(t, refs, w) && t.Keys <= delta.Keys
    ensures Fits(t, {}, w) && Added(t, t, {}, w, delta)
  {
  }

  lemma Prefixes(t: Table<DataScoop>, refs: set<DataFixup<DataScoop>>, done: set<DataFixup<DataScoop>>,
                 f: DataFixup<DataScoop>, w: nat)
    requires Fits(t, refs, w) && Apart(refs, w) && done <= refs && f in refs
    ensures Fits(t, done + {f}, w) && Apart(done + {f}, w) && f.from in t && f.to in t
  {
  }

  /** Taking the base out of one more pointer. */
  lemma TakeOne(t: Table<DataScoop>, u: Table<DataScoop>, refs: set<DataFixup<DataScoop>>,
                done: set<DataFixup<DataScoop>>,
                f: DataFixup<DataScoop>, w: nat)
    requires Fits(t, refs, w) && Apart(refs, w) && done <= refs && f in refs && f !in done
    requires Fits(t, done, w) && t.Keys <= Taken(t).Keys && Added(t, u, done, w, Taken(t))
    ensures f.from in u && f.to in u && f.offset + w <= |u[f.from].contents|
    ensures Fits(t, done + {f}, w) && Added(t, PatchOne(u, f, w, -u[f.to].start), done + {f}, w, Taken(t))
  {
    hide Added, Fits, Apart, PatchOne;
    Prefixes(t, refs, done, f, w);
    KeepsStart(t, u, done, w, Taken(t), f.to);
    AddOne(t, u, done, f, w, Taken(t));
  }

  lemma KeepsStart(t: Table<DataScoop>, u: Table<DataScoop>, refs: set<DataFixup<DataScoop>>, w: nat,
                   delta: map<DataScoop, int>, s: DataScoop)
    requires Fits(t, refs, w) && t.Keys <= delta.Keys && Added(t, u, refs, w, delta) && s in t
    ensures s in u && u[s].start == t[s].start
  {
  }

  class MoveGlobals {
    var scoops: set<DataScoop>
    var moveable: set<DataScoop>
    var tied: set<Tie>
    var pcrelRefs: set<InsnFixup<DataScoop>>
    var absoluteRefs: set<InsnFixup<DataScoop>>
    var immedRefs: set<InsnFixup<DataScoop>>
    var dataRefs: set<DataFixup<DataScoop>>
    var relocs: map<nat, Reloc<DataScoop>>
    var dataptrs: set<DataFixup<DataScoop>>  // the "dataptr_to_scoop" relocations
    var insns: map<nat, Insn>
    var dispAt: map<nat, nat>  // where the decoder finds the displacement of a memory operand

    function Scoops(): map<DataScoop, Scoop>
      reads this, scoops
    {
      TableOf(scoops)
    }

    function Abs(): State<DataScoop>
      reads this, scoops
    {
      State(Scoops(), moveable, tied, pcrelRefs, absoluteRefs, immedRefs, dataRefs, relocs)
    }

    /** What pinning and merging have nothing to do with. */
    function Others(): (set<DataFixup<DataScoop>>, map<nat, Insn>, map<nat, nat>)
      reads this
    {
      (dataptrs, insns, dispAt)
    }

    // ----- step 1

    /** The ties that pinning looks at. */
    ghost function PlainTies(): set<Tie>
      reads this, (set p | p in tied :: p.0) + set p | p in tied :: p.1
    {
      set p | p in tied && !Skipped(p)
    }

    lemma PlainOnes()
      requires forall p | p in tied :: p.0 in scoops && p.1 in scoops
      ensures PlainTies() == Plain(Abs())
    {
    }

    /** Ties to pinned scoops pin, until nothing changes; ties to `.dynamic` and `.jcr` do not count. */
    method PropagatePins()
      modifies this`moveable, this`tied
      ensures Greatest(old(moveable), old(PlainTies()), moveable)
      ensures tied == Inside(old(PlainTies()), moveable)
      ensures old(PlainTies())
           == set p | p in old(tied) && p.0.name !in {".dynamic", ".jcr"} && p.1.name !in {".dynamic", ".jcr"}
    {
      ghost var all, plain := moveable, PlainTies();
      ghost var ties0 := tied;
      var changed := true;
      while changed
        invariant moveable <= all && tied <= ties0 && Bounds(all, plain, moveable)
        invariant forall p | p in plain && p !in tied :: p.0 !in moveable && p.1 !in moveable
        invariant !changed ==> forall p | p in tied :: p in plain && p.0 in moveable && p.1 in moveable
        decreases moveable, changed
      {
        changed := false;
        ghost var m0 := moveable;
        var rest := tied;
        while rest != {}
          invariant rest <= tied <= ties0 && moveable <= m0 && Bounds(all, plain, moveable)
          invariant forall p | p in plain && p !in tied :: p.0 !in moveable && p.1 !in moveable
          invariant if changed then moveable < m0 else
            moveable == m0 && forall p | p in tied && p !in rest :: p in plain && p.0 in moveable && p.1 in moveable
          decreases rest
        {
          var p :| p in rest;
          rest := rest - {p};
          var (s1, s2) := p;
          if DontCoalesce(s1.name) || DontCoalesce(s2.name) {
            tied := tied - {p};
          } else if s1 in moveable && s2 in moveable {
          } else if s1 in moveable {
            PinKeepsBound(all, plain, moveable, p, s1);
            moveable := moveable - {s1};
            tied := tied - {p};
            changed := true;
          } else if s2 in moveable {
            PinKeepsBound(all, plain, moveable, p, s2);
            moveable := moveable - {s2};
            tied := tied - {p};
            changed := true;
          } else {
            tied := tied - {p};
          }
        }
      }
    }

    // ----- step 2

    static method ReplaceTarget(refs: set<InsnFixup<DataScoop>>, s1: DataScoop, s2: DataScoop)
      returns (updated: set<InsnFixup<DataScoop>>)
      ensures updated == MergeInsn(refs, s1, s2)
    {
      updated := refs;
      var news: set<InsnFixup<DataScoop>> := {};
      var rest := refs;
      while rest != {}
        invariant rest <= refs
        invariant updated == set f | f in refs && (f in rest || f.to != s2)
        invariant news == set f | f in refs && f !in rest && f.to == s2 :: InsnFixup(f.insn, s1)
        decreases rest
      {
        var f :| f in rest;
        rest := rest - {f};
        if f.to == s2 {
          updated := updated - {f};
          news := news + {InsnFixup(f.insn, s1)};
        }
      }
      updated := updated + news;
    }

    static method UpdateInsnFixups(refs: set<InsnFixup<DataScoop>>, s1: DataScoop, s2: DataScoop)
      returns (updated: set<InsnFixup<DataScoop>>)
      requires OncePerInsn(refs) && s1 != s2
      ensures updated == MergeInsn(refs, s1, s2)
    {
      hide OncePerInsn, MergeInsn;
      var size := |refs|;
      updated := ReplaceTarget(refs, s1, s2);
      MergeKeepsOncePerInsn(refs, s1, s2);
      assert size == |updated|;
    }

    static method UpdateDataFixups(refs: set<DataFixup<DataScoop>>, s1: DataScoop, s2: DataScoop, size: nat)
      returns (updated: set<DataFixup<DataScoop>>)
      ensures updated == MergeData(refs, s1, s2, size)
    {
      updated := refs;
      var news: set<DataFixup<DataScoop>> := {};
      var rest := refs;
      while rest != {}
        invariant rest <= refs
        invariant updated == set f | f in refs && (f in rest || (f.to != s2 && f.from != s2))
        invariant news == set f | f in refs && f !in rest
                  && (f.to == s2 || f.from == s2) :: MergeDataRef(f, s1, s2, size)
        decreases rest
      {
        var f :| f in rest;
        rest := rest - {f};
        if f.to == s2 || f.from == s2 {
          var replacer := f;
          if replacer.to == s2 { replacer := replacer.(to := s1); }
          if replacer.from == s2 { replacer := replacer.(from := s1, offset := replacer.offset + size); }
          updated := updated - {f};
          news := news + {replacer};
        }
      }
      updated := updated + news;
    }

    method RedirectRelocs(s1: DataScoop, s2: DataScoop, size: nat)
      requires s1 != s2
      modifies this`relocs
      ensures relocs == map r | r in old(relocs) :: Redirected(old(relocs)[r], s1, s2, size)
    {
      var rest := relocs.Keys;
      while rest != {}
        invariant rest <= old(relocs).Keys == relocs.Keys
        invariant forall r | r in relocs ::
                    relocs[r] == if r in rest then old(relocs)[r] else Redirected(old(relocs)[r], s1, s2, size)
        decreases rest
      {
        var r :| r in rest;
        rest := rest - {r};
        if relocs[r].wrt == Some(s2) {
          relocs := relocs[r := relocs[r].(wrt := Some(s1), addend := (relocs[r].addend + size) % TWO_32)];
        }
      }
    }

    /** The relocations of `s2` become relocations of `s1`. */
    method AdoptRelocs(s1: DataScoop, s2: DataScoop, length: nat)
      requires s1 != s2
      modifies this`relocs
      ensures relocs == map r | r in old(relocs) :: Adopted(old(relocs)[r], s1, s2, length)
    {
      var rest := set r | r in relocs && relocs[r].owner == Some(s2);
      while rest != {}
        invariant rest <= old(relocs).Keys == relocs.Keys
        invariant forall r | r in rest :: relocs[r].owner == Some(s2)
        invariant forall r | r in relocs ::
                    relocs[r] == if r in rest then old(relocs)[r] else Adopted(old(relocs)[r], s1, s2, length)
        decreases rest
      {
        var r :| r in rest;
        rest := rest - {r};
        relocs := relocs[r := relocs[r].(offset := relocs[r].offset + length, owner := Some(s1))];
      }
    }

    /** Renames the first end of the one tie that starts at `s2`, if there is one. */
    method Retie(s1: DataScoop, s2: DataScoop)
      requires s1 != s2 && (s1, s2) in tied
      requires forall p, q | p in tied && q in tied && p.0 == q.0 :: p == q
      modifies this`tied
      ensures tied == MergeTies(old(tied), s1, s2)
    {
      tied := tied - {(s1, s2)};
      if found :| found in tied && found.0 == s2 {
        RetieOne(old(tied), s1, s2, found);
        tied := tied - {found};
        tied := tied + {(s1, found.1)};
      } else {
        RetieNone(old(tied), s1, s2);
      }
      assert forall p | p in tied :: p.0 != s2;
    }

    method UpdateReferences(s1: DataScoop, s2: DataScoop, size: nat)
      requires s1 != s2 && InsnsOnce(Abs())
      modifies this`pcrelRefs, this`absoluteRefs, this`immedRefs, this`dataRefs, this`relocs
      ensures pcrelRefs == MergeInsn(old(pcrelRefs), s1, s2)
      ensures absoluteRefs == MergeInsn(old(absoluteRefs), s1, s2)
      ensures immedRefs == MergeInsn(old(immedRefs), s1, s2)
      ensures dataRefs == MergeData(old(dataRefs), s1, s2, size)
      ensures relocs == map r | r in old(relocs) :: Redirected(old(relocs)[r], s1, s2, size)
    {
      hide MergeInsn, MergeData, OncePerInsn;
      pcrelRefs := UpdateInsnFixups(pcrelRefs, s1, s2);
      absoluteRefs := UpdateInsnFixups(absoluteRefs, s1, s2);
      immedRefs := UpdateInsnFixups(immedRefs, s1, s2);
      dataRefs := UpdateDataFixups(dataRefs, s1, s2, size);
      RedirectRelocs(s1, s2, size);
    }

    /** Every set and dictionary that mentions `s2` mentions `s1` instead. */
    method Forget(s1: DataScoop, s2: DataScoop, size: nat, length: nat)
      requires s1 != s2 && (s1, s2) in tied && InsnsOnce(Abs())
      requires forall p, q | p in tied && q in tied && p.0 == q.0 :: p == q
      modifies this`pcrelRefs, this`absoluteRefs, this`immedRefs, this`dataRefs, this`relocs, this`moveable, this`tied
      ensures pcrelRefs == MergeInsn(old(pcrelRefs), s1, s2)
      ensures absoluteRefs == MergeInsn(old(absoluteRefs), s1, s2)
      ensures immedRefs == MergeInsn(old(immedRefs), s1, s2)
      ensures dataRefs == MergeData(old(dataRefs), s1, s2, size)
      ensures relocs == map r | r in old(relocs) :: MergeReloc(old(relocs)[r], s1, s2, size, length)
      ensures moveable == old(moveable) - {s2} && tied == MergeTies(old(tied), s1, s2)
    {
      hide MergeTies, MergeData, MergeInsn, MergeReloc, Redirected, Adopted, InsnsOnce;
      UpdateReferences(s1, s2, size);
      moveable := moveable - {s2};
      AdoptRelocs(s1, s2, length);
      Retie(s1, s2);
      BothRelocSteps(old(relocs), s1, s2, size, length);
    }

    method Join(s1: DataScoop, s2: DataScoop) returns (size: nat, length: nat)
      requires s1 in scoops && s2 in scoops && s1 != s2 && s1.start < s2.start && s1.end < s2.start
               && s1.start <= s1.end
      modifies s1, this`scoops
      ensures scoops == old(scoops) - {s2}
      ensures Scoops() == (old(Scoops()) - {s2})[s1 := Joined(old(s1.Value()), old(s2.Value()))]
      ensures size == Padded(old(s1.Value()), old(s2.Value())).Size() && length == |old(s1.contents)|
    {
      CloseGap(s1, s2);
      size := s1.end - s1.start + 1;
      length := |s1.contents|;
      Append(s1, s2);
      scoops := scoops - {s2};
    }

    /** One round of the merging loop. */
    method Coalesce(s1: DataScoop, s2: DataScoop)
      requires s1 in scoops && s2 in scoops && Ordered(Abs()) && (s1, s2) in tied && InsnsOnce(Abs())
      requires Scoops()[s1].start <= Padded(Scoops()[s1], Scoops()[s2]).end + 1
      modifies this, s1
      ensures Abs() == Merge(old(Abs()), s1, s2) && scoops == old(scoops) - {s2} && Others() == old(Others())
    {
      hide Ordered, MergeTies, MergeData, MergeInsn, MergeReloc, Padded, Joined, OncePerInsn;
      ghost var st := Abs();
      TiedAreInOrder(st, s1, s2);
      forall p, q | p in tied && q in tied && p.0 == q.0 ensures p == q { TiesArePaths(st, p, q); }
      assert s1.start <= s1.end by { TiedAreSound(st, s1, s2); }
      var size, length := Join(s1, s2);
      Forget(s1, s2, size, length);
    }

    method Round(ghost st0: State<DataScoop>, ghost home: map<DataScoop, DataScoop>, s1: DataScoop, s2: DataScoop)
      returns (ghost home': map<DataScoop, DataScoop>)
      requires Invariant(st0, Abs(), home) && (s1, s2) in tied && s1 in moveable && s2 in moveable
      modifies this, scoops
      ensures Invariant(st0, Abs(), home') && |tied| < |old(tied)| && scoops <= old(scoops) && Others() == old(Others())
    {
      hide Invariant, Ordered, InsnsOnce, Merge;
      ghost var st := Abs();
      InvariantOfATie(st0, st, home, s1, s2);
      MergeInvariant(st0, st, home, s1, s2);
      home' := Rehome(home, s1, s2);
      assert Invariant(st0, Merge(st, s1, s2), home');
      Coalesce(s1, s2);
    }

    /** The whole merging loop.  A visit to any tie either merges its scoops, after which the source
        starts over, or fails an assertion; so the order in which the source visits ties does not
        matter and one visit per round is enough. */
    method CoalesceTied() returns (ghost home: map<DataScoop, DataScoop>)
      requires Ordered(Abs()) && Sized(Abs()) && InsnsOnce(Abs())
      requires forall r | r in relocs :: relocs[r].addend < TWO_32
      modifies this, scoops
      ensures tied == {} && scoops <= old(scoops) && Invariant(old(Abs()), Abs(), home) && Others() == old(Others())
    {
      hide Invariant, Merge, Ordered, Sized, InsnsOnce;
      ghost var st0 := Abs();
      home := Itself(st0);
      InvariantAtFirst(st0);
      var changed := true;
      while changed
        invariant scoops <= old(scoops) && Invariant(st0, Abs(), home) && Others() == old(Others())
        invariant !changed ==> tied == {}
        decreases |tied|, changed
      {
        changed := false;
        if tied != {} {
          var current := AnyOf(tied);
          var (s1, s2) := current;
          InvariantOfATie(st0, Abs(), home, s1, s2);
          if DontCoalesce(s1.name) || DontCoalesce(s2.name) {
            assert false;
          } else if s1 in moveable && s2 in moveable {
            home := Round(st0, home, s1, s2);
            changed := true;
          } else {
            assert false;
          }
        }
      }
      assert |tied| == 0;
    }

    /** Both steps.  `pinned` is the state between them. */
    method FilterAndCoalesceTiedScoops()
      returns (ghost pinned: State<DataScoop>, ghost home: map<DataScoop, DataScoop>)
      requires InOrder(Abs()) && Sized(Abs()) && InsnsOnce(Abs())
      requires (forall p | p in tied :: p.0 in scoops && p.1 in scoops) && forall r | r in relocs ::
               relocs[r].addend < TWO_32
      modifies this, scoops
      ensures Greatest(old(moveable), Plain(old(Abs())), pinned.moveable)
      ensures pinned == old(Abs()).(moveable := pinned.moveable, tied := Inside(Plain(old(Abs())), pinned.moveable))
      ensures tied == {} && scoops <= old(scoops) && Invariant(pinned, Abs(), home) && Others() == old(Others())
    {
      hide Invariant, Greatest, Inside, InOrder, Plain, OncePerInsn, Ordered;
      ghost var st := Abs();
      PlainOnes();
      PropagatePins();
      pinned := Abs();
      assert pinned == st.(moveable := moveable, tied := Inside(Plain(st), moveable));
      PinningKeepsOrder(st, moveable);
      home := CoalesceTied();
    }

    // ----- detaching

    /** Takes the bases of the scoops that can move out of the operands at `at`. */
    method TakeBases(refs: set<InsnFixup<DataScoop>>, at: map<nat, nat>)
      requires OperandsFit(refs, at, BitsOf(insns), scoops) && OncePerInsn(refs) && Distinct(insns)
      modifies insns.Values
      ensures BasesTaken(refs, at, moveable, Scoops(), old(BitsOf(insns)), BitsOf(insns))
    {
      hide TookBase, OnlyField;
      var rest := refs;
      while rest != {}
        invariant rest <= refs
        invariant forall f | f in refs :: if f in rest then insns[f.insn].bits == old(insns[f.insn].bits)
                    else TookBase(old(insns[f.insn].bits), insns[f.insn].bits, at[f.insn], f.to in moveable, f.to.start)
        invariant forall n | n in insns && !(exists f | f in refs :: f.insn == n) :: insns[n].bits == old(insns[n].bits)
        decreases rest
      {
        var f :| f in rest;
        rest := rest - {f};
        insns[f.insn].TakeBase(at[f.insn], f.to in moveable, f.to.start);
      }
    }

    /** Takes the base of `to` out of the pointer at `from` + `offset`. */
    method ApplyDataRelocation(from: DataScoop, offset: nat, to: DataScoop, w: nat)
      requires from in scoops && offset + w <= |from.contents|
      modifies this`dataptrs, from`contents
      ensures dataptrs == old(dataptrs) + {DataFixup(from, offset, to)}
      ensures Scoops() == PatchOne(old(Scoops()), DataFixup(from, offset, to), w, -old(to.start))
    {
      hide Patch, WordAt;
      var val := WordAt(from.contents, offset, w);
      dataptrs := dataptrs + {DataFixup(from, offset, to)};
      var newval := val - to.start;
      from.contents := Patch(from.contents, offset, w, newval);
    }

    /** The operands and pointers that lose a base. */
    ghost predicate Recorded(w: nat)
      reads this, scoops, insns.Values
    {
      && OperandsFit(pcrelRefs, dispAt, BitsOf(insns), scoops)
          && OperandsFit(absoluteRefs, dispAt, BitsOf(insns), scoops)
      && OperandsFit(immedRefs, ImmediateAt(BitsOf(insns)), BitsOf(insns), scoops)
      && InsnsOnce(Abs()) && Distinct(insns)
      && Fits(Scoops(), dataRefs, w) && Apart(dataRefs, w)
    }

    /** Takes bases out of the three kinds of operands. */
    method DetachOperands(ghost w: nat) returns (ghost b1: map<nat, seq<Byte>>, ghost b2: map<nat, seq<Byte>>)
      requires Recorded(w)
      modifies insns.Values
      ensures var b := old(BitsOf(insns)); Detached(Abs(), dispAt, b, b1, b2, BitsOf(insns))
    {
      hide OperandsFit, BasesTaken, OncePerInsn, Distinct, BitsOf;
      ghost var b, t := BitsOf(insns), Scoops();
      assert t.Keys == scoops;
      TakeBases(pcrelRefs, dispAt);
      b1 := BitsOf(insns);
      StillFit(pcrelRefs, dispAt, moveable, t, b, b1, absoluteRefs, dispAt);
      StillFit(pcrelRefs, dispAt, moveable, t, b, b1, immedRefs, ImmediateAt(b));
      TakeBases(absoluteRefs, dispAt);
      b2 := BitsOf(insns);
      StillFit(absoluteRefs, dispAt, moveable, t, b1, b2, immedRefs, ImmediateAt(b));
      TakeBases(immedRefs, ImmediateAt(BitsOf(insns)));
    }

    /** Takes bases out of operands, then the base of the target out of every recorded data pointer,
        then sends every moveable scoop to address 0.  `detached` is what the scoops hold in
        between, `b1` and `b2` are what instructions are after the first and second kind of
        operand. */
    method UpdateScoopLocations(w: nat)
      returns (ghost detached: Table<DataScoop>, ghost b1: map<nat, seq<Byte>>, ghost b2: map<nat, seq<Byte>>)
      requires Recorded(w) && moveable <= scoops && dataptrs == {}
      modifies this`dataptrs, scoops, insns.Values
      ensures Detached(old(Abs()), dispAt, old(BitsOf(insns)), b1, b2, BitsOf(insns))
      ensures dataptrs == dataRefs
      ensures Added(old(Scoops()), detached, dataRefs, w, Taken(old(Scoops())))
      ensures Scoops() == Unplaced(detached, moveable)
      ensures forall s | s in scoops :: s.start == (if s in moveable then 0 else old(s.start))
                                        && s.end - s.start == old(s.end - s.start)
    {
      hide Added, Fits, Apart, PatchOne, Unplaced, Taken, TableOf, Detached, OperandsFit, Distinct, OncePerInsn;
      b1, b2 := DetachOperands(w);
      detached := DetachPointers(w);
      Unplace();
    }

    method DetachPointers(w: nat) returns (ghost detached: Table<DataScoop>)
      requires Fits(Scoops(), dataRefs, w) && Apart(dataRefs, w) && dataptrs == {}
      modifies this`dataptrs, scoops`contents
      ensures dataptrs == dataRefs && detached == Scoops()
      ensures Added(old(Scoops()), detached, dataRefs, w, Taken(old(Scoops())))
    {
      hide Added, Fits, Apart, PatchOne, Taken, TableOf;
      ghost var t := Scoops();
      var rest := dataRefs;
      NothingAdded(t, dataRefs, w, Taken(t));
      while rest != {}
        invariant rest <= dataRefs && dataptrs == dataRefs - rest
        invariant Fits(t, dataptrs, w) && Added(t, Scoops(), dataptrs, w, Taken(t))
        decreases rest
      {
        var f :| f in rest;
        rest := rest - {f};
        TakeOne(t, Scoops(), dataRefs, dataptrs, f, w);
        ScoopOf(f.from);
        ScoopOf(f.to);
        ApplyDataRelocation(f.from, f.offset, f.to, w);
      }
      assert dataptrs == dataRefs;
      detached := Scoops();
    }

    lemma ScoopOf(s: DataScoop)
      requires s in Scoops()
      ensures s in scoops && Scoops()[s] == s.Value()
    {
    }

    method Unplace()
      requires moveable <= scoops
      modifies scoops
      ensures Scoops() == Unplaced(old(Scoops()), moveable)
      ensures forall s | s in scoops :: s.start == (if s in moveable then 0 else old(s.start))
                                        && s.end - s.start == old(s.end - s.start)
    {
      var rest := moveable;
      while rest != {}
        invariant rest <= moveable
        invariant forall s | s in scoops ::
                  s.Value() == (if s in moveable - rest then AtZero(old(s.Value())) else old(s.Value()))
        decreases rest
      {
        var s :| s in rest;
        rest := rest - {s};
        var newend := s.end - s.start;
        s.end := newend;
        s.start := 0;
      }
    }
  }

  /** Taking bases out of one kind of operand, at most one per instruction, leaves the others. */
  lemma KindDetached(refs: set<InsnFixup<DataScoop>>, at: map<nat, nat>, moveable: set<DataScoop>, t: Table<DataScoop>,
                     b: map<nat, seq<Byte>>, c: map<nat, seq<Byte>>, n: nat, off: nat)
    requires OperandsFit(refs, at, b, t.Keys) && BasesTaken(refs, at, moveable, t, b, c) && n in b && off + 4 <= |b[n]|
    requires forall f | f in refs && f.insn == n :: off + 4 <= at[n] || at[n] + 4 <= off
    ensures |c[n]| == |b[n]| && Field(c[n], off) == Field(b[n], off)
  {
    hide Field;
    if f :| f in refs && f.insn == n {
      assert TookBase(b[f.insn], c[f.insn], at[f.insn], f.to in moveable, t[f.to].start);
      FieldElsewhere(b[n], c[n], at[n], off);
    }
  }

  /** What becomes of a rip-relative operand in the end, if the instruction has no absolute operand
      and its immediate is elsewhere. */
  lemma PcrelDetached(st: State<DataScoop>, dispAt: map<nat, nat>, b: map<nat, seq<Byte>>, b1: map<nat, seq<Byte>>,
                      b2: map<nat, seq<Byte>>, b3: map<nat, seq<Byte>>, f: InsnFixup<DataScoop>)
    requires Detached(st, dispAt, b, b1, b2, b3) && f in st.pcrel && f.insn in dispAt && f.insn in b
    requires forall g | g in st.absolute :: g.insn != f.insn
    requires forall g | g in st.immed && g.insn == f.insn :: dispAt[f.insn] + 8 <= |b[f.insn]|
    ensures f.insn in b3 && f.to in st.scoops && dispAt[f.insn] + 4 <= |b[f.insn]| == |b3[f.insn]|
    ensures Field(b3[f.insn], dispAt[f.insn])
         == var d := Field(b[f.insn], dispAt[f.insn]);
            if f.to in st.moveable then Signed32((d - st.scoops[f.to].start) % TWO_32) else d
  {
    hide Field;
    var n, off := f.insn, dispAt[f.insn];
    assert TookBase(b[n], b1[n], off, f.to in st.moveable, st.scoops[f.to].start);
    KindDetached(st.absolute, dispAt, st.moveable, st.scoops, b1, b2, n, off);
    KindDetached(st.immed, ImmediateAt(b2), st.moveable, st.scoops, b2, b3, n, off);
  }

  /** Of an absolute operand. */
  lemma AbsoluteDetached(st: State<DataScoop>, dispAt: map<nat, nat>, b: map<nat, seq<Byte>>, b1: map<nat, seq<Byte>>,
                         b2: map<nat, seq<Byte>>, b3: map<nat, seq<Byte>>, f: InsnFixup<DataScoop>)
    requires Detached(st, dispAt, b, b1, b2, b3) && f in st.absolute && f.insn in dispAt && f.insn in b
    requires forall g | g in st.pcrel :: g.insn != f.insn
    requires forall g | g in st.immed && g.insn == f.insn :: dispAt[f.insn] + 8 <= |b[f.insn]|
    ensures f.insn in b3 && f.to in st.scoops && dispAt[f.insn] + 4 <= |b[f.insn]| == |b3[f.insn]|
    ensures Field(b3[f.insn], dispAt[f.insn])
         == var d := Field(b[f.insn], dispAt[f.insn]);
            if f.to in st.moveable then Signed32((d - st.scoops[f.to].start) % TWO_32) else d
  {
    hide Field;
    var n, off := f.insn, dispAt[f.insn];
    assert b1[n] == b[n];
    assert TookBase(b1[n], b2[n], off, f.to in st.moveable, st.scoops[f.to].start);
    KindDetached(st.immed, ImmediateAt(b2), st.moveable, st.scoops, b2, b3, n, off);
  }

  /** And of an immediate. */
  lemma ImmediateDetached(st: State<DataScoop>, dispAt: map<nat, nat>, b: map<nat, seq<Byte>>, b1: map<nat, seq<Byte>>,
                          b2: map<nat, seq<Byte>>, b3: map<nat, seq<Byte>>, f: InsnFixup<DataScoop>)
    requires Detached(st, dispAt, b, b1, b2, b3) && f in st.immed && f.insn in b && 4 < |b[f.insn]|
    requires forall g | g in st.pcrel + st.absolute && g.insn == f.insn ::
             f.insn in dispAt && dispAt[f.insn] + 8 <= |b[f.insn]|
    ensures f.insn in b3 && f.to in st.scoops && |b[f.insn]| == |b3[f.insn]|
    ensures Field(b3[f.insn], |b[f.insn]| - 4)
         == var d := Field(b[f.insn], |b[f.insn]| - 4);
            if f.to in st.moveable then Signed32((d - st.scoops[f.to].start) % TWO_32) else d
  {
    hide Field;
    var n, off := f.insn, |b[f.insn]| - 4;
    KindDetached(st.pcrel, dispAt, st.moveable, st.scoops, b, b1, n, off);
    KindDetached(st.absolute, dispAt, st.moveable, st.scoops, b1, b2, n, off);
    assert TookBase(b2[n], b3[n], ImmediateAt(b2)[n], f.to in st.moveable, st.scoops[f.to].start);
  }
}
