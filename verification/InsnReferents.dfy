/** Operands of instructions, when the scoop they refer to may have been merged into another: what
    the last pass makes of what detaching has left. */
module InsnReferents {
  import opened LittleEndian
  import opened Coalescing
  import opened Modular
  import opened Tracking
  import opened References
  import opened CoalescingRun
  import opened Relocating
  import opened MoveGlobals
  import opened Referents
  import opened X86Operands

  /** Instructions before detaching, after each kind of operand, and where the decoder finds their
      displacements. */
  datatype Detaching = Detaching(dispAt: map<nat, nat>, b: map<nat, seq<Byte>>, b1: map<nat, seq<Byte>>,
                                 b2: map<nat, seq<Byte>>, b3: map<nat, seq<Byte>>)
  {
    ghost predicate Of(st: State<DataScoop>) { Detached(st, dispAt, b, b1, b2, b3) }

    /** No instruction has both kinds of memory operand, and an immediate lies behind its
        displacement. */
    ghost predicate Separate(st: State<DataScoop>) {
      && (forall f, g | f in st.pcrel && g in st.absolute :: f.insn != g.insn)
      && (forall f, g | f in st.immed && g in st.pcrel + st.absolute && f.insn == g.insn ::
            f.insn in dispAt && f.insn in b && dispAt[f.insn] + 8 <= |b[f.insn]|)
    }
  }

  /** How far the scoop that an operand was attributed to has moved. */
  function Moved(st0: State<DataScoop>, st: State<DataScoop>, home: map<DataScoop, DataScoop>,
                 placed: Table<DataScoop>, s: DataScoop): int
    requires s in st0.scoops && Where(home, s) in placed
  {
    NewAddress(st0, st, home, placed, s) - st0.scoops[s].start
  }

  /** It is as far as the scoop has moved that it was merged into; a scoop that cannot move stays. */
  lemma MovesAlong(st0: State<DataScoop>, st: State<DataScoop>, home: map<DataScoop, DataScoop>,
                   placed: Table<DataScoop>, s: DataScoop)
    requires Homes(st0, st, home) && s in st0.scoops && Where(home, s) in placed
    ensures Where(home, s) in st.scoops
    ensures Moved(st0, st, home, placed, s) == placed[Where(home, s)].start - st.scoops[Where(home, s)].start
  {
    hide Homes;
    ShiftedStart(st0, st, home, s);
  }

  /** Nothing that cannot move has been moved. */
  ghost predicate PinnedStay(st: State<DataScoop>, placed: Table<DataScoop>) {
    st.scoops.Keys <= placed.Keys && forall s | s in st.scoops && s !in st.moveable ::
        placed[s].start == st.scoops[s].start
  }

  /** A rip-relative operand refers to the byte as far from where its scoop now is as it was from
      where that used to be, exactly when the displacement that takes fits. */
  method PcrelReferent(i: Insn, off: nat, at: int, to: int, fileBase: int, ghost st0: State<DataScoop>,
                       ghost st: State<DataScoop>, ghost home: map<DataScoop, DataScoop>,
                       ghost placed: Table<DataScoop>,
                       ghost d: Detaching, ghost f: InsnFixup<DataScoop>)
    requires Carried(st0, st, home) && f in st0.pcrel && f.to in st0.scoops && PinnedStay(st, placed)
    requires d.Of(st) && d.Separate(st) && f.insn in d.dispAt && off == d.dispAt[f.insn] && f.insn in d.b
             && f.insn in d.b3
    requires off + 4 <= |d.b[f.insn]| == |d.b3[f.insn]| == |i.bits| && Field(i.bits, off) == Field(d.b3[f.insn], off)
    requires Where(home, f.to) in placed && to == if Where(home, f.to) in st.moveable
             then placed[Where(home, f.to)].start else 0
    modifies i`bits
    ensures OnlyField(old(i.bits), i.bits, off)
    ensures var x := Field(d.b[f.insn], off) + Moved(st0, st, home, placed, f.to);
            Target(i.bits, off, at) == x + |i.bits| + fileBase <==> FitsInt32(x - (at - fileBase))
  {
    hide Homes, Kept, NoneMadeUp, DataFollows, RelocsFollow, Field, OnlyField, Detached, Moved;
    MovesAlong(st0, st, home, placed, f.to);
    PcrelDetached(st, d.dispAt, d.b, d.b1, d.b2, d.b3, MovedInsn(home, f));
    ghost var x, start, d1 := Field(d.b[f.insn], off), st.scoops[Where(home, f.to)].start, Field(i.bits, off);
    i.PutPcrel(off, at, to, fileBase);
    if Where(home, f.to) in st.moveable {
      FieldChain(x, x, d1, Field(i.bits, off), -start, to - (at - fileBase));
    }
    SignedIff(x + Moved(st0, st, home, placed, f.to) - (at - fileBase));
  }

  /** The same for an absolute operand, modulo 2^32, when its scoop can move; otherwise no pass
      touches it. */
  method AbsoluteReferent(i: Insn, off: nat, to: int, fileBase: int, ghost st0: State<DataScoop>,
                          ghost st: State<DataScoop>, ghost home: map<DataScoop, DataScoop>,
                          ghost placed: Table<DataScoop>,
                          ghost d: Detaching, ghost f: InsnFixup<DataScoop>)
    requires Carried(st0, st, home) && f in st0.absolute && f.to in st0.scoops
    requires d.Of(st) && d.Separate(st) && f.insn in d.dispAt && off == d.dispAt[f.insn] && f.insn in d.b
             && f.insn in d.b3
    requires off + 4 <= |d.b[f.insn]| == |d.b3[f.insn]| == |i.bits| && Field(i.bits, off) == Field(d.b3[f.insn], off)
    requires Where(home, f.to) in st.moveable && Where(home, f.to) in placed && to == placed[Where(home, f.to)].start
    modifies i`bits
    ensures OnlyField(old(i.bits), i.bits, off)
    ensures Field(i.bits, off) % TWO_32 == (Field(d.b[f.insn], off) + Moved(st0, st, home, placed, f.to)) % TWO_32
            <==> fileBase % TWO_32 == 0
  {
    hide Homes, Kept, NoneMadeUp, DataFollows, RelocsFollow, Field, OnlyField, Detached, Moved;
    MovesAlong(st0, st, home, placed, f.to);
    AbsoluteDetached(st, d.dispAt, d.b, d.b1, d.b2, d.b3, MovedInsn(home, f));
    ghost var x, start, d1 := Field(d.b[f.insn], off), st.scoops[Where(home, f.to)].start, Field(i.bits, off);
    i.PutAbsolute(off, to, 0, fileBase);
    FieldChain(x, x, d1, Field(i.bits, off), -start, to - fileBase);
    SignedIff(x - start + to - fileBase);
    SameModIff(x - start + to - fileBase, fileBase, TWO_32);
  }

  /** The same for an immediate, always. */
  method ImmediateReferent(i: Insn, to: int, ghost st0: State<DataScoop>,
                           ghost st: State<DataScoop>, ghost home: map<DataScoop, DataScoop>,
                           ghost placed: Table<DataScoop>,
                           ghost d: Detaching, ghost f: InsnFixup<DataScoop>)
    requires Carried(st0, st, home) && f in st0.immed && f.to in st0.scoops
    requires d.Of(st) && d.Separate(st) && f.insn in d.b && f.insn in d.b3
             && 4 < |d.b[f.insn]| == |d.b3[f.insn]| == |i.bits|
    requires Field(i.bits, |i.bits| - 4) == Field(d.b3[f.insn], |i.bits| - 4)
    requires Where(home, f.to) in st.moveable && Where(home, f.to) in placed && to == placed[Where(home, f.to)].start
    modifies i`bits
    ensures |i.bits| == old(|i.bits|) && OnlyField(old(i.bits), i.bits, old(|i.bits|) - 4)
    ensures Field(i.bits, |i.bits| - 4) % TWO_32
         == (Field(d.b[f.insn], |i.bits| - 4) + Moved(st0, st, home, placed, f.to)) % TWO_32
  {
    hide Homes, Kept, NoneMadeUp, DataFollows, RelocsFollow, Field, OnlyField, Detached, Moved;
    MovesAlong(st0, st, home, placed, f.to);
    ImmediateDetached(st, d.dispAt, d.b, d.b1, d.b2, d.b3, MovedInsn(home, f));
    var off := |i.bits| - 4;
    ghost var x, start, d1 := Field(d.b[f.insn], off), st.scoops[Where(home, f.to)].start, Field(i.bits, off);
    i.PutImmediate(to);
    FieldChain(x, x, d1, Field(i.bits, off), -start, to);
    SignedIff(x - start + to);
  }
}
