/** Slicing a call frame program for one instruction address. */
module CallFrameSlicing {
  import opened Common
  import opened CallFrames

  /** Wherever `p` makes sense from an empty stack of saved rows, `q` computes the same row and the
      same saved rows. */
  ghost predicate Refines(p: seq<Insn>, q: seq<Insn>) {
    forall s: State | s.saved == [] && Run(p, s).Some? :: Run(q, s) == Run(p, s)
  }

  predicate Plain(i: Insn) { !i.Advance? && !i.Nop? && !i.RestoreState? }

  /** Nothing but state-building instructions, and never two frame offsets in a row. */
  ghost predicate Flat(q: seq<Insn>) {
    && (forall i :: 0 <= i < |q| ==> Plain(q[i]))
    && (forall i :: 0 < i < |q| ==> !(q[i - 1].DefCfaOffset? && q[i].DefCfaOffset?))
  }

  ghost predicate NoRemember(q: seq<Insn>) {
    forall i :: 0 <= i < |q| ==> Plain(q[i]) && !q[i].RememberState?
  }

  lemma RunLast(p: seq<Insn>, i: Insn, s: State)
    ensures Run(p + [i], s) == match Run(p, s) case None => None case Some(t) => Step(i, t)
  {
    assert (p + [i])[..|p + [i]| - 1] == p;
  }

  lemma RefinesKept(p: seq<Insn>, q: seq<Insn>, i: Insn)
    requires Refines(p, q)
    ensures Refines(p + [i], q + [i])
  {
    hide Step, Run;
    forall s: State | s.saved == [] && Run(p + [i], s).Some? ensures Run(q + [i], s) == Run(p + [i], s) {
      RunLast(p, i, s);
      RunLast(q, i, s);
    }
  }

  lemma RefinesSkipped(p: seq<Insn>, q: seq<Insn>, i: Insn)
    requires Refines(p, q) && (i.Advance? || i.Nop?)
    ensures Refines(p + [i], q)
  {
    hide Run;
    forall s: State | s.saved == [] && Run(p + [i], s).Some? ensures Run(q, s) == Run(p + [i], s) {
      RunLast(p, i, s);
    }
  }

  /** Of two frame offsets in a row only the second matters. */
  lemma RefinesCollapsed(p: seq<Insn>, q: seq<Insn>, i: Insn)
    requires Refines(p, q) && i.DefCfaOffset? && q != [] && q[|q| - 1].DefCfaOffset?
    ensures Refines(p + [i], q[..|q| - 1] + [i])
  {
    hide Run;
    var r, last := q[..|q| - 1], q[|q| - 1];
    assert q == r + [last];
    forall s: State | s.saved == [] && Run(p + [i], s).Some? ensures Run(r + [i], s) == Run(p + [i], s) {
      RunLast(p, i, s);
      RunLast(r, last, s);
      RunLast(r, i, s);
    }
  }

  lemma {:induction false} SavedRowsKept(q: seq<Insn>, s: State)
    requires NoRemember(q)
    ensures Run(q, s).Some? ==> Run(q, s).value.saved == s.saved && Run(q, s).value.initial == s.initial
    decreases |q|
  {
    if q != [] {
      SavedRowsKept(q[..|q| - 1], s);
    }
  }

  /** What was built since the last remember_state is undone by a restore_state. */
  lemma RefinesRestored(p: seq<Insn>, pre: seq<Insn>, seg: seq<Insn>)
    requires Refines(p, pre + [RememberState] + seg) && NoRemember(seg)
    ensures Refines(p + [RestoreState], pre)
  {
    hide Run;
    var q := pre + [RememberState] + seg;
    forall s: State | s.saved == [] && Run(p + [RestoreState], s).Some?
      ensures Run(pre, s) == Run(p + [RestoreState], s)
    {
      RunLast(p, RestoreState, s);
      RunJoin(pre + [RememberState], seg, s);
      RunLast(pre, RememberState, s);
      SavedRowsKept(seg, Run(pre + [RememberState], s).value);
    }
  }

  /** A restore_state without a remember_state makes the program meaningless. */
  lemma RefinesUnmatched(p: seq<Insn>, q: seq<Insn>)
    requires Refines(p, q) && NoRemember(q)
    ensures Refines(p + [RestoreState], [])
  {
    hide Run;
    forall s: State | s.saved == [] ensures Run(p + [RestoreState], s).None? {
      RunLast(p, RestoreState, s);
      SavedRowsKept(q, s);
    }
  }

  predicate LastIsOffset(q: seq<Insn>) { q != [] && q[|q| - 1].DefCfaOffset? }

  /** Pops instructions up to and including the last remember_state. */
  method PopToRemember(out0: seq<Insn>, ghost p: seq<Insn>) returns (out: seq<Insn>)
    requires Refines(p, out0) && Flat(out0)
    ensures Refines(p + [RestoreState], out) && Flat(out) && out <= out0
  {
    out := out0;
    ghost var seg: seq<Insn> := [];
    while true
      invariant out0 == out + seg && NoRemember(seg) && out <= out0
      decreases |out|
    {
      if |out| == 0 {
        assert seg == out0;
        RefinesUnmatched(p, out0);
        break;
      }
      var back := out[|out| - 1];
      assert Plain(out0[|out| - 1]);
      ghost var rest := out[..|out| - 1];
      assert out == rest + [back];
      out := out[..|out| - 1];
      if back.RememberState? {
        assert out0 == rest + [RememberState] + seg;
        RefinesRestored(p, rest, seg);
        break;
      }
      seg := [back] + seg;
    }
  }

  /** The flattened program for the instruction at `addr`: it means what the part in force there
      means, and consists of some of that part's instructions. */
  method ImportProgram(pgm: seq<Insn>, start: nat, caf: nat, addr: nat) returns (out: seq<Insn>)
    ensures Refines(pgm[..InForce(pgm, start, caf, addr)], out)
    ensures Flat(out) && forall x :: x in out ==> x in pgm
  {
    hide Refines, Step, Run;
    out := [];
    var cur: nat := start;
    var last := false;
    var n := 0;
    RefinesNothing();
    while n < |pgm|
      invariant 0 <= n <= |pgm| && InForce(pgm, start, caf, addr) == n + InForce(pgm[n..], cur, caf, addr)
      invariant Refines(pgm[..n], out) && Flat(out) && last == LastIsOffset(out)
      invariant forall x :: x in out ==> x in pgm
    {
      var i := pgm[n];
      assert pgm[..n + 1] == pgm[..n] + [i];
      assert pgm[n..][1..] == pgm[n + 1..];
      if i.Advance? {
        if cur + i.delta * caf > addr { break; }
        cur := cur + i.delta * caf;
        RefinesSkipped(pgm[..n], out, i);
      } else if i.Nop? {
        RefinesSkipped(pgm[..n], out, i);
      } else if i.RestoreState? {
        out := PopToRemember(out, pgm[..n]);
        last := false;
        if |out| > 0 { last := out[|out| - 1].DefCfaOffset?; }
      } else {
        var offset := i.DefCfaOffset?;
        if last && offset {
          RefinesCollapsed(pgm[..n], out, i);
          out := out[..|out| - 1] + [i];
        } else {
          RefinesKept(pgm[..n], out, i);
          out := out + [i];
        }
        last := offset;
      }
      n := n + 1;
    }
  }

  lemma RefinesNothing()
    ensures Refines([], [])
  {
  }

  // ----- a whole frame description

  datatype FrameDescription = FrameDescription(start: nat, end: nat, caf: nat, cie: seq<Insn>, fde: seq<Insn>)

  const NO_ROW := Row(Undefined, map[])

  /** The common part gives the initial row, to which the specific part applies. */
  function RunBoth(cie: seq<Insn>, fde: seq<Insn>): Option<State> {
    match Run(cie, State(NO_ROW, NO_ROW, []))
    case None => None
    case Some(s) => Run(fde, State(s.row, s.row, []))
  }

  /** The two programs stored for the instruction at `addr` describe the same frame as the whole
      description does there. */
  method BuildProgram(d: FrameDescription, addr: nat) returns (cie: seq<Insn>, fde: seq<Insn>)
    requires d.start <= addr
    ensures Flat(cie) && Flat(fde)
    ensures var c, f := d.cie[..InForce(d.cie, d.start, d.caf, addr)], d.fde[..InForce(d.fde, d.start, d.caf, addr)];
      RunBoth(c, f).Some? ==>
        && RunBoth(cie, fde) == RunBoth(c, f)
        && var row0 := Run(c, State(NO_ROW, NO_ROW, [])).value.row;
           RunBoth(cie, fde).value.row == Lookup(Table(d.fde, d.start, d.caf, State(row0, row0, [])), addr)
  {
    hide Flat, Run, Table, Lookup;
    cie := ImportProgram(d.cie, d.start, d.caf, addr);
    fde := ImportProgram(d.fde, d.start, d.caf, addr);
    ghost var c := d.cie[..InForce(d.cie, d.start, d.caf, addr)];
    ghost var f := d.fde[..InForce(d.fde, d.start, d.caf, addr)];
    if RunBoth(c, f).Some? {
      ghost var row0 := Run(c, State(NO_ROW, NO_ROW, [])).value.row;
      TableAgrees(d.fde, d.start, d.caf, State(row0, row0, []), addr);
    }
  }
}
