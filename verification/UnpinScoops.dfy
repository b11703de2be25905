/** Once every scoop has its final place: the unpinner patches what scoops hold. */
module UnpinScoops {
  import opened LittleEndian
  import opened Relocating
  import opened MoveGlobals

  /** The relocations of a scoop: pointers to scoops, pointers to instructions, and the entries of
      type-4 switch tables, which are always 32 bits wide. */
  datatype ScoopReloc =
    | DataPtr(from: DataScoop, offset: nat, to: DataScoop, addend: int)
    | CodePtr(from: DataScoop, offset: nat, insn: nat)
    | SwitchEntry(from: DataScoop, offset: nat, insn: nat, addend: int)
  {
    function Width(w: nat): nat { if SwitchEntry? then 4 else w }
  }

  /** Where instructions have gone, and those that keep their old address for the sake of control flow
      integrity. */
  datatype Code = Code(loc: map<nat, nat>, pinned: set<nat>)

  predicate Resolves(r: ScoopReloc, t: Table<DataScoop>, code: Code) {
    if r.DataPtr? then r.to in t else r.insn in code.loc
  }

  /** What a relocated word should become, before it is cut off at its width.  The addend of a data
      pointer is not looked at. */
  function NewWord(r: ScoopReloc, word: nat, t: Table<DataScoop>, code: Code): int
    requires Resolves(r, t, code)
  {
    match r
    case DataPtr(_, _, to, _) => word + t[to].start
    case CodePtr(_, _, insn) => if insn in code.pinned then word else code.loc[insn]
    case SwitchEntry(_, _, insn, addend) =>
      if insn in code.pinned then word else word + addend % TWO_32 + code.loc[insn]
  }

  /** The relocations of `s` are about its bytes and about things that are known. */
  ghost predicate FitsIn(size: nat, relocs: seq<ScoopReloc>, s: DataScoop, t: Table<DataScoop>, code: Code, w: nat) {
    forall r | r in relocs && r.from == s :: Resolves(r, t, code) && r.offset + r.Width(w) <= size
  }

  function ApplyOne(c: seq<Byte>, r: ScoopReloc, t: Table<DataScoop>, code: Code, w: nat): (d: seq<Byte>)
    requires Resolves(r, t, code) && r.offset + r.Width(w) <= |c|
    ensures |d| == |c|
  {
    if !r.DataPtr? && r.insn in code.pinned then c
    else Patch(c, r.offset, r.Width(w), NewWord(r, WordAt(c, r.offset, r.Width(w)), t, code))
  }

  /** The bytes of `s` once its relocations have been applied, one after another. */
  function Applied(c: seq<Byte>, relocs: seq<ScoopReloc>, s: DataScoop, t: Table<DataScoop>, code: Code,
                   w: nat): (d: seq<Byte>)
    requires FitsIn(|c|, relocs, s, t, code, w)
    ensures |d| == |c|
  {
    if relocs == [] then c
    else
      var r, before := relocs[|relocs| - 1], Applied(c, relocs[..|relocs| - 1], s, t, code, w);
      if r.from == s then ApplyOne(before, r, t, code, w) else before
  }

  lemma AppliedOneMore(c: seq<Byte>, relocs: seq<ScoopReloc>, r: ScoopReloc, s: DataScoop, t: Table<DataScoop>,
                       code: Code, w: nat)
    requires FitsIn(|c|, relocs + [r], s, t, code, w)
    ensures FitsIn(|c|, relocs, s, t, code, w)
    ensures var before := Applied(c, relocs, s, t, code, w);
      Applied(c, relocs + [r], s, t, code, w) == if r.from == s then ApplyOne(before, r, t, code, w) else before
  {
    assert (relocs + [r])[..|relocs|] == relocs;
    assert r in relocs + [r];
  }

  ghost predicate Known(t: Table<DataScoop>, relocs: seq<ScoopReloc>, code: Code, w: nat) {
    forall s | s in t && !t[s].Executable() :: FitsIn(|t[s].contents|, relocs, s, t, code, w)
  }

  /** What the unpinner makes of all scoops: those that hold code are left alone. */
  ghost function Unpinned(t: Table<DataScoop>, relocs: seq<ScoopReloc>, code: Code, w: nat): Table<DataScoop>
    requires Known(t, relocs, code, w)
  {
    map s | s in t ::
      if t[s].Executable() then t[s] else t[s].(contents := Applied(t[s].contents, relocs, s, t, code, w))
  }

  lemma NothingApplied(c: seq<Byte>, s: DataScoop, t: Table<DataScoop>, code: Code, w: nat)
    ensures FitsIn(|c|, [], s, t, code, w) && Applied(c, [], s, t, code, w) == c
  {
  }

  class Unpin {
    var scoops: set<DataScoop>
    var relocs: seq<ScoopReloc>  // in whatever order they are kept
    const code: Code

    constructor (scoops: set<DataScoop>, relocs: seq<ScoopReloc>, code: Code)
      ensures this.scoops == scoops && this.relocs == relocs && this.code == code
    {
      this.scoops, this.relocs, this.code := scoops, relocs, code;
    }

    /** One relocation, in a local copy of the contents of its scoop. */
    method PatchReloc(r: ScoopReloc, contents: seq<Byte>, w: nat, ghost t: Table<DataScoop>)
        returns (patched: seq<Byte>)
      requires Resolves(r, t, code) && r.offset + r.Width(w) <= |contents|
      requires r.DataPtr? ==> r.to.start == t[r.to].start != 0
      ensures patched == ApplyOne(contents, r, t, code, w)
    {
      hide Patch, WordAt;
      patched := contents;
      if r.SwitchEntry? {
        var newLoc := code.loc[r.insn];
        if r.insn in code.pinned { return; }
        var oldVal := WordAt(contents, r.offset, 4);
        patched := Patch(contents, r.offset, 4, oldVal + r.addend % TWO_32 + newLoc);
      } else if r.CodePtr? {
        var newLoc := code.loc[r.insn];
        if r.insn !in code.pinned { patched := Patch(contents, r.offset, w, newLoc); }
      } else {
        assert r.to.start != 0;
        patched := Patch(contents, r.offset, w, WordAt(contents, r.offset, w) + r.to.start);
      }
    }

    /** The contents of one scoop after its relocations have been applied to a local copy. */
    method PatchScoop(scoop: DataScoop, w: nat, ghost t: Table<DataScoop>) returns (contents: seq<Byte>)
      requires FitsIn(|scoop.contents|, relocs, scoop, t, code, w)
      requires forall r | r in relocs && r.from == scoop && r.DataPtr? :: r.to in t && r.to.start == t[r.to].start != 0
      ensures contents == Applied(scoop.contents, relocs, scoop, t, code, w)
    {
      hide Applied, ApplyOne;
      contents := scoop.contents;
      NothingApplied(contents, scoop, t, code, w);
      var i := 0;
      while i < |relocs|
        invariant 0 <= i <= |relocs| && FitsIn(|scoop.contents|, relocs[..i], scoop, t, code, w)
        invariant contents == Applied(scoop.contents, relocs[..i], scoop, t, code, w)
      {
        var r := relocs[i];
        assert relocs[..i + 1] == relocs[..i] + [r];
        AppliedOneMore(scoop.contents, relocs[..i], r, scoop, t, code, w);
        if r.from == scoop {
          contents := PatchReloc(r, contents, w, t);
        }
        i := i + 1;
      }
      assert relocs[..i] == relocs;
    }

    /** Only the contents of scoops that have been dealt with differ from `t`. */
    ghost predicate Done(t: Table<DataScoop>, rest: set<DataScoop>, w: nat)
      requires Known(t, relocs, code, w)
      reads this, scoops
    {
      && t.Keys == scoops
      && forall s | s in scoops :: s.Value() == if s in rest then t[s] else Unpinned(t, relocs, code, w)[s]
    }

    method PatchInPlace(scoop: DataScoop, w: nat, ghost t: Table<DataScoop>, ghost rest: set<DataScoop>)
      requires Known(t, relocs, code, w) && scoop in scoops && scoop in rest && Done(t, rest, w)
      requires forall r | r in relocs && r.DataPtr? && r.from in scoops && !r.from.Value().Executable() ::
               r.to.start != 0
      modifies scoop`contents
      ensures Done(t, rest - {scoop}, w)
    {
      hide Applied;
      SameStarts(t, rest, w);
      if !scoop.Value().Executable() {
        var scoop_contents := PatchScoop(scoop, w, t);
        scoop.contents := scoop_contents;
      }
    }

    lemma SameStarts(t: Table<DataScoop>, rest: set<DataScoop>, w: nat)
      requires Known(t, relocs, code, w) && Done(t, rest, w)
      ensures forall s | s in scoops :: s in t && s.start == t[s].start && s.Value().Executable() == t[s].Executable()
    {
    }

    /** Applies the relocations of every scoop that holds no code. */
    method DoUpdateForScoops(w: nat)
      requires Known(TableOf(scoops), relocs, code, w)
      requires forall s | s in scoops && !s.Value().Executable() :: TableOf(scoops)[s].Sized()
      requires forall r | r in relocs && r.DataPtr? && r.from in scoops && !r.from.Value().Executable() ::
               r.to.start != 0
      modifies scoops
      ensures TableOf(scoops) == Unpinned(old(TableOf(scoops)), relocs, code, w)
    {
      hide Applied, Known;
      ghost var t := TableOf(scoops);
      var rest := scoops;
      while rest != {}
        invariant rest <= scoops && Done(t, rest, w)
        decreases rest
      {
        var scoop :| scoop in rest;
        SameStarts(t, rest, w);
        if !scoop.Value().Executable() {
          assert |scoop.contents| == scoop.end - scoop.start + 1 by { assert t[scoop].Sized(); }
        }
        PatchInPlace(scoop, w, t, rest);
        rest := rest - {scoop};
      }
    }
  }
}
