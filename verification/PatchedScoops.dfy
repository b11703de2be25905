/** What relocations come to once they have all been applied: each its own word if they keep clear of
    one another, and their sum if several switch entries share a slot. */
module PatchedScoops {
  import opened LittleEndian
  import opened Modular
  import opened Relocating
  import opened MoveGlobals
  import opened UnpinScoops

  predicate Overlap(r: ScoopReloc, q: ScoopReloc, w: nat) {
    r.offset < q.offset + q.Width(w) && q.offset < r.offset + r.Width(w)
  }

  /** No two relocations of `s` overlap; in particular no slot has two. */
  ghost predicate Separate(relocs: seq<ScoopReloc>, s: DataScoop, w: nat) {
    forall i, j | 0 <= i < j < |relocs| && relocs[i].from == s == relocs[j].from :: !Overlap(relocs[i], relocs[j], w)
  }

  ghost predicate HitBy(relocs: seq<ScoopReloc>, s: DataScoop, w: nat, k: int) {
    exists r | r in relocs :: r.from == s && r.offset <= k < r.offset + r.Width(w)
  }

  lemma ApplyOneWord(c: seq<Byte>, r: ScoopReloc, t: Table<DataScoop>, code: Code, w: nat)
    requires Resolves(r, t, code) && r.offset + r.Width(w) <= |c|
    ensures var n, d := r.Width(w), ApplyOne(c, r, t, code, w);
      && WordAt(d, r.offset, n) == NewWord(r, WordAt(c, r.offset, n), t, code) % Pow256(n)
      && forall k | 0 <= k < |c| && !(r.offset <= k < r.offset + n) :: d[k] == c[k]
  {
    hide Patch, WordAt, Pow256;
    var n := r.Width(w);
    WordInRange(c, r.offset, n);
    PatchedWord(c, r.offset, n, NewWord(r, WordAt(c, r.offset, n), t, code));
    PatchedElsewhere(c, r.offset, n, NewWord(r, WordAt(c, r.offset, n), t, code));
  }

  lemma WordInRange(c: seq<Byte>, at: nat, n: nat)
    requires at + n <= |c|
    ensures WordAt(c, at, n) % Pow256(n) == WordAt(c, at, n)
  {
    hide Decode, Pow256;
    DecodeBound(c[at..at + n]);
    ModSmall(WordAt(c, at, n), Pow256(n));
  }

  /** Bytes that no relocation is about stay as they are. */
  lemma {:induction false} AppliedElsewhere(c: seq<Byte>, relocs: seq<ScoopReloc>, s: DataScoop, t: Table<DataScoop>,
                                            code: Code, w: nat, k: nat)
    requires FitsIn(|c|, relocs, s, t, code, w) && k < |c| && !HitBy(relocs, s, w, k)
    ensures Applied(c, relocs, s, t, code, w)[k] == c[k]
  {
    if relocs != [] {
      var n := |relocs| - 1;
      var r := relocs[n];
      assert r in relocs;
      assert forall q | q in relocs[..n] :: q in relocs;
      hide HitBy, ApplyOne;
      NotHitBefore(relocs, s, w, k);
      AppliedElsewhere(c, relocs[..n], s, t, code, w, k);
      if r.from == s { ApplyOneWord(Applied(c, relocs[..n], s, t, code, w), r, t, code, w); }
    }
  }

  lemma NotHitBefore(relocs: seq<ScoopReloc>, s: DataScoop, w: nat, k: int)
    requires relocs != [] && !HitBy(relocs, s, w, k)
    ensures !HitBy(relocs[..|relocs| - 1], s, w, k)
    ensures var r := relocs[|relocs| - 1]; !(r.from == s && r.offset <= k < r.offset + r.Width(w))
  {
    assert relocs[|relocs| - 1] in relocs;
    assert forall q | q in relocs[..|relocs| - 1] :: q in relocs;
  }

  /** A word that no relocation is about. */
  lemma WordElsewhere(c: seq<Byte>, relocs: seq<ScoopReloc>, s: DataScoop, t: Table<DataScoop>, code: Code, w: nat,
                      at: nat, n: nat)
    requires FitsIn(|c|, relocs, s, t, code, w) && at + n <= |c|
    requires forall r | r in relocs && r.from == s :: at + n <= r.offset || r.offset + r.Width(w) <= at
    ensures WordAt(Applied(c, relocs, s, t, code, w), at, n) == WordAt(c, at, n)
  {
    hide WordAt, Applied;
    var d := Applied(c, relocs, s, t, code, w);
    forall k | at <= k < at + n ensures d[k] == c[k] {
      AppliedElsewhere(c, relocs, s, t, code, w, k);
    }
    SameBytesSameWord(d, c, at, n);
  }

  lemma {:induction false} AppliedNewWord(c: seq<Byte>, relocs: seq<ScoopReloc>, s: DataScoop, t: Table<DataScoop>,
                                       code: Code, w: nat, i: nat)
    requires FitsIn(|c|, relocs, s, t, code, w) && Separate(relocs, s, w) && i < |relocs| && relocs[i].from == s
    ensures Resolves(relocs[i], t, code) && relocs[i].offset + relocs[i].Width(w) <= |c|
    ensures var r := relocs[i]; var n := r.Width(w);
      WordAt(Applied(c, relocs, s, t, code, w), r.offset, n) == NewWord(r, WordAt(c, r.offset, n), t, code) % Pow256(n)
  {
    hide WordAt, Pow256, ApplyOne, NewWord;
    var m := |relocs| - 1;
    var r, last, n := relocs[i], relocs[m], relocs[i].Width(w);
    assert r in relocs && last in relocs && forall q | q in relocs[..m] :: q in relocs;
    var before := Applied(c, relocs[..m], s, t, code, w);
    if i == m {
      WordElsewhere(c, relocs[..m], s, t, code, w, r.offset, n);
      ApplyOneWord(before, r, t, code, w);
    } else {
      AppliedNewWord(c, relocs[..m], s, t, code, w, i);
      if last.from == s {
        ApplyOneWord(before, last, t, code, w);
        SameBytesSameWord(ApplyOne(before, last, t, code, w), before, r.offset, n);
      }
    }
  }

  lemma NewWordIs(r: ScoopReloc, word: nat, t: Table<DataScoop>, code: Code, w: nat)
    requires Resolves(r, t, code) && word % Pow256(r.Width(w)) == word
    ensures var d := NewWord(r, word, t, code) % Pow256(r.Width(w));
      && (r.DataPtr? ==> d == (word + t[r.to].start) % Pow256(w))
      && (r.CodePtr? && r.insn !in code.pinned ==> d == code.loc[r.insn] % Pow256(w))
      && (r.SwitchEntry? && r.insn !in code.pinned ==> d == (word + r.addend + code.loc[r.insn]) % TWO_32)
      && (!r.DataPtr? && r.insn in code.pinned ==> d == word)
  {
    hide Pow256;
    Pow4();
    if r.SwitchEntry? { ModTwice(r.addend, word + code.loc[r.insn], TWO_32); }
  }

  /** Relocations that keep clear of one another each give their word what it should have: a pointer to
      a scoop gains the start of its target, a pointer to code becomes the new location, and an entry
      of a switch table gains its addend and the new location; but what leads to a pinned instruction
      stays.  Each is cut off at its width. */
  lemma AppliedWord(c: seq<Byte>, relocs: seq<ScoopReloc>, s: DataScoop, t: Table<DataScoop>, code: Code, w: nat,
                    i: nat)
    requires FitsIn(|c|, relocs, s, t, code, w) && Separate(relocs, s, w) && i < |relocs| && relocs[i].from == s
    ensures Resolves(relocs[i], t, code) && relocs[i].offset + relocs[i].Width(w) <= |c|
    ensures var d, r := Applied(c, relocs, s, t, code, w), relocs[i];
      && (r.DataPtr? ==> WordAt(d, r.offset, w) == (WordAt(c, r.offset, w) + t[r.to].start) % Pow256(w))
      && (r.CodePtr? && r.insn !in code.pinned ==> WordAt(d, r.offset, w) == code.loc[r.insn] % Pow256(w))
      && (r.SwitchEntry? && r.insn !in code.pinned ==>
            WordAt(d, r.offset, 4) == (WordAt(c, r.offset, 4) + r.addend + code.loc[r.insn]) % TWO_32)
      && (!r.DataPtr? && r.insn in code.pinned ==>
            WordAt(d, r.offset, r.Width(w)) == WordAt(c, r.offset, r.Width(w)))
  {
    hide WordAt, Pow256, Applied, Separate, NewWord;
    assert relocs[i] in relocs;
    AppliedNewWord(c, relocs, s, t, code, w, i);
    WordInRange(c, relocs[i].offset, relocs[i].Width(w));
    NewWordIs(relocs[i], WordAt(c, relocs[i].offset, relocs[i].Width(w)), t, code, w);
  }

  /** The same of the scoops themselves: one that holds code keeps its bytes, and in any other one the
      words of separate relocations are these. */
  lemma UnpinnedWord(t: Table<DataScoop>, relocs: seq<ScoopReloc>, code: Code, w: nat, s: DataScoop, i: nat)
    requires Known(t, relocs, code, w) && s in t && i < |relocs| && relocs[i].from == s
    requires t[s].Executable() || Separate(relocs, s, w)
    ensures Unpinned(t, relocs, code, w)[s].(contents := []) == t[s].(contents := [])
    ensures t[s].Executable() ==> Unpinned(t, relocs, code, w)[s] == t[s]
    ensures !t[s].Executable() ==>
      var r, c, d := relocs[i], t[s].contents, Unpinned(t, relocs, code, w)[s].contents;
      && |d| == |c| && Resolves(r, t, code) && r.offset + r.Width(w) <= |c|
      && (r.DataPtr? ==> WordAt(d, r.offset, w) == (WordAt(c, r.offset, w) + t[r.to].start) % Pow256(w))
      && (r.CodePtr? && r.insn !in code.pinned ==> WordAt(d, r.offset, w) == code.loc[r.insn] % Pow256(w))
      && (r.SwitchEntry? && r.insn !in code.pinned ==>
            WordAt(d, r.offset, 4) == (WordAt(c, r.offset, 4) + r.addend + code.loc[r.insn]) % TWO_32)
      && (!r.DataPtr? && r.insn in code.pinned ==>
            WordAt(d, r.offset, r.Width(w)) == WordAt(c, r.offset, r.Width(w)))
  {
    hide WordAt, Pow256, Applied, Separate;
    if !t[s].Executable() { AppliedWord(t[s].contents, relocs, s, t, code, w, i); }
  }

  /** All relocations of the scoop of `e` that touch its slot are `e` again. */
  ghost predicate Alone(relocs: seq<ScoopReloc>, e: ScoopReloc, w: nat) {
    forall r | r in relocs && r.from == e.from :: r == e || (!Overlap(r, e, w) && r.offset != e.offset)
  }

  /** However often a pointer to code is relocated, it becomes the new location. */
  lemma {:induction false} SharedPointer(c: seq<Byte>, relocs: seq<ScoopReloc>, e: ScoopReloc, t: Table<DataScoop>,
                                         code: Code, w: nat)
    requires Alone(relocs, e, w) && FitsIn(|c|, relocs, e.from, t, code, w)
    requires e.CodePtr? && e.insn in code.loc && e.offset + w <= |c|
    ensures WordAt(Applied(c, relocs, e.from, t, code, w), e.offset, w)
         == if e in relocs && e.insn !in code.pinned then code.loc[e.insn] % Pow256(w) else WordAt(c, e.offset, w)
  {
    if relocs != [] {
      hide WordAt, ApplyOne, Overlap, Pow256;
      var m := |relocs| - 1;
      var r := relocs[m];
      assert r in relocs && forall q | q in relocs :: q == r || q in relocs[..m];
      assert forall q | q in relocs[..m] :: q in relocs;
      SharedPointer(c, relocs[..m], e, t, code, w);
      var before := Applied(c, relocs[..m], e.from, t, code, w);
      if r == e {
        PointerOnce(before, e, t, code, w);
      } else if r.from == e.from {
        SharedAside(before, r, e, t, code, w);
      }
    }
  }

  lemma PointerOnce(c: seq<Byte>, e: ScoopReloc, t: Table<DataScoop>, code: Code, w: nat)
    requires e.CodePtr? && e.insn in code.loc && e.offset + w <= |c|
    ensures WordAt(ApplyOne(c, e, t, code, w), e.offset, w)
         == if e.insn in code.pinned then WordAt(c, e.offset, w) else code.loc[e.insn] % Pow256(w)
  {
    hide WordAt, ApplyOne, Pow256, NewWord;
    ApplyOneWord(c, e, t, code, w);
    WordInRange(c, e.offset, w);
    NewWordIs(e, WordAt(c, e.offset, w), t, code, w);
  }

  // ----- switch entries that share a slot

  /** How many relocations the slot has. */
  function Count(relocs: seq<ScoopReloc>, s: DataScoop, at: nat): nat {
    if relocs == [] then 0
    else
      var r := relocs[|relocs| - 1];
      Count(relocs[..|relocs| - 1], s, at) + if r.from == s && r.offset == at then 1 else 0
  }

  /** They add up. */
  lemma {:induction false} SharedWord(c: seq<Byte>, relocs: seq<ScoopReloc>, e: ScoopReloc, t: Table<DataScoop>,
                                      code: Code, w: nat)
    requires e.SwitchEntry? && Alone(relocs, e, w) && FitsIn(|c|, relocs, e.from, t, code, w) && e.offset + 4 <= |c|
    requires e.insn in code.loc && e.insn !in code.pinned
    ensures WordAt(Applied(c, relocs, e.from, t, code, w), e.offset, 4)
         == (WordAt(c, e.offset, 4) + Count(relocs, e.from, e.offset) * (e.addend + code.loc[e.insn])) % TWO_32
  {
    hide WordAt, ApplyOne, Overlap;
    if relocs == [] {
      Pow4();
      WordInRange(c, e.offset, 4);
    } else {
      var m := |relocs| - 1;
      var r := relocs[m];
      assert r in relocs && forall q | q in relocs[..m] :: q in relocs;
      SharedWord(c, relocs[..m], e, t, code, w);
      var before, n := Applied(c, relocs[..m], e.from, t, code, w), Count(relocs[..m], e.from, e.offset);
      if r == e {
        SharedOnce(before, e, t, code, w);
        OneMore(WordAt(c, e.offset, 4), WordAt(before, e.offset, 4), n, e.addend, code.loc[e.insn]);
      } else if r.from == e.from {
        SharedAside(before, r, e, t, code, w);
      }
    }
  }

  lemma SharedOnce(c: seq<Byte>, e: ScoopReloc, t: Table<DataScoop>, code: Code, w: nat)
    requires e.SwitchEntry? && e.insn in code.loc && e.insn !in code.pinned && e.offset + 4 <= |c|
    ensures WordAt(ApplyOne(c, e, t, code, w), e.offset, 4)
         == (WordAt(c, e.offset, 4) + e.addend % TWO_32 + code.loc[e.insn]) % TWO_32
  {
    hide WordAt, ApplyOne;
    Pow4();
    ApplyOneWord(c, e, t, code, w);
  }

  lemma SharedAside(c: seq<Byte>, r: ScoopReloc, e: ScoopReloc, t: Table<DataScoop>, code: Code, w: nat)
    requires Resolves(r, t, code) && r.offset + r.Width(w) <= |c| && e.offset + e.Width(w) <= |c|
    requires !Overlap(r, e, w)
    ensures WordAt(ApplyOne(c, r, t, code, w), e.offset, e.Width(w)) == WordAt(c, e.offset, e.Width(w))
  {
    hide WordAt, ApplyOne;
    ApplyOneWord(c, r, t, code, w);
    SameBytesSameWord(ApplyOne(c, r, t, code, w), c, e.offset, e.Width(w));
  }

  lemma OneMore(word: nat, before: nat, n: nat, addend: int, newLoc: int)
    requires before == (word + n * (addend + newLoc)) % TWO_32
    ensures (before + addend % TWO_32 + newLoc) % TWO_32 == (word + (n + 1) * (addend + newLoc)) % TWO_32
  {
    var d := addend + newLoc;
    ModTwice(addend, before + newLoc, TWO_32);
    ModTwice(word + n * d, d, TWO_32);
    assert (n + 1) * d == n * d + d;
  }
}
