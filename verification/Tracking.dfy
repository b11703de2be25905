/** Where the bytes of each original scoop are after any number of merges, and what that does to
    the references that were found before the merging began. */
module Tracking {
  import opened LittleEndian
  import opened Coalescing

  // ----- sizes of fixup sets

  ghost function Image<A, B>(s: set<A>, f: A -> B): set<B> { set x | x in s :: f(x) }

  lemma {:induction false} ImageSize<A, B>(s: set<A>, f: A -> B)
    ensures |Image(s, f)| <= |s|
    ensures (forall x, y | x in s && y in s && f(x) == f(y) :: x == y) ==> |Image(s, f)| == |s|
    decreases |s|
  {
    if s != {} {
      var x :| x in s;
      var r := s - {x};
      ImageSize(r, f);
      assert Image(s, f) == Image(r, f) + {f(x)};
    }
  }

  lemma ImageShrinks<A, B>(s: set<A>, f: A -> B, x: A, y: A)
    requires x in s && y in s && x != y && f(x) == f(y)
    ensures |Image(s, f)| < |s|
  {
    var r := s - {x};
    ImageSize(r, f);
    assert Image(s, f) == Image(r, f);
  }

  /** The loop asserts that its three instruction fixup sets keep their size.  They do exactly
      when no instruction has a fixup to both scoops. */
  lemma InsnFixupsKeepSize<Id>(refs: set<InsnFixup<Id>>, s1: Id, s2: Id)
    requires s1 != s2
    ensures |MergeInsn(refs, s1, s2)| == |refs| <==>
              forall f, g | f in refs && g in refs && f.insn == g.insn :: !(f.to == s1 && g.to == s2)
  {
    var h := (x: InsnFixup<Id>) => InsnFixup(x.insn, Instead(x.to, s1, s2));
    ImageSize(refs, h);
    assert MergeInsn(refs, s1, s2) == Image(refs, h);
    if f, g :| f in refs && g in refs && f.insn == g.insn && f.to == s1 && g.to == s2 {
      ImageShrinks(refs, h, f, g);
    } else {
      forall x, y | x in refs && y in refs && h(x) == h(y) ensures x == y {
        assert x == InsnFixup(x.insn, x.to) && y == InsnFixup(x.insn, y.to);
      }
    }
  }

  /** An instruction is recorded at most once in each of the three sets. */
  ghost predicate OncePerInsn<Id>(refs: set<InsnFixup<Id>>) {
    forall f, g | f in refs && g in refs && f.insn == g.insn :: f == g
  }

  lemma MergeKeepsOncePerInsn<Id>(refs: set<InsnFixup<Id>>, s1: Id, s2: Id)
    requires OncePerInsn(refs) && s1 != s2
    ensures OncePerInsn(MergeInsn(refs, s1, s2)) && |MergeInsn(refs, s1, s2)| == |refs|
  {
    InsnFixupsKeepSize(refs, s1, s2);
  }

  // ----- bytes and their addresses

  predicate In(c: Scoop, v: int) { c.start <= v <= c.end }

  function ByteAt(c: Scoop, v: int): Byte
    requires c.Sized() && In(c, v)
  {
    c.contents[v - c.start]
  }

  /** Joining two scoops that touch leaves every byte at its address. */
  lemma JoinedBytes(a: Scoop, b: Scoop, v: int)
    requires a.Sized() && b.Sized() && Touch(a, b) && In(Joined(a, b), v)
    ensures Joined(a, b).Sized() && (In(a, v) <==> v <= a.end) && (In(b, v) <==> v > a.end)
    ensures ByteAt(Joined(a, b), v) == if In(a, v) then ByteAt(a, v) else ByteAt(b, v)
  {
  }

  ghost predicate Sized<Id>(st: State<Id>) {
    st.moveable <= st.scoops.Keys && forall a | a in st.moveable :: st.scoops[a].Sized()
  }

  /** Merging two scoops that touch keeps every size right; merging two that do not, never does. */
  lemma MergeSizedIff<Id>(st: State<Id>, s1: Id, s2: Id)
    requires Ordered(st) && Sized(st) && (s1, s2) in st.tied && s1 in st.moveable && s2 in st.moveable
    requires st.scoops[s1].start <= Padded(st.scoops[s1], st.scoops[s2]).end + 1
    ensures Sized(Merge(st, s1, s2)) <==> Touch(st.scoops[s1], st.scoops[s2])
  {
    TiedAreInOrder(st, s1, s2);
    var t := Merge(st, s1, s2);
    assert s1 in t.moveable;
    assert t.scoops[s1].Sized() <==> Touch(st.scoops[s1], st.scoops[s2]);
  }

  // ----- the map from original scoops to merged ones

  function Where<Id(==)>(home: map<Id, Id>, s: Id): Id { if s in home then home[s] else s }

  function Rehome<Id(==)>(home: map<Id, Id>, s1: Id, s2: Id): map<Id, Id> {
    map s | s in home :: Instead(home[s], s1, s2)
  }

  predicate Within(c: Scoop, d: Scoop) { d.start <= c.start <= c.end <= d.end }

  /** Each scoop that may move lies, at its own addresses, inside the merged scoop that now stands
      for it; the others are untouched. */
  ghost predicate Homes<Id>(st0: State<Id>, st: State<Id>, home: map<Id, Id>) {
    && home.Keys == st0.moveable && Sized(st0) && Sized(st)
    && (forall s | s in home :: home[s] in st.moveable && Within(st0.scoops[s], st.scoops[home[s]]))
    && (forall m | m in st.moveable :: m in home && home[m] == m)
    && (forall s | s in st0.scoops && s !in home :: s in st.scoops && st.scoops[s] == st0.scoops[s])
  }

  /** Every byte of an original scoop is still at its address. */
  ghost predicate Kept<Id>(st0: State<Id>, st: State<Id>, home: map<Id, Id>)
    requires Homes(st0, st, home)
  {
    forall s, v | s in home && In(st0.scoops[s], v) ::
      In(st.scoops[home[s]], v) && ByteAt(st.scoops[home[s]], v) == ByteAt(st0.scoops[s], v)
  }

  ghost predicate From<Id>(st0: State<Id>, home: map<Id, Id>, m: Id, v: int) {
    exists s | s in home :: s in st0.scoops && home[s] == m && In(st0.scoops[s], v)
  }

  /** A merged scoop holds no byte that no original scoop had. */
  ghost predicate NoneMadeUp<Id>(st0: State<Id>, st: State<Id>, home: map<Id, Id>)
    requires Homes(st0, st, home)
  {
    forall m, v | m in st.moveable && In(st.scoops[m], v) :: From(st0, home, m, v)
  }

  // ----- permissions

  /** A merged scoop is read-only after relocation exactly if all scoops merged into it were, and has
      a permission exactly if one of them had it. */
  ghost predicate FlagsFollow<Id>(st0: State<Id>, st: State<Id>, home: map<Id, Id>) {
    && st.moveable <= st.scoops.Keys
    && (forall m | m in st.moveable :: st.scoops[m].relRo <==>
          forall s | s in home && s in st0.scoops && home[s] == m :: st0.scoops[s].relRo)
    && (forall m, x: bv8 | m in st.moveable :: Allows(st.scoops[m], x) <==>
          exists s | s in home && s in st0.scoops :: home[s] == m && Allows(st0.scoops[s], x))
  }

  /** At least one of the permissions in `x` is given. */
  predicate Allows(c: Scoop, x: bv8) { c.perms & x != 0 }

  ghost predicate Some<Id>(st0: State<Id>, home: map<Id, Id>, m: Id, q: Scoop -> bool) {
    exists s | s in home :: s in st0.scoops && home[s] == m && q(st0.scoops[s])
  }

  /** A merged scoop has the property exactly if one of the scoops merged into it had it. */
  ghost predicate Gathers<Id>(st0: State<Id>, st: State<Id>, home: map<Id, Id>, q: Scoop -> bool) {
    st.moveable <= st.scoops.Keys && forall m | m in st.moveable :: q(st.scoops[m]) <==> Some(st0, home, m, q)
  }

  lemma FlagsGather<Id>(st0: State<Id>, st: State<Id>, home: map<Id, Id>)
    ensures FlagsFollow(st0, st, home) <==>
              Gathers(st0, st, home, Writable) && forall x :: Gathers(st0, st, home, Allowing(x))
  {
    hide Allows;
    if FlagsFollow(st0, st, home) {
      assert Gathers(st0, st, home, Writable);
      forall x ensures Gathers(st0, st, home, Allowing(x)) {
        var q := Allowing(x);
        forall m | m in st.moveable ensures q(st.scoops[m]) <==> Some(st0, home, m, q) {
          assert Allows(st.scoops[m], x) <==> q(st.scoops[m]);
        }
      }
    }
    if Gathers(st0, st, home, Writable) && forall x :: Gathers(st0, st, home, Allowing(x)) {
      forall m, x: bv8 | m in st.moveable
        ensures Allows(st.scoops[m], x) <==>
                exists s | s in home && s in st0.scoops :: home[s] == m && Allows(st0.scoops[s], x)
      {
        assert Gathers(st0, st, home, Allowing(x));
      }
      assert FlagsFollow(st0, st, home);
    }
  }

  predicate Writable(c: Scoop) { !c.relRo }

  function Allowing(x: bv8): Scoop -> bool { c => Allows(c, x) }

  lemma MergeFlagsFollow<Id>(st0: State<Id>, st: State<Id>, home: map<Id, Id>, s1: Id, s2: Id)
    requires FlagsFollow(st0, st, home) && s1 in st.moveable && s2 in st.moveable && s1 != s2
    requires st.scoops[s1].start <= Padded(st.scoops[s1], st.scoops[s2]).end + 1
    ensures FlagsFollow(st0, Merge(st, s1, s2), Rehome(home, s1, s2))
  {
    hide Gathers, Rehome, Merge, Allows;
    FlagsGather(st0, st, home);
    MergeGathers(st0, st, home, s1, s2, Writable);
    forall x: bv8 ensures Gathers(st0, Merge(st, s1, s2), Rehome(home, s1, s2), Allowing(x)) {
      JoinedAllows(st.scoops[s1], st.scoops[s2], x);
      MergeGathers(st0, st, home, s1, s2, Allowing(x));
    }
    FlagsGather(st0, Merge(st, s1, s2), Rehome(home, s1, s2));
  }

  lemma JoinedAllows(a: Scoop, b: Scoop, x: bv8)
    ensures Allows(Joined(a, b), x) <==> Allows(a, x) || Allows(b, x)
  {
    BitsOfEither(a.perms, b.perms, x);
  }

  lemma BitsOfEither(p: bv8, q: bv8, x: bv8)
    ensures (p | q) & x != 0 <==> p & x != 0 || q & x != 0
  {
  }

  lemma MergeGathers<Id>(st0: State<Id>, st: State<Id>, home: map<Id, Id>, s1: Id, s2: Id, q: Scoop -> bool)
    requires Gathers(st0, st, home, q) && s1 in st.moveable && s2 in st.moveable && s1 != s2
    requires q(Joined(st.scoops[s1], st.scoops[s2])) <==> q(st.scoops[s1]) || q(st.scoops[s2])
    requires st.scoops[s1].start <= Padded(st.scoops[s1], st.scoops[s2]).end + 1
    ensures Gathers(st0, Merge(st, s1, s2), Rehome(home, s1, s2), q)
  {
    var t, h := Merge(st, s1, s2), Rehome(home, s1, s2);
    forall m | m in t.moveable ensures q(t.scoops[m]) <==> Some(st0, h, m, q) {
      if m == s1 {
        RehomedSome(st0, home, s1, s2, q);
      } else {
        OtherSome(st0, home, s1, s2, m, q);
      }
    }
  }

  lemma RehomedSome<Id>(st0: State<Id>, home: map<Id, Id>, s1: Id, s2: Id, q: Scoop -> bool)
    ensures Some(st0, Rehome(home, s1, s2), s1, q) <==> Some(st0, home, s1, q) || Some(st0, home, s2, q)
  {
    var h := Rehome(home, s1, s2);
    if s :| s in home && s in st0.scoops && (home[s] == s1 || home[s] == s2) && q(st0.scoops[s]) {
      assert s in h && h[s] == s1;
    }
    if s :| s in h && s in st0.scoops && h[s] == s1 && q(st0.scoops[s]) {
      assert s in home && (home[s] == s1 || home[s] == s2);
    }
  }

  lemma OtherSome<Id>(st0: State<Id>, home: map<Id, Id>, s1: Id, s2: Id, m: Id, q: Scoop -> bool)
    requires m != s1 && m != s2
    ensures Some(st0, Rehome(home, s1, s2), m, q) <==> Some(st0, home, m, q)
  {
    var h := Rehome(home, s1, s2);
    if s :| s in home && s in st0.scoops && home[s] == m && q(st0.scoops[s]) {
      assert s in h && h[s] == m;
    }
    if s :| s in h && s in st0.scoops && h[s] == m && q(st0.scoops[s]) {
      assert s in home && home[s] == m;
    }
  }

  /** What a merge does to the scoops, when the two scoops touch. */
  ghost predicate Merged<Id>(st: State<Id>, t: State<Id>, s1: Id, s2: Id) {
    && s1 in st.moveable && s2 in st.moveable && s1 != s2 && Sized(st) && Sized(t)
    && Touch(st.scoops[s1], st.scoops[s2])
    && st.scoops[s1].start <= st.scoops[s1].end && st.scoops[s2].start <= st.scoops[s2].end
    && t.moveable == st.moveable - {s2}
    && t.scoops[s1] == Joined(st.scoops[s1], st.scoops[s2])
    && forall s | s in st.scoops && s != s1 && s != s2 :: s in t.scoops && t.scoops[s] == st.scoops[s]
  }

  lemma MergeMerges<Id>(st: State<Id>, s1: Id, s2: Id)
    requires Ordered(st) && Sized(st) && (s1, s2) in st.tied && s1 in st.moveable && s2 in st.moveable
    requires Touch(st.scoops[s1], st.scoops[s2])
    ensures st.scoops[s1].start <= Padded(st.scoops[s1], st.scoops[s2]).end + 1
    ensures Merged(st, Merge(st, s1, s2), s1, s2)
  {
    TiedAreInOrder(st, s1, s2);
    MergeSizedIff(st, s1, s2);
  }

  lemma MergeHomes<Id>(st0: State<Id>, st: State<Id>, t: State<Id>, home: map<Id, Id>, s1: Id, s2: Id)
    requires Merged(st, t, s1, s2) && Homes(st0, st, home)
    ensures Homes(st0, t, Rehome(home, s1, s2))
  {
    assert t.moveable <= t.scoops.Keys;
  }

  lemma MergeKept<Id>(st0: State<Id>, st: State<Id>, t: State<Id>, home: map<Id, Id>, s1: Id, s2: Id)
    requires Merged(st, t, s1, s2) && Homes(st0, st, home) && Homes(st0, t, Rehome(home, s1, s2))
    requires Kept(st0, st, home)
    ensures Kept(st0, t, Rehome(home, s1, s2))
  {
    var h := Rehome(home, s1, s2);
    forall s, v | s in h && In(st0.scoops[s], v)
      ensures In(t.scoops[h[s]], v) && ByteAt(t.scoops[h[s]], v) == ByteAt(st0.scoops[s], v)
    {
      assert In(st.scoops[home[s]], v);
      if home[s] == s1 || home[s] == s2 {
        JoinedBytes(st.scoops[s1], st.scoops[s2], v);
      }
    }
  }

  lemma MergeMakesNothingUp<Id>(st0: State<Id>, st: State<Id>, t: State<Id>, home: map<Id, Id>, s1: Id, s2: Id)
    requires Merged(st, t, s1, s2) && Homes(st0, st, home) && Homes(st0, t, Rehome(home, s1, s2))
    requires NoneMadeUp(st0, st, home)
    ensures NoneMadeUp(st0, t, Rehome(home, s1, s2))
  {
    var h := Rehome(home, s1, s2);
    forall m, v | m in t.moveable && In(t.scoops[m], v) ensures From(st0, h, m, v) {
      var m0 := if m == s1 && !In(st.scoops[s1], v) then s2 else m;
      assert In(st.scoops[m0], v);
      var s :| s in home && s in st0.scoops && home[s] == m0 && In(st0.scoops[s], v);
      assert h[s] == m;
    }
  }
}
