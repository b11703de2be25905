/** Adding something to every recorded data pointer, and why doing it twice keeps every referent. */
module Relocating {
  import opened LittleEndian
  import opened Coalescing

  type Table<Id> = map<Id, Scoop>

  /** The `w`-byte words named by the fixups do not overlap. */
  ghost predicate Apart<Id>(refs: set<DataFixup<Id>>, w: nat) {
    forall f, g | f in refs && g in refs && f != g && f.from == g.from ::
      f.offset + w <= g.offset || g.offset + w <= f.offset
  }

  ghost predicate Fits<Id>(t: Table<Id>, refs: set<DataFixup<Id>>, w: nat) {
    forall f | f in refs :: f.from in t && f.to in t && f.offset + w <= |t[f.from].contents|
  }

  ghost predicate Hit<Id>(refs: set<DataFixup<Id>>, w: nat, s: Id, k: int) {
    exists f | f in refs :: f.from == s && f.offset <= k < f.offset + w
  }

  ghost predicate SameShape<Id>(t: Table<Id>, u: Table<Id>) {
    && t.Keys == u.Keys
    && forall s | s in t :: u[s] == t[s].(contents := u[s].contents) && |u[s].contents| == |t[s].contents|
  }

  /** `u` is `t` with `delta` of its target added to each pointer in `refs`, modulo the pointer
      width, and no other byte changed. */
  ghost predicate Added<Id>(t: Table<Id>, u: Table<Id>, refs: set<DataFixup<Id>>, w: nat, delta: map<Id, int>)
    requires Fits(t, refs, w) && t.Keys <= delta.Keys
  {
    && SameShape(t, u)
    && (forall f | f in refs ::
          WordAt(u[f.from].contents, f.offset, w)
              == (WordAt(t[f.from].contents, f.offset, w) + delta[f.to]) % Pow256(w))
    && (forall s, k | s in t && 0 <= k < |t[s].contents| && !Hit(refs, w, s, k) :: u[s].contents[k] == t[s].contents[k])
  }

  function PatchOne<Id(==)>(u: Table<Id>, f: DataFixup<Id>, w: nat, d: int): Table<Id>
    requires f.from in u && f.offset + w <= |u[f.from].contents|
  {
    var c := u[f.from].contents;
    u[f.from := u[f.from].(contents := Patch(c, f.offset, w, WordAt(c, f.offset, w) + d))]
  }

  /** One more pointer. */
  lemma AddOne<Id>(t: Table<Id>, u: Table<Id>, done: set<DataFixup<Id>>, f: DataFixup<Id>, w: nat, delta: map<Id, int>)
    requires Fits(t, done + {f}, w) && t.Keys <= delta.Keys && Apart(done + {f}, w) && f !in done
    requires Fits(t, done, w) && Added(t, u, done, w, delta)
    ensures f.from in u && f.to in delta && f.offset + w <= |u[f.from].contents|
    ensures Added(t, PatchOne(u, f, w, delta[f.to]), done + {f}, w, delta)
  {
    hide WordAt, Patch, Pow256;
    var v, all := PatchOne(u, f, w, delta[f.to]), done + {f};
    var c := u[f.from].contents;
    forall k | f.offset <= k < f.offset + w ensures c[k] == t[f.from].contents[k] {
      assert !Hit(done, w, f.from, k);
    }
    SameBytesSameWord(c, t[f.from].contents, f.offset, w);
    PatchedWord(c, f.offset, w, WordAt(c, f.offset, w) + delta[f.to]);
    PatchedElsewhere(c, f.offset, w, WordAt(c, f.offset, w) + delta[f.to]);
    forall g | g in all
      ensures WordAt(v[g.from].contents, g.offset, w)
              == (WordAt(t[g.from].contents, g.offset, w) + delta[g.to]) % Pow256(w)
    {
      if g != f && g.from == f.from {
        assert g in done && f in all && g in all;
        SameBytesSameWord(v[g.from].contents, c, g.offset, w);
      }
    }
    forall s, k | s in t && 0 <= k < |t[s].contents| && !Hit(all, w, s, k)
      ensures v[s].contents[k] == t[s].contents[k]
    {
      NotHit(done, f, w, s, k);
    }
  }

  lemma NotHit<Id>(done: set<DataFixup<Id>>, f: DataFixup<Id>, w: nat, s: Id, k: int)
    requires !Hit(done + {f}, w, s, k)
    ensures !Hit(done, w, s, k) && !(f.from == s && f.offset <= k < f.offset + w)
  {
    assert f in done + {f};
  }
}
