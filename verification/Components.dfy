/** Which scoops end up together, and when the merged scoops have the size they claim. */
module Components {
  import opened Coalescing
  import opened Tracking

  /** No chain of ties is needed to say that two scoops are tied together, directly or not: every
      set of scoops that no tie crosses has both or neither. */
  ghost predicate Linked<Id>(all: set<Id>, ties: set<(Id, Id)>, s: Id, t: Id) {
    forall u | u <= all && Closed(u, ties) :: s in u <==> t in u
  }

  lemma LinkedTrans<Id>(all: set<Id>, ties: set<(Id, Id)>, s: Id, t: Id, u: Id)
    requires Linked(all, ties, s, t) && Linked(all, ties, t, u)
    ensures Linked(all, ties, s, u) && Linked(all, ties, t, s)
  {
  }

  /** Each scoop is linked to the one that stands for it. */
  ghost predicate HomesLinked<Id>(st0: State<Id>, moveable: set<Id>, home: map<Id, Id>) {
    && home.Keys == st0.moveable && moveable <= st0.moveable
    && (forall s | s in home :: home[s] in moveable && Linked(st0.moveable, st0.tied, s, home[s]))
  }

  /** Each original tie has been used up, or is still there between what stands for its ends. */
  ghost predicate TiesSurvive<Id>(st0: State<Id>, tied: set<(Id, Id)>, home: map<Id, Id>) {
    forall p | p in st0.tied :: p.0 in home && p.1 in home && (home[p.0] == home[p.1] || (home[p.0], home[p.1]) in tied)
  }

  /** No tie joins scoops that were not linked. */
  ghost predicate TiesLinked<Id>(st0: State<Id>, tied: set<(Id, Id)>) {
    forall q | q in tied :: Linked(st0.moveable, st0.tied, q.0, q.1)
  }

  ghost predicate TiesFollow<Id>(st0: State<Id>, st: State<Id>, home: map<Id, Id>) {
    HomesLinked(st0, st.moveable, home) && TiesSurvive(st0, st.tied, home) && TiesLinked(st0, st.tied)
  }

  lemma TiesFollowAtFirst<Id>(st: State<Id>)
    requires Ordered(st)
    ensures TiesFollow(st, st, map s | s in st.moveable :: s)
  {
    forall q | q in st.tied ensures Linked(st.moveable, st.tied, q.0, q.1) {}
  }

  lemma MergeTiesFollow<Id>(st0: State<Id>, st: State<Id>, t: State<Id>, home: map<Id, Id>, s1: Id, s2: Id)
    requires Ordered(st) && (s1, s2) in st.tied && s1 in st.moveable && s2 in st.moveable && s1 != s2
    requires TiesFollow(st0, st, home)
    requires t.tied == MergeTies(st.tied, s1, s2) && t.moveable == st.moveable - {s2}
    ensures TiesFollow(st0, t, Rehome(home, s1, s2))
  {
    hide Ordered, MergeTies, Rehome, HomesLinked, TiesSurvive, TiesLinked;
    MergeHomesLinked(st0, st, home, s1, s2);
    MergeTiesLinked(st0, st, home, s1, s2);
    MergeTiesSurvive(st0, st, home, s1, s2);
  }

  lemma MergeTiesSurvive<Id>(st0: State<Id>, st: State<Id>, home: map<Id, Id>, s1: Id, s2: Id)
    requires Ordered(st) && (s1, s2) in st.tied && TiesSurvive(st0, st.tied, home)
    ensures TiesSurvive(st0, MergeTies(st.tied, s1, s2), Rehome(home, s1, s2))
  {
    hide Ordered, MergeTies;
    var h := Rehome(home, s1, s2);
    forall p | p in st0.tied
      ensures p.0 in h && p.1 in h && (h[p.0] == h[p.1] || (h[p.0], h[p.1]) in MergeTies(st.tied, s1, s2))
    {
      if (home[p.0], home[p.1]) in st.tied { TieSurvives(st, s1, s2, home[p.0], home[p.1]); }
    }
  }

  lemma MergeHomesLinked<Id>(st0: State<Id>, st: State<Id>, home: map<Id, Id>, s1: Id, s2: Id)
    requires (s1, s2) in st.tied && s1 in st.moveable && s1 != s2 && TiesFollow(st0, st, home)
    ensures HomesLinked(st0, st.moveable - {s2}, Rehome(home, s1, s2))
  {
    hide Linked, TiesSurvive, TiesLinked;
    var h := Rehome(home, s1, s2);
    forall s | s in h
      ensures h[s] in st.moveable - {s2} && Linked(st0.moveable, st0.tied, s, h[s])
    {
      if home[s] == s2 { LinkBack(st0, st, home, s1, s2, s); }
    }
  }

  lemma MergeTiesLinked<Id>(st0: State<Id>, st: State<Id>, home: map<Id, Id>, s1: Id, s2: Id)
    requires (s1, s2) in st.tied && TiesFollow(st0, st, home)
    ensures TiesLinked(st0, MergeTies(st.tied, s1, s2))
  {
    hide Linked, TiesSurvive, HomesLinked;
    forall q | q in MergeTies(st.tied, s1, s2) ensures Linked(st0.moveable, st0.tied, q.0, q.1) {
      var p :| p in st.tied && q == (Instead(p.0, s1, s2), p.1);
      if p.0 == s2 { LinkedTrans(st0.moveable, st0.tied, (s1, s2).0, (s1, s2).1, p.1); }
    }
  }

  lemma LinkBack<Id>(st0: State<Id>, st: State<Id>, home: map<Id, Id>, s1: Id, s2: Id, s: Id)
    requires TiesFollow(st0, st, home) && (s1, s2) in st.tied && s in home && home[s] == s2
    ensures Linked(st0.moveable, st0.tied, s, s1)
  {
    assert Linked(st0.moveable, st0.tied, (s1, s2).0, (s1, s2).1);
  }

  lemma TieSurvives<Id>(st: State<Id>, s1: Id, s2: Id, a: Id, b: Id)
    requires Ordered(st) && (s1, s2) in st.tied && (a, b) in st.tied
    ensures var x, y := Instead(a, s1, s2), Instead(b, s1, s2); x == y || (x, y) in MergeTies(st.tied, s1, s2)
  {
    var p := (a, b);
    TiesArePaths(st, p, (s1, s2));
    if p != (s1, s2) {
      assert (Instead(p.0, s1, s2), p.1) in MergeTies(st.tied, s1, s2);
    }
  }

  lemma LinkedShares<Id>(all: set<Id>, ties: set<(Id, Id)>, s: Id, t: Id, u: set<Id>)
    requires Linked(all, ties, s, t) && u <= all && Closed(u, ties)
    ensures s in u <==> t in u
  {
  }

  /** Once no tie is left, two scoops have been merged into one exactly when they are linked. */
  lemma OneScoopPerComponent<Id>(st0: State<Id>, st: State<Id>, home: map<Id, Id>, s: Id, t: Id)
    requires TiesFollow(st0, st, home) && st.tied == {} && s in home && t in home
    ensures home[s] == home[t] <==> Linked(st0.moveable, st0.tied, s, t)
  {
    var all, ties := st0.moveable, st0.tied;
    if home[s] == home[t] {
      LinkedTrans(all, ties, s, home[s], home[s]);
      LinkedTrans(all, ties, t, home[t], home[t]);
      LinkedTrans(all, ties, s, home[s], t);
    }
    if Linked(all, ties, s, t) {
      var u := set x | x in all && home[x] == home[s];
      forall p | p in ties ensures p.0 in u <==> p.1 in u {
        assert home[p.0] == home[p.1];
      }
      assert u <= all && Closed(u, ties) && s in u;
      LinkedShares(all, ties, s, t, u);
    }
  }

  // ----- gaps

  ghost predicate AllTouch<Id>(st: State<Id>) {
    forall p | p in st.tied :: p.0 in st.scoops && p.1 in st.scoops && Touch(st.scoops[p.0], st.scoops[p.1])
  }

  ghost predicate NoSurplus<Id>(st: State<Id>) {
    st.moveable <= st.scoops.Keys && forall s | s in st.moveable :: |st.scoops[s].contents| <= st.scoops[s].Size()
  }

  lemma MergeKeepsNoSurplus<Id>(st: State<Id>, s1: Id, s2: Id)
    requires Ordered(st) && (s1, s2) in st.tied && s1 in st.moveable && s2 in st.moveable && NoSurplus(st)
    requires st.scoops[s1].start <= Padded(st.scoops[s1], st.scoops[s2]).end + 1
    ensures NoSurplus(Merge(st, s1, s2))
  {
    TiedAreInOrder(st, s1, s2);
  }

  /** A scoop that is short of bytes stays short, and a gap between tied scoops makes one short:
      whether the run ends with sizes and contents in agreement is settled before it begins. */
  lemma MergeKeepsGaps<Id>(st: State<Id>, s1: Id, s2: Id)
    requires Ordered(st) && (s1, s2) in st.tied && s1 in st.moveable && s2 in st.moveable && NoSurplus(st)
    requires st.scoops[s1].start <= Padded(st.scoops[s1], st.scoops[s2]).end + 1
    ensures Sized(Merge(st, s1, s2)) && AllTouch(Merge(st, s1, s2)) <==> Sized(st) && AllTouch(st)
  {
    TiedAreInOrder(st, s1, s2);
    var t := Merge(st, s1, s2);
    if Sized(st) && AllTouch(st) {
      assert Touch(st.scoops[(s1, s2).0], st.scoops[(s1, s2).1]);
      forall q | q in t.tied ensures q.0 in t.scoops && q.1 in t.scoops && Touch(t.scoops[q.0], t.scoops[q.1]) {
        var p :| p in st.tied && p != (s1, s2) && q == (Instead(p.0, s1, s2), p.1);
        MergeTouch(st, s1, s2, p);
      }
    }
    if Sized(t) && AllTouch(t) {
      assert s1 in t.moveable && t.scoops[s1].Sized();
      forall s | s in st.moveable ensures st.scoops[s].Sized() {
        if s != s1 && s != s2 { assert s in t.moveable && t.scoops[s] == st.scoops[s]; }
      }
      forall p | p in st.tied ensures p.0 in st.scoops && p.1 in st.scoops && Touch(st.scoops[p.0], st.scoops[p.1]) {
        if p != (s1, s2) {
          MergeTouch(st, s1, s2, p);
          var q := (Instead(p.0, s1, s2), p.1);
          assert q in t.tied;
        }
      }
    }
  }

  lemma MergeTouch<Id>(st: State<Id>, s1: Id, s2: Id, p: (Id, Id))
    requires Ordered(st) && (s1, s2) in st.tied && s1 in st.moveable && s2 in st.moveable
    requires p in st.tied && p != (s1, s2) && st.scoops[s1].start <= Padded(st.scoops[s1], st.scoops[s2]).end + 1
    ensures var t, q0 := Merge(st, s1, s2), Instead(p.0, s1, s2);
            && p.0 in st.scoops && p.1 in st.scoops && q0 in t.scoops && p.1 in t.scoops
            && (p.0 != s1 ==> (Touch(t.scoops[q0], t.scoops[p.1]) <==> Touch(st.scoops[p.0], st.scoops[p.1])))
            && p.0 != s1
  {
    TiedAreInOrder(st, s1, s2);
    TiesArePaths(st, p, (s1, s2));
    TiedAreInOrder(st, p.0, p.1);
  }
}
