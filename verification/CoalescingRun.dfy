/** What holds of the state after any number of merges, and what that gives at the end of a run. */
module CoalescingRun {
  import opened LittleEndian
  import opened Coalescing
  import opened Tracking
  import opened References
  import opened Components

  ghost predicate InsnsOnce<Id>(st: State<Id>) {
    OncePerInsn(st.pcrel) && OncePerInsn(st.absolute) && OncePerInsn(st.immed)
  }

  /** Bytes and references are where the map of merged scoops says. */
  ghost predicate Carried<Id>(st0: State<Id>, st: State<Id>, home: map<Id, Id>) {
    && Homes(st0, st, home) && Kept(st0, st, home) && NoneMadeUp(st0, st, home)
    && InsnsFollow(st0.pcrel, st.pcrel, home)
    && InsnsFollow(st0.absolute, st.absolute, home)
    && InsnsFollow(st0.immed, st.immed, home)
    && DataFollows(st0, st, home) && RelocsFollow(st0, st, home)
  }

  ghost predicate NoGaps<Id>(st: State<Id>) { Sized(st) && AllTouch(st) }

  /** The scoops that stay where they are. */
  function Rest<Id>(st: State<Id>): set<Id> { st.scoops.Keys - st.moveable }

  ghost predicate Invariant<Id>(st0: State<Id>, st: State<Id>, home: map<Id, Id>) {
    && Ordered(st) && NoSurplus(st) && InsnsOnce(st) && TiesFollow(st0, st, home) && FlagsFollow(st0, st, home)
    && Rest(st) == Rest(st0)
    && (NoGaps(st) <==> NoGaps(st0))
    && (NoGaps(st0) ==> Carried(st0, st, home))
  }

  function Itself<Id(==)>(st: State<Id>): map<Id, Id> { map s | s in st.moveable :: s }

  lemma CarriedAtFirst<Id>(st: State<Id>)
    requires Ordered(st) && Sized(st) && forall r | r in st.relocs :: st.relocs[r].addend < TWO_32
    ensures Carried(st, st, Itself(st))
  {
    hide Ordered;
    HomesAtFirst(st);
    InsnsFollowAtFirst(st.pcrel, Itself(st));
    InsnsFollowAtFirst(st.absolute, Itself(st));
    InsnsFollowAtFirst(st.immed, Itself(st));
    DataFollowsAtFirst(st);
  }

  lemma HomesAtFirst<Id>(st: State<Id>)
    requires Ordered(st) && Sized(st)
    ensures Homes(st, st, Itself(st)) && Kept(st, st, Itself(st)) && NoneMadeUp(st, st, Itself(st))
  {
    forall m, v | m in st.moveable && In(st.scoops[m], v) ensures From(st, Itself(st), m, v) {
      assert Itself(st)[m] == m;
    }
  }

  lemma InsnsFollowAtFirst<Id>(refs: set<InsnFixup<Id>>, home: map<Id, Id>)
    requires forall s | s in home :: home[s] == s
    ensures InsnsFollow(refs, refs, home)
  {
    forall f | f in refs ensures MovedInsn(home, f) == f {}
  }

  lemma DataFollowsAtFirst<Id>(st: State<Id>)
    ensures DataFollows(st, st, Itself(st))
  {
    forall f | f in st.data ensures MovedData(st, st, Itself(st), f) == f {}
  }

  lemma InvariantAtFirst<Id>(st: State<Id>)
    requires Ordered(st) && Sized(st) && InsnsOnce(st) && forall r | r in st.relocs :: st.relocs[r].addend < TWO_32
    ensures Invariant(st, st, Itself(st))
  {
    hide Ordered, Carried, TiesFollow, InsnsOnce, FlagsFollow;
    CarriedAtFirst(st);
    TiesFollowAtFirst(st);
    FlagsFollowAtFirst(st);
  }

  lemma FlagsFollowAtFirst<Id>(st: State<Id>)
    requires Sized(st)
    ensures FlagsFollow(st, st, Itself(st))
  {
    hide Allows;
    forall m, x: bv8 | m in st.moveable && Allows(st.scoops[m], x)
      ensures exists s | s in Itself(st) && s in st.scoops :: Itself(st)[s] == m && Allows(st.scoops[s], x)
    {
      assert m in Itself(st);
    }
    forall m | m in st.moveable ensures m in Itself(st) && Itself(st)[m] == m {}
  }

  lemma MergeCarried<Id>(st0: State<Id>, st: State<Id>, t: State<Id>, home: map<Id, Id>, s1: Id, s2: Id)
    requires Ordered(st) && NoGaps(st) && Carried(st0, st, home) && (s1, s2) in st.tied && s1 in st.moveable
             && s2 in st.moveable
    requires st.scoops[s1].start <= Padded(st.scoops[s1], st.scoops[s2]).end + 1 && t == Merge(st, s1, s2)
    ensures Carried(st0, t, Rehome(home, s1, s2))
  {
    hide Homes, Kept, NoneMadeUp, InsnsFollow, DataFollows, RelocsFollow, Ordered, MergeInsn, MergeData, MergeReloc,
         MergeTies, Rehome;
    assert Touch(st.scoops[(s1, s2).0], st.scoops[(s1, s2).1]);
    MergeMerges(st, s1, s2);
    MergeHomes(st0, st, t, home, s1, s2);
    MergeKept(st0, st, t, home, s1, s2);
    MergeMakesNothingUp(st0, st, t, home, s1, s2);
    MergeInsnsFollow(st0, st, home, s1, s2, st0.pcrel, st.pcrel);
    MergeInsnsFollow(st0, st, home, s1, s2, st0.absolute, st.absolute);
    MergeInsnsFollow(st0, st, home, s1, s2, st0.immed, st.immed);
    assert Padded(st.scoops[s1], st.scoops[s2]) == st.scoops[s1];
    MergeDataFollows(st0, st, t, home, s1, s2);
    MergeRelocsFollow(st0, st, t, home, s1, s2);
  }

  lemma MergeInvariant<Id>(st0: State<Id>, st: State<Id>, home: map<Id, Id>, s1: Id, s2: Id)
    requires Invariant(st0, st, home) && (s1, s2) in st.tied && s1 in st.moveable && s2 in st.moveable
    requires s1 in st.scoops && s2 in st.scoops
    requires st.scoops[s1].start <= Padded(st.scoops[s1], st.scoops[s2]).end + 1
    ensures Invariant(st0, Merge(st, s1, s2), Rehome(home, s1, s2))
  {
    hide Ordered, NoSurplus, TiesFollow, NoGaps, Carried, Rehome, Merge, OncePerInsn, FlagsFollow;
    var t := Merge(st, s1, s2);
    assert s1 != s2 by { TiedAreInOrder(st, s1, s2); }
    MergeFlagsFollow(st0, st, home, s1, s2);
    MergeKeepsOrder(st, s1, s2);
    MergeKeepsNoSurplus(st, s1, s2);
    MergeGapsAgree(st, s1, s2);
    MergeInsnsOnce(st, s1, s2);
    MergeTiesAgree(st0, st, home, s1, s2);
    if NoGaps(st0) { MergeCarried(st0, st, t, home, s1, s2); }
    MergeRest(st, s1, s2);
  }

  lemma MergeRest<Id>(st: State<Id>, s1: Id, s2: Id)
    requires s1 in st.scoops && s2 in st.scoops && s1 in st.moveable && s2 in st.moveable && s1 != s2
    requires st.scoops[s1].start <= Padded(st.scoops[s1], st.scoops[s2]).end + 1
    ensures Rest(Merge(st, s1, s2)) == Rest(st)
  {
  }

  lemma MergeGapsAgree<Id>(st: State<Id>, s1: Id, s2: Id)
    requires Ordered(st) && (s1, s2) in st.tied && s1 in st.moveable && s2 in st.moveable && NoSurplus(st)
    requires st.scoops[s1].start <= Padded(st.scoops[s1], st.scoops[s2]).end + 1
    ensures NoGaps(Merge(st, s1, s2)) <==> NoGaps(st)
  {
    hide Ordered, Merge, Sized, AllTouch;
    MergeKeepsGaps(st, s1, s2);
  }

  lemma MergeInsnsOnce<Id>(st: State<Id>, s1: Id, s2: Id)
    requires s1 in st.scoops && s2 in st.scoops && s1 != s2 && InsnsOnce(st)
    requires st.scoops[s1].start <= Padded(st.scoops[s1], st.scoops[s2]).end + 1
    ensures InsnsOnce(Merge(st, s1, s2))
  {
    hide OncePerInsn, MergeInsn;
    MergeKeepsOncePerInsn(st.pcrel, s1, s2);
    MergeKeepsOncePerInsn(st.absolute, s1, s2);
    MergeKeepsOncePerInsn(st.immed, s1, s2);
  }

  lemma MergeTiesAgree<Id>(st0: State<Id>, st: State<Id>, home: map<Id, Id>, s1: Id, s2: Id)
    requires Ordered(st) && TiesFollow(st0, st, home) && (s1, s2) in st.tied && s1 in st.moveable && s2 in st.moveable
             && s1 != s2
    requires s1 in st.scoops && s2 in st.scoops && st.scoops[s1].start <= Padded(st.scoops[s1], st.scoops[s2]).end + 1
    ensures TiesFollow(st0, Merge(st, s1, s2), Rehome(home, s1, s2))
  {
    hide Ordered, Linked;
    MergeTiesFollow(st0, st, Merge(st, s1, s2), home, s1, s2);
  }

  /** `s` is executable, or is merged with a scoop that is. */
  ghost predicate BesideCode<Id>(st: State<Id>, s: Id) {
    exists t | t in st.scoops :: st.scoops[t].Executable() &&
      (t == s || (s in st.moveable && t in st.moveable && Linked(st.moveable, st.tied, s, t)))
  }

  /** Which scoops are executable at the end of a run. */
  lemma CodeResult<Id>(st0: State<Id>, st: State<Id>, home: map<Id, Id>, s: Id)
    requires Sized(st0) && FlagsFollow(st0, st, home) && TiesFollow(st0, st, home) && st.tied == {}
    requires s in st0.scoops && (s !in home ==> s in st.scoops && st.scoops[s] == st0.scoops[s])
    ensures Where(home, s) in st.scoops && (st.scoops[Where(home, s)].Executable() <==> BesideCode(st0, s))
  {
    hide Linked, TiesSurvive, TiesLinked, HomesLinked, Allows, Scoop.Executable, FlagsFollow;
    forall c ensures Allows(c, 1) <==> c.Executable() { LastBit(c); }
    HomeKeys(st0, st, home);
    if s in home {
      FlagsResult(st0, st, home, s);
      OneScoopPerComponent(st0, st, home, s, s);
    }
  }

  lemma LastBit(c: Scoop)
    ensures Allows(c, 1) <==> c.Executable()
  {
  }

  /** The scoop that `s` is merged into is read-only after relocation exactly if all scoops that ties
      linked to `s` were so, and has each permission exactly if one of them had it. */
  ghost predicate FlagsJoined<Id>(st0: State<Id>, st: State<Id>, home: map<Id, Id>, s: Id)
    requires s in home
  {
    && home[s] in st.scoops
    && (st.scoops[home[s]].relRo <==>
          forall t | t in st0.moveable && t in st0.scoops && Linked(st0.moveable, st0.tied, s, t) ::
              st0.scoops[t].relRo)
    && forall x: bv8 :: Allows(st.scoops[home[s]], x) <==>
          exists t | t in st0.moveable && t in st0.scoops ::
            Allows(st0.scoops[t], x) && Linked(st0.moveable, st0.tied, s, t)
  }

  lemma FlagsResult<Id>(st0: State<Id>, st: State<Id>, home: map<Id, Id>, s: Id)
    requires FlagsFollow(st0, st, home) && TiesFollow(st0, st, home) && st.tied == {} && s in home
    ensures FlagsJoined(st0, st, home, s)
  {
    hide Linked, TiesSurvive, TiesLinked, Allows;
    HomeKeys(st0, st, home);
    forall t | t in home ensures home[s] == home[t] <==> Linked(st0.moveable, st0.tied, s, t) {
      OneScoopPerComponent(st0, st, home, s, t);
    }
  }

  /** At the end of a run, when no tie is left: scoops have been merged into one exactly when ties
      linked them, and the one has the flags of all of them; sizes and contents agree exactly when no
      tied scoops had a gap between them; and if so every byte and every reference is where it should
      be. */
  lemma RunResult<Id>(st0: State<Id>, st: State<Id>, home: map<Id, Id>)
    requires Invariant(st0, st, home) && st.tied == {}
    ensures home.Keys == st0.moveable
    ensures forall s, t | s in home && t in home :: home[s] == home[t] <==> Linked(st0.moveable, st0.tied, s, t)
    ensures forall s | s in home :: FlagsJoined(st0, st, home, s)
    ensures Sized(st) <==> NoGaps(st0)
    ensures NoGaps(st0) ==> Carried(st0, st, home)
    ensures NoGaps(st0) && RefsKnown(st0) ==> SameAddresses(st0, st)
  {
    hide Ordered, NoSurplus, InsnsOnce, Carried, Linked, Sized, HomesLinked, TiesSurvive, TiesLinked, FlagsFollow,
         FlagsJoined, RefsKnown, SameAddresses;
    HomeKeys(st0, st, home);
    forall s, t | s in home && t in home ensures home[s] == home[t] <==> Linked(st0.moveable, st0.tied, s, t) {
      OneScoopPerComponent(st0, st, home, s, t);
    }
    forall s | s in home ensures FlagsJoined(st0, st, home, s) { FlagsResult(st0, st, home, s); }
    if NoGaps(st0) && RefsKnown(st0) { CarriedAddresses(st0, st, home); }
  }

  lemma CarriedAddresses<Id>(st0: State<Id>, st: State<Id>, home: map<Id, Id>)
    requires Carried(st0, st, home) && RefsKnown(st0)
    ensures SameAddresses(st0, st)
  {
    hide Homes, Kept, NoneMadeUp, InsnsFollow, DataFollows, RelocsFollow, RefsKnown, SameAddresses;
    RefsKeepAddresses(st0, st, home);
  }

  lemma HomeKeys<Id>(st0: State<Id>, st: State<Id>, home: map<Id, Id>)
    requires TiesFollow(st0, st, home)
    ensures home.Keys == st0.moveable
  {
  }
}
