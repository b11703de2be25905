/** Searching backwards through predecessors for an instruction of a given kind. */
module BackSearch {
  import opened Common

  type Insn = nat

  /** The direct predecessors of each instruction that has some. */
  type Preds = map<Insn, set<Insn>>

  function PredsOf(preds: Preds, i: Insn): set<Insn> { if i in preds then preds[i] else {} }

  function AddPred(preds: Preds, i: Insn, pred: Insn): Preds { preds[i := PredsOf(preds, i) + {pred}] }

  predicate IsPred(preds: Preds, a: Insn, b: Insn) { a in PredsOf(preds, b) }

  lemma AddedPred(preds: Preds, i: Insn, pred: Insn)
    ensures forall a: Insn, b: Insn ::
            IsPred(AddPred(preds, i, pred), a, b) <==> IsPred(preds, a, b) || (b == i && a == pred)
  {
  }

  predicate Edge(target: map<Insn, Insn>, fallthrough: map<Insn, Insn>, a: Insn, b: Insn) {
    (a in target && target[a] == b) || (a in fallthrough && fallthrough[a] == b)
  }

  /** The predecessors are exactly the sources of the edges. */
  method CalcPreds(insns: set<Insn>, target: map<Insn, Insn>, fallthrough: map<Insn, Insn>) returns (preds: Preds)
    ensures forall a: Insn, b: Insn ::
            b in preds && a in preds[b] <==>
              a in insns && ((a in target && target[a] == b) || (a in fallthrough && fallthrough[a] == b))
  {
    hide AddPred, IsPred;
    preds := map[];
    var rest := insns;
    NoPreds();
    while rest != {}
      invariant rest <= insns
      invariant forall a: Insn, b: Insn ::
                IsPred(preds, a, b) <==> a in insns && a !in rest && Edge(target, fallthrough, a, b)
      decreases rest
    {
      var insn := AnyOf(rest);
      rest := rest - {insn};
      if insn in target {
        AddedPred(preds, target[insn], insn);
        preds := AddPred(preds, target[insn], insn);
      }
      if insn in fallthrough {
        AddedPred(preds, fallthrough[insn], insn);
        preds := AddPred(preds, fallthrough[insn], insn);
      }
    }
    forall a: Insn, b: Insn
      ensures b in preds && a in preds[b] <==>
                a in insns && ((a in target && target[a] == b) || (a in fallthrough && fallthrough[a] == b))
    {
      PredsMean(insns, target, fallthrough, preds, a, b);
    }
  }

  lemma PredsMean(insns: set<Insn>, target: map<Insn, Insn>, fallthrough: map<Insn, Insn>, preds: Preds, a: Insn,
                  b: Insn)
    requires IsPred(preds, a, b) <==> a in insns && Edge(target, fallthrough, a, b)
    ensures b in preds && a in preds[b] <==>
              a in insns && ((a in target && target[a] == b) || (a in fallthrough && fallthrough[a] == b))
  {
  }

  lemma NoPreds()
    ensures forall a: Insn, b: Insn :: !IsPred(map[], a, b)
  {
  }

  /** What is looked for, and what stops the search: the meaning of the regular expressions. */
  datatype Query = Query(matches: set<Insn>, stops: set<Insn>)

  /** `p` goes backwards from `orig`, one predecessor at a time, over instructions that neither match
      nor stop the search, except that the last may do either. */
  ghost predicate Trail(preds: Preds, q: Query, orig: Insn, p: seq<Insn>) {
    && |p| > 1 && p[0] == orig
    && (forall k :: 0 <= k < |p| - 1 ==> p[k + 1] in PredsOf(preds, p[k]))
    && (forall k :: 0 < k < |p| - 1 ==> p[k] !in q.matches && p[k] !in q.stops)
  }

  predicate EndsInMatch(q: Query, p: seq<Insn>) { p != [] && p[|p| - 1] in q.matches }

  ghost predicate Found(preds: Preds, q: Query, orig: Insn, prev: Insn) {
    prev in q.matches && exists p :: Trail(preds, q, orig, p) && p[|p| - 1] == prev
  }

  /** A walk that has met nothing so far; possibly no steps at all. */
  ghost predicate Walk(preds: Preds, q: Query, orig: Insn, p: seq<Insn>) {
    && p != [] && p[0] == orig
    && (forall k :: 0 <= k < |p| - 1 ==> p[k + 1] in PredsOf(preds, p[k]))
    && (forall k :: 0 < k < |p| ==> p[k] !in q.matches && p[k] !in q.stops)
  }

  lemma WalkEnds(preds: Preds, q: Query, orig: Insn, p: seq<Insn>, next: Insn)
    requires Walk(preds, q, orig, p) && next in PredsOf(preds, p[|p| - 1])
    ensures Trail(preds, q, orig, p + [next])
    ensures next in q.matches ==> Found(preds, q, orig, next)
    ensures next !in q.matches && next !in q.stops ==> Walk(preds, q, orig, p + [next])
    ensures Unique(preds, p) && |PredsOf(preds, p[|p| - 1])| == 1 ==> Unique(preds, p + [next])
  {
    assert (p + [next])[|p + [next]| - 1] == next;
    if |PredsOf(preds, p[|p| - 1])| == 1 { OnlyOne(PredsOf(preds, p[|p| - 1]), next); }
  }

  lemma FoundFurther(preds: Preds, q: Query, orig: Insn, p: seq<Insn>, prev: Insn)
    requires Walk(preds, q, orig, p) && Found(preds, q, p[|p| - 1], prev)
    ensures Found(preds, q, orig, prev)
  {
    var r :| Trail(preds, q, p[|p| - 1], r) && r[|r| - 1] == prev;
    var t := p + r[1..];
    forall k | 0 <= k < |t| - 1 ensures t[k + 1] in PredsOf(preds, t[k]) {
      if k >= |p| - 1 { assert t[k] == r[k - (|p| - 1)] && t[k + 1] == r[k + 1 - (|p| - 1)]; }
    }
    forall k | 0 < k < |t| - 1 ensures t[k] !in q.matches && t[k] !in q.stops {
      if k >= |p| { assert t[k] == r[k - (|p| - 1)]; }
    }
    assert Trail(preds, q, orig, t);
  }

  /** Every instruction on the way has one predecessor only. */
  ghost predicate Unique(preds: Preds, p: seq<Insn>) {
    forall k :: 0 <= k < |p| - 1 ==> PredsOf(preds, p[k]) == {p[k + 1]}
  }

  ghost predicate UniqueTrail(preds: Preds, q: Query, orig: Insn, p: seq<Insn>) {
    Trail(preds, q, orig, p) && Unique(preds, p)
  }

  lemma {:induction false} SameStart(preds: Preds, orig: Insn, p: seq<Insn>, w: seq<Insn>, k: nat)
    requires Unique(preds, p) && Unique(preds, w) && k < |p| && k < |w| && p[0] == w[0]
    ensures p[k] == w[k]
  {
    if k > 0 {
      SameStart(preds, orig, p, w, k - 1);
      assert PredsOf(preds, p[k - 1]) == {p[k]} && PredsOf(preds, w[k - 1]) == {w[k]};
    }
  }

  /** The loop has walked `w` and ends, because there is no unique predecessor or no step left, or
      because the next instruction stops it: no trail of unique predecessors finds a match. */
  lemma ChainHasNoMatch(preds: Preds, q: Query, orig: Insn, w: seq<Insn>, maxInsns: nat, p: seq<Insn>)
    requires Walk(preds, q, orig, w) && Unique(preds, w) && UniqueTrail(preds, q, orig, p) && |p| <= maxInsns + 1
    requires var last := w[|w| - 1];
      || |PredsOf(preds, last)| != 1 || |w| == maxInsns + 1
      || exists next :: next in PredsOf(preds, last) && next in q.stops && next !in q.matches
    ensures !EndsInMatch(q, p)
  {
    if |p| <= |w| {
      SameStart(preds, orig, p, w, |p| - 1);
    } else {
      SameStart(preds, orig, p, w, |w| - 1);
      assert PredsOf(preds, p[|w| - 1]) == {p[|w|]};
    }
  }

  // ----- what the two limits allow

  /** Whether a search may go along `p`: over a unique predecessor while it may look at more
      instructions, and from a place with several only if it may recurse.  Only steps over unique
      predecessors count as looking at an instruction; the others share the recursions that are left. */
  predicate Affords(preds: Preds, recursive: bool, p: seq<Insn>, left: nat, recursions: nat)
    requires p != []
  {
    |p| == 1 ||
    (&& left > 0
     && var size := |PredsOf(preds, p[0])|;
        if size == 1 then Affords(preds, recursive, p[1..], left - 1, recursions)
        else recursive && recursions > 0 && size > 0
             && Affords(preds, recursive, p[1..], left, recursions / size))
  }

  /** A trail that the limits allow ends in one of these. */
  ghost predicate Within(preds: Preds, q: Query, ends: set<Insn>, orig: Insn, recursive: bool, left: nat,
                         recursions: nat) {
    exists p :: Trail(preds, q, orig, p) && p[|p| - 1] in ends && Affords(preds, recursive, p, left, recursions)
  }

  /** The same after a step to `next`. */
  ghost predicate WithinAfter(preds: Preds, q: Query, ends: set<Insn>, next: Insn, recursive: bool, left: nat,
                              recursions: nat) {
    next in ends
    || (next !in q.matches && next !in q.stops && Within(preds, q, ends, next, recursive, left, recursions))
  }

  lemma StepsWithin(preds: Preds, q: Query, ends: set<Insn>, at: Insn, next: Insn, recursive: bool, left: nat,
                    recursions: nat)
    requires at in preds && next in preds[at] && left > 0
    requires var size := |preds[at]|;
             if size == 1 then WithinAfter(preds, q, ends, next, recursive, left - 1, recursions)
             else recursive && recursions > 0 && size > 0
                  && WithinAfter(preds, q, ends, next, recursive, left, recursions / size)
    ensures Within(preds, q, ends, at, recursive, left, recursions)
  {
    var size := |PredsOf(preds, at)|;
    var l, m := if size == 1 then left - 1 else left, if size == 1 then recursions else recursions / size;
    if next in ends {
      var p := [at, next];
      assert p[1..] == [next] && Trail(preds, q, at, p) && Affords(preds, recursive, p, left, recursions);
    } else {
      var r :| Trail(preds, q, next, r) && r[|r| - 1] in ends && Affords(preds, recursive, r, l, m);
      TrailStarts(preds, q, at, r);
      assert ([at] + r)[1..] == r;
    }
  }

  lemma TrailStarts(preds: Preds, q: Query, at: Insn, r: seq<Insn>)
    requires r != [] && r[0] in PredsOf(preds, at) && r[0] !in q.matches && r[0] !in q.stops
    requires Trail(preds, q, r[0], r)
    ensures Trail(preds, q, at, [at] + r) && ([at] + r)[|r|] == r[|r| - 1]
  {
    var t := [at] + r;
    forall k | 0 <= k < |t| - 1 ensures t[k + 1] in PredsOf(preds, t[k]) {
      if k > 0 { assert t[k] == r[k - 1] && t[k + 1] == r[k - 1 + 1]; }
    }
    forall k | 0 < k < |t| - 1 ensures t[k] !in q.matches && t[k] !in q.stops { assert t[k] == r[k - 1]; }
  }

  lemma WithinSteps(preds: Preds, q: Query, ends: set<Insn>, at: Insn, recursive: bool, left: nat, recursions: nat)
    returns (next: Insn)
    requires Within(preds, q, ends, at, recursive, left, recursions)
    ensures at in preds && next in preds[at] && left > 0
    ensures var size := |preds[at]|;
            if size == 1 then WithinAfter(preds, q, ends, next, recursive, left - 1, recursions)
            else recursive && recursions > 0 && size > 0
                 && WithinAfter(preds, q, ends, next, recursive, left, recursions / size)
  {
    var p :| Trail(preds, q, at, p) && p[|p| - 1] in ends && Affords(preds, recursive, p, left, recursions);
    next := p[1];
    assert p[0 + 1] in PredsOf(preds, p[0]);
    if |p| > 2 { TrailGoesOn(preds, q, at, p); }
  }

  lemma UniqueStep(preds: Preds, q: Query, ends: set<Insn>, at: Insn, next: Insn, recursive: bool, left: nat,
                   recursions: nat)
    requires PredsOf(preds, at) == {next} && left > 0 && next !in q.matches && next !in q.stops && next !in ends
    ensures Within(preds, q, ends, at, recursive, left, recursions)
       <==> Within(preds, q, ends, next, recursive, left - 1, recursions)
  {
    hide Within;
    if Within(preds, q, ends, at, recursive, left, recursions) {
      var n := WithinSteps(preds, q, ends, at, recursive, left, recursions);
    }
    if Within(preds, q, ends, next, recursive, left - 1, recursions) {
      StepsWithin(preds, q, ends, at, next, recursive, left, recursions);
    }
  }

  lemma TrailGoesOn(preds: Preds, q: Query, at: Insn, p: seq<Insn>)
    requires Trail(preds, q, at, p) && |p| > 2
    ensures Trail(preds, q, p[1], p[1..]) && p[1] !in q.matches && p[1] !in q.stops
  {
    var t := p[1..];
    forall k | 0 <= k < |t| - 1 ensures t[k + 1] in PredsOf(preds, t[k]) {
      assert t[k] == p[k + 1] && t[k + 1] == p[k + 1 + 1];
    }
    forall k | 0 < k < |t| - 1 ensures t[k] !in q.matches && t[k] !in q.stops { assert t[k] == p[k + 1]; }
  }

  lemma ShareOfRecursions(maxRecursions: nat, size: nat)
    requires maxRecursions > 0 && size > 1
    ensures maxRecursions / size < maxRecursions
  {
    var share := maxRecursions / size;
    assert maxRecursions == size * share + maxRecursions % size;
    AtLeastTwice(size, share);
  }

  lemma AtLeastTwice(size: nat, share: nat)
    requires size > 1
    ensures size * share >= 2 * share
  {
  }

  lemma NotOneThenMany(s: set<Insn>, x: Insn)
    requires |s| != 1 && x in s
    ensures |s| > 1
  {
  }

  lemma OnlyOne(s: set<Insn>, x: Insn)
    requires |s| == 1 && x in s
    ensures s == {x}
  {
    assert |s - {x}| == 0;
  }

  /** On success, `prev` matches and there is a trail to it.  If the limits allow no trail that ends at
      a stop, the search succeeds exactly if they allow one to a match; if they do it may fail all the
      same, since a stop also ends the search of the other predecessors.  A search that does not recurse
      fails only if no instruction along the chain of unique predecessors, as far as it may look,
      matches before one stops it.  The search ends whatever the shape of the graph: each level of
      recursion gets at most half of the recursions that were left, because there were several
      predecessors. */
  method BackupUntil(preds: Preds, q: Query, orig: Insn, recursive: bool, maxInsns: nat, maxRecursions: nat)
    returns (found: bool, prev: Insn)
    ensures found
            ==> Found(preds, q, orig, prev) && Within(preds, q, q.matches, orig, recursive, maxInsns, maxRecursions)
    ensures !found ==>
              || !Within(preds, q, q.matches, orig, recursive, maxInsns, maxRecursions)
              || Within(preds, q, q.stops - q.matches, orig, recursive, maxInsns, maxRecursions)
    ensures !found && !recursive ==>
              forall p | UniqueTrail(preds, q, orig, p) && |p| <= maxInsns + 1 :: !EndsInMatch(q, p)
    decreases maxRecursions
  {
    hide Found, Trail, Walk, Unique, Within;
    var left := maxInsns;
    prev := orig;
    ghost var walk, stops := [orig], q.stops - q.matches;
    WalkStarts(preds, q, orig);
    while |PredsOf(preds, prev)| == 1 && left > 0
      invariant walk != [] && walk[|walk| - 1] == prev && Walk(preds, q, orig, walk) && Unique(preds, walk)
      invariant |walk| == maxInsns - left + 1
      invariant forall ends | ends == q.matches || ends == stops ::
                  Within(preds, q, ends, orig, recursive, maxInsns, maxRecursions)
                  <==> Within(preds, q, ends, prev, recursive, left, maxRecursions)
      decreases left
    {
      ghost var at := prev;
      left := left - 1;
      prev := AnyOf(PredsOf(preds, prev));
      OnlyOne(PredsOf(preds, at), prev);
      WalkEnds(preds, q, orig, walk, prev);
      if prev in q.matches {
        StepsWithin(preds, q, q.matches, at, prev, recursive, left + 1, maxRecursions);
        return true, prev;
      }
      if prev in q.stops {
        StepsWithin(preds, q, stops, at, prev, recursive, left + 1, maxRecursions);
        forall p | UniqueTrail(preds, q, orig, p) && |p| <= maxInsns + 1 ensures !EndsInMatch(q, p) {
          ChainHasNoMatch(preds, q, orig, walk, maxInsns, p);
        }
        return false, prev;
      }
      UniqueStep(preds, q, q.matches, at, prev, recursive, left + 1, maxRecursions);
      UniqueStep(preds, q, stops, at, prev, recursive, left + 1, maxRecursions);
      walk := walk + [prev];
    }
    forall p | UniqueTrail(preds, q, orig, p) && |p| <= maxInsns + 1 ensures !EndsInMatch(q, p) {
      ChainHasNoMatch(preds, q, orig, walk, maxInsns, p);
    }
    var myprev := prev;
    if recursive && left > 0 && maxRecursions > 0 {
      var mypreds := PredsOf(preds, myprev);
      var rest := mypreds;
      while rest != {}
        invariant rest <= mypreds
        invariant Within(preds, q, stops, myprev, recursive, left, maxRecursions)
                  || forall n | n in mypreds && n !in rest ::
                       !WithinAfter(preds, q, q.matches, n, recursive, left, maxRecursions / |mypreds|)
        decreases rest
      {
        var pred := AnyOf(rest);
        rest := rest - {pred};
        prev := pred;
        WalkEnds(preds, q, orig, walk, pred);
        NotOneThenMany(mypreds, pred);
        if pred in q.matches {
          StepsWithin(preds, q, q.matches, myprev, pred, recursive, left, maxRecursions);
          return true, prev;
        }
        if pred in q.stops {
          StepsWithin(preds, q, stops, myprev, pred, recursive, left, maxRecursions);
          return false, prev;
        }
        ShareOfRecursions(maxRecursions, |mypreds|);
        found, prev := BackupUntil(preds, q, pred, recursive, left, maxRecursions / |mypreds|);
        if found {
          StepsWithin(preds, q, q.matches, myprev, pred, recursive, left, maxRecursions);
          FoundFurther(preds, q, orig, walk + [pred], prev);
          return true, prev;
        }
        if Within(preds, q, stops, pred, recursive, left, maxRecursions / |mypreds|) {
          StepsWithin(preds, q, stops, myprev, pred, recursive, left, maxRecursions);
        }
        prev := myprev;
      }
    }
    if Within(preds, q, q.matches, myprev, recursive, left, maxRecursions) {
      var n := WithinSteps(preds, q, q.matches, myprev, recursive, left, maxRecursions);
    }
    return false, prev;
  }

  /** What a success says: from the start to `prev`, one predecessor at a time, past nothing that matches
      or stops. */
  lemma FoundMeans(preds: Preds, q: Query, orig: Insn, prev: Insn) returns (p: seq<Insn>)
    requires Found(preds, q, orig, prev)
    ensures prev in q.matches && |p| > 1 && p[0] == orig && p[|p| - 1] == prev
    ensures forall k :: 0 <= k < |p| - 1 ==> p[k] in preds && p[k + 1] in preds[p[k]]
    ensures forall k :: 0 < k < |p| - 1 ==> p[k] !in q.matches && p[k] !in q.stops
  {
    p :| Trail(preds, q, orig, p) && p[|p| - 1] == prev;
    forall k | 0 <= k < |p| - 1 ensures p[k] in preds && p[k + 1] in preds[p[k]] {
      assert p[k + 1] in PredsOf(preds, p[k]);
    }
  }

  lemma WalkStarts(preds: Preds, q: Query, orig: Insn)
    ensures Walk(preds, q, orig, [orig]) && Unique(preds, [orig])
  {
  }
}
