/** Giving landing pads, and what they lead to, to the functions that throw to them. */
module LandingPads {
  import opened Common

  type Insn = nat
  type Function = nat

  /** Successors: branch target, fallthrough and landing pad, where there is one. */
  datatype Graph = Graph(target: map<Insn, Insn>, fallthrough: map<Insn, Insn>, pad: map<Insn, Insn>) {
    predicate Edge(i: Insn, j: Insn) {
      (i in target && target[i] == j) || (i in fallthrough && fallthrough[i] == j) || (i in pad && pad[i] == j)
    }

    /** `p` leads from a seed along edges, never leaving `free`. */
    ghost predicate Path(free: set<Insn>, seeds: set<Insn>, p: seq<Insn>) {
      && p != [] && p[0] in seeds
      && (forall k :: 0 <= k < |p| ==> p[k] in free)
      && (forall k :: 0 <= k < |p| - 1 ==> Edge(p[k], p[k + 1]))
    }

    ghost predicate Reachable(free: set<Insn>, seeds: set<Insn>, i: Insn) {
      exists p :: Path(free, seeds, p) && p[|p| - 1] == i
    }

    ghost predicate ClosedIn(free: set<Insn>, s: set<Insn>) {
      forall i, j | i in s && j in free && Edge(i, j) :: j in s
    }
  }

  lemma SeedIsReachable(g: Graph, free: set<Insn>, seeds: set<Insn>, i: Insn)
    requires i in seeds && i in free
    ensures g.Reachable(free, seeds, i)
  {
    assert g.Path(free, seeds, [i]);
  }

  lemma NextIsReachable(g: Graph, free: set<Insn>, seeds: set<Insn>, i: Insn, j: Insn)
    requires g.Reachable(free, seeds, i) && g.Edge(i, j) && j in free
    ensures g.Reachable(free, seeds, j)
  {
    var p :| g.Path(free, seeds, p) && p[|p| - 1] == i;
    assert g.Path(free, seeds, p + [j]);
  }

  /** Nothing reachable escapes a closed set that has the seeds. */
  lemma {:induction false} ReachableIsInside(g: Graph, free: set<Insn>, seeds: set<Insn>, s: set<Insn>, p: seq<Insn>)
    requires g.Path(free, seeds, p) && g.ClosedIn(free, s) && seeds * free <= s
    ensures p[|p| - 1] in s
  {
    if |p| > 1 {
      var q := p[..|p| - 1];
      assert g.Path(free, seeds, q);
      ReachableIsInside(g, free, seeds, s, q);
      assert g.Edge(p[|p| - 2], p[|p| - 1]);
    }
  }

  /** What the worklist keeps: everything taken or due is reachable, and whatever the taken ones lead
      to is taken or due. */
  ghost predicate Progress(g: Graph, free: set<Insn>, seeds: set<Insn>, taken: set<Insn>, due: set<Insn>) {
    && taken <= free
    && (forall i | i in taken :: g.Reachable(free, seeds, i))
    && (forall i | i in due && i in free :: g.Reachable(free, seeds, i))
    && (forall i | i in seeds && i in free :: i in taken || i in due)
    && (forall i, j | i in taken && j in free && g.Edge(i, j) :: j in taken || j in due)
  }

  lemma ProgressSkips(g: Graph, free: set<Insn>, seeds: set<Insn>, taken: set<Insn>, due: set<Insn>, i: Insn)
    requires Progress(g, free, seeds, taken, due) && (i in taken || i !in free)
    ensures Progress(g, free, seeds, taken, due - {i})
  {
    hide Graph.Reachable, Graph.Edge;
  }

  /** `more` are the successors of `i`, less some that are owned. */
  lemma ProgressTakes(g: Graph, free: set<Insn>, seeds: set<Insn>, taken: set<Insn>, due: set<Insn>, i: Insn,
                      more: set<Insn>)
    requires Progress(g, free, seeds, taken, due) && i in due && i in free && i !in taken
    requires forall j | j in more :: g.Edge(i, j)
    requires forall j: Insn | g.Edge(i, j) && j in free && j !in taken :: j in more
    ensures Progress(g, free, seeds, taken + {i}, due - {i} + more)
  {
    hide Graph.Reachable, Graph.Edge;
    forall j | j in more && j in free ensures g.Reachable(free, seeds, j) { NextIsReachable(g, free, seeds, i, j); }
  }

  lemma ProgressEnds(g: Graph, free: set<Insn>, seeds: set<Insn>, taken: set<Insn>)
    requires Progress(g, free, seeds, taken, {})
    ensures forall i: Insn :: i in taken <==> g.Reachable(free, seeds, i)
  {
    assert g.ClosedIn(free, taken) && seeds * free <= taken;
    forall i: Insn | g.Reachable(free, seeds, i) ensures i in taken {
      var p :| g.Path(free, seeds, p) && p[|p| - 1] == i;
      ReachableIsInside(g, free, seeds, taken, p);
    }
  }

  class Absorber {
    const graph: Graph
    const insns: set<Insn>
    var owner: map<Insn, Function>

    constructor (graph: Graph, insns: set<Insn>, owner: map<Insn, Function>)
      ensures this.graph == graph && this.insns == insns && this.owner == owner
    {
      this.graph, this.insns, this.owner := graph, insns, owner;
    }

    /** The instructions without a function. */
    ghost function Free(): set<Insn>
      reads this
    {
      insns - owner.Keys
    }

    ghost predicate EdgesInside() {
      forall i: Insn, j: Insn | graph.Edge(i, j) :: j in insns
    }

    /** What `insn` leads to; a landing pad that has a function is left out. */
    method Successors(insn: Insn) returns (more: set<Insn>)
      requires EdgesInside() && insn in insns
      ensures more <= insns && forall j | j in more :: graph.Edge(insn, j)
      ensures forall j: Insn | graph.Edge(insn, j) && j !in owner :: j in more
    {
      more := {};
      if insn in graph.pad && graph.pad[insn] !in owner { more := more + {graph.pad[insn]}; }
      if insn in graph.target { more := more + {graph.target[insn]}; }
      if insn in graph.fallthrough { more := more + {graph.fallthrough[insn]}; }
      forall j | j in more ensures graph.Edge(insn, j) && j in insns { assert graph.Edge(insn, j); }
    }

    /** Gives `insn` to `func`; what it leads to is due next. */
    method Take(insn: Insn, func: Function, due: set<Insn>, ghost free: set<Insn>, ghost pads: set<Insn>,
                ghost owner0: map<Insn, Function>, ghost taken: set<Insn>)
      returns (due': set<Insn>)
      requires EdgesInside() && due <= insns && insn in due && insn !in owner && insn in free && insn !in taken
      requires free == insns - owner0.Keys && Progress(graph, free, pads, taken, due)
               && Extended(owner0, owner, taken, func)
      modifies this
      ensures due' <= insns && Progress(graph, free, pads, taken + {insn}, due')
              && Extended(owner0, owner, taken + {insn}, func)
      ensures owner.Keys == old(owner).Keys + {insn}
    {
      hide Progress, Graph.Reachable, Graph.Edge, EdgesInside;
      var more := Successors(insn);
      ProgressTakes(graph, free, pads, taken, due, insn, more);
      ExtendedByOne(owner0, owner, taken, func, insn);
      due' := due - {insn} + more;
      owner := owner[insn := func];
    }

    /** The worklist for one function.  It takes exactly the instructions without a function that
        can be reached from its landing pads through such instructions. */
    method Absorb(func: Function, pads: set<Insn>)
      requires pads <= insns && EdgesInside()
      modifies this
      ensures Extended(old(owner), owner, owner.Keys - old(owner).Keys, func)
      ensures forall i: Insn :: i in owner && i !in old(owner) <==> graph.Reachable(old(Free()), pads, i)
    {
      hide Progress, Graph.Reachable, Graph.Edge, Extended, EdgesInside;
      ExtendedByNone(owner, func);
      ghost var free, owner0 := Free(), owner;
      ghost var taken: set<Insn> := {};
      var due := pads;
      assert Progress(graph, free, pads, taken, due) by { ProgressBegins(graph, free, pads); }
      while due != {}
        invariant due <= insns && taken <= free && Progress(graph, free, pads, taken, due)
        invariant owner.Keys == owner0.Keys + taken && Extended(owner0, owner, taken, func)
        decreases free - taken, due
      {
        var insn := AnyOf(due);
        if insn in owner {
          ProgressSkips(graph, free, pads, taken, due, insn);
          due := due - {insn};
          continue;
        }
        due := Take(insn, func, due, free, pads, owner0, taken);
        taken := taken + {insn};
      }
      AllTaken(graph, free, pads, taken, due, owner0, owner, func);
    }

    /** The landing pads without a function, by the function of the instructions that throw to them. */
    method CollectPads() returns (pads: map<Function, set<Insn>>)
      requires EdgesInside() && owner.Keys <= insns
      ensures forall f | f in pads :: pads[f] <= insns - owner.Keys
      ensures forall f | f in pads, i | i in pads[f] ::
              exists t | t in owner :: owner[t] == f && t in graph.pad && graph.pad[t] == i
      ensures forall t | t in owner && t in graph.pad && graph.pad[t] !in owner ::
              owner[t] in pads && graph.pad[t] in pads[owner[t]]
    {
      pads := map[];
      var rest := owner.Keys;
      while rest != {}
        invariant rest <= owner.Keys
        invariant forall f | f in pads :: pads[f] <= insns - owner.Keys
        invariant forall f | f in pads, i | i in pads[f] ::
                  exists t | t in owner :: owner[t] == f && t in graph.pad && graph.pad[t] == i
        invariant forall t | t in owner && t !in rest && t in graph.pad && graph.pad[t] !in owner ::
                    owner[t] in pads && graph.pad[t] in pads[owner[t]]
        decreases rest
      {
        var t := AnyOf(rest);
        rest := rest - {t};
        if t in graph.pad && graph.pad[t] !in owner {
          assert graph.Edge(t, graph.pad[t]);
          var f := owner[t];
          pads := pads[f := (if f in pads then pads[f] else {}) + {graph.pad[t]}];
        }
      }
    }

    method FillInLandingPads() returns (ghost pads: map<Function, set<Insn>>)
      requires EdgesInside() && owner.Keys <= insns
      modifies this
      ensures forall f | f in pads, i | i in pads[f] ::
                exists t | t in old(owner) :: old(owner)[t] == f && t in graph.pad && graph.pad[t] == i
      ensures forall t | t in old(owner) && t in graph.pad && graph.pad[t] !in old(owner) ::
                old(owner[t]) in pads && graph.pad[t] in pads[old(owner[t])]
      ensures AllAbsorbed(graph, old(Free()), pads, pads.Keys, old(owner), owner)
    {
      hide AllAbsorbed, Extended, Graph.Reachable, EdgesInside;
      var padsOf := CollectPads();
      pads := padsOf;
      ghost var owner0, free := owner, Free();
      var rest := padsOf.Keys;
      NoneAbsorbed(graph, free, pads, owner);
      while rest != {}
        invariant rest <= padsOf.Keys && pads == padsOf
        invariant AllAbsorbed(graph, free, pads, pads.Keys - rest, owner0, owner)
        decreases rest
      {
        var f := AnyOf(rest);
        ghost var before := owner;
        Absorb(f, padsOf[f]);
        AbsorbedOneMore(graph, insns, pads, pads.Keys - rest, owner0, before, owner, f);
        assert pads.Keys - (rest - {f}) == pads.Keys - rest + {f};
        rest := rest - {f};
      }
      assert pads.Keys - rest == pads.Keys;
    }
  }

  /** The landing pads of the functions in `done` have been dealt with: nothing that had a function
      has a different one; what has one now is reachable from a landing pad of its function, through
      instructions that had none; and everything so reachable has one. */
  ghost predicate AllAbsorbed(g: Graph, free: set<Insn>, pads: map<Function, set<Insn>>, done: set<Function>,
                              owner0: map<Insn, Function>, owner: map<Insn, Function>)
    requires done <= pads.Keys
  {
    && (forall i | i in owner0 :: i in owner && owner[i] == owner0[i])
    && (forall i | i in owner && i !in owner0 :: i in free && owner[i] in done && g.Reachable(free, pads[owner[i]], i))
    && g.ClosedIn(free, owner.Keys - owner0.Keys)
    && (forall f, i | f in done && i in pads[f] && i in free :: i in owner && i !in owner0)
  }

  /** What that says of an instruction: one that had a function keeps it; one that has got one leads to
      no instruction without. */
  lemma AbsorbedMeans(g: Graph, free: set<Insn>, pads: map<Function, set<Insn>>, owner0: map<Insn, Function>,
                      owner: map<Insn, Function>, i: Insn)
    requires AllAbsorbed(g, free, pads, pads.Keys, owner0, owner) && i in owner
    ensures i in owner0 ==> owner[i] == owner0[i]
    ensures i !in owner0 ==>
      && (i in g.target && g.target[i] in free ==> g.target[i] in owner)
      && (i in g.fallthrough && g.fallthrough[i] in free ==> g.fallthrough[i] in owner)
      && (i in g.pad && g.pad[i] in free ==> g.pad[i] in owner)
  {
    hide Graph.ClosedIn, Graph.Reachable;
    if i !in owner0 { AbsorbedLeads(g, free, owner.Keys - owner0.Keys, i); }
  }

  /** And it is on a way from a landing pad of its function, over instructions that had none. */
  lemma AbsorbedFrom(g: Graph, free: set<Insn>, pads: map<Function, set<Insn>>, owner0: map<Insn, Function>,
                     owner: map<Insn, Function>, i: Insn)
    returns (p: seq<Insn>)
    requires AllAbsorbed(g, free, pads, pads.Keys, owner0, owner) && i in owner && i !in owner0
    ensures owner[i] in pads && |p| > 0 && p[0] in pads[owner[i]] && p[|p| - 1] == i
    ensures forall k :: 0 <= k < |p| ==> p[k] in free
    ensures forall k :: 0 <= k < |p| - 1 ==> g.Edge(p[k], p[k + 1])
  {
    hide Graph.ClosedIn, Graph.Edge;
    p :| g.Path(free, pads[owner[i]], p) && p[|p| - 1] == i;
  }

  lemma AbsorbedLeads(g: Graph, free: set<Insn>, s: set<Insn>, i: Insn)
    requires g.ClosedIn(free, s) && i in s
    ensures i in g.target && g.target[i] in free ==> g.target[i] in s
    ensures i in g.fallthrough && g.fallthrough[i] in free ==> g.fallthrough[i] in s
    ensures i in g.pad && g.pad[i] in free ==> g.pad[i] in s
  {
    assert forall j: Insn :: g.Edge(i, j) && j in free ==> j in s;
    if i in g.target { assert g.Edge(i, g.target[i]); }
    if i in g.fallthrough { assert g.Edge(i, g.fallthrough[i]); }
    if i in g.pad { assert g.Edge(i, g.pad[i]); }
  }

  /** In particular. */
  lemma ReachableIsAbsorbed(g: Graph, free: set<Insn>, pads: map<Function, set<Insn>>, owner0: map<Insn, Function>,
                            owner: map<Insn, Function>, f: Function, i: Insn)
    requires AllAbsorbed(g, free, pads, pads.Keys, owner0, owner) && f in pads && g.Reachable(free, pads[f], i)
    ensures i in owner && i !in owner0
  {
    var p :| g.Path(free, pads[f], p) && p[|p| - 1] == i;
    ReachableIsInside(g, free, pads[f], owner.Keys - owner0.Keys, p);
  }

  lemma NoneAbsorbed(g: Graph, free: set<Insn>, pads: map<Function, set<Insn>>, owner: map<Insn, Function>)
    ensures AllAbsorbed(g, free, pads, {}, owner, owner)
    ensures AllAbsorbed(g, free, pads, pads.Keys - pads.Keys, owner, owner)
  {
    assert pads.Keys - pads.Keys == {};
  }

  lemma WiderIsReachable(g: Graph, free: set<Insn>, wider: set<Insn>, seeds: set<Insn>, i: Insn)
    requires g.Reachable(free, seeds, i) && free <= wider
    ensures g.Reachable(wider, seeds, i)
  {
    var p :| g.Path(free, seeds, p) && p[|p| - 1] == i;
    assert g.Path(wider, seeds, p);
  }

  lemma AbsorbedOneMore(g: Graph, insns: set<Insn>, pads: map<Function, set<Insn>>, done: set<Function>,
                        owner0: map<Insn, Function>, before: map<Insn, Function>, now: map<Insn, Function>, f: Function)
    requires done <= pads.Keys && f in pads && AllAbsorbed(g, insns - owner0.Keys, pads, done, owner0, before)
    requires Extended(before, now, now.Keys - before.Keys, f)
    requires forall i: Insn :: i in now && i !in before <==> g.Reachable(insns - before.Keys, pads[f], i)
    ensures AllAbsorbed(g, insns - owner0.Keys, pads, done + {f}, owner0, now)
  {
    hide Graph.Reachable, Graph.Edge;
    var free0, free := insns - owner0.Keys, insns - before.Keys;
    forall i | i in now && i !in owner0 ensures i in free0 && now[i] in done + {f}
        && g.Reachable(free0, pads[now[i]], i) {
      if i !in before { WiderIsReachable(g, free, free0, pads[f], i); ReachableIsFree(g, free, pads[f], i); }
    }
    forall i, j | i in now.Keys - owner0.Keys && j in free0 && g.Edge(i, j) ensures j in now.Keys - owner0.Keys {
      if i !in before && j !in before { NextIsReachable(g, free, pads[f], i, j); }
    }
    forall h, i | h in done + {f} && i in pads[h] && i in free0 ensures i in now && i !in owner0 {
      if h == f && i !in before { SeedIsReachable(g, free, pads[f], i); }
    }
  }

  lemma ReachableIsFree(g: Graph, free: set<Insn>, seeds: set<Insn>, i: Insn)
    requires g.Reachable(free, seeds, i)
    ensures i in free
  {
  }

  /** `now` is `before` with `taken` given to `func`. */
  ghost predicate Extended(before: map<Insn, Function>, now: map<Insn, Function>, taken: set<Insn>, func: Function) {
    && (forall i | i in before :: i in now && now[i] == before[i])
    && (forall i | i in taken :: i in now && now[i] == func)
    && now.Keys == before.Keys + taken
  }

  lemma AllTaken(g: Graph, free: set<Insn>, pads: set<Insn>, taken: set<Insn>, due: set<Insn>,
                 before: map<Insn, Function>, now: map<Insn, Function>, func: Function)
    requires Progress(g, free, pads, taken, due) && due == {} && Extended(before, now, taken, func)
             && free !! before.Keys
    ensures Extended(before, now, now.Keys - before.Keys, func)
    ensures forall i: Insn :: i in now && i !in before <==> g.Reachable(free, pads, i)
  {
    hide Graph.Reachable;
    ProgressEnds(g, free, pads, taken);
    assert now.Keys - before.Keys == taken;
  }

  lemma ExtendedByNone(m: map<Insn, Function>, func: Function)
    ensures Extended(m, m, {}, func)
  {
  }

  lemma ExtendedByOne(m0: map<Insn, Function>, m: map<Insn, Function>, taken: set<Insn>, func: Function, i: Insn)
    requires Extended(m0, m, taken, func) && i !in m
    ensures Extended(m0, m[i := func], taken + {i}, func)
  {
  }

  lemma ProgressBegins(g: Graph, free: set<Insn>, seeds: set<Insn>)
    ensures Progress(g, free, seeds, {}, seeds)
  {
    forall i | i in seeds && i in free ensures g.Reachable(free, seeds, i) { SeedIsReachable(g, free, seeds, i); }
  }
}
