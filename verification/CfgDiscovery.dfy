/** Linking instructions to their direct successors, and discovering the ones that are missing. */
module CfgDiscovery {
  import opened Common

  /** A decoded instruction: its length, whether control never goes on behind it, where it branches to
      if that is a constant, and its first byte. */
  datatype Insn = Insn(length: nat, ends: bool, branch: Option<int>, first: int)

  const LOCK := 0xF0

  /** The instructions of the IR by address, their links, and the addresses that should have had an
      instruction but did not. */
  datatype Cfg = Cfg(insns: map<int, Insn>, fallthrough: map<int, int>, target: map<int, int>, missed: set<int>)
  {
    predicate NextLinked(a: int)
      requires a in insns
    {
      insns[a].ends || a in fallthrough || a + insns[a].length in missed
    }

    predicate BranchLinked(a: int)
      requires a in insns
    {
      insns[a].branch == None || a in target || insns[a].branch.value in missed
    }

    predicate Linked(a: int)
      requires a in insns
    {
      NextLinked(a) && BranchLinked(a)
    }

    /** A branch over one byte has a target, if the instruction behind it begins with a lock prefix. */
    predicate LockLinked(a: int)
      requires a in insns
    {
      a in fallthrough && fallthrough[a] in insns && insns[fallthrough[a]].first == 0xF0 ==>
        (insns[a].branch == Some(a + insns[a].length + 1) ==> a in target)
    }

    /** A branch one byte behind its own end may mean the instruction there without its lock prefix. */
    predicate SkipsLock(a: int, next: int)
      requires a in insns
    {
      insns[a].branch == Some(a + insns[a].length + 1) && next in insns && insns[next].first == LOCK
    }

    predicate RightFall(a: int)
      requires a in fallthrough
    {
      a in insns && !insns[a].ends && fallthrough[a] == a + insns[a].length && fallthrough[a] in insns
    }

    predicate RightTarget(a: int)
      requires a in target
    {
      && a in insns && target[a] in insns
      && (insns[a].branch == Some(target[a])
          || (a in fallthrough && target[a] == fallthrough[a] && SkipsLock(a, target[a])))
    }

    /** Links that were there at first are kept, and those made since are to the right instructions. */
    ghost predicate Right(first: Cfg) {
      && (forall a | a in fallthrough && a !in first.fallthrough :: RightFall(a))
      && (forall a | a in target && a !in first.target :: RightTarget(a))
      && (forall a | a in first.fallthrough :: a in fallthrough && fallthrough[a] == first.fallthrough[a])
      && (forall a | a in first.target :: a in target && target[a] == first.target[a])
    }

    predicate MissedAreMissing() { missed !! insns.Keys }

    function SetFallthrough(a: int): Cfg
      requires a in insns
    {
      if a in fallthrough || insns[a].ends then this
      else
        var next := a + insns[a].length;
        if next in insns then this.(fallthrough := fallthrough[a := next]) else this.(missed := missed + {next})
    }

    function SetTarget(a: int): Cfg
      requires a in insns
    {
      if a in target || insns[a].branch == None then this
      else
        var to := insns[a].branch.value;
        if to in insns then this.(target := target[a := to])
        else if a in fallthrough && SkipsLock(a, fallthrough[a]) then this.(target := target[a := fallthrough[a]])
        else this.(missed := missed + {to})
    }

    predicate Below(d: Cfg) {
      insns == d.insns && fallthrough.Keys <= d.fallthrough.Keys && target.Keys <= d.target.Keys && missed <= d.missed
    }
  }

  lemma FallthroughIsRight(c: Cfg, a: int, first: Cfg)
    requires a in c.insns && c.Right(first) && c.MissedAreMissing()
    ensures var d := c.SetFallthrough(a); d.Right(first) && d.MissedAreMissing() && c.Below(d) && d.NextLinked(a)
  {
    var d := c.SetFallthrough(a);
    forall b | b in d.target && b !in first.target ensures d.RightTarget(b) { assert c.RightTarget(b); }
    forall b | b in d.fallthrough && b !in first.fallthrough ensures d.RightFall(b) {
      if b in c.fallthrough { assert c.RightFall(b); }
    }
  }

  lemma TargetIsRight(c: Cfg, a: int, first: Cfg)
    requires a in c.insns && c.Right(first) && c.MissedAreMissing()
    ensures var d := c.SetTarget(a); d.Right(first) && d.MissedAreMissing() && c.Below(d) && d.BranchLinked(a)
  {
    var d := c.SetTarget(a);
    forall b | b in d.target && b !in first.target ensures d.RightTarget(b) {
      if b in c.target { assert c.RightTarget(b); }
    }
    forall b | b in d.fallthrough && b !in first.fallthrough ensures d.RightFall(b) { assert c.RightFall(b); }
  }

  lemma LinkedStays(c: Cfg, d: Cfg, a: int)
    requires c.Below(d) && a in c.insns
    ensures c.NextLinked(a) ==> d.NextLinked(a)
    ensures c.BranchLinked(a) ==> d.BranchLinked(a)
  {
  }

  lemma LockIsLinked(c: Cfg, a: int)
    requires a in c.insns
    ensures c.SetTarget(a).LockLinked(a)
  {
  }

  lemma LockStays(c: Cfg, a: int, b: int)
    requires a in c.insns && b in c.insns && a != b && c.LockLinked(b)
    ensures c.SetFallthrough(a).SetTarget(a).insns == c.insns && c.SetFallthrough(a).SetTarget(a).LockLinked(b)
  {
  }

  /** Linking one instruction makes it linked and undoes nothing. */
  lemma LinkOne(c: Cfg, a: int, first: Cfg)
    requires a in c.insns && c.Right(first) && c.MissedAreMissing()
    ensures var d := c.SetFallthrough(a).SetTarget(a);
      d.Right(first) && d.MissedAreMissing() && c.Below(d) && d.Linked(a) && d.LockLinked(a)
  {
    hide Cfg.Right, Cfg.SetTarget, Cfg.SetFallthrough, Cfg.NextLinked, Cfg.BranchLinked, Cfg.LockLinked;
    FallthroughIsRight(c, a, first);
    LockIsLinked(c.SetFallthrough(a), a);
    TargetIsRight(c.SetFallthrough(a), a, first);
    LinkedStays(c.SetFallthrough(a), c.SetFallthrough(a).SetTarget(a), a);
  }

  lemma MoreInsnsAreRight(c: Cfg, insns: map<int, Insn>, first: Cfg)
    requires c.Right(first) && c.insns.Keys <= insns.Keys && forall a | a in c.insns :: insns[a] == c.insns[a]
    ensures c.(insns := insns, missed := {}).Right(first)
  {
    var d := c.(insns := insns, missed := {});
    forall b | b in d.target && b !in first.target ensures d.RightTarget(b) { assert c.RightTarget(b); }
    forall b | b in d.fallthrough && b !in first.fallthrough ensures d.RightFall(b) { assert c.RightFall(b); }
  }

  class PopulateCfg {
    const image: map<int, Insn>    // what can be decoded in an executable section
    var insns: map<int, Insn>
    var fallthrough: map<int, int>
    var target: map<int, int>
    var missed: set<int>

    constructor (image: map<int, Insn>, insns: map<int, Insn>, fallthrough: map<int, int>, target: map<int, int>)
      ensures this.image == image && Now() == Cfg(insns, fallthrough, target, {})
    {
      this.image, this.insns, this.fallthrough, this.target, this.missed := image, insns, fallthrough, target, {};
    }

    function Now(): Cfg
      reads this
    {
      Cfg(insns, fallthrough, target, missed)
    }

    method SetFallthrough(a: int)
      requires a in insns
      modifies this`fallthrough, this`missed
      ensures Now() == old(Now()).SetFallthrough(a)
    {
      if a in fallthrough { return; }
      if insns[a].ends { return; }
      var next := a + insns[a].length;
      if next in insns {
        fallthrough := fallthrough[a := next];
      } else {
        missed := missed + {next};
      }
    }

    method SetTarget(a: int)
      requires a in insns
      modifies this`target, this`missed
      ensures Now() == old(Now()).SetTarget(a)
    {
      if a in target || insns[a].branch == None { return; }
      var to := insns[a].branch.value;
      var found := if to in insns then Some(to) else None;
      if found == None {
        if to - (a + insns[a].length) == 1 && a in fallthrough && fallthrough[a] in insns
            && insns[fallthrough[a]].first == LOCK {
          found := Some(fallthrough[a]);
        }
      }
      if found.Some? {
        target := target[a := found.value];
      } else {
        missed := missed + {to};
      }
    }

    /** One round of linking. */
    method LinkAll(ghost first: Cfg)
      requires Now().Right(first) && missed == {}
      modifies this`fallthrough, this`target, this`missed
      ensures Now().Right(first) && Now().MissedAreMissing() && insns == old(insns)
      ensures forall a | a in insns :: Now().Linked(a) && Now().LockLinked(a)
    {
      hide Cfg.Right, Cfg.SetTarget, Cfg.SetFallthrough, Cfg.NextLinked, Cfg.BranchLinked, Cfg.LockLinked;
      var rest := insns.Keys;
      while rest != {}
        invariant rest <= insns.Keys && Now().Right(first) && Now().MissedAreMissing() && insns == old(insns)
        invariant forall a | a in insns && a !in rest :: Now().Linked(a) && Now().LockLinked(a)
        decreases rest
      {
        var a := AnyOf(rest);
        rest := rest - {a};
        ghost var c := Now();
        LinkOne(c, a, first);
        SetFallthrough(a);
        SetTarget(a);
        forall b | b in insns && b !in rest ensures Now().Linked(b) && Now().LockLinked(b) {
          if b != a {
            LinkedStays(c, Now(), b);
            LockStays(c, a, b);
          }
        }
      }
    }

    /** Adds an instruction for each recorded address that can be decoded, where there is none yet;
        counts the others. */
    method AddNewInstructions() returns (failed: nat)
      requires missed !! insns.Keys
      modifies this`insns
      ensures failed == |missed - image.Keys|
      ensures insns == Discovered(old(insns), missed, image)
    {
      hide Discovered;
      failed := 0;
      var rest := missed;
      NothingDiscovered(insns, image);
      while rest != {}
        invariant rest <= missed && failed == |(missed - rest) - image.Keys|
        invariant insns == Discovered(old(insns), missed - rest, image)
        decreases rest
      {
        var m := AnyOf(rest);
        DiscoverOne(old(insns), missed, rest, m, image);
        rest := rest - {m};
        if m in image {
          assert m !in insns;
          insns := insns[m := image[m]];
        } else {
          failed := failed + 1;
        }
      }
      assert missed - rest == missed;
    }

    /** Rounds of linking and discovery, until one discovers nothing.  Then every direct successor of
        every instruction is linked, or is an address where nothing can be decoded; and so is that of a
        branch past a lock prefix. */
    method FillInCfg()
      modifies this
      ensures Grown(old(insns), insns, image)
      ensures Now().Right(old(Now()))
      ensures forall a | a in insns :: Now().Linked(a) && Now().LockLinked(a)
      ensures missed !! image.Keys && missed !! insns.Keys
    {
      hide Cfg.Right, Cfg.Linked, Cfg.LockLinked, Discovered, Grown;
      GrownAtFirst(insns, image);
      ghost var first, insns0 := Now(), insns;
      var again := true;
      RightAtFirst(first);
      while again
        invariant Grown(insns0, insns, image) && Now().(missed := {}).Right(first)
        invariant !again ==>
                    && Now().Right(first) && (forall a | a in insns :: Now().Linked(a) && Now().LockLinked(a))
                    && missed !! image.Keys && missed !! insns.Keys
        decreases image.Keys - insns.Keys, again
      {
        missed := {};
        LinkAll(first);
        ghost var c := Now();
        var failed := AddNewInstructions();
        again := |missed| > failed;
        RoundDiscovers(insns0, c.insns, missed, image);
        MoreInsnsAreRight(c, insns, first);
      }
    }
  }

  /** What that says of any address: whatever has or could have an instruction is linked, links are to
      where control goes on, and nothing that was there has changed. */
  lemma FilledIn(first: Cfg, c: Cfg, insns0: map<int, Insn>, image: map<int, Insn>, a: int)
    requires c.Right(first) && (forall i | i in c.insns :: c.Linked(i) && c.LockLinked(i))
    requires c.missed !! image.Keys && c.missed !! c.insns.Keys && Grown(insns0, c.insns, image)
    ensures a in insns0 ==> a in c.insns && c.insns[a] == insns0[a]
    ensures a in c.insns && a !in insns0 ==> a in image && c.insns[a] == image[a]
    ensures a in first.fallthrough ==> a in c.fallthrough && c.fallthrough[a] == first.fallthrough[a]
    ensures a in first.target ==> a in c.target && c.target[a] == first.target[a]
    ensures a in c.insns ==>
      var i := c.insns[a];
      && (!i.ends && (a + i.length in c.insns || a + i.length in image) ==> a in c.fallthrough)
      && (i.branch.Some? && (i.branch.value in c.insns || i.branch.value in image) ==> a in c.target)
      && (i.branch == Some(a + i.length + 1) && a in c.fallthrough && c.fallthrough[a] in c.insns
          ==> c.insns[c.fallthrough[a]].first == 0xF0 ==> a in c.target)
    ensures a in c.fallthrough && a !in first.fallthrough ==>
      a in c.insns && !c.insns[a].ends && c.fallthrough[a] == a + c.insns[a].length && c.fallthrough[a] in c.insns
    ensures a in c.target && a !in first.target ==>
      && a in c.insns && c.target[a] in c.insns && c.insns[a].branch.Some?
      && (c.target[a] == c.insns[a].branch.value
          || (c.insns[a].branch.value == a + c.insns[a].length + 1 && a in c.fallthrough
              && c.target[a] == c.fallthrough[a] && c.insns[c.target[a]].first == 0xF0))
  {
  }

  function Discovered(insns: map<int, Insn>, missed: set<int>, image: map<int, Insn>): map<int, Insn> {
    insns + map m | m in missed && m in image :: image[m]
  }

  lemma NothingDiscovered(insns: map<int, Insn>, image: map<int, Insn>)
    ensures Discovered(insns, {}, image) == insns
  {
  }

  lemma DiscoverOne(insns: map<int, Insn>, missed: set<int>, rest: set<int>, m: int, image: map<int, Insn>)
    requires rest <= missed && m in rest && missed !! insns.Keys
    ensures var done := missed - rest; var done' := missed - (rest - {m});
      && m !in Discovered(insns, done, image)
      && Discovered(insns, done', image)
          == (if m in image then Discovered(insns, done, image)[m := image[m]] else Discovered(insns, done, image))
      && |done' - image.Keys| == |done - image.Keys| + (if m in image then 0 else 1)
  {
    hide Discovered;
    var done, done' := missed - rest, missed - (rest - {m});
    assert done' == done + {m} && m !in done;
    assert m !in insns;
    DiscoverMore(insns, done, m, image);
    if m in image {
      assert done' - image.Keys == done - image.Keys;
    } else {
      assert done' - image.Keys == (done - image.Keys) + {m};
    }
  }

  lemma DiscoverMore(insns: map<int, Insn>, done: set<int>, m: int, image: map<int, Insn>)
    requires m !in done && m !in insns
    ensures m !in Discovered(insns, done, image)
    ensures Discovered(insns, done + {m}, image)
            == (if m in image then Discovered(insns, done, image)[m := image[m]] else Discovered(insns, done, image))
  {
    var d, e := Discovered(insns, done, image), Discovered(insns, done + {m}, image);
    assert e.Keys == if m in image then d.Keys + {m} else d.Keys;
  }

  /** Nothing is lost or changed, and what is new was decoded at its address. */
  ghost predicate Grown(insns0: map<int, Insn>, insns: map<int, Insn>, image: map<int, Insn>) {
    && insns0.Keys <= insns.Keys
    && forall a | a in insns :: if a in insns0 then insns[a] == insns0[a] else a in image && insns[a] == image[a]
  }

  lemma GrownAtFirst(insns: map<int, Insn>, image: map<int, Insn>)
    ensures Grown(insns, insns, image)
  {
  }

  lemma RightAtFirst(c: Cfg)
    ensures c.(missed := {}).Right(c)
  {
  }

  /** A round that misses something decodable leaves fewer addresses to discover; one that does not
      changes no instruction. */
  lemma RoundDiscovers(insns0: map<int, Insn>, insns: map<int, Insn>, missed: set<int>, image: map<int, Insn>)
    requires missed !! insns.Keys && Grown(insns0, insns, image)
    ensures var next := Discovered(insns, missed, image);
      && Grown(insns0, next, image) && insns.Keys <= next.Keys && (forall a | a in insns :: next[a] == insns[a])
      && (if |missed| > |missed - image.Keys| then image.Keys - next.Keys < image.Keys - insns.Keys
          else next == insns && missed !! image.Keys)
  {
    hide Discovered, Grown;
    var next := Discovered(insns, missed, image);
    DiscoveredKeys(insns, missed, image);
    GrownMore(insns0, insns, next, image);
    RoundOfSets(insns.Keys, next.Keys, missed, image.Keys);
    if next.Keys == insns.Keys { assert next == insns; }
  }

  lemma RoundOfSets(before: set<int>, after: set<int>, missed: set<int>, found: set<int>)
    requires missed !! before && after == before + (missed * found)
    ensures if |missed| > |missed - found| then found - after < found - before else after == before && missed !! found
  {
    MissedSplit(missed, found);
    if missed * found == {} {
      assert after == before;
    } else {
      SomeFound(before, after, missed, found);
    }
  }

  lemma SomeFound(before: set<int>, after: set<int>, missed: set<int>, found: set<int>)
    requires missed !! before && after == before + (missed * found) && missed * found != {}
    ensures found - after < found - before
  {
    var d := missed * found;
    assert (found - before) - (found - after) == d;
  }

  lemma GrownMore(insns0: map<int, Insn>, insns: map<int, Insn>, next: map<int, Insn>, image: map<int, Insn>)
    requires Grown(insns0, insns, image) && insns.Keys <= next.Keys
    requires forall a | a in next :: if a in insns then next[a] == insns[a] else a in image && next[a] == image[a]
    ensures Grown(insns0, next, image)
  {
  }

  lemma DiscoveredKeys(insns: map<int, Insn>, missed: set<int>, image: map<int, Insn>)
    requires missed !! insns.Keys
    ensures var next := Discovered(insns, missed, image);
      && next.Keys == insns.Keys + (missed * image.Keys)
      && forall a | a in next :: if a in insns then next[a] == insns[a] else a in image && next[a] == image[a]
  {
  }

  lemma MissedSplit(missed: set<int>, found: set<int>)
    ensures |missed| == |missed - found| + |missed * found|
    ensures |missed| > |missed - found| <==> missed * found != {}
  {
    assert missed == (missed - found) + missed * found;
  }
}
