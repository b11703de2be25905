/** Call frame programs (section 6.4 of DWARF 5): what they mean, and what is left of that when a
    program is sliced for a single instruction address. */
module CallFrames {
  import opened Common
  import opened LittleEndian

  datatype Cfa = Undefined | RegOffset(reg: nat, offset: int) | Expression(expr: seq<Byte>)

  /** One row of the table of section 6.4.1: how to find the frame address, and a rule, kept in its
      encoded form, for each register that has one. */
  datatype Row = Row(cfa: Cfa, rules: map<nat, seq<Byte>>)

  datatype Insn =
    | Advance(delta: nat)  // advance_loc, before the code alignment factor is applied
    | Nop
    | RememberState
    | RestoreState
    | DefCfa(reg: nat, offset: int)
    | DefCfaRegister(reg: nat)
    | DefCfaOffset(offset: int)
    | DefCfaExpression(expr: seq<Byte>)
    | SetRule(reg: nat, rule: seq<Byte>)
    | RestoreRule(reg: nat)

  datatype State = State(initial: Row, row: Row, saved: seq<Row>)

  function WithCfa(s: State, cfa: Cfa): State { s.(row := s.row.(cfa := cfa)) }

  function WithRules(s: State, rules: map<nat, seq<Byte>>): State { s.(row := s.row.(rules := rules)) }

  /** One instruction (sections 6.4.2.1 to 6.4.2.4).  `None` if it is not valid here: a state to
      restore that was never saved, or an offset for a frame address that is not a register plus an
      offset. */
  function Step(i: Insn, s: State): Option<State> {
    match i
    case Advance(_) => Some(s)
    case Nop => Some(s)
    case RememberState => Some(s.(saved := [s.row] + s.saved))
    case RestoreState => if s.saved == [] then None else Some(s.(row := s.saved[0], saved := s.saved[1..]))
    case DefCfa(reg, offset) => Some(WithCfa(s, RegOffset(reg, offset)))
    case DefCfaRegister(reg) =>
      if s.row.cfa.RegOffset? then Some(WithCfa(s, RegOffset(reg, s.row.cfa.offset))) else None
    case DefCfaOffset(offset) =>
      if s.row.cfa.RegOffset? then Some(WithCfa(s, RegOffset(s.row.cfa.reg, offset))) else None
    case DefCfaExpression(expr) => Some(WithCfa(s, Expression(expr)))
    case SetRule(reg, rule) => Some(WithRules(s, s.row.rules[reg := rule]))
    case RestoreRule(reg) =>
      Some(WithRules(s, if reg in s.initial.rules then s.row.rules[reg := s.initial.rules[reg]]
                     else s.row.rules - {reg}))
  }

  function Run(pgm: seq<Insn>, s: State): Option<State>
    decreases |pgm|
  {
    if pgm == [] then Some(s)
    else match Run(pgm[..|pgm| - 1], s)
      case None => None
      case Some(t) => Step(pgm[|pgm| - 1], t)
  }

  /** The part of a program that is in force at `addr` (section 6.4.3): everything before the first
      advance that goes beyond it. */
  function InForce(pgm: seq<Insn>, loc: nat, caf: nat, addr: nat): (n: nat)
    ensures n <= |pgm|
    decreases |pgm|
  {
    if pgm == [] then 0
    else if pgm[0].Advance? then
      if loc + pgm[0].delta * caf > addr then 0
      else 1 + InForce(pgm[1..], loc + pgm[0].delta * caf, caf, addr)
    else 1 + InForce(pgm[1..], loc, caf, addr)
  }

  /** How far the advances of a program go. */
  function Advanced(pgm: seq<Insn>, caf: nat): nat {
    if pgm == [] then 0
    else (if pgm[0].Advance? then pgm[0].delta * caf else 0) + Advanced(pgm[1..], caf)
  }

  /** The part in force does not advance beyond the address, and what comes next does. */
  lemma {:induction false} InForceEnds(pgm: seq<Insn>, loc: nat, caf: nat, addr: nat)
    requires loc <= addr
    ensures var n := InForce(pgm, loc, caf, addr);
      && loc + Advanced(pgm[..n], caf) <= addr
      && (n < |pgm| ==> pgm[n].Advance? && loc + Advanced(pgm[..n], caf) + pgm[n].delta * caf > addr)
    decreases |pgm|
  {
    var n := InForce(pgm, loc, caf, addr);
    if n > 0 {
      var next := if pgm[0].Advance? then loc + pgm[0].delta * caf else loc;
      InForceEnds(pgm[1..], next, caf, addr);
      assert pgm[..n][1..] == pgm[1..][..n - 1];
    }
  }

  // ----- the table a program stands for

  datatype Entry = Entry(loc: nat, row: Row)

  /** Every row the program creates, with the location at which it starts to apply. */
  function Table(pgm: seq<Insn>, loc: nat, caf: nat, s: State): (t: seq<Entry>)
    ensures |t| > 0 && t[0].loc == loc
    decreases |pgm|
  {
    if pgm == [] then [Entry(loc, s.row)]
    else if pgm[0].Advance? then [Entry(loc, s.row)] + Table(pgm[1..], loc + pgm[0].delta * caf, caf, s)
    else match Step(pgm[0], s)
      case None => [Entry(loc, s.row)]
      case Some(t) => Table(pgm[1..], loc, caf, t)
  }

  /** The row for an address: the last one that starts at or before it. */
  function Lookup(t: seq<Entry>, addr: nat): Row
    requires t != [] && t[0].loc <= addr
    decreases |t|
  {
    if |t| == 1 || t[1].loc > addr then t[0].row else Lookup(t[1..], addr)
  }

  /** A row that starts at or before the address, and the next one does not. */
  lemma {:induction false} LookupEnds(t: seq<Entry>, addr: nat) returns (i: nat)
    requires t != [] && t[0].loc <= addr
    ensures i < |t| && Lookup(t, addr) == t[i].row && t[i].loc <= addr && (i + 1 < |t| ==> t[i + 1].loc > addr)
    decreases |t|
  {
    if |t| == 1 || t[1].loc > addr {
      i := 0;
    } else {
      var j := LookupEnds(t[1..], addr);
      i := j + 1;
    }
  }

  lemma {:induction false} RunFront(pgm: seq<Insn>, s: State)
    requires pgm != []
    ensures Run(pgm, s) == match Step(pgm[0], s) case None => None case Some(t) => Run(pgm[1..], t)
    decreases |pgm|
  {
    if |pgm| == 1 {
      assert pgm[..0] == [];
    } else {
      var n := |pgm| - 1;
      RunFront(pgm[..n], s);
      assert pgm[..n][1..] == pgm[1..][..n - 1];
      assert pgm[1..][n - 1] == pgm[n];
    }
  }

  lemma {:induction false} RunJoin(a: seq<Insn>, b: seq<Insn>, s: State)
    ensures Run(a + b, s) == match Run(a, s) case None => None case Some(t) => Run(b, t)
    decreases |b|
  {
    if b == [] {
      assert a + b == a;
    } else {
      var n := |b| - 1;
      RunJoin(a, b[..n], s);
      assert (a + b)[..|a + b| - 1] == a + b[..n];
    }
  }

  /** The table gives the row that the part in force computes. */
  lemma {:induction false} TableAgrees(pgm: seq<Insn>, loc: nat, caf: nat, s: State, addr: nat)
    requires loc <= addr && Run(pgm[..InForce(pgm, loc, caf, addr)], s).Some?
    ensures Lookup(Table(pgm, loc, caf, s), addr) == Run(pgm[..InForce(pgm, loc, caf, addr)], s).value.row
    decreases |pgm|
  {
    var n := InForce(pgm, loc, caf, addr);
    if pgm == [] {
      assert pgm[..n] == [];
    } else if pgm[0].Advance? && loc + pgm[0].delta * caf > addr {
      assert pgm[..n] == [];
    } else {
      var next := if pgm[0].Advance? then loc + pgm[0].delta * caf else loc;
      RunFront(pgm[..n], s);
      assert pgm[..n][1..] == pgm[1..][..n - 1];
      TableAgrees(pgm[1..], next, caf, Step(pgm[0], s).value, addr);
      if pgm[0].Advance? {
        assert Table(pgm, loc, caf, s)[1..] == Table(pgm[1..], next, caf, s);
      }
    }
  }
}
