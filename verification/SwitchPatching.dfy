/** What the unpinner makes of the entries of a type-4 table, and where the switch then goes. */
module SwitchPatching {
  import U = UnpinScoops
  import opened LittleEndian
  import opened Modular

  /** The unpinner adds to a 32-bit entry the addend, cut off at 32 bits, and the new location of the
      instruction. */
  function Patched(entry: nat, addend: int, newLoc: int): nat { (entry + addend % TWO_32 + newLoc) % TWO_32 }

  /** That is what patching scoops does to an entry whose instruction may move. */
  lemma PatchedInScoop(r: U.ScoopReloc, entry: nat, t: U.Relocating.Table<U.MoveGlobals.DataScoop>, code: U.Code)
    requires r.SwitchEntry? && r.insn in code.loc && r.insn !in code.pinned
    ensures U.NewWord(r, entry, t, code) % Pow256(r.Width(8)) == Patched(entry, r.addend, code.loc[r.insn])
  {
    Pow4();
  }

  /** Where a switch goes: it adds the entry to `base`.  The table need not start there, because
      the load of the entry can have a displacement from `base`. */
  function GoesTo(base: int, entry: nat): int { base + Signed32(entry) }

  /** The address an entry is looked up as when it is unpinned: a distance from the start of its
      table. */
  function LookedUp(tableStart: int, entry: nat): int { tableStart + Signed32(entry) }

  /** The relocation names the instruction found at the looked-up address, which goes to
      `loc[..]`.  A patched entry makes the switch go there exactly when the table starts at the base
      of the dispatch, modulo 2^32; and it makes the switch go where the instruction it used to
      reach has gone exactly when the two instructions have moved so as to make up for the
      displacement. */
  lemma Type4PatchIff(entry: nat, base: int, displ: int, loc: map<int, int>)
    requires entry < TWO_32 && LookedUp(base + displ, entry) in loc
    ensures var was := LookedUp(base + displ, entry); var p := Patched(entry, -was, loc[was]);
      && (GoesTo(base, p) % TWO_32 == loc[was] % TWO_32 <==> displ % TWO_32 == 0)
      && (GoesTo(base, entry) in loc ==>
            (GoesTo(base, p) % TWO_32 == loc[GoesTo(base, entry)] % TWO_32
             <==> (loc[was] - displ - loc[GoesTo(base, entry)]) % TWO_32 == 0))
  {
    var was := LookedUp(base + displ, entry);
    var p := Patched(entry, -was, loc[was]);
    assert p == (loc[was] - base - displ) % TWO_32;
    SignedIff(loc[was] - base - displ);
    GoesToMod(base, loc[was] - base - displ);
    SameModIff(loc[was] - displ, displ, TWO_32);
    if GoesTo(base, entry) in loc {
      SameModIff(loc[GoesTo(base, entry)], loc[was] - displ - loc[GoesTo(base, entry)], TWO_32);
    }
  }

  lemma GoesToMod(base: int, x: int)
    ensures GoesTo(base, x % TWO_32) % TWO_32 == (base + x) % TWO_32
  {
    SignedIff(x);
    ModTwice(Signed32(x % TWO_32), base, TWO_32);
    ModTwice(x, base, TWO_32);
  }

  /** With no displacement the switch reaches the new location itself, not only modulo 2^32, exactly
      when that is within 32 signed bits of the table. */
  lemma Type4ExactIff(entry: nat, base: int, newLoc: int)
    requires entry < TWO_32
    ensures GoesTo(base, Patched(entry, -LookedUp(base, entry), newLoc)) == newLoc <==> FitsInt32(newLoc - base)
  {
    assert Patched(entry, -LookedUp(base, entry), newLoc) == (newLoc - base) % TWO_32;
    SignedIff(newLoc - base);
  }

  /** A switch over a table that starts 0x40 after its base.  Its first entry leads to 0x1200, but is
      taken to lead to 0x1240.  Once the instruction there is at 0x6000, the entry leads to 0x5fc0,
      where neither of the two is. */
  lemma DisplacedTable()
    ensures GoesTo(0x1000, 0x200) == 0x1200 && LookedUp(0x1040, 0x200) == 0x1240
    ensures GoesTo(0x1000, Patched(0x200, -0x1240, 0x6000)) == 0x5fc0
  {
  }
}
