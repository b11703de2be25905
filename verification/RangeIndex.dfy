/** Ordered containers keyed by address range, where one range comes before another if it ends
    before the other starts; and walking such an index to tie neighbouring scoops together. */
module RangeIndex {
  import opened Common
  import opened Coalescing
  import opened Components

  datatype Range = Range(first: int, last: int)

  predicate Less(a: Range, b: Range) { a.last < b.first }

  predicate Has(r: Range, x: int) { r.first <= x <= r.last }

  datatype Entry<+Id> = Entry(range: Range, value: Id)

  ghost predicate Sorted<Id>(index: seq<Entry<Id>>) {
    && (forall i :: 0 <= i < |index| ==> index[i].range.first <= index[i].range.last)
    && (forall i, j :: 0 <= i < j < |index| ==> Less(index[i].range, index[j].range))
  }

  /** What a lookup should find: the value of the first entry whose range has `x`. */
  function Scan<Id>(index: seq<Entry<Id>>, x: int): Option<Id> {
    if index == [] then None
    else if Has(index[0].range, x) then Some(index[0].value)
    else Scan(index[1..], x)
  }

  lemma {:induction false} ScanFinds<Id>(index: seq<Entry<Id>>, x: int, i: nat)
    requires Sorted(index) && i < |index| && Has(index[i].range, x)
    ensures Scan(index, x) == Some(index[i].value)
  {
    if i > 0 {
      assert Less(index[0].range, index[i].range);
      ScanFinds(index[1..], x, i - 1);
    }
  }

  lemma {:induction false} ScanMisses<Id>(index: seq<Entry<Id>>, x: int)
    ensures Scan(index, x) == None <==> forall i :: 0 <= i < |index| ==> !Has(index[i].range, x)
  {
    if index != [] {
      ScanMisses(index[1..], x);
      assert forall i :: 0 < i < |index| ==> index[i] == index[1..][i - 1];
      if i :| 0 <= i < |index| && Has(index[i].range, x) {
        assert i > 0 ==> Has(index[1..][i - 1].range, x);
      }
    }
  }

  lemma {:induction false} ScanIsEntry<Id>(index: seq<Entry<Id>>, x: int) returns (i: nat)
    requires Scan(index, x).Some?
    ensures i < |index| && Has(index[i].range, x) && Scan(index, x) == Some(index[i].value)
  {
    if Has(index[0].range, x) {
      i := 0;
    } else {
      i := ScanIsEntry(index[1..], x);
      i := i + 1;
    }
  }

  /** Looking a point up with nothing but the order between ranges finds what a scan finds. */
  method Find<Id>(index: seq<Entry<Id>>, x: int) returns (found: Option<Id>)
    requires Sorted(index)
    ensures found == Scan(index, x)
  {
    var point := Range(x, x);
    var lo, hi := 0, |index|;
    while lo < hi
      invariant 0 <= lo <= hi <= |index|
      invariant forall i :: 0 <= i < lo || hi <= i < |index| ==> !Has(index[i].range, x)
    {
      var mid := (lo + hi) / 2;
      if Less(index[mid].range, point) {
        lo := mid + 1;
      } else if Less(point, index[mid].range) {
        hi := mid;
      } else {
        ScanFinds(index, x, mid);
        return Some(index[mid].value);
      }
    }
    ScanMisses(index, x);
    return None;
  }

  // ----- ranges of frame descriptions

  predicate Overlap(a: Range, b: Range) { !Less(a, b) && !Less(b, a) }

  class FdeRanges {
    var ranges: seq<Entry<Range>>

    constructor ()
      ensures ranges == []
    {
      ranges := [];
    }

    ghost predicate Valid()
      reads this
    {
      Sorted(ranges) && forall i :: 0 <= i < |ranges| ==> ranges[i].value == ranges[i].range
    }

    /** Records the addresses above `a` up to and including `b`.  An empty range is skipped; one
        that overlaps a range already there is not inserted, which the order cannot tell from a
        range that is already there. */
    method Add(a: int, b: int)
      requires Valid() && a <= b && (a < b ==> Scan(ranges, a + 1) == None)
      modifies this
      ensures Valid()
      ensures var r := Range(a + 1, b);
              var clear := a < b && forall e | e in old(ranges) :: e.range.last <= a || b < e.range.first;
              if !clear then ranges == old(ranges)
              else exists i | 0 <= i <= |old(ranges)| :: ranges == old(ranges)[..i] + [Entry(r, r)] + old(ranges)[i..]
    {
      if a == b { return; }
      assert a < b;
      var rangeiter := Find(ranges, a + 1);
      assert rangeiter == None;
      var r := Range(a + 1, b);
      var i := Position(r);
      if i < |ranges| && !Less(r, ranges[i].range) {
        assert Overlap(ranges[i].range, r) && ranges[i] in ranges;
        return;
      }
      InsertKeepsSorted(ranges, i, Entry(r, r));
      ranges := ranges[..i] + [Entry(r, r)] + ranges[i..];
    }

    /** The first place that `r` does not come after. */
    method Position(r: Range) returns (i: nat)
      ensures i <= |ranges| && (forall j :: 0 <= j < i ==> Less(ranges[j].range, r))
              && (i < |ranges| ==> !Less(ranges[i].range, r))
    {
      i := 0;
      while i < |ranges| && Less(ranges[i].range, r)
        invariant 0 <= i <= |ranges| && forall j :: 0 <= j < i ==> Less(ranges[j].range, r)
      {
        i := i + 1;
      }
    }
  }

  lemma InsertKeepsSorted<Id>(index: seq<Entry<Id>>, i: nat, e: Entry<Id>)
    requires Sorted(index) && i <= |index| && e.range.first <= e.range.last
    requires (forall j :: 0 <= j < i ==> Less(index[j].range, e.range))
             && (i < |index| ==> Less(e.range, index[i].range))
    ensures Sorted(index[..i] + [e] + index[i..])
    ensures forall d | d in index :: !Overlap(d.range, e.range)
  {
  }

  // ----- tying neighbours

  function Min(a: int, b: int): int { if a < b then a else b }
  function Max(a: int, b: int): int { if a < b then b else a }

  ghost predicate Covers<Id>(index: seq<Entry<Id>>, scoops: map<Id, Scoop>) {
    && Sorted(index)
    && (forall i :: 0 <= i < |index| ==>
          index[i].value in scoops && index[i].range == Range(scoops[index[i].value].start, scoops[index[i].value].end))
  }

  /** Scoops found at neighbouring addresses are the same or touch. */
  lemma NeighboursTouch<Id>(index: seq<Entry<Id>>, scoops: map<Id, Scoop>, x: int, s: Id, t: Id)
    requires Covers(index, scoops) && Scan(index, x) == Some(s) && Scan(index, x + 1) == Some(t)
    ensures s in scoops && t in scoops && (s == t || Touch(scoops[s], scoops[t]))
  {
    var i := ScanIsEntry(index, x);
    var j := ScanIsEntry(index, x + 1);
    if i < j { assert Less(index[i].range, index[j].range); }
  }

  class TieWalk<Id(==)> {
    const index: seq<Entry<Id>>
    const moveable: set<Id>
    const untieable: set<Id>
    var tied: set<(Id, Id)>

    constructor (index: seq<Entry<Id>>, moveable: set<Id>, untieable: set<Id>, tied: set<(Id, Id)>)
      ensures this.index == index && this.moveable == moveable && this.untieable == untieable && this.tied == tied
    {
      this.index, this.moveable, this.untieable, this.tied := index, moveable, untieable, tied;
    }

    function ShouldTie(x: int, prev: Id): Option<Id> {
      match Scan(index, x)
      case None => None
      case Some(s) => if s in untieable || (prev !in moveable && s !in moveable) then None else Some(s)
    }

    /** The scoops at `x` and behind it are the same or tied. */
    predicate SameOrTied(tied: set<(Id, Id)>, x: int) {
      && Scan(index, x).Some? && Scan(index, x + 1).Some?
      && (Scan(index, x) == Scan(index, x + 1) || (Scan(index, x).value, Scan(index, x + 1).value) in tied)
    }

    /** Ties the scoops met on the way from `addr`, which lies in `candidate`, to `addr` + `offset`,
        stopping early at an address that has no tieable scoop. */
    method Walk(candidate: Id, addr: int, offset: int, ghost scoops: map<Id, Scoop>) returns (last: Id, reached: int)
      requires offset != 0 && Covers(index, scoops) && Scan(index, addr) == Some(candidate)
      modifies this
      ensures old(tied) <= tied
      ensures forall p | p in tied - old(tied) :: p.0 in scoops && p.1 in scoops && Touch(scoops[p.0], scoops[p.1])
      ensures Scan(index, addr + reached) == Some(last) && Linked(scoops.Keys, tied, candidate, last)
      ensures if offset < 0 then offset <= reached <= 0 else 0 <= reached <= offset
      ensures reached != offset ==>
                var next := Scan(index, addr + reached + (if offset < 0 then -1 else 1));
                next == None || next.value in untieable || (last !in moveable && next.value !in moveable)
      ensures forall p | p in tied - old(tied) :: p.0 in moveable || p.1 in moveable
      ensures forall p | p in tied - old(tied) ::
                (p.0 in untieable ==> p.0 == candidate) && (p.1 in untieable ==> p.1 == candidate)
      ensures forall x | Min(addr, addr + reached) <= x < Max(addr, addr + reached) :: SameOrTied(tied, x)
    {
      var prev := candidate;
      var i, step := 0, if offset < 0 then -1 else 1;
      while i != offset
        invariant if offset < 0 then offset <= i <= 0 else 0 <= i <= offset
        invariant Scan(index, addr + i) == Some(prev)
        invariant old(tied) <= tied && Linked(scoops.Keys, tied, candidate, prev)
        invariant forall p | p in tied - old(tied) :: p.0 in scoops && p.1 in scoops && Touch(scoops[p.0], scoops[p.1])
        invariant forall p | p in tied - old(tied) :: p.0 in moveable || p.1 in moveable
        invariant prev in untieable ==> prev == candidate
        invariant forall p | p in tied - old(tied) ::
                    (p.0 in untieable ==> p.0 == candidate) && (p.1 in untieable ==> p.1 == candidate)
        invariant forall x | Min(addr, addr + i) <= x < Max(addr, addr + i) :: SameOrTied(tied, x)
        decreases if offset < 0 then i - offset else offset - i
      {
        var here := ShouldTie(addr + i + step, prev);
        if here == None { break; }
        if here.value != prev {
          var p := if offset < 0 then (here.value, prev) else (prev, here.value);
          NeighboursTouch(index, scoops, if offset < 0 then addr + i - 1 else addr + i, p.0, p.1);
          assert Touch(scoops[p.0], scoops[p.1]);
          TieLinks(scoops.Keys, tied, candidate, prev, p, here.value);
          ghost var before := tied;
          tied := tied + {p};
          forall x | SameOrTied(before, x) ensures SameOrTied(tied, x) {}
        }
        prev := here.value;
        i := i + step;
      }
      return prev, i;
    }
  }

  lemma TieLinks<Id>(all: set<Id>, ties: set<(Id, Id)>, s: Id, t: Id, p: (Id, Id), u: Id)
    requires Linked(all, ties, s, t) && (p == (t, u) || p == (u, t))
    ensures Linked(all, ties + {p}, s, u)
  {
    forall c | c <= all && Closed(c, ties + {p}) ensures s in c <==> u in c {
      assert p in ties + {p};
      forall q | q in ties ensures q.0 in c <==> q.1 in c { assert q in ties + {p}; }
      assert Closed(c, ties);
    }
  }
}
