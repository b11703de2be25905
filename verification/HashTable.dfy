/** A chained hash table with a compare function of its own, against the set of its entries. */
module HashTable {
  import opened Common
  import opened Modular

  datatype Entry<+K, +V> = Entry(key: K, value: V)

  /** A compare function that is an equivalence and under which equal keys have equal hash codes. */
  ghost predicate Consistent<K(!new)>(hash: K -> int, same: (K, K) -> bool) {
    && (forall a :: same(a, a))
    && (forall a, b :: same(a, b) ==> same(b, a))
    && (forall a, b, c :: same(a, b) && same(b, c) ==> same(a, c))
    && (forall a, b :: same(a, b) ==> hash(a) == hash(b))
  }

  predicate PowerOfTwo(n: nat) { n == 1 || (n > 0 && n % 2 == 0 && PowerOfTwo(n / 2)) }

  /** Bitwise conjunction. */
  function And(a: nat, b: nat): (r: nat)
    ensures r <= b
  {
    if a == 0 || b == 0 then 0 else 2 * And(a / 2, b / 2) + (if a % 2 == 1 && b % 2 == 1 then 1 else 0)
  }

  /** How many values a hash code, a 64-bit number, can have. */
  const LONG_RANGE: int := 0x1_0000_0000_0000_0000

  /** The hash code, a 64-bit number in two's complement, masked with one less than the length.  That
      an entry stays in its chain does not depend on what the mask does; that all chains are used
      does. */
  function Index(h: int, length: nat): (i: nat)
    requires length > 0
    ensures i < length
  {
    And(h % LONG_RANGE, length - 1)
  }

  lemma AndOdd(a: nat, m: nat)
    requires m > 0
    ensures And(a, 2 * m - 1) == 2 * And(a / 2, m - 1) + a % 2
  {
    assert (2 * m - 1) / 2 == m - 1 && (2 * m - 1) % 2 == 1;
  }

  /** For a length that is a power of two, the mask leaves the remainder. */
  lemma {:induction false} AndIsRemainder(a: nat, n: nat)
    requires PowerOfTwo(n)
    ensures And(a, n - 1) == a % n
    decreases n
  {
    if n > 1 {
      var m := n / 2;
      AndIsRemainder(a / 2, m);
      hide And;
      AndOdd(a, m);
      RemainderOfHalf(a, m);
    }
  }

  lemma RemainderOfHalf(a: nat, m: nat)
    requires m > 0
    ensures a % (2 * m) == 2 * (a / 2 % m) + a % 2
  {
    var q, r := a / 2 / m, a / 2 % m;
    assert a / 2 == m * q + r;
    assert a == (2 * m) * q + (2 * r + a % 2);
    ModUnique(a, q, 2 * r + a % 2, 2 * m);
  }

  /** Of the hash code itself, also of a negative one. */
  lemma IndexIsRemainder(h: int, n: nat)
    requires PowerOfTwo(n) && n <= LONG_RANGE
    ensures Index(h, n) == h % n
  {
    AndIsRemainder(h % LONG_RANGE, n);
    Pow64();
    var m := PowersDivide(n, LONG_RANGE);
    hide And, PowerOfTwo;
    MultipleOf(h, n, m, LONG_RANGE);
  }

  lemma MultipleOf(h: int, n: nat, m: nat, big: nat)
    requires n > 0 && big == n * m && big > 0
    ensures h % big % n == h % n
  {
    var k, r := h / big, h % big;
    assert h == big * k + r;
    assert big * k == n * (m * k);
    ModShift(r, m * k, n);
  }

  lemma {:induction false} PowersMultiply(n: nat, m: nat)
    requires PowerOfTwo(n) && PowerOfTwo(m)
    ensures PowerOfTwo(n * m)
    decreases n
  {
    if n > 1 {
      var k := n / 2;
      PowersMultiply(k, m);
      assert n * m == 2 * (k * m);
      assert (n * m) / 2 == k * m;
    }
  }

  lemma Pow64()
    ensures PowerOfTwo(LONG_RANGE)
  {
    assert PowerOfTwo(2) && PowerOfTwo(4);
    hide PowerOfTwo;
    PowersMultiply(4, 4);
    PowersMultiply(0x10, 0x10);
    PowersMultiply(0x100, 0x100);
    PowersMultiply(0x1_0000, 0x1_0000);
    PowersMultiply(0x1_0000_0000, 0x1_0000_0000);
  }

  /** The smaller of two powers of two divides the larger. */
  lemma {:induction false} PowersDivide(n: nat, m: nat) returns (q: nat)
    requires PowerOfTwo(n) && PowerOfTwo(m) && n <= m
    ensures m == n * q
    decreases n
  {
    if n == 1 {
      q := m;
    } else {
      q := PowersDivide(n / 2, m / 2);
    }
  }

  type Table<K, V> = seq<seq<Entry<K, V>>>

  /** `contents` are the entries of `t`: each is in the chain its hash code says and in no other, and
      no chain has two entries with the same key. */
  ghost predicate Stores<K(!new), V(!new)>(hash: K -> int, same: (K, K) -> bool, t: Table<K, V>,
                                           contents: set<Entry<K, V>>) {
    && |t| > 0
    && (forall e | e in contents :: e in t[Index(hash(e.key), |t|)])
    && (forall i, e | 0 <= i < |t| && e in t[i] :: e in contents && Index(hash(e.key), |t|) == i)
    && (forall i | 0 <= i < |t| :: Distinct(same, t[i]))
  }

  ghost predicate Distinct<K, V>(same: (K, K) -> bool, c: seq<Entry<K, V>>) {
    forall a, b :: 0 <= a < b < |c| ==> !same(c[a].key, c[b].key)
  }

  /** No two entries anywhere have the same key. */
  lemma OneEntryPerKey<K(!new), V(!new)>(hash: K -> int, same: (K, K) -> bool, t: Table<K, V>,
                                         contents: set<Entry<K, V>>,
                                         d: Entry<K, V>, e: Entry<K, V>)
    requires Consistent(hash, same) && Stores(hash, same, t, contents) && d in contents && e in contents
             && same(d.key, e.key)
    ensures d == e
  {
    var c := t[Index(hash(d.key), |t|)];
    assert Distinct(same, c) && d in c && e in c;
    var a :| 0 <= a < |c| && c[a] == d;
    var b :| 0 <= b < |c| && c[b] == e;
    assert same(e.key, d.key);
  }

  /** What a lookup should give: the value of the entry with that key, if there is one. */
  ghost predicate Answer<K(!new), V(!new)>(same: (K, K) -> bool, contents: set<Entry<K, V>>, key: K, r: Option<V>) {
    match r
    case None => forall e | e in contents :: !same(e.key, key)
    case Some(v) => exists e | e in contents :: same(e.key, key) && e.value == v
  }

  /** `after` is `before` with `value` stored for `key`. */
  ghost predicate Updated<K(!new), V(!new)>(same: (K, K) -> bool, before: set<Entry<K, V>>, after: set<Entry<K, V>>,
                                            key: K, value: V) {
    if Answer(same, before, key, None) then after == before + {Entry(key, value)}
    else exists e | e in before :: same(e.key, key) && after == before - {e} + {Entry(e.key, value)}
  }

  lemma AddToChain<K(!new), V(!new)>(hash: K -> int, same: (K, K) -> bool, t: Table<K, V>, contents: set<Entry<K, V>>,
                                     e: Entry<K, V>)
    requires Consistent(hash, same) && Stores(hash, same, t, contents) && Answer(same, contents, e.key, None)
    ensures var i := Index(hash(e.key), |t|); Stores(hash, same, t[i := [e] + t[i]], contents + {e})
  {
    hide Index;
    var i := Index(hash(e.key), |t|);
    var c := [e] + t[i];
    assert Distinct(same, t[i]);
    forall b | 0 < b < |c| ensures !same(c[0].key, c[b].key) {
      assert c[b] in t[i] && c[b] in contents;
      assert !same(c[b].key, e.key);
    }
    var u := t[i := c];
    forall d | d in contents + {e} ensures d in u[Index(hash(d.key), |u|)] {
      if d != e { assert d in t[Index(hash(d.key), |t|)]; }
    }
    forall j, d | 0 <= j < |u| && d in u[j] ensures d in contents + {e} && Index(hash(d.key), |u|) == j {
      if d != e { assert d in t[j]; }
    }
  }

  lemma ReplaceInChain<K(!new), V(!new)>(hash: K -> int, same: (K, K) -> bool, t: Table<K, V>,
                                         contents: set<Entry<K, V>>,
                                         i: nat, p: nat, value: V)
    requires Consistent(hash, same) && Stores(hash, same, t, contents) && i < |t| && p < |t[i]|
    ensures var e := t[i][p]; var e' := Entry(e.key, value);
            e in contents && Stores(hash, same, t[i := t[i][p := e']], contents - {e} + {e'})
  {
    hide Index;
    var e := t[i][p];
    var e', c := Entry(e.key, value), t[i][p := Entry(e.key, value)];
    assert e in t[i] && Distinct(same, t[i]);
    var u := t[i := c];
    forall d | d in contents - {e} + {e'} ensures d in u[Index(hash(d.key), |u|)] {
      if d == e' {
        assert c[p] == e';
      } else {
        assert d in t[Index(hash(d.key), |t|)];
        if Index(hash(d.key), |t|) == i { StillThere(t[i], p, e', d); }
      }
    }
    forall j, d | 0 <= j < |u| && d in u[j] ensures d in contents - {e} + {e'} && Index(hash(d.key), |u|) == j {
      if j != i {
        assert d in t[j];
        assert Index(hash(e.key), |t|) == i;
      } else {
        var k :| 0 <= k < |c| && c[k] == d;
        if k != p { assert t[i][k] == d; assert d in t[i]; NotTwice(same, t[i], k, p); }
      }
    }
  }

  lemma StillThere<T>(c: seq<T>, p: nat, x: T, d: T)
    requires p < |c| && d in c && d != c[p]
    ensures d in c[p := x]
  {
    var k :| 0 <= k < |c| && c[k] == d;
    assert c[p := x][k] == d;
  }

  lemma NotTwice<K, V>(same: (K, K) -> bool, c: seq<Entry<K, V>>, k: nat, p: nat)
    requires Distinct(same, c) && k < |c| && p < |c| && k != p && same(c[p].key, c[p].key)
    ensures c[k] != c[p]
  {
  }

  const INITIAL_CAPACITY: nat := 128

  lemma InitialIsPowerOfTwo()
    ensures PowerOfTwo(INITIAL_CAPACITY)
  {
    assert PowerOfTwo(8);
    assert PowerOfTwo(32);
  }

  lemma DoubleIsPowerOfTwo(n: nat)
    requires PowerOfTwo(n)
    ensures PowerOfTwo(n * 2)
  {
  }

  /** The entries of the chains behind chain `i`, and the first `n` of that one. */
  ghost function Moved<K(!new), V(!new)>(hash: K -> int, t: Table<K, V>, contents: set<Entry<K, V>>, i: nat,
                                         n: nat): set<Entry<K, V>>
    requires i < |t| && n <= |t[i]|
  {
    set e | e in contents && (Index(hash(e.key), |t|) > i || (Index(hash(e.key), |t|) == i && e in t[i][..n]))
  }

  lemma MovedNext<K(!new), V(!new)>(hash: K -> int, same: (K, K) -> bool, t: Table<K, V>, contents: set<Entry<K, V>>,
                                    i: nat, n: nat)
    requires Consistent(hash, same) && Stores(hash, same, t, contents) && i < |t| && n < |t[i]|
    ensures var e := t[i][n];
      && Moved(hash, t, contents, i, n + 1) == Moved(hash, t, contents, i, n) + {e}
      && Answer(same, Moved(hash, t, contents, i, n), e.key, None)
  {
    hide Index;
    var e, m := t[i][n], Moved(hash, t, contents, i, n);
    assert e in t[i] && Distinct(same, t[i]);
    assert t[i][..n + 1] == t[i][..n] + [e];
    forall d | d in m ensures !same(d.key, e.key) {
      if same(d.key, e.key) {
        OneEntryPerKey(hash, same, t, contents, d, e);
      }
    }
  }

  lemma MovedChain<K(!new), V(!new)>(hash: K -> int, same: (K, K) -> bool, t: Table<K, V>, contents: set<Entry<K, V>>,
                                     i: nat)
    requires Stores(hash, same, t, contents) && i < |t|
    ensures i > 0 ==> Moved(hash, t, contents, i, |t[i]|) == Moved(hash, t, contents, i - 1, 0)
    ensures i == 0 ==> Moved(hash, t, contents, i, |t[i]|) == contents
    ensures i == |t| - 1 ==> Moved(hash, t, contents, i, 0) == {}
  {
    assert t[i][..|t[i]|] == t[i];
  }

  lemma NothingStored<K(!new), V(!new)>(hash: K -> int, same: (K, K) -> bool, n: nat)
    requires n > 0
    ensures Stores<K, V>(hash, same, Empty(n), {})
  {
  }

  function Empty<K, V>(n: nat): (t: Table<K, V>)
    ensures |t| == n && forall i :: 0 <= i < n ==> t[i] == []
  {
    seq(n, i => [])
  }

  /** The position in a chain of the entry for `key`, or the length of the chain. */
  method FindInChain<K, V>(same: (K, K) -> bool, c: seq<Entry<K, V>>, key: K) returns (n: nat)
    ensures n <= |c| && (forall a :: 0 <= a < n ==> !same(c[a].key, key)) && (n < |c| ==> same(c[n].key, key))
  {
    n := 0;
    while n < |c|
      invariant 0 <= n <= |c| && forall a :: 0 <= a < n ==> !same(c[a].key, key)
    {
      if same(c[n].key, key) { return; }
      n := n + 1;
    }
  }

  /** Takes every chain apart, from the last to the first, into a new table. */
  method MoveChains<K(!new), V(!new)>(hash: K -> int, same: (K, K) -> bool, t: Table<K, V>, newCapacity: nat,
                                      ghost contents: set<Entry<K, V>>)
    returns (u: Table<K, V>)
    requires Consistent(hash, same) && Stores(hash, same, t, contents) && newCapacity > 0 && |t| > 0
    ensures |u| == newCapacity && Stores(hash, same, u, contents)
  {
    hide Consistent, Stores, Moved, Answer, Index;
    u := Empty(newCapacity);
    NothingStored<K, V>(hash, same, newCapacity);
    var i := |t|;
    MovedChain(hash, same, t, contents, i - 1);
    ghost var moved: set<Entry<K, V>> := {};
    while i > 0
      invariant 0 <= i <= |t| && |u| == newCapacity && Stores(hash, same, u, moved)
      invariant moved == if i > 0 then Moved(hash, t, contents, i - 1, 0) else contents
    {
      i := i - 1;
      var next := 0;
      while next < |t[i]|
        invariant 0 <= next <= |t[i]| && |u| == newCapacity && Stores(hash, same, u, moved)
                  && moved == Moved(hash, t, contents, i, next)
      {
        var e := t[i][next];
        MovedNext(hash, same, t, contents, i, next);
        AddToChain(hash, same, u, moved, e);
        var index := Index(hash(e.key), newCapacity);
        u := u[index := [e] + u[index]];
        moved := moved + {e};
        next := next + 1;
      }
      MovedChain(hash, same, t, contents, i);
    }
  }

  class Hashtable<K(==, !new), V(!new)> {
    const hash: K -> int
    const same: (K, K) -> bool
    var table: Table<K, V>
    var count: nat
    var threshold: nat
    ghost var contents: set<Entry<K, V>>

    constructor (hash: K -> int, same: (K, K) -> bool)
      requires Consistent(hash, same)
      ensures Valid() && contents == {} && this.hash == hash && this.same == same
    {
      this.hash, this.same := hash, same;
      table, count, threshold, contents := Empty(INITIAL_CAPACITY), 0, INITIAL_CAPACITY * 3 / 4, {};
      new;
      NothingStored<K, V>(hash, same, INITIAL_CAPACITY);
      InitialIsPowerOfTwo();
    }

    ghost predicate Valid()
      reads this
    {
      && Consistent(hash, same) && PowerOfTwo(|table|) && |table| >= INITIAL_CAPACITY
      && threshold == |table| * 3 / 4 && Stores(hash, same, table, contents)
      && |contents| == count && count <= threshold
    }

    /** Doubles the table; the entries stay the same. */
    method Rehash()
      requires Valid()
      modifies this
      ensures Valid() && contents == old(contents) && count == old(count)
      ensures |table| == 2 * |old(table)| && count < threshold
    {
      hide Consistent, Stores, PowerOfTwo;
      DoubleIsPowerOfTwo(|table|);
      var newCapacity := |table| * 2;
      table := MoveChains(hash, same, table, newCapacity, contents);
      threshold := newCapacity * 3 / 4;
    }

    /** Stores `value` for `key`.  At most one rehash comes first. */
    method Put(key: K, value: V)
      requires Valid()
      modifies this
      ensures Valid() && Updated(same, old(contents), contents, key, value)
      ensures count == old(count) + (if Answer(same, old(contents), key, None) then 1 else 0)
      decreases count >= threshold
    {
      hide Consistent, Stores, Index, PowerOfTwo, Answer, Updated;
      var index := Index(hash(key), |table|);
      var n := FindInChain(same, table[index], key);
      if n < |table[index]| {
        ReplaceInChain(hash, same, table, contents, index, n, value);
        var e := table[index][n];
        PutIsUpdate(same, contents, e, key, value);
        SameSize(hash, same, table, contents, e, value);
        contents := contents - {e} + {Entry(e.key, value)};
        table := table[index := table[index][n := Entry(e.key, value)]];
        return;
      }
      NotInChain(hash, same, table, contents, key);
      if count >= threshold {
        Rehash();
        Put(key, value);
      } else {
        AddToChain(hash, same, table, contents, Entry(key, value));
        PutIsNew(hash, same, contents, key, value);
        table := table[index := [Entry(key, value)] + table[index]];
        contents := contents + {Entry(key, value)};
        count := count + 1;
      }
    }

    method Get(key: K) returns (r: Option<V>)
      requires Valid()
      ensures Answer(same, contents, key, r)
      ensures forall e | e in contents && same(e.key, key) :: r == Some(e.value)
      ensures r.Some? ==> exists e | e in contents :: same(e.key, key) && r == Some(e.value)
    {
      hide Consistent, Index, PowerOfTwo, Answer;
      var index := Index(hash(key), |table|);
      var n := FindInChain(same, table[index], key);
      if n < |table[index]| {
        assert table[index][n] in table[index];
        FoundIsAnswer(same, contents, table[index][n], key);
        OnlyEntry(hash, same, table, contents, table[index][n], key);
        return Some(table[index][n].value);
      }
      NotInChain(hash, same, table, contents, key);
      assert forall e | e in contents :: !same(e.key, key) by { NoneAnswers(same, contents, key); }
      return None;
    }

    method Size() returns (n: nat)
      requires Valid()
      ensures n == |contents|
    {
      return count;
    }
  }

  lemma OnlyEntry<K(!new), V(!new)>(hash: K -> int, same: (K, K) -> bool, t: Table<K, V>, contents: set<Entry<K, V>>,
                                    d: Entry<K, V>, key: K)
    requires Consistent(hash, same) && Stores(hash, same, t, contents) && d in contents && same(d.key, key)
    ensures forall e | e in contents && same(e.key, key) :: e == d
  {
    hide Stores;
    forall e | e in contents && same(e.key, key) ensures e == d {
      assert same(key, e.key);
      OneEntryPerKey(hash, same, t, contents, d, e);
    }
  }

  lemma NoneAnswers<K(!new), V(!new)>(same: (K, K) -> bool, contents: set<Entry<K, V>>, key: K)
    requires Answer(same, contents, key, None)
    ensures forall e | e in contents :: !same(e.key, key)
  {
  }

  /** What is stored after an update: the value under the key, the key itself being the old one if there
      was one, and everything else as it was. */
  lemma UpdatedMeans<K(!new), V(!new)>(hash: K -> int, same: (K, K) -> bool, t: Table<K, V>, before: set<Entry<K, V>>,
                                       after: set<Entry<K, V>>, key: K, value: V)
    requires Consistent(hash, same) && Stores(hash, same, t, before) && Updated(same, before, after, key, value)
    ensures exists e | e in after :: same(e.key, key)
    ensures forall e | e in after && same(e.key, key) :: e.value == value
    ensures forall e | e in after && same(e.key, key) :: e.key == key || exists d | d in before :: d.key == e.key
    ensures forall e: Entry<K, V> | !same(e.key, key) :: e in after <==> e in before
  {
    if Answer(same, before, key, None) {
      NoneAnswers(same, before, key);
      assert same(Entry(key, value).key, key);
    } else {
      var e :| e in before && same(e.key, key) && after == before - {e} + {Entry(e.key, value)};
      OnlyEntry(hash, same, t, before, e, key);
      assert Entry(e.key, value) in after;
    }
  }

  lemma FoundIsAnswer<K(!new), V(!new)>(same: (K, K) -> bool, contents: set<Entry<K, V>>, e: Entry<K, V>, key: K)
    requires e in contents && same(e.key, key)
    ensures Answer(same, contents, key, Some(e.value)) && !Answer(same, contents, key, None)
  {
  }

  lemma NotInChain<K(!new), V(!new)>(hash: K -> int, same: (K, K) -> bool, t: Table<K, V>, contents: set<Entry<K, V>>,
                                     key: K)
    requires Consistent(hash, same) && Stores(hash, same, t, contents)
    requires var c := t[Index(hash(key), |t|)]; forall a :: 0 <= a < |c| ==> !same(c[a].key, key)
    ensures Answer(same, contents, key, None)
  {
    hide Index;
    forall e | e in contents ensures !same(e.key, key) {
      assert e in t[Index(hash(e.key), |t|)];
    }
  }

  lemma PutIsUpdate<K(!new), V(!new)>(same: (K, K) -> bool, contents: set<Entry<K, V>>, e: Entry<K, V>, key: K,
                                      value: V)
    requires e in contents && same(e.key, key)
    ensures Updated(same, contents, contents - {e} + {Entry(e.key, value)}, key, value)
    ensures !Answer(same, contents, key, None)
  {
  }

  lemma SameSize<K(!new), V(!new)>(hash: K -> int, same: (K, K) -> bool, t: Table<K, V>, contents: set<Entry<K, V>>,
                                   e: Entry<K, V>, value: V)
    requires Consistent(hash, same) && Stores(hash, same, t, contents) && e in contents
    ensures |contents - {e} + {Entry(e.key, value)}| == |contents|
  {
    var e' := Entry(e.key, value);
    if e' in contents {
      OneEntryPerKey(hash, same, t, contents, e', e);
      assert contents - {e} + {e'} == contents;
    }
  }

  lemma PutIsNew<K(!new), V(!new)>(hash: K -> int, same: (K, K) -> bool, contents: set<Entry<K, V>>, key: K, value: V)
    requires Consistent(hash, same) && Answer(same, contents, key, None)
    ensures Updated(same, contents, contents + {Entry(key, value)}, key, value) && Entry(key, value) !in contents
  {
    assert same(Entry(key, value).key, key);
  }

  // ----- iterating

  /** The chains one after another. */
  function Flatten<K, V>(t: Table<K, V>): seq<Entry<K, V>> {
    if t == [] then [] else Flatten(t[..|t| - 1]) + t[|t| - 1]
  }

  lemma FlattenUpTo<K, V>(t: Table<K, V>, i: nat)
    requires i < |t|
    ensures Flatten(t[..i + 1]) == Flatten(t[..i]) + t[i]
  {
    assert t[..i + 1][..i] == t[..i];
  }

  lemma {:induction false} FlattenPrefix<K, V>(t: Table<K, V>, i: nat)
    requires i <= |t|
    ensures Flatten(t[..i]) <= Flatten(t)
    decreases |t| - i
  {
    if i < |t| {
      FlattenUpTo(t, i);
      FlattenPrefix(t, i + 1);
    } else {
      assert t[..i] == t;
    }
  }

  lemma {:induction false} FlattenHas<K(!new), V(!new)>(hash: K -> int, same: (K, K) -> bool, t: Table<K, V>,
                                                        contents: set<Entry<K, V>>, i: nat)
    requires Consistent(hash, same) && Stores(hash, same, t, contents) && i <= |t|
    ensures forall e :: e in Flatten(t[..i]) <==> e in contents && Index(hash(e.key), |t|) < i
    ensures forall a, b :: 0 <= a < b < |Flatten(t[..i])| ==> Flatten(t[..i])[a] != Flatten(t[..i])[b]
  {
    hide Index;
    if i > 0 {
      var f, c := Flatten(t[..i - 1]), t[i - 1];
      FlattenHas(hash, same, t, contents, i - 1);
      FlattenUpTo(t, i - 1);
      assert Distinct(same, c);
      forall a, b | 0 <= a < b < |f + c| ensures (f + c)[a] != (f + c)[b] {
        if a >= |f| {
          NotTwice(same, c, a - |f|, b - |f|);
        } else if b >= |f| {
          assert (f + c)[a] in f && (f + c)[b] in c;
        }
      }
    }
  }

  /** Going through the chains meets every entry exactly once. */
  lemma FlattenIsContents<K(!new), V(!new)>(hash: K -> int, same: (K, K) -> bool, t: Table<K, V>,
                                            contents: set<Entry<K, V>>)
    requires Consistent(hash, same) && Stores(hash, same, t, contents)
    ensures forall e :: e in Flatten(t) <==> e in contents
    ensures forall a, b :: 0 <= a < b < |Flatten(t)| ==> Flatten(t)[a] != Flatten(t)[b]
  {
    FlattenHas(hash, same, t, contents, |t|);
    assert t[..|t|] == t;
  }

  class Iterator<K, V> {
    const table: Table<K, V>
    const count: nat
    var idx: int
    var pos: nat

    constructor (table: Table<K, V>, count: nat)
      requires count == |Flatten(table)|
      ensures this.table == table && this.count == count && Valid() && Done() == 0
    {
      this.table, this.count, idx, pos := table, count, -1, 0;
    }

    ghost predicate Valid()
      reads this
    {
      count == |Flatten(table)| && (idx >= 0 ==> idx < |table| && pos < |table[idx]|)
    }

    /** How many entries have been given out. */
    ghost function Done(): (n: nat)
      requires Valid()
      reads this
    {
      if idx < 0 then 0 else |Flatten(table[..idx])| + pos + 1
    }

    /** The first chain from `from` on that has entries. */
    method FirstChain(from: nat) returns (i: nat)
      requires from <= |table|
      ensures from <= i <= |table| && Flatten(table[..i]) == Flatten(table[..from]) && (i < |table| ==> table[i] != [])
    {
      i := from;
      while i < |table| && table[i] == []
        invariant from <= i <= |table| && Flatten(table[..i]) == Flatten(table[..from])
      {
        FlattenUpTo(table, i);
        i := i + 1;
      }
    }

    /** The next entry, or none once all have been given out. */
    method GetNext() returns (r: Option<Entry<K, V>>)
      requires Valid()
      modifies this
      ensures Valid() && count == |Flatten(table)|
      ensures if old(Done()) < count then Done() == old(Done()) + 1 && r == Some(Flatten(table)[old(Done())])
              else r == None && Done() == old(Done())
    {
      hide Flatten;
      if count == 0 {
        DoneIsBounded();
        return None;
      }
      if idx >= 0 && pos + 1 < |table[idx]| {
        At(idx, pos + 1);
        pos := pos + 1;
        return Some(table[idx][pos]);
      }
      if idx >= 0 { FlattenUpTo(table, idx); }
      FlattenNone();
      var i := FirstChain(if idx < 0 then 0 else idx + 1);
      FlattenPrefix(table, i);
      if i < |table| {
        At(i, 0);
        idx, pos := i, 0;
        return Some(table[idx][pos]);
      }
      assert table[..i] == table;
      return None;
    }

    lemma FlattenNone()
      ensures Flatten(table[..0]) == []
    {
    }

    lemma At(i: nat, k: nat)
      requires i < |table| && k < |table[i]|
      ensures var n := |Flatten(table[..i])| + k; n < |Flatten(table)| && Flatten(table)[n] == table[i][k]
    {
      FlattenUpTo(table, i);
      FlattenPrefix(table, i + 1);
    }

    lemma DoneIsBounded()
      requires Valid() && count == 0
      ensures Done() == 0
    {
      if idx >= 0 { At(idx, pos); }
    }
  }
}
