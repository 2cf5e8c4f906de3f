/** An occurrence-counting hash table with linear probing whose capacity is
    always taken from a fixed list of primes (HashTable.java).

    A table is the array of slots (`None` for `null`), the number of occupied
    slots and the position of the current capacity in `PRIMES_LIST`. The
    hasher is a function `hash` to the naturals; two items are the same
    item when the comparator answers zero, which is modelled as equality.
    Every mutator returns the table after the call. */
module HashTables {
  import opened Results

  const PRIMES_LIST: seq<nat> :=
    [17, 41, 83, 163, 337, 683, 1409, 2861, 6011, 12113, 24229, 50021, 100103, 200003, 400009, 800029, 1299827]

  /** `DataCountItem`: an item with the number of times it was counted. */
  datatype Item<E> = Item(data: E, count: nat)

  type Table<E> = seq<Option<Item<E>>>

  datatype HashTable<E> = HashTable(table: Table<E>, size: nat, primeNum: nat)

  /** The pair the iterator hands out. */
  datatype DataCount<E> = DataCount(data: E, count: nat)

  datatype Error = IndexOutOfBounds | NoSuchElement

  /** The `k`-th slot tried for a key whose hash is `raw`:
      `(raw + k) % length`, with `k == 0` giving `raw % length`. */
  function Probe(raw: nat, k: nat, len: nat): (j: nat)
    requires len > 0
    ensures j < len
  {
    (raw + k) % len
  }

  /** How many probes a key whose hash is `raw` makes before slot `j`. */
  function Offset(raw: nat, j: nat, len: nat): (k: nat)
    requires j < len
    ensures k < len
  {
    if j >= raw % len then j - raw % len else j + len - raw % len
  }

  lemma MulAtLeast(m: int, b: int)
    requires m >= 1 && b > 0
    ensures m * b >= b
  {
  }

  /** Quotient and remainder are unique. */
  lemma ModUnique(a: int, b: int, q: int, r: int)
    requires b > 0 && a == q * b + r && 0 <= r < b
    ensures a % b == r
  {
    var q' := a / b;
    assert a == q' * b + a % b;
    if q' < q {
      MulAtLeast(q - q', b);
      assert false;
    } else if q' > q {
      MulAtLeast(q' - q, b);
      assert false;
    }
  }

  /** Probing walks the slots from `raw % len` upwards and wraps once. */
  lemma ProbeStep(raw: nat, k: nat, len: nat)
    requires k < len
    ensures Probe(raw, k, len) == if raw % len + k < len then raw % len + k else raw % len + k - len
  {
    var q := raw / len;
    assert raw == q * len + raw % len;
    if raw % len + k < len {
      ModUnique(raw + k, len, q, raw % len + k);
    } else {
      assert raw + k == (q + 1) * len + (raw % len + k - len);
      ModUnique(raw + k, len, q + 1, raw % len + k - len);
    }
  }

  /** Every slot is reached, after `Offset` probes. */
  lemma ProbeOffset(raw: nat, j: nat, len: nat)
    requires j < len
    ensures Probe(raw, Offset(raw, j, len), len) == j
  {
    ProbeStep(raw, Offset(raw, j, len), len);
  }

  /** The first `len` probes reach distinct slots. */
  lemma OffsetProbe(raw: nat, k: nat, len: nat)
    requires k < len
    ensures Offset(raw, Probe(raw, k, len), len) == k
  {
    ProbeStep(raw, k, len);
  }

  /** The slot holds `x`. */
  predicate Holds<E(==,!new)>(s: Option<Item<E>>, x: E) {
    s.Some? && s.value.data == x
  }

  function SlotCount<E(==,!new)>(s: Option<Item<E>>, x: E): nat {
    if Holds(s, x) then s.value.count else 0
  }

  function SlotUsed<E(==,!new)>(s: Option<Item<E>>): nat {
    if s.Some? then 1 else 0
  }

  /** How many times `x` was counted: the counts of the slots holding it. */
  function Count<E(==,!new)>(t: Table<E>, x: E): nat {
    if |t| == 0 then 0 else Count(t[..|t| - 1], x) + SlotCount(t[|t| - 1], x)
  }

  /** The number of occupied slots. */
  function Occupied<E(==,!new)>(t: Table<E>): nat {
    if |t| == 0 then 0 else Occupied(t[..|t| - 1]) + SlotUsed(t[|t| - 1])
  }

  /** No item is stored in two slots. */
  ghost predicate NoDuplicates<E(!new)>(t: Table<E>) {
    forall i, j :: 0 <= i < j < |t| && t[i].Some? && t[j].Some? ==> t[i].value.data != t[j].value.data
  }

  /** A stored item was counted at least once. */
  ghost predicate PositiveCounts<E(!new)>(t: Table<E>) {
    forall j :: 0 <= j < |t| && t[j].Some? ==> t[j].value.count > 0
  }

  /** Every slot that the probe sequence of a stored item passes before
      reaching it is occupied, so probing for the item finds it before any
      empty slot. */
  ghost predicate ProbeChains<E(!new)>(hash: E -> nat, t: Table<E>) {
    |t| > 0 &&
    forall j, k :: 0 <= j < |t| && t[j].Some? && 0 <= k < Offset(hash(t[j].value.data), j, |t|) ==>
      t[Probe(hash(t[j].value.data), k, |t|)].Some?
  }

  ghost predicate WellFormed<E(!new)>(hash: E -> nat, t: Table<E>) {
    NoDuplicates(t) && PositiveCounts(t) && ProbeChains(hash, t)
  }

  /** The invariant: the capacity is a listed prime, `size` counts the
      occupied slots, and fewer than half the slots are occupied. */
  ghost predicate Valid<E(!new)>(hash: E -> nat, h: HashTable<E>) {
    && h.primeNum < |PRIMES_LIST|
    && |h.table| == PRIMES_LIST[h.primeNum]
    && h.size == Occupied(h.table)
    && h.size < |h.table| / 2
    && WellFormed(hash, h.table)
  }

  /** Counting over a table with one slot replaced. */
  lemma {:induction false} CountUpdate<E(!new)>(t: Table<E>, j: nat, v: Option<Item<E>>, x: E)
    requires j < |t|
    ensures Count(t[j := v], x) == Count(t, x) - SlotCount(t[j], x) + SlotCount(v, x)
    decreases |t|
  {
    var n := |t|;
    if j < n - 1 {
      assert t[j := v][..n - 1] == t[..n - 1][j := v];
      CountUpdate(t[..n - 1], j, v, x);
    } else {
      assert t[j := v][..n - 1] == t[..n - 1];
    }
  }

  lemma {:induction false} OccupiedUpdate<E(!new)>(t: Table<E>, j: nat, v: Option<Item<E>>)
    requires j < |t|
    ensures Occupied(t[j := v]) == Occupied(t) - SlotUsed(t[j]) + SlotUsed(v)
    decreases |t|
  {
    var n := |t|;
    if j < n - 1 {
      assert t[j := v][..n - 1] == t[..n - 1][j := v];
      OccupiedUpdate(t[..n - 1], j, v);
    } else {
      assert t[j := v][..n - 1] == t[..n - 1];
    }
  }

  /** An item no slot holds has count zero. */
  lemma {:induction false} CountAbsent<E(!new)>(t: Table<E>, x: E)
    requires forall j :: 0 <= j < |t| ==> !Holds(t[j], x)
    ensures Count(t, x) == 0
    decreases |t|
  {
    var n := |t|;
    if n > 0 {
      var t' := t[..n - 1];
      assert forall j :: 0 <= j < |t'| ==> t'[j] == t[j];
      CountAbsent(t', x);
    }
  }

  /** With positive counts, an item has count zero exactly when no slot
      holds it. */
  lemma CountZero<E(!new)>(t: Table<E>, x: E)
    requires PositiveCounts(t)
    ensures Count(t, x) == 0 <==> forall j :: 0 <= j < |t| ==> !Holds(t[j], x)
  {
    if j :| 0 <= j < |t| && Holds(t[j], x) {
      CountUpdate(t, j, None, x);
    } else {
      CountAbsent(t, x);
    }
  }

  /** Without duplicates, the count of an item is the count in its slot. */
  lemma CountAtSlot<E(!new)>(t: Table<E>, j: nat, x: E)
    requires NoDuplicates(t)
    requires j < |t| && Holds(t[j], x)
    ensures Count(t, x) == t[j].value.count
  {
    CountUpdate(t, j, None, x);
    CountAbsent(t[j := None], x);
  }

  /** A table with fewer occupied slots than slots has an empty one. */
  lemma {:induction false} FreeSlot<E(!new)>(t: Table<E>)
    requires Occupied(t) < |t|
    ensures exists f :: 0 <= f < |t| && t[f].None?
    decreases |t|
  {
    var n := |t|;
    if t[n - 1].Some? {
      FreeSlot(t[..n - 1]);
      var f :| 0 <= f < n - 1 && t[..n - 1][f].None?;
      assert t[f].None?;
    }
  }

  /** A prefix holds no more occupied slots than the whole table. */
  lemma {:induction false} OccupiedPrefix<E(!new)>(t: Table<E>, i: nat)
    requires i <= |t|
    ensures Occupied(t[..i]) <= Occupied(t)
    decreases |t|
  {
    var n := |t|;
    if i < n {
      assert t[..n - 1][..i] == t[..i];
      OccupiedPrefix(t[..n - 1], i);
    } else {
      assert t[..i] == t;
    }
  }

  /** Every probe `hash(x)` makes before slot `key` meets an occupied slot
      holding another item. */
  ghost predicate ProbesPassed<E(!new)>(hash: E -> nat, a: Table<E>, x: E, key: nat)
    requires key < |a|
  {
    forall k :: 0 <= k < Offset(hash(x), key, |a|) ==>
      a[Probe(hash(x), k, |a|)].Some? && !Holds(a[Probe(hash(x), k, |a|)], x)
  }

  /** `getIndex`: probes from `hash(x) % length` until a slot is empty or
      holds `x`. A free slot always exists, so the loop ends. */
  method GetIndex<E(==,!new)>(hash: E -> nat, x: E, a: Table<E>) returns (key: nat)
    requires exists f :: 0 <= f < |a| && a[f].None?
    ensures key < |a|
    ensures a[key].None? || Holds(a[key], x)
    ensures ProbesPassed(hash, a, x, key)
  {
    var raw := hash(x);
    key := raw % |a|;
    var i := 1;
    ghost var f :| 0 <= f < |a| && a[f].None?;
    ProbeOffset(raw, f, |a|);
    while a[key] != None && a[key].value.data != x
      invariant 1 <= i <= Offset(raw, f, |a|) + 1
      invariant key == Probe(raw, i - 1, |a|)
      invariant forall k :: 0 <= k < i - 1 ==> a[Probe(raw, k, |a|)].Some? && !Holds(a[Probe(raw, k, |a|)], x)
      decreases Offset(raw, f, |a|) + 1 - i
    {
      key := (raw + i) % |a|;
      i := i + 1;
    }
    OffsetProbe(raw, i - 1, |a|);
  }

  /** When probing for `x` meets an empty slot, no slot holds `x`. */
  lemma AbsentPastEmpty<E(!new)>(hash: E -> nat, t: Table<E>, x: E, key: nat)
    requires ProbeChains(hash, t)
    requires key < |t| && t[key].None?
    requires ProbesPassed(hash, t, x, key)
    ensures forall j :: 0 <= j < |t| ==> !Holds(t[j], x)
  {
    forall j | 0 <= j < |t|
      ensures !Holds(t[j], x)
    {
      if Holds(t[j], x) {
        ProbeOffset(hash(x), j, |t|);
        ProbeOffset(hash(x), key, |t|);
        assert false;
      }
    }
  }

  /** Storing a new item in the empty slot its probing stops at keeps the
      table well formed. */
  lemma StoreFresh<E(!new)>(hash: E -> nat, t: Table<E>, key: nat, item: Item<E>)
    requires WellFormed(hash, t)
    requires key < |t| && t[key].None?
    requires ProbesPassed(hash, t, item.data, key)
    requires forall j :: 0 <= j < |t| ==> !Holds(t[j], item.data)
    requires item.count > 0
    ensures WellFormed(hash, t[key := Some(item)])
  {
    var t' := t[key := Some(item)];
    forall j, k | 0 <= j < |t'| && t'[j].Some? && 0 <= k < Offset(hash(t'[j].value.data), j, |t'|)
      ensures t'[Probe(hash(t'[j].value.data), k, |t'|)].Some?
    {
      if j != key {
        assert t[Probe(hash(t[j].value.data), k, |t|)].Some?;
      }
    }
  }

  /** Counting an item once more in its slot keeps the table well formed. */
  lemma BumpCount<E(!new)>(hash: E -> nat, t: Table<E>, key: nat)
    requires WellFormed(hash, t)
    requires key < |t| && t[key].Some?
    ensures WellFormed(hash, t[key := Some(Item(t[key].value.data, t[key].value.count + 1))])
  {
    var t' := t[key := Some(Item(t[key].value.data, t[key].value.count + 1))];
    forall j, k | 0 <= j < |t'| && t'[j].Some? && 0 <= k < Offset(hash(t'[j].value.data), j, |t'|)
      ensures t'[Probe(hash(t'[j].value.data), k, |t'|)].Some?
    {
      assert t[Probe(hash(t[j].value.data), k, |t|)].Some?;
    }
  }

  /** The constructor: 17 empty slots. */
  function New<E(==,!new)>(hash: E -> nat): (h: HashTable<E>)
    ensures Valid(hash, h)
    ensures GetSize(hash, h) == 0 && GetCapacity(hash, h) == PRIMES_LIST[0]
    ensures forall y :: Count(h.table, y) == 0
  {
    var h := HashTable(seq(PRIMES_LIST[0], _ => None), 0, 0);
    assert Occupied(h.table) == 0 by {
      OccupiedNone(h.table);
    }
    forall y
      ensures Count(h.table, y) == 0
    {
      CountAbsent(h.table, y);
    }
    h
  }

  lemma {:induction false} OccupiedNone<E(!new)>(t: Table<E>)
    requires forall j :: 0 <= j < |t| ==> t[j].None?
    ensures Occupied(t) == 0
    decreases |t|
  {
    if |t| > 0 {
      OccupiedNone(t[..|t| - 1]);
    }
  }

  /** `getSize`: the number of distinct items counted. */
  function GetSize<E(==,!new)>(hash: E -> nat, h: HashTable<E>): (r: nat)
    requires Valid(hash, h)
    ensures r == Occupied(h.table)
  {
    h.size
  }

  /** `getCapacity`: the length of the table, always a listed prime. */
  function GetCapacity<E(==,!new)>(hash: E -> nat, h: HashTable<E>): (r: nat)
    requires Valid(hash, h)
    ensures r == PRIMES_LIST[h.primeNum] && r in PRIMES_LIST
  {
    |h.table|
  }

  /** A valid table has an empty slot. */
  lemma ValidHasFree<E(!new)>(hash: E -> nat, h: HashTable<E>)
    requires Valid(hash, h)
    ensures exists f :: 0 <= f < |h.table| && h.table[f].None?
  {
    FreeSlot(h.table);
  }

  /** `getCount`: how many times `x` was counted, zero for an item never
      counted. */
  method GetCount<E(==,!new)>(hash: E -> nat, h: HashTable<E>, x: E) returns (r: nat)
    requires Valid(hash, h)
    ensures r == Count(h.table, x)
  {
    ValidHasFree(hash, h);
    var index := GetIndex(hash, x, h.table);
    if h.table[index] == None {
      AbsentPastEmpty(hash, h.table, x, index);
      CountAbsent(h.table, x);
      return 0;
    }
    CountAtSlot(h.table, index, x);
    return h.table[index].value.count;
  }

  /** Half of each listed prime is below half of the next, so a rehash
      always makes room. */
  lemma PrimesGrow(p: nat)
    requires p + 1 < |PRIMES_LIST|
    ensures PRIMES_LIST[p] / 2 < PRIMES_LIST[p + 1] / 2
  {
    assert p in {0, 1, 2, 3, 4, 5, 6, 7, 8, 9, 10, 11, 12, 13, 14, 15};
  }

  /** Two tables count every item the same number of times. */
  ghost predicate SameCounts<E(!new)>(a: Table<E>, b: Table<E>) {
    forall y :: Count(a, y) == Count(b, y)
  }

  /** Extending a prefix by one slot: a table that counts like the prefix,
      plus the slot's item, counts like the longer prefix. */
  lemma PrefixStep<E(!new)>(t: Table<E>, i: nat, before: Table<E>, after: Table<E>)
    requires i < |t|
    requires SameCounts(before, t[..i])
    requires forall y :: Count(after, y) == Count(before, y) + SlotCount(t[i], y)
    ensures SameCounts(after, t[..i + 1])
    ensures Occupied(t[..i + 1]) == Occupied(t[..i]) + SlotUsed(t[i])
  {
    assert t[..i + 1][..i] == t[..i];
  }

  /** An item of a duplicate-free table is not held before its own slot. */
  lemma NotBefore<E(!new)>(t: Table<E>, i: nat)
    requires NoDuplicates(t)
    requires i < |t| && t[i].Some?
    ensures Count(t[..i], t[i].value.data) == 0
  {
    CountAbsent(t[..i], t[i].value.data);
  }

  /** One step of `rehashData`: `getIndex` on the new table, then the item
      goes into the slot it returns. */
  method Reinsert<E(==,!new)>(hash: E -> nat, t: Table<E>, item: Item<E>) returns (r: Table<E>)
    requires WellFormed(hash, t)
    requires Occupied(t) < |t|
    requires Count(t, item.data) == 0 && item.count > 0
    ensures |r| == |t| && WellFormed(hash, r)
    ensures Occupied(r) == Occupied(t) + 1
    ensures forall y :: Count(r, y) == Count(t, y) + SlotCount(Some(item), y)
    ensures forall y :: Count(r, y) == Count(t, y) + (if y == item.data then item.count else 0)
  {
    CountZero(t, item.data);
    FreeSlot(t);
    var index := GetIndex(hash, item.data, t);
    StoreFresh(hash, t, index, item);
    OccupiedUpdate(t, index, Some(item));
    forall y
      ensures Count(t[index := Some(item)], y) == Count(t, y) + SlotCount(Some(item), y)
    {
      CountUpdate(t, index, Some(item), y);
    }
    r := t[index := Some(item)];
  }

  /** `rehashData`: moves every item, with its count, into a table of the
      next listed prime; past the last prime it throws
      `IndexOutOfBoundsException` and changes nothing. */
  method RehashData<E(==,!new)>(hash: E -> nat, h: HashTable<E>) returns (r: Result<HashTable<E>, Error>)
    requires Valid(hash, h)
    ensures r.Fail? <==> h.primeNum + 1 == |PRIMES_LIST|
    ensures r.Fail? ==> r.error == IndexOutOfBounds
    ensures r.Ok? ==> Valid(hash, r.value) && r.value.primeNum == h.primeNum + 1
    ensures r.Ok? ==> r.value.size == h.size && r.value.size + 1 < |r.value.table| / 2
    ensures r.Ok? ==> forall y :: Count(r.value.table, y) == Count(h.table, y)
  {
    if h.primeNum + 1 == |PRIMES_LIST| {
      return Fail(IndexOutOfBounds);
    }
    var primeNum := h.primeNum + 1;
    PrimesGrow(h.primeNum);
    var newTable: Table<E> := seq(PRIMES_LIST[primeNum], _ => None);
    OccupiedNone(newTable);
    forall y
      ensures Count(newTable, y) == 0
    {
      CountAbsent(newTable, y);
    }
    assert h.table[..0] == [];
    for i := 0 to |h.table|
      invariant |newTable| == PRIMES_LIST[primeNum]
      invariant WellFormed(hash, newTable)
      invariant Occupied(newTable) == Occupied(h.table[..i])
      invariant SameCounts(newTable, h.table[..i])
    {
      ghost var before := newTable;
      if h.table[i] != None {
        NotBefore(h.table, i);
        OccupiedPrefix(h.table, i);
        newTable := Reinsert(hash, newTable, h.table[i].value);
      }
      PrefixStep(h.table, i, before, newTable);
    }
    assert h.table[..|h.table|] == h.table;
    return Ok(HashTable(newTable, h.size, primeNum));
  }

  /** The second half of `incCount`, once there is room: `getIndex`, then
      either a new slot with count one or one more for the slot found. */
  method Store<E(==,!new)>(hash: E -> nat, h: HashTable<E>, x: E) returns (r: HashTable<E>)
    requires Valid(hash, h)
    requires h.size + 1 < |h.table| / 2
    ensures Valid(hash, r) && r.primeNum == h.primeNum
    ensures forall y :: Count(r.table, y) == Count(h.table, y) + (if y == x then 1 else 0)
    ensures r.size == h.size + (if Count(h.table, x) == 0 then 1 else 0)
  {
    ValidHasFree(hash, h);
    var index := GetIndex(hash, x, h.table);
    var item: Item<E>;
    if h.table[index] == None {
      AbsentPastEmpty(hash, h.table, x, index);
      CountAbsent(h.table, x);
      item := Item(x, 1);
      StoreFresh(hash, h.table, index, item);
      r := HashTable(h.table[index := Some(item)], h.size + 1, h.primeNum);
    } else {
      CountAtSlot(h.table, index, x);
      item := Item(x, h.table[index].value.count + 1);
      BumpCount(hash, h.table, index);
      r := HashTable(h.table[index := Some(item)], h.size, h.primeNum);
    }
    OccupiedUpdate(h.table, index, Some(item));
    forall y
      ensures Count(r.table, y) == Count(h.table, y) + (if y == x then 1 else 0)
    {
      CountUpdate(h.table, index, Some(item), y);
    }
  }

  /** `incCount`: counts `x` once more, storing it with count one when it
      is new. The table is rehashed first once `size + 1` reaches half the
      capacity; that rehash throws past the last prime. */
  method IncCount<E(==,!new)>(hash: E -> nat, h: HashTable<E>, x: E) returns (r: Result<HashTable<E>, Error>)
    requires Valid(hash, h)
    ensures r.Fail? <==> h.size + 1 >= |h.table| / 2 && h.primeNum + 1 == |PRIMES_LIST|
    ensures r.Fail? ==> r.error == IndexOutOfBounds
    ensures r.Ok? ==> Valid(hash, r.value)
    ensures r.Ok? ==> forall y :: Count(r.value.table, y) == Count(h.table, y) + (if y == x then 1 else 0)
    ensures r.Ok? ==> r.value.size == h.size + (if Count(h.table, x) == 0 then 1 else 0)
    ensures r.Ok? ==> r.value.primeNum == if h.size + 1 >= |h.table| / 2 then h.primeNum + 1 else h.primeNum
  {
    var t := h;
    if t.size + 1 >= |t.table| / 2 {
      var rehashed := RehashData(hash, t);
      if rehashed.Fail? {
        return Fail(rehashed.error);
      }
      t := rehashed.value;
    }
    assert SameCounts(t.table, h.table);
    t := Store(hash, t, x);
    return Ok(t);
  }

  /** The distinct items of a list. */
  ghost function Distinct<E(!new)>(xs: seq<E>): set<E> {
    set y | y in xs
  }

  lemma DistinctPrefix<E(!new)>(xs: seq<E>, i: nat)
    requires i < |xs|
    ensures Distinct(xs[..i + 1]) == Distinct(xs[..i]) + {xs[i]}
    ensures Distinct(xs[..i]) <= Distinct(xs)
    ensures |Distinct(xs[..i + 1])| <= |Distinct(xs)|
  {
    assert xs[..i + 1] == xs[..i] + [xs[i]];
    assert Distinct(xs[..i + 1]) <= Distinct(xs);
    SubsetCardinality(Distinct(xs[..i + 1]), Distinct(xs));
  }

  lemma {:induction false} SubsetCardinality<E>(a: set<E>, b: set<E>)
    requires a <= b
    ensures |a| <= |b|
    decreases |b|
  {
    if a != {} {
      var x :| x in a;
      SubsetCardinality(a - {x}, b - {x});
    }
  }

  /** The table counts every item as often as it occurs in `xs`. */
  ghost predicate CountsOf<E(!new)>(t: Table<E>, xs: seq<E>) {
    forall y :: Count(t, y) == multiset(xs)[y]
  }

  /** One step of `CountAll`: counting `xs[i]` once more turns the counts
      of the first `i` items into those of the first `i + 1`. */
  lemma CountAllStep<E(!new)>(xs: seq<E>, i: nat, before: Table<E>, after: Table<E>)
    requires i < |xs|
    requires CountsOf(before, xs[..i])
    requires forall y :: Count(after, y) == Count(before, y) + (if y == xs[i] then 1 else 0)
    ensures CountsOf(after, xs[..i + 1])
    ensures Count(before, xs[i]) == 0 <==> xs[i] !in Distinct(xs[..i])
  {
    assert xs[..i + 1] == xs[..i] + [xs[i]];
  }

  /** The loop body of `CountAll`. */
  method CountNext<E(==,!new)>(hash: E -> nat, h: HashTable<E>, xs: seq<E>, i: nat) returns (r: Result<HashTable<E>, Error>)
    requires i < |xs|
    requires Valid(hash, h)
    requires CountsOf(h.table, xs[..i]) && h.size == |Distinct(xs[..i])|
    ensures r.Fail? ==> |Distinct(xs)| + 1 >= PRIMES_LIST[|PRIMES_LIST| - 1] / 2
    ensures r.Ok? ==> Valid(hash, r.value)
    ensures r.Ok? ==> CountsOf(r.value.table, xs[..i + 1]) && r.value.size == |Distinct(xs[..i + 1])|
  {
    DistinctPrefix(xs, i);
    r := IncCount(hash, h, xs[i]);
    if r.Fail? {
      assert |h.table| == PRIMES_LIST[|PRIMES_LIST| - 1];
      SubsetCardinality(Distinct(xs[..i]), Distinct(xs));
    } else {
      CountAllStep(xs, i, h.table, r.value.table);
      var seen := Distinct(xs[..i]);
      if xs[i] in seen {
        assert seen + {xs[i]} == seen;
      } else {
        assert |seen + {xs[i]}| == |seen| + 1;
      }
    }
  }

  /** How a client uses the table: counting every item of `xs` in turn
      leaves each item counted as often as it occurs, and `getSize` equal to
      the number of distinct items. Only more distinct items than the
      largest table can hold make a rehash throw. */
  method CountAll<E(==,!new)>(hash: E -> nat, xs: seq<E>) returns (r: Result<HashTable<E>, Error>)
    ensures |Distinct(xs)| + 1 < PRIMES_LIST[|PRIMES_LIST| - 1] / 2 ==> r.Ok?
    ensures r.Ok? ==> Valid(hash, r.value)
    ensures r.Ok? ==> forall y :: Count(r.value.table, y) == multiset(xs)[y]
    ensures r.Ok? ==> GetSize(hash, r.value) == |Distinct(xs)|
  {
    var h := New(hash);
    assert xs[..0] == [];
    for i := 0 to |xs|
      invariant Valid(hash, h)
      invariant CountsOf(h.table, xs[..i]) && h.size == |Distinct(xs[..i])|
    {
      var next := CountNext(hash, h, xs, i);
      if next.Fail? {
        return next;
      }
      h := next.value;
    }
    assert xs[..|xs|] == xs;
    assert CountsOf(h.table, xs);
    return Ok(h);
  }

  /** The state of the anonymous iterator: a copy of the table, how many
      items are still to come, and where the next search starts. */
  datatype Iterator<E> = Iterator(copyArray: Table<E>, currentSize: int, index: nat)

  /** The stored items with their counts, in slot order. */
  function Entries<E>(t: Table<E>): seq<DataCount<E>> {
    if |t| == 0 then []
    else
      var last := t[|t| - 1];
      Entries(t[..|t| - 1]) + if last.Some? then [DataCount(last.value.data, last.value.count)] else []
  }

  /** The first occupied slot at or after `from`, or the length. */
  function FirstOccupied<E>(t: Table<E>, from: nat): (i: nat)
    requires from <= |t|
    ensures from <= i <= |t|
    ensures i < |t| ==> t[i].Some?
    ensures forall j :: from <= j < i ==> t[j].None?
    decreases |t| - from
  {
    if from == |t| || t[from].Some? then from else FirstOccupied(t, from + 1)
  }

  /** `getIterator` */
  function GetIterator<E>(h: HashTable<E>): (it: Iterator<E>)
    ensures it.copyArray == h.table && it.index == 0
    ensures it.currentSize == h.size
  {
    Iterator(h.table, h.size, 0)
  }

  /** `hasNext` */
  predicate HasNext<E>(it: Iterator<E>) {
    it.currentSize > 0
  }

  /** `next`: the item of the first occupied slot from `index` on, or
      `null` when there is none; `NoSuchElementException` once `currentSize`
      reaches zero. `index` moves past the slot found unless it is already
      the last slot. */
  method Next<E>(it: Iterator<E>) returns (r: Result<(Option<DataCount<E>>, Iterator<E>), Error>)
    requires it.index <= |it.copyArray|
    ensures r.Fail? <==> !HasNext(it)
    ensures r.Fail? ==> r.error == NoSuchElement
    ensures r.Ok? ==>
      var i := FirstOccupied(it.copyArray, it.index);
      var a := it.copyArray;
      if i < |a| then
        r.value == (Some(DataCount(a[i].value.data, a[i].value.count)),
                    Iterator(a, it.currentSize - 1, if it.index + 1 < |a| then i + 1 else it.index))
      else
        r.value == (None, it)
  {
    if !HasNext(it) {
      return Fail(NoSuchElement);
    }
    var a := it.copyArray;
    for i := it.index to |a|
      invariant FirstOccupied(a, it.index) == FirstOccupied(a, i)
    {
      if a[i] != None {
        var index := if it.index + 1 < |a| then i + 1 else it.index;
        return Ok((Some(DataCount(a[i].value.data, a[i].value.count)), Iterator(a, it.currentSize - 1, index)));
      }
    }
    return Ok((None, it));
  }

  /** Skipping empty slots adds no occupied slot. */
  lemma {:induction false} OccupiedSkipEmpty<E(!new)>(t: Table<E>, lo: nat, hi: nat)
    requires lo <= hi <= |t|
    requires forall j :: lo <= j < hi ==> t[j].None?
    ensures Occupied(t[..hi]) == Occupied(t[..lo])
    decreases hi
  {
    if lo < hi {
      OccupiedSkipEmpty(t, lo, hi - 1);
      assert t[..hi][..hi - 1] == t[..hi - 1];
    }
  }

  /** Skipping empty slots adds no entries. */
  lemma {:induction false} EntriesSkipEmpty<E(!new)>(t: Table<E>, lo: nat, hi: nat)
    requires lo <= hi <= |t|
    requires forall j :: lo <= j < hi ==> t[j].None?
    ensures Entries(t[..hi]) == Entries(t[..lo])
    decreases hi
  {
    if lo < hi {
      EntriesSkipEmpty(t, lo, hi - 1);
      assert t[..hi][..hi - 1] == t[..hi - 1];
    }
  }

  /** The next occupied slot after `pos` adds one occupied slot. */
  lemma OccupiedThroughNext<E(!new)>(t: Table<E>, pos: nat)
    requires pos <= |t|
    ensures var i := FirstOccupied(t, pos);
            i < |t| ==> Occupied(t[..i + 1]) == Occupied(t[..pos]) + 1
  {
    var i := FirstOccupied(t, pos);
    if i < |t| {
      OccupiedSkipEmpty(t, pos, i);
      assert t[..i + 1][..i] == t[..i];
    }
  }

  /** One entry per occupied slot. */
  lemma {:induction false} EntriesLength<E(!new)>(t: Table<E>)
    ensures |Entries(t)| == Occupied(t)
    decreases |t|
  {
    if |t| > 0 {
      EntriesLength(t[..|t| - 1]);
    }
  }

  /** Every entry comes from a slot. */
  lemma {:induction false} EntryFromSlot<E(!new)>(t: Table<E>, e: DataCount<E>)
    requires e in Entries(t)
    ensures exists j :: 0 <= j < |t| && t[j] == Some(Item(e.data, e.count))
    decreases |t|
  {
    var n := |t|;
    var t' := t[..n - 1];
    if e in Entries(t') {
      EntryFromSlot(t', e);
      var j :| 0 <= j < |t'| && t'[j] == Some(Item(e.data, e.count));
      assert t[j] == t'[j];
    } else {
      assert t[n - 1] == Some(Item(e.data, e.count));
    }
  }

  /** Every occupied slot gives an entry. */
  lemma {:induction false} SlotInEntries<E(!new)>(t: Table<E>, j: nat)
    requires j < |t| && t[j].Some?
    ensures DataCount(t[j].value.data, t[j].value.count) in Entries(t)
    decreases |t|
  {
    var n := |t|;
    if j < n - 1 {
      SlotInEntries(t[..n - 1], j);
    }
  }

  /** Without duplicate items there are no duplicate entries. */
  lemma {:induction false} EntriesDistinct<E(!new)>(t: Table<E>)
    requires NoDuplicates(t)
    ensures forall i, k :: 0 <= i < k < |Entries(t)| ==> Entries(t)[i].data != Entries(t)[k].data
    decreases |t|
  {
    var n := |t|;
    if n > 0 {
      var t' := t[..n - 1];
      assert NoDuplicates(t');
      EntriesDistinct(t');
      var es := Entries(t');
      if t[n - 1].Some? {
        forall i | 0 <= i < |es|
          ensures es[i].data != t[n - 1].value.data
        {
          EntryFromSlot(t', es[i]);
        }
      }
    }
  }

  /** The entries of a well-formed table are exactly its counted items, each
      once, with its count. */
  lemma EntriesAreCounts<E(!new)>(hash: E -> nat, t: Table<E>)
    requires WellFormed(hash, t)
    ensures |Entries(t)| == Occupied(t)
    ensures forall e :: e in Entries(t) ==> e.count == Count(t, e.data) && e.count > 0
    ensures forall y :: Count(t, y) > 0 <==> DataCount(y, Count(t, y)) in Entries(t)
    ensures forall i, k :: 0 <= i < k < |Entries(t)| ==> Entries(t)[i].data != Entries(t)[k].data
  {
    EntriesLength(t);
    EntriesDistinct(t);
    forall e | e in Entries(t)
      ensures e.count == Count(t, e.data) && e.count > 0
    {
      EntryFromSlot(t, e);
      var j :| 0 <= j < |t| && t[j] == Some(Item(e.data, e.count));
      CountAtSlot(t, j, e.data);
    }
    forall y
      ensures Count(t, y) > 0 <==> DataCount(y, Count(t, y)) in Entries(t)
    {
      if Count(t, y) > 0 {
        CountZero(t, y);
        var j :| 0 <= j < |t| && Holds(t[j], y);
        CountAtSlot(t, j, y);
        SlotInEntries(t, j);
      }
    }
  }

  /** While items remain, the iterator finds the next occupied slot. */
  lemma IterStep<E(!new)>(t: Table<E>, pos: nat)
    requires pos <= |t|
    requires Occupied(t) > Occupied(t[..pos])
    ensures pos < |t|
    ensures var i := FirstOccupied(t, pos);
            && i < |t|
            && Entries(t[..i + 1]) == Entries(t[..pos]) + [DataCount(t[i].value.data, t[i].value.count)]
            && Occupied(t[..i + 1]) == Occupied(t[..pos]) + 1
  {
    assert t[..|t|] == t;
    var i := FirstOccupied(t, pos);
    OccupiedThroughNext(t, pos);
    if i == |t| {
      OccupiedSkipEmpty(t, pos, i);
      assert false;
    }
    EntriesSkipEmpty(t, pos, i);
    assert t[..i + 1][..i] == t[..i];
  }

  /** Once the prefix holds every occupied slot, none follows it. */
  lemma NoneAfter<E(!new)>(t: Table<E>, pos: nat)
    requires pos <= |t|
    requires Occupied(t[..pos]) >= Occupied(t)
    ensures FirstOccupied(t, pos) == |t|
  {
    var i := FirstOccupied(t, pos);
    OccupiedThroughNext(t, pos);
    if i < |t| {
      OccupiedPrefix(t, i + 1);
      assert false;
    }
  }

  /** Once every item has been handed out, the remaining slots are empty. */
  lemma IterDone<E(!new)>(t: Table<E>, pos: nat)
    requires pos <= |t|
    requires Occupied(t[..pos]) >= Occupied(t)
    ensures Entries(t[..pos]) == Entries(t)
  {
    NoneAfter(t, pos);
    assert t[..|t|] == t;
    EntriesSkipEmpty(t, pos, |t|);
  }

  /** `hasNext` of an iterator that has passed the slots before `pos`, with
      `currentSize` counting the occupied slots not yet passed: it holds
      exactly when an occupied slot lies at or after `pos`. */
  lemma HasNextIffUnread<E(!new)>(t: Table<E>, pos: nat, it: Iterator<E>)
    requires pos <= |t|
    requires it.currentSize == Occupied(t) - Occupied(t[..pos])
    ensures HasNext(it) <==> exists j :: pos <= j < |t| && t[j].Some?
  {
    var i := FirstOccupied(t, pos);
    if i < |t| {
      OccupiedThroughNext(t, pos);
      OccupiedPrefix(t, i + 1);
    } else {
      OccupiedSkipEmpty(t, pos, |t|);
      assert t[..|t|] == t;
    }
  }

  /** A new iterator over a valid table has a next entry exactly when the
      table holds an item. */
  lemma GetIteratorHasNext<E(!new)>(hash: E -> nat, h: HashTable<E>)
    requires Valid(hash, h)
    ensures HasNext(GetIterator(h)) <==> exists j :: 0 <= j < |h.table| && h.table[j].Some?
  {
    assert h.table[..0] == [];
    HasNextIffUnread(h.table, 0, GetIterator(h));
  }

  /** A client of `getIterator` calling `next` while `hasNext` holds receives
      every stored item once, with its count: `getSize` entries in all. */
  method IterateAll<E(==,!new)>(hash: E -> nat, h: HashTable<E>) returns (ys: seq<DataCount<E>>)
    requires Valid(hash, h)
    ensures ys == Entries(h.table)
    ensures |ys| == GetSize(hash, h)
    ensures forall e :: e in ys ==> e.count == Count(h.table, e.data) && e.count > 0
    ensures forall y :: Count(h.table, y) > 0 <==> DataCount(y, Count(h.table, y)) in ys
    ensures forall i, k :: 0 <= i < k < |ys| ==> ys[i].data != ys[k].data
  {
    var it := GetIterator(h);
    ys := [];
    ghost var pos: nat := 0;
    assert h.table[..0] == [];
    while HasNext(it)
      invariant it.copyArray == h.table
      invariant pos <= |h.table|
      invariant it.index == pos || (pos == |h.table| && it.index + 1 == pos)
      invariant ys == Entries(h.table[..pos])
      invariant it.currentSize == Occupied(h.table) - Occupied(h.table[..pos])
      decreases it.currentSize
    {
      IterStep(h.table, pos);
      var r := Next(it);
      ys := ys + [r.value.0.value];
      it := r.value.1;
      pos := FirstOccupied(h.table, pos) + 1;
    }
    IterDone(h.table, pos);
    EntriesAreCounts(hash, h.table);
  }
}
