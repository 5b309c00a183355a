/**
 How an object's property array is laid out: a count, a hash mask, bucket heads, then records of
 three words in order of insertion, chained by bucket.  Positions count words; a chain word holds
 twice the position of the next record, and zero ends the chain.
 */
module PropertyLayout {

  const UNINITIALIZED: nat := 23
  const UNDEFINED: nat := 11
  const NORMAL: nat := 0
  const MAX_SIZE: nat := 536870911
  const NEXT_LIMIT: nat := 0x4000_0000

  /** What a record says: its key, its value and the kind of property. */
  datatype Entry = Entry(key: nat, value: nat, kind: nat)

  // ---------- hashing ----------

  function Xor(a: nat, b: nat): nat
    decreases a + b
  {
    if a == 0 && b == 0 then 0 else 2 * Xor(a / 2, b / 2) + (a % 2 + b % 2) % 2
  }

  function And(a: nat, m: nat): (r: nat)
    ensures r <= m
    decreases m
  {
    if m == 0 then 0 else 2 * And(a / 2, m / 2) + (if a % 2 == 1 && m % 2 == 1 then 1 else 0)
  }

  function HashProp(key: nat): nat { Xor(key / 8, key % 8) }

  /** The bucket of a key when records start at base, the number of buckets being base - 2. */
  function Bucket(key: nat, base: nat): (h: nat)
    requires base >= 3
    ensures h < base - 2
  {
    And(HashProp(key), base - 3)
  }

  // ---------- records ----------

  /** The third word: chain link in the low 30 bits, kind above. */
  function Next(w: nat): (r: nat)
    ensures r < NEXT_LIMIT
  {
    w % NEXT_LIMIT
  }

  function Kind(w: nat): nat { w / NEXT_LIMIT }

  function SetNext(w: nat, next: nat): (r: nat)
    requires next < NEXT_LIMIT
    ensures Next(r) == next && Kind(r) == Kind(w)
  {
    w / NEXT_LIMIT * NEXT_LIMIT + next
  }

  function SetKind(w: nat, kind: nat): (r: nat)
    ensures Next(r) == Next(w) && Kind(r) == kind
  {
    kind * NEXT_LIMIT + w % NEXT_LIMIT
  }

  /** Records 0..i lie within the array. */
  predicate Fits(a: seq<nat>, base: nat, i: nat) { 3 <= base && base + 3 * i <= |a| <= MAX_SIZE }

  function KeyAt(a: seq<nat>, base: nat, r: nat): nat
    requires Fits(a, base, r + 1)
  {
    a[base + 3 * r]
  }

  predicate Live(a: seq<nat>, base: nat, r: nat)
    requires Fits(a, base, r + 1)
  {
    KeyAt(a, base, r) != UNINITIALIZED
  }

  function EntryAt(a: seq<nat>, base: nat, r: nat): Entry
    requires Fits(a, base, r + 1)
  {
    Entry(a[base + 3 * r], a[base + 3 * r + 1], Kind(a[base + 3 * r + 2]))
  }

  /** The live ones among the first i records, in order. */
  function Entries(a: seq<nat>, base: nat, i: nat): (s: seq<Entry>)
    requires Fits(a, base, i)
    ensures |s| <= i
  {
    if i == 0 then []
    else Entries(a, base, i - 1) + (if Live(a, base, i - 1) then [EntryAt(a, base, i - 1)] else [])
  }

  predicate HasKey(s: seq<Entry>, key: nat) { exists k :: 0 <= k < |s| && s[k].key == key }

  predicate Distinct(s: seq<Entry>) { forall j, k :: 0 <= j < k < |s| ==> s[j].key != s[k].key }

  predicate Member(a: seq<nat>, base: nat, r: nat, h: nat)
    requires Fits(a, base, r + 1)
  {
    Live(a, base, r) && Bucket(KeyAt(a, base, r), base) == h
  }

  /** The chain from link runs through the live records of bucket h before record i, latest first, and ends. */
  predicate Chained(a: seq<nat>, base: nat, h: nat, i: nat, link: nat)
    requires Fits(a, base, i)
  {
    if i == 0 then link == 0
    else if Member(a, base, i - 1, h) then
      link == 2 * (base + 3 * (i - 1)) && Chained(a, base, h, i - 1, Next(a[base + 3 * (i - 1) + 2]))
    else Chained(a, base, h, i - 1, link)
  }

  // ---------- tables ----------

  predicate Shaped(a: seq<nat>) {
    && 3 <= |a| <= MAX_SIZE && a[0] % 2 == 0 && a[1] % 2 == 0
    && 3 + a[1] / 2 <= |a| && (|a| - 3 - a[1] / 2) % 3 == 0
  }

  function Base(a: seq<nat>): nat
    requires Shaped(a)
  {
    3 + a[1] / 2
  }

  function Slots(a: seq<nat>): nat
    requires Shaped(a)
  {
    (|a| - Base(a)) / 3
  }

  predicate AllChained(a: seq<nat>, base: nat, f: nat)
    requires Fits(a, base, f)
  {
    forall h :: 2 <= h < base ==> Chained(a, base, h - 2, f, a[h])
  }

  /** The last record of an array with free records at the end is free itself, and its chain word says where they start. */
  predicate TailFree(a: seq<nat>, f: nat)
    requires Shaped(a)
  {
    var last := Base(a) + 3 * (Slots(a) - 1);
    f < Slots(a) ==> a[last] == UNINITIALIZED && Next(a[last + 2]) == 2 * (Base(a) + 3 * f)
  }

  /** A table in all but its chains and its tail: f is just past the last live record. */
  predicate Unchained(a: seq<nat>, f: nat) {
    && Shaped(a) && f <= Slots(a) && (f > 0 ==> Live(a, Base(a), f - 1))
    && a[0] / 2 == |Entries(a, Base(a), f)| && Distinct(Entries(a, Base(a), f))
  }

  /** A well-formed table whose first free record is f. */
  predicate Table(a: seq<nat>, f: nat) {
    Unchained(a, f) && AllChained(a, Base(a), f) && TailFree(a, f)
  }

  function Content(a: seq<nat>, f: nat): seq<Entry>
    requires Unchained(a, f)
  {
    Entries(a, Base(a), f)
  }

  // ---------- what depends on what ----------

  /** Records agree up to their chain links. */
  predicate SameRecords(a: seq<nat>, b: seq<nat>, base: nat, i: nat)
    requires Fits(a, base, i) && Fits(b, base, i)
  {
    forall r: nat :: r < i ==> EntryAt(a, base, r) == EntryAt(b, base, r)
  }

  lemma {:induction false} EntriesSame(a: seq<nat>, b: seq<nat>, base: nat, i: nat)
    requires Fits(a, base, i) && Fits(b, base, i) && SameRecords(a, b, base, i)
    ensures Entries(a, base, i) == Entries(b, base, i)
  {
    if i > 0 {
      assert EntryAt(a, base, i - 1) == EntryAt(b, base, i - 1);
      EntriesSame(a, b, base, i - 1);
    }
  }

  /** Links of records in the bucket are all that a chain needs beyond the records. */
  lemma {:induction false} ChainedSame(a: seq<nat>, b: seq<nat>, base: nat, h: nat, i: nat, link: nat)
    requires Fits(a, base, i) && Fits(b, base, i) && Chained(a, base, h, i, link)
    requires forall r: nat :: r < i ==> KeyAt(a, base, r) == KeyAt(b, base, r)
    requires forall r: nat :: r < i && Member(a, base, r, h) ==> Next(a[base + 3 * r + 2]) == Next(b[base + 3 * r + 2])
    ensures Chained(b, base, h, i, link)
  {
    hide Bucket;
    if i > 0 {
      assert KeyAt(a, base, i - 1) == KeyAt(b, base, i - 1);
      if Member(a, base, i - 1, h) {
        ChainedSame(a, b, base, h, i - 1, Next(a[base + 3 * (i - 1) + 2]));
      } else {
        ChainedSame(a, b, base, h, i - 1, link);
      }
    }
  }

  /** A link that is not zero leads to the latest record of the bucket. */
  lemma {:induction false} ChainHead(a: seq<nat>, base: nat, h: nat, i: nat, link: nat) returns (r: nat)
    requires Fits(a, base, i) && Chained(a, base, h, i, link) && link != 0
    ensures r < i && link == 2 * (base + 3 * r) && Member(a, base, r, h)
    ensures Chained(a, base, h, r, Next(a[base + 3 * r + 2]))
    ensures forall k: nat :: r < k < i ==> !Member(a, base, k, h)
  {
    hide Bucket;
    if Member(a, base, i - 1, h) {
      r := i - 1;
    } else {
      r := ChainHead(a, base, h, i - 1, link);
    }
  }

  lemma {:induction false} ChainEmpty(a: seq<nat>, base: nat, h: nat, i: nat)
    requires Fits(a, base, i) && Chained(a, base, h, i, 0)
    ensures forall k: nat :: k < i ==> !Member(a, base, k, h)
  {
    hide Bucket;
    if i > 0 {
      assert !Member(a, base, i - 1, h);
      ChainEmpty(a, base, h, i - 1);
    }
  }

  /** An entry sits in the record it came from. */
  lemma {:induction false} EntryIndex(a: seq<nat>, base: nat, i: nat, k: nat) returns (r: nat)
    requires Fits(a, base, i) && k < |Entries(a, base, i)|
    ensures r < i && Live(a, base, r) && EntryAt(a, base, r) == Entries(a, base, i)[k]
  {
    if k < |Entries(a, base, i - 1)| {
      r := EntryIndex(a, base, i - 1, k);
    } else {
      r := i - 1;
    }
  }

  lemma {:induction false} RecordHasKey(a: seq<nat>, base: nat, i: nat, r: nat)
    requires Fits(a, base, i) && r < i && Live(a, base, r)
    ensures HasKey(Entries(a, base, i), KeyAt(a, base, r))
  {
    var s := Entries(a, base, i);
    if r == i - 1 {
      assert s[|s| - 1].key == KeyAt(a, base, r);
    } else {
      RecordHasKey(a, base, i - 1, r);
      var k :| 0 <= k < |Entries(a, base, i - 1)| && Entries(a, base, i - 1)[k].key == KeyAt(a, base, r);
      assert s[k].key == KeyAt(a, base, r);
    }
  }
}
