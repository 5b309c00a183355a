/** Finding, creating, deleting and listing own properties in the array of one object. */
module PropertyTable {
  import opened PropertyLayout

  /** A size for an array of have words that is to hold want: half as large again, and unless it is want, whole records from base. */
  predicate Suits(size: nat, have: nat, want: nat, base: nat) {
    && want <= size && have + have / 2 <= size
    && (size == want || base == 0 || (base <= size && (size - base) % 3 == 0))
  }

  ghost predicate SizeAllowed(have: nat, want: nat, base: nat) { exists size: nat :: size <= MAX_SIZE && Suits(size, have, want, base) }

  /** The hash mask for one more record. */
  function MaskForNext(a: seq<nat>): (m: nat)
    requires |a| >= 2
    ensures a[1] / 2 <= m
  {
    if a[0] / 2 + 1 > 2 * (a[1] / 2 + 1) then 2 * (a[1] / 2 + 1) - 1 else a[1] / 2
  }

  /** A size that may be allocated suits the array with one record more and the buckets that asks for. */
  ghost predicate CanGrow(a: seq<nat>)
    requires |a| >= 2
  {
    var mask := MaskForNext(a);
    SizeAllowed(|a|, |a| + 3 + (mask - a[1] / 2), 3 + mask)
  }

  /** So it can below half the greatest size. */
  lemma GrowsBelowHalf(a: seq<nat>)
    requires |a| >= 3 && a[1] / 2 + 3 <= |a| && 2 * |a| + 2 <= MAX_SIZE
    ensures CanGrow(a)
  {
    var mask := MaskForNext(a);
    var want, half := |a| + 3 + (mask - a[1] / 2), |a| + |a| / 2;
    if half <= want {
      assert Suits(want, |a|, want, 3 + mask);
    } else {
      var size := half + (3 - (half - 3 - mask) % 3) % 3;
      assert (size - (3 + mask)) % 3 == 0;
      assert Suits(size, |a|, want, 3 + mask);
    }
  }

  class Object {
    var props: array<nat>
    const empty: array<nat>

    /** The shared empty array, or a table of its own with at least one record. */
    ghost predicate Valid(f: nat)
      reads this, props, empty
    {
      && empty[..] == [0, 0, 0] && Table(props[..], f)
      && (Slots(props[..]) == 0 <==> props == empty)
    }

    ghost function Properties(f: nat): seq<Entry>
      requires Valid(f)
      reads this, props, empty
    {
      Content(props[..], f)
    }

    constructor ()
      ensures Valid(0) && Properties(0) == [] && fresh(props)
    {
      var a := new nat[3] [0, 0, 0];
      empty := a;
      props := a;
      new;
      assert props[..] == [0, 0, 0];
    }

    // ---------- lookup ----------

    /** The position of the record with the key, or zero. */
    method FindOwnProperty(prop: nat, ghost f: nat) returns (pr: nat, ghost r: nat)
      requires Valid(f)
      ensures pr == 0 <==> !HasKey(Properties(f), prop)
      ensures pr != 0 ==> r < f && pr == Base(props[..]) + 3 * r && Live(props[..], Base(props[..]), r)
                          && props[pr] == prop
    {
      hide Bucket, Chained, Entries;
      ghost var a, base := props[..], Base(props[..]);
      var hashMask: nat := props[1] / 2;
      r := 0;
      var h: nat := Bucket(prop, hashMask + 3);
      var idx: nat := props[2 + h];
      assert Chained(a, base, 2 + h - 2, f, a[2 + h]);
      ghost var i: nat := f;
      while idx != 0
        invariant i <= f && Chained(a, base, h, i, idx)
        invariant forall k: nat :: i <= k < f && Member(a, base, k, h) ==> KeyAt(a, base, k) != prop
        decreases i
      {
        r := ChainHead(a, base, h, i, idx);
        pr := idx / 2;
        if props[pr] == prop {
          RecordHasKey(a, base, f, r);
          return;
        }
        idx := Next(props[pr + 2]);
        i := r;
      }
      ChainEmpty(a, base, h, i);
      pr := 0;
      KeyAbsent(a, base, f, h, prop);
    }

    /** The keys in the order they were created. */
    method Keys(ghost f: nat) returns (keys: seq<nat>)
      requires Valid(f)
      ensures |keys| == |Properties(f)| && forall k :: 0 <= k < |keys| ==> keys[k] == Properties(f)[k].key
    {
      hide Entries, AllChained;
      ghost var a, base := props[..], Base(props[..]);
      var propCount, hashMask := props[0] / 2, props[1] / 2;
      var i, j := 0, 0;
      keys := [];
      EntriesStart(a, base);
      while j < propCount
        invariant i <= f && j == |keys| == |Entries(a, base, i)|
        invariant forall k :: 0 <= k < j ==> keys[k] == Entries(a, base, i)[k].key
        decreases f - i
      {
        MoreToCome(a, base, i, f);
        EntriesStep(a, base, i);
        EntriesPrefix(a, base, i + 1, f);
        var key := props[2 + hashMask + 1 + 3 * i];
        if key != UNINITIALIZED {
          keys := keys + [key];
          j := j + 1;
        }
        i := i + 1;
      }
      EntriesPrefix(a, base, i, f);
    }

    // ---------- rebuilding the chains ----------

    /** js_rehash_props: empty the buckets, then put every live record at the head of its chain. */
    method Rehash(ghost f: nat)
      requires Unchained(props[..], f)
      modifies props
      ensures Unchained(props[..], f) && AllChained(props[..], Base(props[..]), f)
      ensures props[0] == old(props[0]) && props[1] == old(props[1])
      ensures Content(props[..], f) == old(Content(props[..], f))
      ensures forall k :: old(Base(props[..])) + 3 * f <= k < props.Length ==> props[k] == old(props[k])
    {
      hide Entries, Chained, Bucket, SetNext, Next;
      ghost var a, base := props[..], Base(props[..]);
      var propCount: nat, hashMask: nat := props[0] / 2, props[1] / 2;
      ClearBuckets(hashMask, f);
      var i: nat, j: nat := 0, 0;
      EntriesStart(props[..], base);
      while j < propCount
        invariant i <= f && Rebuilding(a, props[..], base, i, f) && j == |Entries(a, base, i)|
        decreases f - i
      {
        MoreToCome(a, base, i, f);
        EntriesStep(a, base, i);
        EntriesPrefix(a, base, i + 1, f);
        var idx: nat := 2 + (hashMask + 1) + 3 * i;
        var key := props[idx];
        ghost var was := props[..];
        assert EntryAt(a, base, i) == EntryAt(was, base, i);
        if key != UNINITIALIZED {
          var h: nat := Bucket(key, hashMask + 3);
          assert Chained(was, base, 2 + h - 2, i, was[2 + h]);
          HeadBound(was, base, h, i, was[2 + h]);
          props[idx + 2] := SetNext(props[idx + 2], props[2 + h]);
          props[2 + h] := 2 * idx;
          LinkRecord(a, was, props[..], base, i, h, f);
          j := j + 1;
        } else {
          SkipRecord(a, was, base, i, f);
        }
        i := i + 1;
      }
      RebuildDone(a, props[..], base, i, f);
    }

    method ClearBuckets(hashMask: nat, ghost f: nat)
      requires Unchained(props[..], f) && hashMask == props[1] / 2
      modifies props
      ensures Rebuilding(old(props[..]), props[..], old(Base(props[..])), 0, f)
    {
      var i := 0;
      while i <= hashMask
        invariant i <= hashMask + 1 && props[0] == old(props[0]) && props[1] == old(props[1])
        invariant forall k :: 3 + hashMask <= k < props.Length ==> props[k] == old(props[k])
        invariant forall k :: 2 <= k < 2 + i ==> props[k] == 0
      {
        props[2 + i] := 0;
        i := i + 1;
      }
    }

    // ---------- allocation ----------

    /**
     js_resize_value_array2: half as large again if that is more, rounded up to whole records from propBase if that
     is not 0; it fails only where no such size is allowed.
     */
    method Resize(newSize: nat, propBase: nat) returns (ok: bool, b: array<nat>)
      requires propBase <= newSize
      ensures !ok || newSize <= props.Length ==> b == props
      ensures ok <==> newSize <= props.Length || SizeAllowed(props.Length, newSize, propBase)
      ensures ok && newSize > props.Length ==>
                && fresh(b) && newSize <= b.Length <= MAX_SIZE && b[..props.Length] == props[..]
                && (forall k :: props.Length <= k < b.Length ==> b[k] == UNDEFINED)
                && Suits(b.Length, props.Length, newSize, propBase)
                && forall size: nat :: Suits(size, props.Length, newSize, propBase) ==> b.Length <= size
    {
      if newSize <= props.Length {
        return true, props;
      }
      var size := newSize;
      var half := props.Length + props.Length / 2;
      if half > size {
        size := half;
        if propBase != 0 {
          var align := (size - propBase) % 3;
          if align != 0 {
            size := size + (3 - align);
          }
        }
      }
      assert Suits(size, props.Length, newSize, propBase);
      assert forall less: nat :: Suits(less, props.Length, newSize, propBase) ==> size <= less;
      assert SizeAllowed(props.Length, newSize, propBase) <==> size <= MAX_SIZE;
      if size > MAX_SIZE {
        return false, props;
      }
      var old_ := props;
      b := new nat[size] (k requires 0 <= k < size reads old_ => if k < old_.Length then old_[k] else UNDEFINED);
      ok := true;
    }

    /** js_alloc_props: n free records behind an empty hash table. */
    method AllocProps(n: nat) returns (b: array<nat>)
      requires 3 + HashMask(n) + 3 * n <= MAX_SIZE
      ensures fresh(b) && b.Length == 3 + HashMask(n) + 3 * n && b[0] == 0 && b[1] == 2 * HashMask(n)
      ensures forall k :: 2 <= k < 3 + HashMask(n) ==> b[k] == 0
      ensures n > 0 ==>
                && Unchained(b[..], 0) && AllChained(b[..], Base(b[..]), 0) && TailFree(b[..], 0)
                && Base(b[..]) == 3 + HashMask(n) && Slots(b[..]) == n
    {
      hide HashMask, Unchained, AllChained, TailFree, SetNext, Next;
      var hashMask := HashMask(n);
      var firstFree := 2 + hashMask + 1;
      var size := firstFree + 3 * n;
      b := new nat[size] (_ => UNDEFINED);
      b[0], b[1] := 0, 2 * hashMask;
      var i := 0;
      while i <= hashMask
        invariant i <= hashMask + 1 && b[0] == 0 && b[1] == 2 * hashMask
        invariant forall k :: 2 <= k < 2 + i ==> b[k] == 0
      {
        b[2 + i] := 0;
        i := i + 1;
      }
      i := 0;
      while i < n
        invariant 0 <= i <= n && b[0] == 0 && b[1] == 2 * hashMask
        invariant forall k :: 2 <= k < firstFree ==> b[k] == 0
        invariant i > 0 ==> b[firstFree + 3 * (i - 1)] == UNINITIALIZED
      {
        b[firstFree + 3 * i] := UNINITIALIZED;
        i := i + 1;
      }
      if n > 0 {
        b[size - 1] := SetNext(b[size - 1], 2 * firstFree);
        FreshTable(b[..], hashMask, n);
      }
    }

    // ---------- creation ----------

    /** Fill the first free record, put it at the head of its chain and note where free records start now. */
    method Append(firstFree: nat, prop: nat, ghost f: nat)
      requires Unchained(props[..], f) && AllChained(props[..], Base(props[..]), f)
      requires f < Slots(props[..]) && firstFree == Base(props[..]) + 3 * f
      requires props[props.Length - 3] == UNINITIALIZED
      requires prop != UNINITIALIZED && !HasKey(Content(props[..], f), prop)
      modifies props
      ensures Table(props[..], f + 1) && props[firstFree] == prop && Base(props[..]) == old(Base(props[..]))
      ensures Content(props[..], f + 1) == old(Content(props[..], f)) + [Entry(prop, UNDEFINED, NORMAL)]
    {
      hide Chained, Entries, Bucket, SetNext, Next, SetKind, Kind, AllChained, Unchained, Content, HasKey, Table, WithNew;
      ghost var a := props[..];
      Room(a, f);
      var propCount, hashMask: nat := props[0] / 2, props[1] / 2;
      var h: nat := Bucket(prop, hashMask + 3);
      HeadInRange(a, f, h);
      props[firstFree] := prop;
      props[firstFree + 1] := UNDEFINED;
      props[firstFree + 2] := SetKind(props[firstFree + 2], NORMAL);
      props[firstFree + 2] := SetNext(props[firstFree + 2], props[2 + h]);
      props[2 + h] := 2 * firstFree;
      props[0] := 2 * (propCount + 1);
      ghost var b := props[..];
      NewRecord(a, b, f, prop, h);
      AppendedChains(a, b, f, prop, h);
      AppendedContent(a, b, f, prop, h);
      var size := props.Length;
      if firstFree + 3 < size {
        props[size - 1] := SetNext(props[size - 1], 2 * (firstFree + 3));
        TailChanged(b, props[..], f + 1);
      } else {
        TailFull(b, f + 1);
      }
    }

    /** Move n words up, last first. */
    method MoveWords(from: nat, to: nat, n: nat)
      requires from <= to && to + n <= props.Length
      modifies props
      ensures props[to..to + n] == old(props[from..from + n])
      ensures props[..to] == old(props[..to]) && props[to + n..] == old(props[to + n..])
    {
      ghost var a := props[..];
      var i := n;
      while i > 0
        invariant 0 <= i <= n
        invariant forall k :: to + i <= k < to + n ==> props[k] == a[k - to + from]
        invariant forall k :: 0 <= k < to + i ==> props[k] == a[k]
        invariant forall k :: to + n <= k < props.Length ==> props[k] == a[k]
      {
        i := i - 1;
        props[to + i] := props[from + i];
      }
    }

    /** A larger array, with more buckets when the chains would grow past two records on average. */
    method Grow(propCount: nat, hashMask: nat, ghost f: nat) returns (ok: bool, firstFree: nat)
      requires Unchained(props[..], f) && AllChained(props[..], Base(props[..]), f) && f == Slots(props[..])
      requires propCount == props[0] / 2 && hashMask == props[1] / 2
      modifies this`props
      ensures ok <==> CanGrow(old(props[..]))
      ensures !ok ==> props == old(props)
      ensures ok ==> && fresh(props) && Unchained(props[..], f) && AllChained(props[..], Base(props[..]), f)
                     && Content(props[..], f) == old(Content(props[..], f))
                     && f < Slots(props[..]) && firstFree == Base(props[..]) + 3 * f
    {
      hide Chained, Entries, Bucket, Distinct, AllChained, Content, SizeAllowed, Suits, Unchained, Slots;
      ghost var a := props[..];
      FullTable(a, f);
      firstFree := props.Length;
      var newSize, newHashMask := firstFree + 3, hashMask;
      if propCount + 1 > 2 * (hashMask + 1) {
        newHashMask := 2 * (hashMask + 1) - 1;
        newSize := newSize + (newHashMask - hashMask);
      }
      var b;
      ok, b := Resize(newSize, 2 + newHashMask + 1);
      if !ok {
        return;
      }
      props := b;
      GrownPrefix(a, props[..]);
      WholeRecords(a, f, newHashMask, props.Length);
      if newHashMask != hashMask {
        SpreadBuckets(hashMask, newHashMask, firstFree, a, f);
        firstFree := firstFree + (newHashMask - hashMask);
      } else {
        GrownAlike(a, props[..], f);
      }
    }

    /** Make room for more buckets in front of the records, which are still laid out as in a. */
    method SpreadBuckets(hashMask: nat, newHashMask: nat, end: nat, ghost a: seq<nat>, ghost f: nat)
      requires Unchained(a, f) && f == Slots(a) && end == |a| && hashMask == a[1] / 2 < newHashMask
      requires |a| + (newHashMask - hashMask) < props.Length <= MAX_SIZE && (props.Length - 3 - newHashMask) % 3 == 0
      requires forall k :: 0 <= k < |a| ==> props[k] == a[k]
      modifies props
      ensures Unchained(props[..], f) && AllChained(props[..], Base(props[..]), f)
      ensures Content(props[..], f) == Content(a, f) && Base(props[..]) == 3 + newHashMask && f < Slots(props[..])
    {
      hide Chained, Entries, Bucket, Distinct, AllChained, Unchained, Content;
      ghost var was := props[..];
      MoveWords(2 + hashMask + 1, 2 + newHashMask + 1, end - (2 + hashMask + 1));
      ghost var moved := props[..];
      props[1] := 2 * newHashMask;
      Spread(a, was, moved, props[..], newHashMask, f);
      Rehash(f);
    }

    /**
     js_create_property: the position of a new record for a key the object does not have; zero only if there is no
     free record and the array cannot grow.
     */
    method CreateProperty(prop: nat, ghost f: nat) returns (pr: nat, ghost f': nat)
      requires Valid(f) && prop != UNINITIALIZED && !HasKey(Properties(f), prop)
      modifies this`props, props
      ensures Valid(f') && (props == old(props) || fresh(props))
      ensures pr != 0 <==> old(props[props.Length - 3] == UNINITIALIZED || props == empty || CanGrow(props[..]))
      ensures pr == 0 ==> f' == f && Properties(f') == old(Properties(f))
      ensures pr != 0 ==> && Properties(f') == old(Properties(f)) + [Entry(prop, UNDEFINED, NORMAL)]
                          && f' > 0 && pr == Base(props[..]) + 3 * (f' - 1) && props[pr] == prop
    {
      hide Chained, Entries, AllChained, Distinct, HasKey, CanGrow;
      ghost var a := props[..];
      var propCount, hashMask, size := props[0] / 2, props[1] / 2, props.Length;
      var firstFree, g := 0, f;
      f' := f;
      if props[size - 3] != UNINITIALIZED {
        if props == empty {
          props := AllocProps(1);
          firstFree := 3;
          NothingYet(a, props[..], f);
          g := 0;
        } else {
          var ok;
          ok, firstFree := Grow(propCount, hashMask, f);
          if !ok {
            return 0, f;
          }
        }
        ghost var b := props[..];
        props[props.Length - 3] := UNINITIALIZED;
        TailMarked(b, props[..], g);
      } else {
        assert empty[..][0] == 0;
        firstFree := Next(props[size - 1]) / 2;
      }
      Append(firstFree, prop, g);
      pr, f' := firstFree, g + 1;
    }

    // ---------- deletion ----------

    /** Where free records start: kept by the last record, if that is free. */
    method GetFirstFree(ghost f: nat) returns (firstFree: nat)
      requires Unchained(props[..], f) && TailFree(props[..], f) && Slots(props[..]) > 0
      ensures firstFree == Base(props[..]) + 3 * f
    {
      hide Entries, Distinct;
      var size := props.Length;
      if props[size - 3] == UNINITIALIZED {
        return Next(props[size - 1]) / 2;
      }
      firstFree := size;
    }

    /** JS_DeleteProperty: the key's record, if there is one, becomes free. */
    method DeleteProperty(prop: nat, ghost f: nat) returns (ghost f': nat)
      requires Valid(f) && prop != UNINITIALIZED
      modifies this`props, props
      ensures Valid(f') && (props == old(props) || props == empty || fresh(props))
      ensures Properties(f') == Without(old(Properties(f)), prop)
      ensures !old(HasKey(Properties(f), prop)) ==> props == old(props) && props[..] == old(props[..])
      ensures old(HasKey(Properties(f), prop)) ==> props == empty || props.Length <= 2 * (Base(props[..]) + 3 * (|Properties(f')| + 1)) + 1
    {
      hide Chained, Entries, Bucket, AllChained, Distinct, HasKey, SetNext, Next;
      ghost var a, base := props[..], Base(props[..]);
      var hashMask: nat := props[1] / 2;
      var h: nat := Bucket(prop, hashMask + 3);
      var idx: nat, lastIdx: int := props[2 + h] / 2, -1;
      ghost var i: nat, last: nat, link: nat := f, f, props[2 + h];
      WalkStart(a, base, f, h);
      while idx != 0
        invariant props == old(props) && props[..] == a && Walking(a, base, f, h, i, link, lastIdx, last, prop) && idx == link / 2
        decreases i
      {
        ghost var r := ChainHead(a, base, h, i, link);
        var pr := idx;
        if props[pr] == prop {
          RecordHasKey(a, base, f, r);
          Unlink(pr, h, lastIdx, i, r, last, prop, f);
          var propCount: nat := props[0] / 2;
          f' := FreeRecord(pr, propCount, hashMask, r, prop, a, f);
          if 2 + hashMask + 1 + 3 * propCount < props.Length / 2 {
            f' := Compact(f');
          }
          return;
        }
        WalkOn(a, base, f, h, i, link, lastIdx, last, prop, r);
        lastIdx := idx;
        link := Next(props[pr + 2]);
        idx := Next(props[pr + 2]) / 2;
        last, i := r, r;
      }
      WalkEnd(a, base, f, h, i, link, lastIdx, last, prop);
      f' := f;
    }

    /** Take the record out of its chain. */
    method Unlink(pr: nat, h: nat, lastIdx: int, ghost i: nat, ghost r: nat, ghost last: nat, ghost prop: nat, ghost f: nat)
      requires Table(props[..], f) && Slots(props[..]) > 0
      requires Walking(props[..], Base(props[..]), f, h, i, 2 * pr, lastIdx, last, prop)
      requires pr == Base(props[..]) + 3 * r && r < i && Member(props[..], Base(props[..]), r, h)
      modifies props
      ensures Unlinked(old(props[..]), props[..], f, r)
    {
      hide Chained, Entries, Bucket, AllChained, Distinct, SetNext, Next;
      ghost var a, base := props[..], Base(props[..]);
      var link := Next(props[pr + 2]);
      if lastIdx >= 0 {
        props[lastIdx + 2] := SetNext(props[lastIdx + 2], link);
      } else {
        props[2 + h] := link;
      }
      UnlinkedChains(a, props[..], f, h, i, r, lastIdx, last, prop);
    }

    /** Mark the record free, and move the start of the free records back over it if it is the last. */
    method FreeRecord(pr: nat, propCount: nat, hashMask: nat, ghost r: nat, ghost prop: nat, ghost a: seq<nat>, ghost f: nat)
      returns (ghost f': nat)
      requires Unlinked(a, props[..], f, r) && TailFree(a, f) && pr == Base(a) + 3 * r
      requires prop != UNINITIALIZED && KeyAt(a, Base(a), r) == prop
      requires propCount == props[0] / 2 && hashMask == props[1] / 2
      modifies props
      ensures Table(props[..], f') && Slots(props[..]) > 0 && Content(props[..], f') == Without(Content(a, f), prop)
      ensures Base(props[..]) == Base(a) && |Content(props[..], f')| == propCount - 1
    {
      hide Chained, Entries, Bucket, AllChained, Distinct, HasKey, SetNext, Next, ChainedBut, SetKind, Kind, Without;
      ghost var b := props[..];
      StillTable(a, b, f, r);
      LastOne(a, f, r, prop);
      var firstFree: nat := GetFirstFree(f);
      props[0] := 2 * (propCount - 1);
      props[pr + 2] := SetKind(props[pr + 2], NORMAL);
      props[pr] := UNINITIALIZED;
      props[pr + 1] := UNDEFINED;
      ghost var c := props[..];
      firstFree, f' := Rewind(firstFree, hashMask, f);
      var size := props.Length;
      if firstFree < size {
        props[size - 1] := SetNext(props[size - 1], 2 * firstFree);
      }
      MarkedFree(b, c, props[..], f, f', r);
      FreedTable(a, b, props[..], f, f', r, prop);
    }

    /** Back over the free records that end the used part. */
    method Rewind(end: nat, hashMask: nat, ghost f: nat) returns (firstFree: nat, ghost g: nat)
      requires 3 + hashMask + 3 * f == end <= props.Length
      ensures g <= f && firstFree == 3 + hashMask + 3 * g
      ensures forall k: nat :: g <= k < f ==> props[3 + hashMask + 3 * k] == UNINITIALIZED
      ensures g > 0 ==> props[firstFree - 3] != UNINITIALIZED
    {
      firstFree, g := end, f;
      while firstFree > 2 + hashMask + 1 && props[firstFree - 3] == UNINITIALIZED
        invariant g <= f && firstFree == 3 + hashMask + 3 * g
        invariant forall k: nat :: g <= k < f ==> props[3 + hashMask + 3 * k] == UNINITIALIZED
        decreases g
      {
        firstFree := firstFree - 3;
        g := g - 1;
      }
    }

    /** js_compact_props: only live records are left, and no more buckets than they need; without any, the shared empty array. */
    method Compact(ghost f: nat) returns (ghost f': nat)
      requires empty[..] == [0, 0, 0] && props != empty && Table(props[..], f) && Slots(props[..]) > 0
      modifies this`props, props
      ensures Valid(f') && (props == old(props) || props == empty || fresh(props))
      ensures Properties(f') == old(Content(props[..], f))
      ensures props == empty || props.Length == Base(props[..]) + 3 * |Properties(f')|
      ensures props == empty <==> Properties(f') == []
    {
      hide Chained, Entries, Bucket, AllChained, Distinct, HashMask;
      ghost var a, base := props[..], Base(props[..]);
      f' := f;
      var propCount: nat := props[0] / 2;
      if propCount == 0 {
        props := empty;
        f' := 0;
        NoEntries(props[..]);
        return;
      }
      var hashMask: nat := props[1] / 2;
      var newHashMask: nat := if hashMask < HashMask(propCount) then hashMask else HashMask(propCount);
      var newSize := 2 + newHashMask + 1 + 3 * propCount;
      if newSize >= props.Length {
        return;
      }
      Squeeze(propCount, hashMask, newHashMask, f);
      ghost var c := props[..];
      var full := props;
      props := new nat[newSize] (k requires 0 <= k < newSize reads full => full[k]);
      Shrunk(a, c, props[..], f, propCount);
      f' := propCount;
      Rehash(f');
    }

    /** Move the live records together, down to where fewer buckets let them start. */
    method Squeeze(propCount: nat, hashMask: nat, newHashMask: nat, ghost f: nat)
      requires Unchained(props[..], f) && propCount == props[0] / 2 > 0 && newHashMask <= hashMask == props[1] / 2
      modifies props
      ensures var base' := 3 + newHashMask;
              && props[0] == old(props[0]) && props[1] == 2 * newHashMask && Fits(props[..], base', propCount)
              && Entries(props[..], base', propCount) == old(Content(props[..], f))
              && Live(props[..], base', propCount - 1)
    {
      hide Chained, Entries, Bucket, AllChained, Distinct;
      ghost var a, base, base' := props[..], Base(props[..]), 3 + newHashMask;
      props[1] := 2 * newHashMask;
      var i: nat, j: nat := 0, 0;
      EntriesStart(a, base);
      EntriesStart(props[..], base');
      while j < propCount
        invariant props[0] == a[0] && props[1] == 2 * newHashMask
        invariant Squeezed(a, props[..], base, base', i, j, f)
        decreases f - i
      {
        MoreToCome(a, base, i, f);
        EntriesPrefix(a, base, i + 1, f);
        ghost var b := props[..];
        var src: nat, dst: nat := 2 + (hashMask + 1) + 3 * i, 2 + (newHashMask + 1) + 3 * j;
        if props[src] != UNINITIALIZED {
          props[dst] := props[src];
          props[dst + 1] := props[src + 1];
          props[dst + 2] := props[src + 2];
          SqueezedMore(a, b, props[..], base, base', i, j, f);
          j := j + 1;
        } else {
          EntriesStep(a, base, i);
        }
        i := i + 1;
      }
      EntriesPrefix(a, base, i, f);
    }
  }

  lemma KeyAbsent(a: seq<nat>, base: nat, f: nat, h: nat, prop: nat)
    requires Fits(a, base, f) && h == Bucket(prop, base)
    requires forall k: nat :: k < f && Member(a, base, k, h) ==> KeyAt(a, base, k) != prop
    ensures !HasKey(Entries(a, base, f), prop)
  {
    hide Bucket, Entries;
    if HasKey(Entries(a, base, f), prop) {
      var k :| 0 <= k < |Entries(a, base, f)| && Entries(a, base, f)[k].key == prop;
      var r := EntryIndex(a, base, f, k);
    }
  }

  lemma EntriesStart(a: seq<nat>, base: nat)
    requires Fits(a, base, 0)
    ensures Entries(a, base, 0) == []
  {}

  lemma EntriesStep(a: seq<nat>, base: nat, i: nat)
    requires Fits(a, base, i + 1)
    ensures Entries(a, base, i + 1)
            == Entries(a, base, i) + (if Live(a, base, i) then [EntryAt(a, base, i)] else [])
  {}

  lemma {:induction false} EntriesPrefix(a: seq<nat>, base: nat, i: nat, f: nat)
    requires Fits(a, base, f) && i <= f
    ensures |Entries(a, base, i)| <= |Entries(a, base, f)|
    ensures Entries(a, base, f)[..|Entries(a, base, i)|] == Entries(a, base, i)
  {
    if i < f {
      EntriesPrefix(a, base, i, f - 1);
      var s, t := Entries(a, base, f - 1), Entries(a, base, f);
      assert t[..|Entries(a, base, i)|] == s[..|Entries(a, base, i)|];
    }
  }

  lemma MoreToCome(a: seq<nat>, base: nat, i: nat, f: nat)
    requires Fits(a, base, f) && i <= f && |Entries(a, base, i)| < |Entries(a, base, f)|
    ensures i < f
  {}

  // ---------- chains under construction ----------

  /** b has the records of a, those past f untouched, and chains through the first i. */
  predicate Rebuilding(a: seq<nat>, b: seq<nat>, base: nat, i: nat, f: nat) {
    && |b| == |a| && i <= f && Unchained(a, f) && base == Base(a) && b[0] == a[0] && b[1] == a[1]
    && SameRecords(a, b, base, Slots(a)) && AllChained(b, base, i)
    && forall k :: base + 3 * f <= k < |a| ==> b[k] == a[k]
  }

  lemma HeadBound(a: seq<nat>, base: nat, h: nat, i: nat, link: nat)
    requires Fits(a, base, i) && Chained(a, base, h, i, link)
    ensures link < NEXT_LIMIT
  {
    if link != 0 { var r := ChainHead(a, base, h, i, link); }
  }

  lemma LinkRecord(a: seq<nat>, b: seq<nat>, c: seq<nat>, base: nat, i: nat, h: nat, f: nat)
    requires Rebuilding(a, b, base, i, f) && i < f && Member(b, base, i, h) && h < base - 2 && b[2 + h] < NEXT_LIMIT
    requires c == b[base + 3 * i + 2 := SetNext(b[base + 3 * i + 2], b[2 + h])][2 + h := 2 * (base + 3 * i)]
    ensures Rebuilding(a, c, base, i + 1, f)
  {
    hide Bucket, SetNext, Entries, Distinct, Chained;
    forall r: nat | r < Slots(a) ensures EntryAt(a, base, r) == EntryAt(c, base, r) {
      assert EntryAt(a, base, r) == EntryAt(b, base, r);
    }
    forall k | 2 <= k < base ensures Chained(c, base, k - 2, i + 1, c[k]) {
      ChainedSame(b, c, base, k - 2, i, b[k]);
      ChainStep(c, base, k - 2, i, c[k]);
    }
    assert EntryAt(a, base, i) == EntryAt(b, base, i);
  }

  lemma ChainStep(a: seq<nat>, base: nat, h: nat, i: nat, link: nat)
    requires Fits(a, base, i + 1)
    ensures Chained(a, base, h, i + 1, link) ==
            if Member(a, base, i, h) then link == 2 * (base + 3 * i) && Chained(a, base, h, i, Next(a[base + 3 * i + 2]))
            else Chained(a, base, h, i, link)
  {}

  lemma SkipRecord(a: seq<nat>, b: seq<nat>, base: nat, i: nat, f: nat)
    requires Rebuilding(a, b, base, i, f) && i < f && !Live(b, base, i)
    ensures Rebuilding(a, b, base, i + 1, f)
  {
    hide Bucket, Entries, Distinct, Chained;
    forall k | 2 <= k < base ensures Chained(b, base, k - 2, i + 1, b[k]) {
      ChainStep(b, base, k - 2, i, b[k]);
    }
  }

  lemma RebuildDone(a: seq<nat>, b: seq<nat>, base: nat, i: nat, f: nat)
    requires Rebuilding(a, b, base, i, f) && |Entries(a, base, i)| >= a[0] / 2
    ensures i == f && Unchained(b, f) && Content(b, f) == Content(a, f)
  {
    hide Bucket, Chained, Distinct;
    if i < f { EntriesPrefix(a, base, i, f - 1); }
    EntriesSame(a, b, base, f);
    if f > 0 { assert EntryAt(a, base, f - 1) == EntryAt(b, base, f - 1); }
  }

  // ---------- allocation and creation ----------

  function FloorPowerOfTwo(n: nat): (p: nat)
    ensures 1 <= p && (n > 0 ==> p <= n)
  {
    if n < 2 then 1 else 2 * FloorPowerOfTwo(n / 2)
  }

  /** One less than 2 to get_prop_hash_size_log2. */
  function HashMask(n: nat): (m: nat)
    ensures n > 0 ==> m < n
  {
    if n <= 1 then 0 else FloorPowerOfTwo(n - 1) - 1
  }

  lemma EntriesSnoc(a: seq<nat>, b: seq<nat>, base: nat, i: nat)
    requires Fits(a, base, i) && Fits(b, base, i + 1) && SameRecords(a, b, base, i) && Live(b, base, i)
    ensures Entries(b, base, i + 1) == Entries(a, base, i) + [EntryAt(b, base, i)]
  {
    EntriesSame(a, b, base, i);
  }

  /** b is a with a new record f of bucket h, at the head of its chain. */
  predicate WithNew(a: seq<nat>, b: seq<nat>, f: nat, prop: nat, h: nat) {
    && Shaped(a) && f < Slots(a) && 2 + h < Base(a) && h == Bucket(prop, Base(a)) && prop != UNINITIALIZED
    && |b| == |a| && b[0] == 2 * (a[0] / 2 + 1) && b[2 + h] == 2 * (Base(a) + 3 * f)
    && (var p := Base(a) + 3 * f;
        b[p] == prop && b[p + 1] == UNDEFINED && Kind(b[p + 2]) == NORMAL && Next(b[p + 2]) == a[2 + h])
    && (forall k :: 0 < k < |a| && k != 2 + h && !(0 <= k - Base(a) - 3 * f <= 2) ==> b[k] == a[k])
  }

  /** The new record leads its chain, the other chains are as they were. */
  lemma AppendedChains(a: seq<nat>, b: seq<nat>, f: nat, prop: nat, h: nat)
    requires WithNew(a, b, f, prop, h) && AllChained(a, Base(a), f)
    ensures Shaped(b) && Base(b) == Base(a) && AllChained(b, Base(b), f + 1)
  {
    hide Bucket, Chained;
    var base := Base(a);
    forall k | 2 <= k < base ensures Chained(b, base, k - 2, f + 1, b[k]) {
      ChainedSame(a, b, base, k - 2, f, a[k]);
      ChainStep(b, base, k - 2, f, b[k]);
    }
  }

  lemma AppendedContent(a: seq<nat>, b: seq<nat>, f: nat, prop: nat, h: nat)
    requires Unchained(a, f) && !HasKey(Content(a, f), prop)
    requires WithNew(a, b, f, prop, h)
    ensures Unchained(b, f + 1) && Content(b, f + 1) == Content(a, f) + [Entry(prop, UNDEFINED, NORMAL)]
  {
    hide Entries, Bucket;
    EntriesSnoc(a, b, Base(a), f);
    NewKeyDistinct(Content(a, f), Entry(prop, UNDEFINED, NORMAL));
  }

  lemma NewKeyDistinct(s: seq<Entry>, e: Entry)
    requires Distinct(s) && !HasKey(s, e.key)
    ensures Distinct(s + [e])
  {}

  /** The last free record may change its chain word. */
  lemma TailChanged(a: seq<nat>, b: seq<nat>, f: nat)
    requires Unchained(a, f) && AllChained(a, Base(a), f) && f < Slots(a)
    requires |b| == |a| && a[|a| - 3] == UNINITIALIZED && forall k :: 0 <= k < |a| - 1 ==> b[k] == a[k]
    requires Next(b[|a| - 1]) == 2 * (Base(a) + 3 * f)
    ensures Table(b, f) && Content(b, f) == Content(a, f)
  {
    hide Entries, Bucket, Chained;
    var base := Base(a);
    EntriesSame(a, b, base, f);
    forall k | 2 <= k < base ensures Chained(b, base, k - 2, f, b[k]) {
      ChainedSame(a, b, base, k - 2, f, a[k]);
    }
  }

  lemma NothingYet(a: seq<nat>, b: seq<nat>, f: nat)
    requires Unchained(a, f) && Slots(a) == 0 && Unchained(b, 0)
    ensures f == 0 && Content(a, f) == [] && Content(b, 0) == []
  {}

  lemma MovedLive(a: seq<nat>, base: nat, b: seq<nat>, base': nat, r: nat)
    requires Fits(a, base, r + 1) && Fits(b, base', r + 1) && EntryAt(a, base, r) == EntryAt(b, base', r)
    ensures Live(a, base, r) == Live(b, base', r)
  {}

  /** The same records from another base. */
  lemma {:induction false} EntriesMoved(a: seq<nat>, base: nat, b: seq<nat>, base': nat, i: nat)
    requires Fits(a, base, i) && Fits(b, base', i)
    requires forall r: nat :: r < i ==> EntryAt(a, base, r) == EntryAt(b, base', r)
    ensures Entries(a, base, i) == Entries(b, base', i)
  {
    hide EntryAt;
    if i > 0 {
      assert EntryAt(a, base, i - 1) == EntryAt(b, base', i - 1);
      MovedLive(a, base, b, base', i - 1);
      EntriesMoved(a, base, b, base', i - 1);
    }
  }

  lemma Relaid(a: seq<nat>, b: seq<nat>, f: nat)
    requires Unchained(a, f) && Shaped(b) && Slots(b) >= f && b[0] == a[0]
    requires Base(a) + 3 * f <= |a| && b[Base(b)..Base(b) + 3 * f] == a[Base(a)..Base(a) + 3 * f]
    ensures Unchained(b, f) && Content(b, f) == Content(a, f)
  {
    hide Entries, Distinct;
    var s := a[Base(a)..Base(a) + 3 * f];
    var t := b[Base(b)..Base(b) + 3 * f];
    forall r: nat | r < f ensures EntryAt(a, Base(a), r) == EntryAt(b, Base(b), r) {
      assert s[3 * r] == t[3 * r] && s[3 * r + 1] == t[3 * r + 1] && s[3 * r + 2] == t[3 * r + 2];
    }
    EntriesMoved(a, Base(a), b, Base(b), f);
    if f > 0 { assert EntryAt(a, Base(a), f - 1) == EntryAt(b, Base(b), f - 1); }
  }

  lemma Rechained(a: seq<nat>, b: seq<nat>, f: nat)
    requires Unchained(a, f) && AllChained(a, Base(a), f) && Unchained(b, f) && Base(b) == Base(a)
    requires forall k :: 2 <= k < Base(a) + 3 * f ==> b[k] == a[k]
    ensures AllChained(b, Base(b), f)
  {
    hide Chained;
    forall k | 2 <= k < Base(a) ensures Chained(b, Base(b), k - 2, f, b[k]) {
      ChainedSame(a, b, Base(a), k - 2, f, a[k]);
    }
  }

  /** More room behind the records. */
  lemma GrownAlike(a: seq<nat>, b: seq<nat>, f: nat)
    requires Unchained(a, f) && AllChained(a, Base(a), f) && f == Slots(a) && |a| + 3 <= |b| <= MAX_SIZE
    requires (|b| - Base(a)) % 3 == 0 && forall k :: 0 <= k < |a| ==> b[k] == a[k]
    ensures Unchained(b, f) && AllChained(b, Base(b), f) && Content(b, f) == Content(a, f)
    ensures Base(b) == Base(a) && f < Slots(b)
  {
    hide Entries, Distinct, AllChained, Content, Live;
    assert Shaped(b) && Base(b) == Base(a);
    assert b[Base(a)..Base(a) + 3 * f] == a[Base(a)..Base(a) + 3 * f];
    Relaid(a, b, f);
    Rechained(a, b, f);
  }

  lemma FullTable(a: seq<nat>, f: nat)
    requires Unchained(a, f) && f == Slots(a)
    ensures Shaped(a) && |a| == Base(a) + 3 * f
  {
    hide Entries, Distinct;
  }

  lemma WholeRecords(a: seq<nat>, f: nat, mask: nat, size: nat)
    requires Unchained(a, f) && f == Slots(a) && a[1] / 2 <= mask
    requires Suits(size, |a|, |a| + 3 + (mask - a[1] / 2), 3 + mask)
    ensures |a| + 3 + (mask - a[1] / 2) <= size && (size - 3 - mask) % 3 == 0
  {
    hide Entries, Distinct;
  }

  lemma GrownPrefix(a: seq<nat>, b: seq<nat>)
    requires |a| <= |b| && b[..|a|] == a
    ensures forall k :: 0 <= k < |a| ==> b[k] == a[k]
  {
    forall k | 0 <= k < |a| ensures b[k] == a[k] {
      assert b[..|a|][k] == b[k];
    }
  }

  lemma TailMarked(a: seq<nat>, b: seq<nat>, f: nat)
    requires Unchained(a, f) && AllChained(a, Base(a), f) && f < Slots(a)
    requires b == a[|a| - 3 := UNINITIALIZED]
    ensures Unchained(b, f) && AllChained(b, Base(b), f) && Base(b) == Base(a) && Content(b, f) == Content(a, f)
  {
    hide Entries, Bucket, Chained;
    Relaid(a, b, f);
    Rechained(a, b, f);
  }

  // ---------- deletion ----------

  /** The entries whose key is another. */
  function Without(s: seq<Entry>, key: nat): seq<Entry> {
    if s == [] then []
    else Without(s[..|s| - 1], key) + (if s[|s| - 1].key == key then [] else [s[|s| - 1]])
  }

  /** The walk along chain h has come to link; last is the record before, and no later one has the key. */
  predicate Walking(a: seq<nat>, base: nat, f: nat, h: nat, i: nat, link: nat, lastIdx: int, last: nat, prop: nat) {
    && Fits(a, base, f) && h < base - 2 && h == Bucket(prop, base) && i <= f && Chained(a, base, h, i, link)
    && AllChained(a, base, f)
    && (forall k: nat :: i <= k < f && Member(a, base, k, h) ==> KeyAt(a, base, k) != prop)
    && (if lastIdx < 0 then lastIdx == -1 && link == a[2 + h] && i == f
        else i == last < f && lastIdx == base + 3 * last && Member(a, base, last, h)
             && link == Next(a[base + 3 * last + 2]))
  }

  lemma WalkStart(a: seq<nat>, base: nat, f: nat, h: nat)
    requires Fits(a, base, f) && h < base - 2 && AllChained(a, base, f)
    ensures forall prop :: h == Bucket(prop, base) ==> Walking(a, base, f, h, f, a[2 + h], -1, f, prop)
  {
    hide Chained, Bucket;
    assert Chained(a, base, 2 + h - 2, f, a[2 + h]);
  }

  lemma WalkOn(a: seq<nat>, base: nat, f: nat, h: nat, i: nat, link: nat, lastIdx: int, last: nat, prop: nat, r: nat)
    requires Walking(a, base, f, h, i, link, lastIdx, last, prop) && r < i && Member(a, base, r, h)
    requires Chained(a, base, h, r, Next(a[base + 3 * r + 2])) && KeyAt(a, base, r) != prop
    requires forall k: nat :: r < k < i ==> !Member(a, base, k, h)
    ensures Walking(a, base, f, h, r, Next(a[base + 3 * r + 2]), base + 3 * r, r, prop)
  {
    hide Chained, Bucket;
  }

  lemma WalkEnd(a: seq<nat>, base: nat, f: nat, h: nat, i: nat, link: nat, lastIdx: int, last: nat, prop: nat)
    requires Walking(a, base, f, h, i, link, lastIdx, last, prop) && link / 2 == 0
    ensures Without(Entries(a, base, f), prop) == Entries(a, base, f) && !HasKey(Entries(a, base, f), prop)
  {
    hide Bucket;
    if link != 0 { var r := ChainHead(a, base, h, i, link); }
    ChainEmpty(a, base, h, i);
    KeyAbsent(a, base, f, h, prop);
    WithoutAbsent(Entries(a, base, f), prop);
  }

  lemma {:induction false} WithoutAbsent(s: seq<Entry>, key: nat)
    requires !HasKey(s, key)
    ensures Without(s, key) == s
  {
    if s != [] {
      WithoutAbsent(s[..|s| - 1], key);
    }
  }

  /** b is a with record r, still there, in no chain any more. */
  predicate Unlinked(a: seq<nat>, b: seq<nat>, f: nat, r: nat) {
    && Unchained(a, f) && r < f && |b| == |a| && b[0] == a[0] && b[1] == a[1]
    && SameRecords(a, b, Base(a), Slots(a))
    && (forall k :: Base(a) + 3 * f <= k < |a| ==> b[k] == a[k])
    && (forall h :: 2 <= h < Base(a) ==> ChainedBut(b, Base(a), h - 2, f, b[h], r))
  }

  /** Chained, passing over record r. */
  predicate ChainedBut(a: seq<nat>, base: nat, h: nat, i: nat, link: nat, r: nat)
    requires Fits(a, base, i)
  {
    if i == 0 then link == 0
    else if Member(a, base, i - 1, h) && i - 1 != r then
      link == 2 * (base + 3 * (i - 1)) && ChainedBut(a, base, h, i - 1, Next(a[base + 3 * (i - 1) + 2]), r)
    else ChainedBut(a, base, h, i - 1, link, r)
  }

  /** A chain without r, where only links of other buckets changed. */
  lemma {:induction false} StillChained(a: seq<nat>, b: seq<nat>, base: nat, h: nat, i: nat, link: nat, r: nat)
    requires Fits(a, base, i) && Fits(b, base, i) && Chained(a, base, h, i, link)
    requires forall k: nat :: k < i ==> KeyAt(a, base, k) == KeyAt(b, base, k)
    requires forall k: nat :: k < i && Member(a, base, k, h) ==> k != r && Next(a[base + 3 * k + 2]) == Next(b[base + 3 * k + 2])
    ensures ChainedBut(b, base, h, i, link, r)
  {
    hide Bucket, Next;
    if i > 0 {
      assert KeyAt(a, base, i - 1) == KeyAt(b, base, i - 1);
      if Member(a, base, i - 1, h) {
        StillChained(a, b, base, h, i - 1, Next(a[base + 3 * (i - 1) + 2]), r);
      } else {
        StillChained(a, b, base, h, i - 1, link, r);
      }
    }
  }

  /** From a link to r: going on from r instead passes it over. */
  lemma {:induction false} PassOver(a: seq<nat>, b: seq<nat>, base: nat, h: nat, i: nat, r: nat)
    requires Fits(a, base, i) && Fits(b, base, i) && r < i && Chained(a, base, h, i, 2 * (base + 3 * r))
    requires Member(a, base, r, h) && SameBelow(a, b, base, h, i)
    ensures ChainedBut(b, base, h, i, Next(a[base + 3 * r + 2]), r)
    decreases i
  {
    hide Bucket, Next;
    assert KeyAt(a, base, i - 1) == KeyAt(b, base, i - 1);
    if i - 1 > r {
      PassOver(a, b, base, h, i - 1, r);
    } else {
      StillChained(a, b, base, h, r, Next(a[base + 3 * r + 2]), r);
    }
  }

  /** Keys before i, and the links of h's members before i, agree. */
  predicate SameBelow(a: seq<nat>, b: seq<nat>, base: nat, h: nat, i: nat)
    requires Fits(a, base, i) && Fits(b, base, i)
  {
    && (forall k: nat :: k < i ==> KeyAt(a, base, k) == KeyAt(b, base, k))
    && (forall k: nat :: k < i && Member(a, base, k, h) ==> Next(a[base + 3 * k + 2]) == Next(b[base + 3 * k + 2]))
  }

  /** With r's predecessor last now linked past r. */
  lemma {:induction false} PassOverAt(a: seq<nat>, b: seq<nat>, base: nat, h: nat, i: nat, link: nat, r: nat, last: nat)
    requires Fits(a, base, i) && Fits(b, base, i) && r < last < i && Chained(a, base, h, i, link)
    requires Member(a, base, r, h) && Member(a, base, last, h) && Next(a[base + 3 * last + 2]) == 2 * (base + 3 * r)
    requires Next(b[base + 3 * last + 2]) == Next(a[base + 3 * r + 2])
    requires forall k: nat :: k < i ==> KeyAt(a, base, k) == KeyAt(b, base, k)
    requires forall k: nat :: k < i && k != last && Member(a, base, k, h) ==>
               Next(a[base + 3 * k + 2]) == Next(b[base + 3 * k + 2])
    ensures ChainedBut(b, base, h, i, link, r)
    decreases i
  {
    hide Bucket, Next;
    assert KeyAt(a, base, i - 1) == KeyAt(b, base, i - 1);
    if i - 1 == last {
      PassOver(a, b, base, h, last, r);
    } else if Member(a, base, i - 1, h) {
      PassOverAt(a, b, base, h, i - 1, Next(a[base + 3 * (i - 1) + 2]), r, last);
    } else {
      PassOverAt(a, b, base, h, i - 1, link, r, last);
    }
  }

  lemma UnlinkedChains(a: seq<nat>, b: seq<nat>, f: nat, h: nat, i: nat, r: nat, lastIdx: int, last: nat, prop: nat)
    requires Unchained(a, f) && |b| == |a| && Walking(a, Base(a), f, h, i, 2 * (Base(a) + 3 * r), lastIdx, last, prop)
    requires r < i && Member(a, Base(a), r, h)
    requires var link := Next(a[Base(a) + 3 * r + 2]);
             b == if lastIdx >= 0 then a[lastIdx + 2 := SetNext(a[lastIdx + 2], link)] else a[2 + h := link]
    ensures Unlinked(a, b, f, r)
  {
    hide Bucket, Chained, ChainedBut, Entries, Distinct, SetNext, Next;
    var base := Base(a);
    forall k: nat | k < Slots(a) ensures EntryAt(a, base, k) == EntryAt(b, base, k) {}
    forall k | 2 <= k < base ensures ChainedBut(b, base, k - 2, f, b[k], r) {
      forall j: nat | j < f ensures KeyAt(a, base, j) == KeyAt(b, base, j) {}
      if k - 2 != h {
        StillChained(a, b, base, k - 2, f, a[k], r);
      } else if lastIdx < 0 {
        PassOver(a, b, base, h, f, r);
      } else {
        PassOverAt(a, b, base, h, f, a[k], r, last);
      }
    }
  }

  lemma StillTable(a: seq<nat>, b: seq<nat>, f: nat, r: nat)
    requires Unlinked(a, b, f, r) && TailFree(a, f)
    ensures Unchained(b, f) && TailFree(b, f) && Base(b) == Base(a) && Content(b, f) == Content(a, f) && Slots(b) > 0
  {
    hide Entries, Distinct, ChainedBut;
    EntriesSame(a, b, Base(a), f);
    if f > 0 { assert EntryAt(a, Base(a), f - 1) == EntryAt(b, Base(b), f - 1); }
  }

  /** The number of entries left. */
  lemma LastOne(a: seq<nat>, f: nat, r: nat, prop: nat)
    requires Unchained(a, f) && r < f && prop != UNINITIALIZED && KeyAt(a, Base(a), r) == prop
    ensures a[0] / 2 > 0 && |Without(Content(a, f), prop)| == a[0] / 2 - 1
  {
    hide Entries;
    RecordHasKey(a, Base(a), f, r);
    OneLess(Content(a, f), prop);
  }

  lemma {:induction false} OneLess(s: seq<Entry>, key: nat)
    requires Distinct(s) && HasKey(s, key)
    ensures |s| > 0 && |Without(s, key)| == |s| - 1
  {
    var t := s[..|s| - 1];
    if s[|s| - 1].key == key {
      WithoutAbsent(t, key);
    } else {
      var k :| 0 <= k < |s| && s[k].key == key;
      assert t[k].key == key;
      OneLess(t, key);
    }
  }

  lemma {:induction false} WithoutDistinct(s: seq<Entry>, key: nat)
    requires Distinct(s)
    ensures Distinct(Without(s, key))
    ensures forall e :: e in Without(s, key) ==> e in s
  {
    if s != [] {
      var t, e := s[..|s| - 1], s[|s| - 1];
      WithoutDistinct(t, key);
      var w := Without(t, key);
      forall k | 0 <= k < |w| ensures w[k].key != e.key {
        assert w[k] in t;
      }
    }
  }

  /** c is b with record r free, its other live records as they were. */
  predicate Freed(b: seq<nat>, c: seq<nat>, base: nat, f: nat, r: nat)
    requires Fits(b, base, f) && Fits(c, base, f)
  {
    forall k: nat :: k < f ==>
      if k == r then !Live(c, base, k)
      else && Live(b, base, k) == Live(c, base, k)
           && (Live(b, base, k) ==> EntryAt(b, base, k) == EntryAt(c, base, k)
                                    && Next(b[base + 3 * k + 2]) == Next(c[base + 3 * k + 2]))
  }

  lemma FreedWords(b: seq<nat>, c: seq<nat>, f: nat, g: nat, r: nat)
    requires Unchained(b, f) && |c| == |b| && g <= f && r < f
    requires var p := Base(b) + 3 * r;
             c[p] == UNINITIALIZED && (forall k :: 0 < k < |b| - 1 && k != p && k != p + 1 && k != p + 2 ==> c[k] == b[k])
             && (g == Slots(b) && p + 2 < |b| - 1 ==> c[|b| - 1] == b[|b| - 1])
    requires forall k: nat :: g <= k < f ==> c[Base(b) + 3 * k] == UNINITIALIZED
    ensures Freed(b, c, Base(b), f, r)
  {
    hide Entries, Distinct, Next;
    forall k: nat | k < f && k != r
      ensures Live(b, Base(b), k) == Live(c, Base(b), k)
      ensures Live(b, Base(b), k) ==> EntryAt(b, Base(b), k) == EntryAt(c, Base(b), k)
                                      && Next(b[Base(b) + 3 * k + 2]) == Next(c[Base(b) + 3 * k + 2])
    {
      assert c[Base(b) + 3 * k] == b[Base(b) + 3 * k] && c[Base(b) + 3 * k + 1] == b[Base(b) + 3 * k + 1];
    }
  }

  lemma {:induction false} FreedChain(b: seq<nat>, c: seq<nat>, base: nat, h: nat, i: nat, link: nat, r: nat, f: nat)
    requires Fits(b, base, f) && Fits(c, base, f) && i <= f && Freed(b, c, base, f, r)
    requires ChainedBut(b, base, h, i, link, r)
    ensures Chained(c, base, h, i, link)
    decreases i
  {
    hide Bucket, Next;
    if i > 0 {
      if Member(b, base, i - 1, h) && i - 1 != r {
        assert EntryAt(b, base, i - 1) == EntryAt(c, base, i - 1);
        FreedChain(b, c, base, h, i - 1, Next(b[base + 3 * (i - 1) + 2]), r, f);
      } else {
        assert i - 1 == r || Live(b, base, i - 1) == Live(c, base, i - 1);
        FreedChain(b, c, base, h, i - 1, link, r, f);
      }
    }
  }

  lemma {:induction false} FreedEntries(b: seq<nat>, c: seq<nat>, base: nat, i: nat, r: nat, f: nat, prop: nat)
    requires Fits(b, base, f) && Fits(c, base, f) && i <= f && Freed(b, c, base, f, r)
    requires r < f && KeyAt(b, base, r) == prop && prop != UNINITIALIZED
    requires forall k: nat :: k < i && k != r && Live(b, base, k) ==> KeyAt(b, base, k) != prop
    ensures Entries(c, base, i) == Without(Entries(b, base, i), prop)
    decreases i
  {
    hide Next, Kind, Entries, Without;
    if i == 0 {
      FreedNone(b, c, base, prop);
    } else {
      FreedEntries(b, c, base, i - 1, r, f, prop);
      EntriesStep(b, base, i - 1);
      EntriesStep(c, base, i - 1);
      var t, u := Entries(b, base, i - 1), Entries(c, base, i - 1);
      assert t + [] == t && u + [] == u;
      if i - 1 == r {
        assert !Live(c, base, r);
        WithoutLast(t, EntryAt(b, base, r), prop);
      } else {
        assert Live(b, base, i - 1) == Live(c, base, i - 1);
      }
      if i - 1 != r && Live(b, base, i - 1) {
        assert EntryAt(b, base, i - 1) == EntryAt(c, base, i - 1);
        WithoutLast(t, EntryAt(b, base, i - 1), prop);
      }
    }
  }

  lemma FreedNone(b: seq<nat>, c: seq<nat>, base: nat, prop: nat)
    requires Fits(b, base, 0) && Fits(c, base, 0)
    ensures Entries(c, base, 0) == Without(Entries(b, base, 0), prop)
  {}

  lemma WithoutLast(s: seq<Entry>, e: Entry, key: nat)
    ensures Without(s + [e], key) == Without(s, key) + if e.key == key then [] else [e]
  {
    assert (s + [e])[..|s|] == s;
  }

  /** Free records past g count for nothing. */
  lemma {:induction false} DropFree(a: seq<nat>, base: nat, g: nat, f: nat, h: nat, link: nat)
    requires Fits(a, base, f) && g <= f && forall k: nat :: g <= k < f ==> !Live(a, base, k)
    ensures Entries(a, base, g) == Entries(a, base, f)
    ensures Chained(a, base, h, f, link) ==> Chained(a, base, h, g, link)
    decreases f
  {
    if g < f {
      assert !Live(a, base, f - 1);
      DropFree(a, base, g, f - 1, h, link);
    }
  }

  /** Keys of different records of a table differ. */
  lemma {:induction false} KeysDiffer(a: seq<nat>, base: nat, f: nat, r: nat, k: nat)
    requires Fits(a, base, f) && Distinct(Entries(a, base, f)) && r < f && k < f && k != r
    requires Live(a, base, r) && Live(a, base, k)
    ensures KeyAt(a, base, r) != KeyAt(a, base, k)
    decreases f
  {
    hide Entries, Distinct, HasKey;
    var m := f - 1;
    var t := Entries(a, base, m);
    EntriesStep(a, base, m);
    if k == m || r == m {
      var o := if k == m then r else k;
      RecordHasKey(a, base, m, o);
      DistinctLast(t, EntryAt(a, base, m), KeyAt(a, base, o));
    } else {
      DistinctFirst(t, if Live(a, base, m) then [EntryAt(a, base, m)] else []);
      KeysDiffer(a, base, m, r, k);
    }
  }

  lemma DistinctLast(s: seq<Entry>, e: Entry, key: nat)
    requires Distinct(s + [e]) && HasKey(s, key)
    ensures e.key != key
  {
    var k :| 0 <= k < |s| && s[k].key == key;
    assert (s + [e])[k] == s[k] && (s + [e])[|s|] == e;
  }

  lemma DistinctFirst(s: seq<Entry>, t: seq<Entry>)
    requires Distinct(s + t)
    ensures Distinct(s)
  {
    forall j, k | 0 <= j < k < |s| ensures s[j].key != s[k].key {
      assert (s + t)[j] == s[j] && (s + t)[k] == s[k];
    }
  }

  /** What the array is after the record was freed and the tail set. */
  lemma FreedTable(a: seq<nat>, b: seq<nat>, c: seq<nat>, f: nat, g: nat, r: nat, prop: nat)
    requires Unlinked(a, b, f, r) && Unchained(b, f) && Base(b) == Base(a) && Content(b, f) == Content(a, f)
    requires prop != UNINITIALIZED && KeyAt(a, Base(a), r) == prop
    requires |c| == |b| && c[1] == b[1] && c[0] == 2 * (a[0] / 2 - 1) && g <= f && a[0] / 2 > 0
    requires forall k :: 2 <= k < Base(a) ==> c[k] == b[k]
    requires Freed(b, c, Base(a), f, r) && (g > 0 ==> Live(c, Base(a), g - 1))
    requires forall k: nat :: g <= k < f ==> !Live(c, Base(a), k)
    requires Shaped(c) && TailFree(c, g)
    ensures Table(c, g) && Content(c, g) == Without(Content(a, f), prop)
  {
    hide Entries, Bucket, Chained, ChainedBut, Distinct, Next;
    var base := Base(a);
    assert EntryAt(a, base, r) == EntryAt(b, base, r);
    forall k: nat | k < f && k != r && Live(b, base, k) ensures KeyAt(b, base, k) != prop {
      KeysDiffer(b, base, f, r, k);
    }
    FreedEntries(b, c, base, f, r, f, prop);
    DropFree(c, base, g, f, 0, 0);
    LastOne(a, f, r, prop);
    WithoutDistinct(Content(a, f), prop);
    forall k | 2 <= k < base ensures Chained(c, base, k - 2, g, c[k]) {
      FreedChain(b, c, base, k - 2, f, b[k], r, f);
      DropFree(c, base, g, f, k - 2, c[k]);
    }
  }

  lemma NoEntries(a: seq<nat>)
    requires a == [0, 0, 0]
    ensures Table(a, 0) && Content(a, 0) == [] && Slots(a) == 0
  {}

  /** The compacted array, all of it live records. */
  lemma Shrunk(a: seq<nat>, c: seq<nat>, d: seq<nat>, f: nat, j: nat)
    requires Unchained(a, f) && |c| == |a| && c[0] == a[0] && c[1] % 2 == 0 && j > 0 && j == a[0] / 2
    requires Fits(c, 3 + c[1] / 2, j) && |d| == 3 + c[1] / 2 + 3 * j <= |c| && d == c[..|d|]
    requires Entries(c, 3 + c[1] / 2, j) == Content(a, f) && Live(c, 3 + c[1] / 2, j - 1)
    ensures Unchained(d, j) && Slots(d) == j && Content(d, j) == Content(a, f)
  {
    hide Entries, Distinct;
    var base := 3 + c[1] / 2;
    forall r: nat | r < j ensures EntryAt(c, base, r) == EntryAt(d, base, r) {}
    EntriesSame(c, d, base, j);
    assert EntryAt(c, base, j - 1) == EntryAt(d, base, j - 1);
  }

  /** The first j records of b are the live ones among the first i of a; what comes after those is still in place. */
  predicate Squeezed(a: seq<nat>, b: seq<nat>, base: nat, base': nat, i: nat, j: nat, f: nat) {
    && |b| == |a| && 3 <= base' <= base && Fits(a, base, f) && i <= f && j <= i && j == |Entries(a, base, i)|
    && Fits(b, base', j) && Entries(b, base', j) == Entries(a, base, i) && (j > 0 ==> Live(b, base', j - 1))
    && forall k :: base + 3 * i <= k < |a| ==> b[k] == a[k]
  }

  lemma SqueezedMore(a: seq<nat>, b: seq<nat>, c: seq<nat>, base: nat, base': nat, i: nat, j: nat, f: nat)
    requires Squeezed(a, b, base, base', i, j, f) && i < f && Live(a, base, i)
    requires var src, dst := base + 3 * i, base' + 3 * j;
             c == b[dst := b[src]][dst + 1 := b[src + 1]][dst + 2 := b[src + 2]]
    ensures Squeezed(a, c, base, base', i + 1, j + 1, f)
  {
    hide Entries;
    EntriesStep(a, base, i);
    assert EntryAt(c, base', j) == EntryAt(a, base, i);
    forall r: nat | r < j ensures EntryAt(b, base', r) == EntryAt(c, base', r) {}
    EntriesSnoc(b, c, base', j);
  }

  /** The records of a, moved up to make room for more buckets. */
  lemma Spread(a: seq<nat>, was: seq<nat>, moved: seq<nat>, b: seq<nat>, newHashMask: nat, f: nat)
    requires Unchained(a, f) && f == Slots(a) && a[1] / 2 < newHashMask && |moved| == |was| == |b| <= MAX_SIZE
    requires |a| + (newHashMask - a[1] / 2) < |was| && (|was| - 3 - newHashMask) % 3 == 0
    requires forall k :: 0 <= k < |a| ==> was[k] == a[k]
    requires moved[3 + newHashMask..3 + newHashMask + (|a| - Base(a))] == was[Base(a)..|a|]
    requires moved[..3 + newHashMask] == was[..3 + newHashMask] && b == moved[1 := 2 * newHashMask]
    ensures Unchained(b, f) && Content(b, f) == Content(a, f) && Base(b) == 3 + newHashMask && f < Slots(b)
  {
    hide Entries, Distinct;
    var base, base' := Base(a), 3 + newHashMask;
    assert base + 3 * f == |a|;
    assert moved[0] == moved[..base'][0] == was[..base'][0] == a[0];
    assert b[base'..base' + 3 * f] == moved[base'..base' + 3 * f] == was[base..|a|] == a[base..base + 3 * f];
    Relaid(a, b, f);
  }

  /** The words changed by freeing record r and setting the tail. */
  lemma MarkedFree(b: seq<nat>, c: seq<nat>, d: seq<nat>, f: nat, g: nat, r: nat)
    requires Unchained(b, f) && r < f && g <= f && |d| == |c| == |b| && b[0] / 2 > 0
    requires var p := Base(b) + 3 * r;
             c == b[0 := 2 * (b[0] / 2 - 1)][p + 2 := SetKind(b[p + 2], NORMAL)][p := UNINITIALIZED][p + 1 := UNDEFINED]
    requires forall k: nat :: g <= k < f ==> c[Base(b) + 3 * k] == UNINITIALIZED
    requires g > 0 ==> c[Base(b) + 3 * (g - 1)] != UNINITIALIZED
    requires TailFree(b, f)
    requires var ff := Base(b) + 3 * g;
             d == if ff < |c| then c[|c| - 1 := SetNext(c[|c| - 1], 2 * ff)] else c
    ensures Freed(b, d, Base(b), f, r) && Shaped(d) && TailFree(d, g) && d[1] == b[1] && d[0] == 2 * (b[0] / 2 - 1)
    ensures g > 0 ==> Live(d, Base(b), g - 1)
    ensures forall k: nat :: g <= k < f ==> !Live(d, Base(b), k)
    ensures forall k :: 2 <= k < Base(b) ==> d[k] == b[k]
  {
    hide Entries, Distinct, Next, SetNext, SetKind, Kind;
    forall k: nat | g <= k < f ensures d[Base(b) + 3 * k] == UNINITIALIZED {
      assert c[Base(b) + 3 * k] == UNINITIALIZED;
    }
    if g < f && f == Slots(b) { assert c[Base(b) + 3 * (f - 1)] == UNINITIALIZED; }
    FreedWords(b, d, f, g, r);
  }

  lemma Room(a: seq<nat>, f: nat)
    requires Unchained(a, f) && f < Slots(a)
    ensures 2 < Base(a) && Base(a) + 3 * f + 2 < |a| <= MAX_SIZE && Base(a) == 3 + a[1] / 2
  {}

  lemma HeadInRange(a: seq<nat>, f: nat, h: nat)
    requires Unchained(a, f) && AllChained(a, Base(a), f) && 2 + h < Base(a)
    ensures a[2 + h] < NEXT_LIMIT
  {
    hide Chained, Entries, Distinct;
    assert Chained(a, Base(a), 2 + h - 2, f, a[2 + h]);
    HeadBound(a, Base(a), h, f, a[2 + h]);
  }

  lemma NewRecord(a: seq<nat>, b: seq<nat>, f: nat, prop: nat, h: nat)
    requires Unchained(a, f) && f < Slots(a) && prop != UNINITIALIZED && h == Bucket(prop, Base(a))
    requires a[2 + h] < NEXT_LIMIT
    requires var p := Base(a) + 3 * f;
             b == a[p := prop][p + 1 := UNDEFINED][p + 2 := SetNext(SetKind(a[p + 2], NORMAL), a[2 + h])]
                   [2 + h := 2 * p][0 := 2 * (a[0] / 2 + 1)]
    ensures WithNew(a, b, f, prop, h)
  {
    hide Entries, Distinct, Bucket, SetNext, SetKind, Next, Kind;
  }

  lemma TailFull(a: seq<nat>, f: nat)
    requires Unchained(a, f) && AllChained(a, Base(a), f) && Base(a) + 3 * f >= |a|
    ensures Table(a, f)
  {
    hide Entries, Distinct, Chained;
  }

  lemma FreshTable(a: seq<nat>, hashMask: nat, n: nat)
    requires n > 0 && |a| == 3 + hashMask + 3 * n <= MAX_SIZE && a[0] == 0 && a[1] == 2 * hashMask
    requires forall k :: 2 <= k < 3 + hashMask ==> a[k] == 0
    requires a[|a| - 3] == UNINITIALIZED && Next(a[|a| - 1]) == 2 * (3 + hashMask)
    ensures Unchained(a, 0) && AllChained(a, Base(a), 0) && TailFree(a, 0) && Base(a) == 3 + hashMask && Slots(a) == n
  {}
}
