/**
 * The bounded ordered symbol table: two parallel arrays `keys` and `vals`
 * of fixed capacity and a count `n` of live entries.  Java's `null` in an
 * array slot is `None`.  The ghost sequences `ks` and `vs` are the live
 * contents `keys[0..n)` and `vals[0..n)`; `Valid()` also records that every
 * slot from `n` on holds `null`, as the constructor leaves them and
 * `delete` restores them.
 */
module OrderedTable {
  import opened Wrappers
  import opened StringOrder
  import opened SortedKeys
  import Fifo

  /** The slots of `a` hold `s` and then `null` up to the capacity. */
  ghost predicate Holds<X>(a: array<Option<X>>, s: seq<X>)
    reads a
  {
    |s| <= a.Length && forall k :: 0 <= k < a.Length ==> a[k] == if k < |s| then Some(s[k]) else None
  }

  /** After shifting `s[i..]` one slot right and writing `x` at `i`, the slots hold the insertion. */
  lemma InsertHolds<X>(a: array<Option<X>>, s: seq<X>, i: nat, x: X)
    requires i <= |s| < a.Length
    requires forall k {:trigger a[k]} :: 0 <= k < a.Length ==>
      a[k] == if k < i then Some(s[k]) else if k == i then Some(x) else if k <= |s| then Some(s[k - 1]) else None
    ensures Holds(a, s[..i] + [x] + s[i..])
  {
  }

  /** After shifting `s[i + 1..]` one slot left and clearing the last slot, the slots hold the removal. */
  lemma RemoveHolds<X>(a: array<Option<X>>, s: seq<X>, i: nat)
    requires i < |s| <= a.Length
    requires forall k {:trigger a[k]} :: 0 <= k < a.Length ==>
      a[k] == if k < i then Some(s[k]) else if k < |s| - 1 then Some(s[k + 1]) else None
    ensures Holds(a, s[..i] + s[i + 1..])
  {
  }

  /** Reading an array slot in Java: the slot's content, or an index out of bounds. */
  datatype SlotRead = InBounds(slot: Option<string>) | OutOfBounds

  class Table<V> {
    const keys: array<Option<string>>
    const vals: array<Option<V>>
    var n: nat

    ghost var ks: seq<string>
    ghost var vs: seq<V>

    ghost predicate Valid()
      reads this, keys, vals
    {
      && keys as object != vals as object
      && keys.Length == vals.Length
      && n <= keys.Length
      && |ks| == n && |vs| == n
      && Holds(keys, ks) && Holds(vals, vs)
      && StrictlySorted(ks)
    }

    constructor (capacity: nat)
      ensures Valid() && fresh(keys) && fresh(vals)
      ensures keys.Length == capacity && ks == [] && vs == []
    {
      keys := new Option<string>[capacity](_ => None);
      vals := new Option<V>[capacity](_ => None);
      n := 0;
      ks, vs := [], [];
    }

    method Size() returns (r: nat)
      requires Valid()
      ensures r == |ks|
    {
      return n;
    }

    method IsEmpty() returns (r: bool)
      requires Valid()
      ensures r <==> ks == []
    {
      return n == 0;
    }

    /** Binary search: the number of stored keys below `key`, its position if stored. */
    method Rank(key: string) returns (r: nat)
      requires Valid()
      ensures r <= |ks| && r == CountLess(ks, key)
    {
      var lo, hi := 0, n - 1;
      while lo <= hi
        invariant 0 <= lo <= hi + 1 <= n
        invariant forall j :: 0 <= j < lo ==> Less(ks[j], key)
        invariant forall j :: hi < j < n ==> Less(key, ks[j])
      {
        var mid := lo + (hi - lo) / 2;
        var cmp := Compare(key, keys[mid].value);
        CompareFlip(key, ks[mid]);
        if cmp < 0 {
          forall j | mid < j < n ensures Less(key, ks[j]) {
            LessTransitive(key, ks[mid], ks[j]);
          }
          hi := mid - 1;
        } else if cmp > 0 {
          forall j | 0 <= j < mid ensures Less(ks[j], key) {
            LessTransitive(ks[j], ks[mid], key);
          }
          lo := mid + 1;
        } else {
          forall j | mid < j < n ensures !Less(ks[j], key) {
            assert Less(ks[mid], ks[j]);
            Trichotomy(key, ks[j]);
          }
          CountLessAt(ks, key, mid);
          return mid;
        }
      }
      forall j | lo <= j < n ensures !Less(ks[j], key) {
        Trichotomy(key, ks[j]);
      }
      CountLessAt(ks, key, lo);
      return lo;
    }

    /** The value paired with `key`, or `None` when it is not stored. */
    method Get(key: string) returns (r: Option<V>)
      requires Valid()
      ensures r == Find(ks, vs, key)
      ensures r.Some? <==> key in ks
    {
      if n == 0 {
        return None;
      }
      var i := Rank(key);
      RankFindsKey(ks, key);
      if i < n && Compare(keys[i].value, key) == 0 {
        forall j | 0 <= j < i ensures ks[j] != ks[i] { SortedDistinct(ks, j, i); }
        FindAt(ks, vs, i);
        return vals[i];
      }
      return None;
    }

    method Contains(key: string) returns (r: bool)
      requires Valid()
      ensures r <==> key in ks
    {
      var i := Rank(key);
      RankFindsKey(ks, key);
      return i < n && Compare(keys[i].value, key) == 0;
    }

    /** Shifts the pairs from rank `i` on one slot right and writes the new pair at `i`. */
    method InsertAt(i: nat, key: string, val: V)
      requires Valid()
      requires i == CountLess(ks, key) && key !in ks && n < keys.Length
      modifies this, keys, vals
      ensures Valid()
      ensures ks == old(ks[..i] + [key] + ks[i..]) && vs == old(vs[..i] + [val] + vs[i..])
    {
      var j := n;
      while j > i
        modifies keys, vals
        invariant keys as object != vals as object && keys.Length == vals.Length
        invariant n < keys.Length && i <= j <= n
        invariant forall k {:trigger keys[k]} :: 0 <= k < keys.Length ==>
          keys[k] == (if k <= j then (if k < n then Some(ks[k]) else None)
                      else if k <= n then Some(ks[k - 1]) else None)
        invariant forall k {:trigger vals[k]} :: 0 <= k < vals.Length ==>
          vals[k] == (if k <= j then (if k < n then Some(vs[k]) else None)
                      else if k <= n then Some(vs[k - 1]) else None)
      {
        keys[j] := keys[j - 1];
        vals[j] := vals[j - 1];
        j := j - 1;
      }
      keys[i] := Some(key);
      vals[i] := Some(val);
      InsertHolds(keys, ks, i, key);
      InsertHolds(vals, vs, i, val);
      InsertSorted(ks, key);
      ks := ks[..i] + [key] + ks[i..];
      vs := vs[..i] + [val] + vs[i..];
      n := n + 1;
    }

    /**
     * Overwrites the value of a stored key, or inserts a new pair at its
     * rank, shifting the tail one slot to the right.  A new key on a full
     * table is refused (`ok` false) and nothing changes: Java's `put`
     * fails there on its first out-of-bounds write, before touching
     * anything.
     */
    method Put(key: string, val: V) returns (ok: bool)
      requires Valid()
      modifies this, keys, vals
      ensures Valid()
      ensures ok <==> key in old(ks) || old(n) < keys.Length
      ensures ok ==> (ks, vs) == PutPair(old(ks), old(vs), key, val)
      ensures !ok ==> ks == old(ks) && vs == old(vs)
    {
      var i := Rank(key);
      RankFindsKey(ks, key);
      if i < n && Compare(keys[i].value, key) == 0 {
        vals[i] := Some(val);
        vs := vs[i := val];
        return true;
      }
      if n == keys.Length {
        return false;
      }
      InsertAt(i, key, val);
      return true;
    }

    /** Shifts the pairs after position `i` one slot left and clears the vacated last slot. */
    method RemoveAt(i: nat)
      requires Valid() && i < |ks|
      modifies this, keys, vals
      ensures Valid()
      ensures ks == old(ks[..i] + ks[i + 1..]) && vs == old(vs[..i] + vs[i + 1..])
    {
      var j := i;
      while j < n - 1
        modifies keys, vals
        invariant keys as object != vals as object && keys.Length == vals.Length
        invariant i <= j <= n - 1
        invariant forall k {:trigger keys[k]} :: 0 <= k < keys.Length ==>
          keys[k] == (if k < i then Some(ks[k]) else if k < j then Some(ks[k + 1])
                      else if k < n then Some(ks[k]) else None)
        invariant forall k {:trigger vals[k]} :: 0 <= k < vals.Length ==>
          vals[k] == (if k < i then Some(vs[k]) else if k < j then Some(vs[k + 1])
                      else if k < n then Some(vs[k]) else None)
      {
        keys[j] := keys[j + 1];
        vals[j] := vals[j + 1];
        j := j + 1;
      }
      n := n - 1;
      keys[n] := None;
      vals[n] := None;
      RemoveHolds(keys, ks, i);
      RemoveHolds(vals, vs, i);
      RemoveSorted(ks, i);
      ks := ks[..i] + ks[i + 1..];
      vs := vs[..i] + vs[i + 1..];
    }

    /**
     * Removes `key` and its value, shifting the tail one slot to the left
     * and clearing the vacated slot; nothing changes when `key` is absent.
     */
    method Delete(key: string)
      requires Valid()
      modifies this, keys, vals
      ensures Valid()
      ensures (ks, vs) == DeletePair(old(ks), old(vs), key)
    {
      if n == 0 {
        return;
      }
      var i := Rank(key);
      RankFindsKey(ks, key);
      if i >= n || Compare(keys[i].value, key) != 0 {
        return;
      }
      RemoveAt(i);
    }

    /** Removes and returns the least key; `None` on an empty table. */
    method DeleteMin() returns (r: Option<string>)
      requires Valid()
      modifies this, keys, vals
      ensures Valid()
      ensures old(ks) == [] ==> r == None && ks == old(ks) && vs == old(vs)
      ensures old(ks) != [] ==> r == Some(old(ks)[0]) && ks == old(ks)[1..] && vs == old(vs)[1..]
    {
      if n == 0 {
        return None;
      }
      var least := keys[0].value;
      RankOfSelect(ks, 0);
      Delete(least);
      return Some(least);
    }

    /** Removes and returns the greatest key; `None` on an empty table. */
    method DeleteMax() returns (r: Option<string>)
      requires Valid()
      modifies this, keys, vals
      ensures Valid()
      ensures old(ks) == [] ==> r == None && ks == old(ks) && vs == old(vs)
      ensures old(ks) != [] ==>
        r == Some(old(ks)[|old(ks)| - 1]) && ks == old(ks)[..|old(ks)| - 1] && vs == old(vs)[..|old(vs)| - 1]
    {
      if n == 0 {
        return None;
      }
      var greatest := keys[n - 1].value;
      RankOfSelect(ks, n - 1);
      Delete(greatest);
      return Some(greatest);
    }

    /** The least key: Java's `keys[0]`, which is `null` on an empty table. */
    method Min() returns (r: Option<string>)
      requires Valid()
      ensures r == if ks == [] then None else Some(ks[0])
      ensures r.Some? ==> forall j :: 0 <= j < |ks| ==> LessEq(r.value, ks[j])
    {
      if keys.Length == 0 {
        return None;
      }
      return keys[0];
    }

    /**
     * The greatest key, `None` on an empty table, as the Javadoc of `max`
     * promises.  Unlike the Java code, the empty table is answered
     * explicitly (see MaxAsWritten).
     */
    method Max() returns (r: Option<string>)
      requires Valid()
      ensures r == if ks == [] then None else Some(ks[|ks| - 1])
      ensures r.Some? ==> forall j :: 0 <= j < |ks| ==> LessEq(ks[j], r.value)
    {
      if n == 0 {
        return None;
      }
      return keys[n - 1];
    }

    /** `max` as the Java code has it: `keys[N - 1]`, which is `keys[-1]` on an empty table. */
    method MaxAsWritten() returns (r: SlotRead)
      requires Valid()
      ensures r == OutOfBounds <==> ks == []
      ensures r.InBounds? ==> r.slot == Some(ks[|ks| - 1])
    {
      if n == 0 {
        return OutOfBounds;
      }
      return InBounds(keys[n - 1]);
    }

    /** The key of rank `k`; `None` unless `0 <= k < size()`. */
    method Select(k: int) returns (r: Option<string>)
      requires Valid()
      ensures r.Some? <==> 0 <= k < |ks|
      ensures r.Some? ==> r.value == ks[k] && CountLess(ks, r.value) == k
    {
      if 0 <= k < keys.Length {
        if k < n { RankOfSelect(ks, k); }
        return keys[k];
      }
      return None;
    }

    /** The greatest stored key `<= key`, `None` when every stored key is greater. */
    method Floor(key: string) returns (r: Option<string>)
      requires Valid()
      ensures r.None? <==> forall j :: 0 <= j < |ks| ==> Less(key, ks[j])
      ensures r.Some? ==> r.value in ks && LessEq(r.value, key)
      ensures r.Some? ==> forall j :: 0 <= j < |ks| && LessEq(ks[j], key) ==> LessEq(ks[j], r.value)
    {
      if n == 0 {
        return None;
      }
      var i := Rank(key);
      CountLessSplits(ks, key);
      if i < n && Compare(keys[i].value, key) == 0 {
        return keys[i];
      }
      // From the rank on, every stored key is greater than `key`.
      forall j | i <= j < n ensures Less(key, ks[j]) {
        Trichotomy(key, ks[i]);
        if j > i {
          assert Less(ks[i], ks[j]);
          LessTransitive(key, ks[i], ks[j]);
        }
      }
      if i == 0 {
        return None;
      }
      forall j | i <= j < n ensures !LessEq(ks[j], key) { Trichotomy(key, ks[j]); }
      forall j | 0 <= j < i - 1 ensures LessEq(ks[j], ks[i - 1]) { assert Less(ks[j], ks[i - 1]); }
      Trichotomy(key, ks[i - 1]);
      return keys[i - 1];
    }

    /**
     * The least stored key `>= key`, `None` when every stored key is
     * smaller.  Unlike the Java code, the rank `n` is answered explicitly
     * (see CeilingAsWritten).
     */
    method Ceiling(key: string) returns (r: Option<string>)
      requires Valid()
      ensures r.None? <==> forall j :: 0 <= j < |ks| ==> Less(ks[j], key)
      ensures r.Some? ==> r.value in ks && LessEq(key, r.value)
      ensures r.Some? ==> forall j :: 0 <= j < |ks| && LessEq(key, ks[j]) ==> LessEq(r.value, ks[j])
    {
      var i := Rank(key);
      CountLessSplits(ks, key);
      if i == n {
        return None;
      }
      forall j | 0 <= j < i ensures !LessEq(key, ks[j]) { Trichotomy(key, ks[j]); }
      forall j | i < j < n ensures LessEq(ks[i], ks[j]) { assert Less(ks[i], ks[j]); }
      Trichotomy(key, ks[i]);
      return keys[i];
    }

    /**
     * `ceiling` as the Java code has it: `keys[rank(key)]` with no guard.
     * Below capacity the slot at rank `n` holds `null`; on a full table it
     * is past the end of the array.
     */
    method CeilingAsWritten(key: string) returns (r: SlotRead)
      requires Valid()
      ensures r == OutOfBounds <==> |ks| == keys.Length && forall j :: 0 <= j < |ks| ==> Less(ks[j], key)
      ensures r.InBounds? ==> r.slot == if CountLess(ks, key) < |ks| then Some(ks[CountLess(ks, key)]) else None
    {
      var i := Rank(key);
      CountLessSplits(ks, key);
      if i < keys.Length {
        return InBounds(keys[i]);
      }
      return OutOfBounds;
    }

    /** Appends the stored keys at positions `from .. to-1` to `q`. */
    method EnqueueSlots(q: Fifo.Queue<string>, from: nat, to: nat)
      requires Valid() && q.Valid() && from <= to <= |ks|
      requires this !in q.Repr && keys !in q.Repr && vals !in q.Repr
      modifies q, q.Repr
      ensures q.Valid() && fresh(q.Repr - old(q.Repr))
      ensures q.Contents == old(q.Contents) + ks[from..to]
    {
      var i := from;
      while i < to
        invariant from <= i <= to
        invariant q.Valid() && fresh(q.Repr - old(q.Repr)) && this !in q.Repr && keys !in q.Repr
        invariant q.Contents == old(q.Contents) + ks[from..i]
      {
        q.Enqueue(keys[i].value);
        assert ks[from..i + 1] == ks[from..i] + [ks[i]];
        i := i + 1;
      }
    }

    /**
     * `keys(lo, hi)` as written: the keys at positions `rank(lo) ..
     * rank(hi)-1`, then `hi` when it is stored, collected in a fresh queue.
     */
    method Keys(lo: string, hi: string) returns (q: Fifo.Queue<string>)
      requires Valid()
      ensures q.Valid() && fresh(q.Repr)
      ensures q.Contents == RangeAsWritten(ks, lo, hi)
    {
      // Java evaluates rank(hi) on every iteration and again after the loop,
      // and contains(hi) and keys[rank(hi)] once the loop is done.  They only read
      // a table that does not change meanwhile, so each is evaluated once, up front.
      var i := Rank(lo);
      var h := Rank(hi);
      var present := Contains(hi);
      RankFindsKey(ks, hi);
      var last := if present then keys[h] else None;
      assert last == if h < |ks| && ks[h] == hi then Some(ks[h]) else None;
      q := new Fifo.Queue<string>();
      if i < h {
        EnqueueSlots(q, i, h);
      }
      if last.Some? {
        q.Enqueue(last.value);
      }
    }

    /** `keys(lo, hi)` with an inverted interval answered by an empty queue. */
    method RangeKeys(lo: string, hi: string) returns (q: Fifo.Queue<string>)
      requires Valid()
      ensures q.Valid() && fresh(q.Repr)
      ensures q.Contents == Range(ks, lo, hi)
      ensures StrictlySorted(q.Contents)
    {
      RangeSorted(ks, lo, hi);
      if Less(hi, lo) {
        RangeInverted(ks, lo, hi);
        q := new Fifo.Queue<string>();
      } else {
        assert LessEq(lo, hi) by { Trichotomy(lo, hi); }
        RangeAsWrittenCorrect(ks, lo, hi);
        q := Keys(lo, hi);
      }
    }
  }
}
