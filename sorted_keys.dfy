/**
 * Facts about the abstract contents of the symbol table: the sequence of
 * live keys `keys[0..N)` and the index-aligned sequence of values.  The
 * class in OrderedTable keeps its arrays equal to these sequences; the
 * functions here are the specifications its methods are proved against.
 */
module SortedKeys {
  import opened Wrappers
  import opened StringOrder

  /** The representation invariant on the live keys: strictly ascending. */
  ghost predicate StrictlySorted(s: seq<string>) {
    forall i, j :: 0 <= i < j < |s| ==> Less(s[i], s[j])
  }

  /** The number of stored keys strictly below `key`: what `rank` promises. */
  function CountLess(s: seq<string>, key: string): (r: nat)
    ensures r <= |s|
    ensures key in s ==> r < |s|
  {
    if s == [] then 0 else (if Less(s[0], key) then 1 else 0) + CountLess(s[1..], key)
  }

  /** Reference lookup: the value paired with the first occurrence of `key`. */
  function Find<V>(ks: seq<string>, vs: seq<V>, key: string): (r: Option<V>)
    requires |ks| == |vs|
    ensures r.Some? <==> key in ks
  {
    if ks == [] then None
    else if ks[0] == key then Some(vs[0])
    else Find(ks[1..], vs[1..], key)
  }

  /** The stored keys `k` with `lo <= k <= hi`, in stored order. */
  function Range(s: seq<string>, lo: string, hi: string): (r: seq<string>)
    ensures |r| <= |s|
  {
    if s == [] then []
    else (if LessEq(lo, s[0]) && LessEq(s[0], hi) then [s[0]] else []) + Range(s[1..], lo, hi)
  }

  /** `Range` keeps exactly the stored keys inside `[lo, hi]`. */
  lemma {:induction false} RangeMembers(s: seq<string>, lo: string, hi: string)
    ensures forall x :: x in Range(s, lo, hi) <==> x in s && LessEq(lo, x) && LessEq(x, hi)
  {
    if s != [] {
      RangeMembers(s[1..], lo, hi);
      assert s == [s[0]] + s[1..];
    }
  }

  /**
   * What `keys(lo, hi)` enqueues, as written: the keys at positions
   * `rank(lo) .. rank(hi)-1`, then the key at `rank(hi)` when it equals `hi`.
   */
  function RangeAsWritten(s: seq<string>, lo: string, hi: string): (r: seq<string>)
    ensures |r| <= |s|
    ensures forall x :: x in r ==> x in s
  {
    var a, b := CountLess(s, lo), CountLess(s, hi);
    (if a < b then s[a..b] else []) + (if b < |s| && s[b] == hi then [s[b]] else [])
  }

  // ----- rank -----

  /** An index that splits `s` into keys below `key` and keys not below it is `CountLess`. */
  lemma {:induction false} CountLessAt(s: seq<string>, key: string, r: nat)
    requires r <= |s|
    requires forall j :: 0 <= j < r ==> Less(s[j], key)
    requires forall j :: r <= j < |s| ==> !Less(s[j], key)
    ensures CountLess(s, key) == r
  {
    if s != [] {
      assert r > 0 ==> Less(s[0], key);
      assert r == 0 ==> !Less(s[0], key);
      CountLessAt(s[1..], key, if r > 0 then r - 1 else 0);
    }
  }

  /** Conversely, on a sorted sequence `CountLess` is such a split point. */
  lemma {:induction false} CountLessSplits(s: seq<string>, key: string)
    requires StrictlySorted(s)
    ensures forall j :: 0 <= j < CountLess(s, key) ==> Less(s[j], key)
    ensures forall j :: CountLess(s, key) <= j < |s| ==> !Less(s[j], key)
  {
    if s != [] {
      assert StrictlySorted(s[1..]) by {
        forall i, j | 0 <= i < j < |s[1..]| ensures Less(s[1..][i], s[1..][j]) {
          assert s[1..][i] == s[i + 1] && s[1..][j] == s[j + 1];
        }
      }
      CountLessSplits(s[1..], key);
      if !Less(s[0], key) {
        forall j | 0 < j < |s| ensures !Less(s[j], key) {
          if Less(s[j], key) {
            LessTransitive(s[0], s[j], key);
          }
        }
      }
    }
  }

  /** `select(rank(k)) == k` and `rank(select(i)) == i`. */
  lemma {:induction false} RankOfSelect(s: seq<string>, i: nat)
    requires StrictlySorted(s) && i < |s|
    ensures CountLess(s, s[i]) == i
  {
    forall j | i <= j < |s| ensures !Less(s[j], s[i]) {
      if Less(s[j], s[i]) {
        if j > i { Trichotomy(s[i], s[j]); }
      }
    }
    CountLessAt(s, s[i], i);
  }

  lemma {:induction false} SelectOfRank(s: seq<string>, key: string)
    requires StrictlySorted(s) && key in s
    ensures CountLess(s, key) < |s| && s[CountLess(s, key)] == key
  {
    var i :| 0 <= i < |s| && s[i] == key;
    RankOfSelect(s, i);
  }

  /** `contains`: a key is stored exactly when it sits at its own rank. */
  lemma {:induction false} RankFindsKey(s: seq<string>, key: string)
    requires StrictlySorted(s)
    ensures key in s <==> CountLess(s, key) < |s| && s[CountLess(s, key)] == key
  {
    if key in s {
      SelectOfRank(s, key);
    }
  }

  // ----- lookup -----

  lemma {:induction false} SortedDistinct(s: seq<string>, i: nat, j: nat)
    requires StrictlySorted(s) && i < |s| && j < |s| && i != j
    ensures s[i] != s[j]
  {
    if i < j { assert Less(s[i], s[j]); } else { assert Less(s[j], s[i]); }
  }

  /** On distinct keys, the reference lookup of `ks[i]` finds `vs[i]`. */
  lemma {:induction false} FindAt<V>(ks: seq<string>, vs: seq<V>, i: nat)
    requires |ks| == |vs| && i < |ks|
    requires forall j :: 0 <= j < i ==> ks[j] != ks[i]
    ensures Find(ks, vs, ks[i]) == Some(vs[i])
  {
    if i > 0 {
      assert ks[0] != ks[i];
      FindAt(ks[1..], vs[1..], i - 1);
    }
  }

  lemma {:induction false} FindAppend<V>(ks1: seq<string>, vs1: seq<V>, ks2: seq<string>, vs2: seq<V>, key: string)
    requires |ks1| == |vs1| && |ks2| == |vs2|
    ensures Find(ks1 + ks2, vs1 + vs2, key)
         == if key in ks1 then Find(ks1, vs1, key) else Find(ks2, vs2, key)
  {
    if ks1 != [] {
      assert (ks1 + ks2)[1..] == ks1[1..] + ks2;
      assert (vs1 + vs2)[1..] == vs1[1..] + vs2;
      FindAppend(ks1[1..], vs1[1..], ks2, vs2, key);
    } else {
      assert ks1 + ks2 == ks2 && vs1 + vs2 == vs2;
    }
  }

  /** Inserting a new pair at any position: only `key` changes its lookup. */
  lemma {:induction false} FindInsert<V>(ks: seq<string>, vs: seq<V>, i: nat, key: string, v: V, x: string)
    requires |ks| == |vs| && i <= |ks| && key !in ks
    ensures Find(ks[..i] + [key] + ks[i..], vs[..i] + [v] + vs[i..], x)
         == if x == key then Some(v) else Find(ks, vs, x)
  {
    assert ks == ks[..i] + ks[i..] && vs == vs[..i] + vs[i..];
    assert ks[..i] + [key] + ks[i..] == ks[..i] + ([key] + ks[i..]);
    assert vs[..i] + [v] + vs[i..] == vs[..i] + ([v] + vs[i..]);
    FindAppend(ks[..i], vs[..i], [key] + ks[i..], [v] + vs[i..], x);
    FindAppend([key], [v], ks[i..], vs[i..], x);
    FindAppend(ks[..i], vs[..i], ks[i..], vs[i..], x);
  }

  /** Removing the pair at `i`: only `ks[i]` changes its lookup, to absent. */
  lemma {:induction false} FindRemove<V>(ks: seq<string>, vs: seq<V>, i: nat, x: string)
    requires |ks| == |vs| && i < |ks| && StrictlySorted(ks)
    ensures Find(ks[..i] + ks[i + 1..], vs[..i] + vs[i + 1..], x)
         == if x == ks[i] then None else Find(ks, vs, x)
  {
    assert ks == ks[..i] + ([ks[i]] + ks[i + 1..]) && vs == vs[..i] + ([vs[i]] + vs[i + 1..]);
    FindAppend(ks[..i], vs[..i], ks[i + 1..], vs[i + 1..], x);
    FindAppend(ks[..i], vs[..i], [ks[i]] + ks[i + 1..], [vs[i]] + vs[i + 1..], x);
    FindAppend([ks[i]], [vs[i]], ks[i + 1..], vs[i + 1..], x);
    if x == ks[i] {
      forall j | 0 <= j < |ks| && j != i ensures ks[j] != x { SortedDistinct(ks, i, j); }
      assert x !in ks[..i] + ks[i + 1..];
    }
  }

  /** Overwriting the value at `i`: only `ks[i]` changes its lookup. */
  lemma {:induction false} FindUpdate<V>(ks: seq<string>, vs: seq<V>, i: nat, v: V, x: string)
    requires |ks| == |vs| && i < |ks| && StrictlySorted(ks)
    ensures Find(ks, vs[i := v], x) == if x == ks[i] then Some(v) else Find(ks, vs, x)
  {
    assert ks == ks[..i] + ([ks[i]] + ks[i + 1..]);
    assert vs == vs[..i] + ([vs[i]] + vs[i + 1..]);
    assert vs[i := v] == vs[..i] + ([v] + vs[i + 1..]);
    FindAppend(ks[..i], vs[..i], [ks[i]] + ks[i + 1..], [vs[i]] + vs[i + 1..], x);
    FindAppend(ks[..i], vs[..i], [ks[i]] + ks[i + 1..], [v] + vs[i + 1..], x);
    FindAppend([ks[i]], [vs[i]], ks[i + 1..], vs[i + 1..], x);
    FindAppend([ks[i]], [v], ks[i + 1..], vs[i + 1..], x);
    if x == ks[i] {
      forall j | 0 <= j < i ensures ks[j] != x { SortedDistinct(ks, i, j); }
      assert x !in ks[..i];
    }
  }

  // ----- order preserved by insertion and removal -----

  lemma {:induction false} InsertSorted(s: seq<string>, key: string)
    requires StrictlySorted(s) && key !in s
    ensures StrictlySorted(s[..CountLess(s, key)] + [key] + s[CountLess(s, key)..])
  {
    var i := CountLess(s, key);
    CountLessSplits(s, key);
    var t := s[..i] + [key] + s[i..];
    forall a, b | 0 <= a < b < |t| ensures Less(t[a], t[b]) {
      if b < i {
        assert t[a] == s[a] && t[b] == s[b];
      } else if b == i {
        assert t[a] == s[a] && t[b] == key;
      } else if a == i {
        assert t[b] == s[b - 1] && t[a] == key;
        assert !Less(s[b - 1], key) && s[b - 1] != key;
        Trichotomy(s[b - 1], key);
      } else if a < i {
        assert t[a] == s[a] && t[b] == s[b - 1];
      } else {
        assert t[a] == s[a - 1] && t[b] == s[b - 1];
      }
    }
  }

  lemma {:induction false} RemoveSorted(s: seq<string>, i: nat)
    requires StrictlySorted(s) && i < |s|
    ensures StrictlySorted(s[..i] + s[i + 1..])
  {
    var t := s[..i] + s[i + 1..];
    forall a, b | 0 <= a < b < |t| ensures Less(t[a], t[b]) {
      assert t[a] == (if a < i then s[a] else s[a + 1]);
      assert t[b] == (if b < i then s[b] else s[b + 1]);
    }
  }

  // ----- put and delete on the abstract contents -----

  /**
   * `put` on the live contents: overwrite the value of a stored key in
   * place, or insert the new pair at the key's rank.
   */
  function PutPair<V>(ks: seq<string>, vs: seq<V>, key: string, val: V): (r: (seq<string>, seq<V>))
    requires |ks| == |vs|
    ensures |r.0| == |r.1|
  {
    var i := CountLess(ks, key);
    if i < |ks| && ks[i] == key then (ks, vs[i := val])
    else (ks[..i] + [key] + ks[i..], vs[..i] + [val] + vs[i..])
  }

  /** `delete` on the live contents: drop the pair at the key's rank if the key is there. */
  function DeletePair<V>(ks: seq<string>, vs: seq<V>, key: string): (r: (seq<string>, seq<V>))
    requires |ks| == |vs|
    ensures |r.0| == |r.1|
  {
    var i := CountLess(ks, key);
    if i < |ks| && ks[i] == key then (ks[..i] + ks[i + 1..], vs[..i] + vs[i + 1..])
    else (ks, vs)
  }

  /** After `put(key, val)`, `key` finds `val`, every other key what it found before, and order is kept. */
  lemma {:induction false} PutPairSpec<V>(ks: seq<string>, vs: seq<V>, key: string, val: V)
    requires |ks| == |vs| && StrictlySorted(ks)
    ensures StrictlySorted(PutPair(ks, vs, key, val).0)
    ensures |PutPair(ks, vs, key, val).0| == if key in ks then |ks| else |ks| + 1
    ensures forall x :: Find(PutPair(ks, vs, key, val).0, PutPair(ks, vs, key, val).1, x)
                     == if x == key then Some(val) else Find(ks, vs, x)
  {
    var i := CountLess(ks, key);
    RankFindsKey(ks, key);
    var r := PutPair(ks, vs, key, val);
    if key in ks {
      forall x ensures Find(r.0, r.1, x) == if x == key then Some(val) else Find(ks, vs, x) {
        FindUpdate(ks, vs, i, val, x);
      }
    } else {
      InsertSorted(ks, key);
      forall x ensures Find(r.0, r.1, x) == if x == key then Some(val) else Find(ks, vs, x) {
        FindInsert(ks, vs, i, key, val, x);
      }
    }
  }

  /** After `delete(key)`, `key` is gone, every other key finds what it found before, and order is kept. */
  lemma {:induction false} DeletePairSpec<V>(ks: seq<string>, vs: seq<V>, key: string)
    requires |ks| == |vs| && StrictlySorted(ks)
    ensures StrictlySorted(DeletePair(ks, vs, key).0)
    ensures |DeletePair(ks, vs, key).0| == if key in ks then |ks| - 1 else |ks|
    ensures forall x :: Find(DeletePair(ks, vs, key).0, DeletePair(ks, vs, key).1, x)
                     == if x == key then None else Find(ks, vs, x)
  {
    var i := CountLess(ks, key);
    RankFindsKey(ks, key);
    var r := DeletePair(ks, vs, key);
    if key in ks {
      RemoveSorted(ks, i);
      forall x ensures Find(r.0, r.1, x) == if x == key then None else Find(ks, vs, x) {
        FindRemove(ks, vs, i, x);
      }
    }
  }

  // ----- range -----

  lemma {:induction false} RangeAppend(s1: seq<string>, s2: seq<string>, lo: string, hi: string)
    ensures Range(s1 + s2, lo, hi) == Range(s1, lo, hi) + Range(s2, lo, hi)
  {
    if s1 == [] {
      assert s1 + s2 == s2;
    } else {
      assert (s1 + s2)[1..] == s1[1..] + s2;
      RangeAppend(s1[1..], s2, lo, hi);
    }
  }

  lemma {:induction false} RangeAll(s: seq<string>, lo: string, hi: string)
    requires forall j :: 0 <= j < |s| ==> LessEq(lo, s[j]) && LessEq(s[j], hi)
    ensures Range(s, lo, hi) == s
  {
    if s != [] {
      RangeAll(s[1..], lo, hi);
    }
  }

  lemma {:induction false} RangeNone(s: seq<string>, lo: string, hi: string)
    requires forall j :: 0 <= j < |s| ==> !(LessEq(lo, s[j]) && LessEq(s[j], hi))
    ensures Range(s, lo, hi) == []
  {
    if s != [] {
      RangeNone(s[1..], lo, hi);
    }
  }

  /** On a sorted table the range is itself sorted. */
  lemma {:induction false} RangeSorted(s: seq<string>, lo: string, hi: string)
    requires StrictlySorted(s)
    ensures StrictlySorted(Range(s, lo, hi))
  {
    if s != [] {
      assert StrictlySorted(s[1..]) by {
        forall i, j | 0 <= i < j < |s[1..]| ensures Less(s[1..][i], s[1..][j]) {
          assert s[1..][i] == s[i + 1] && s[1..][j] == s[j + 1];
        }
      }
      RangeSorted(s[1..], lo, hi);
      var t := Range(s[1..], lo, hi);
      RangeMembers(s[1..], lo, hi);
      forall k | 0 <= k < |t| ensures Less(s[0], t[k]) {
        assert t[k] in s[1..];
      }
    }
  }

  /** `rank` is monotone in its key. */
  lemma {:induction false} RankMonotone(s: seq<string>, lo: string, hi: string)
    requires StrictlySorted(s) && LessEq(lo, hi)
    ensures CountLess(s, lo) <= CountLess(s, hi)
  {
    var a, b := CountLess(s, lo), CountLess(s, hi);
    CountLessSplits(s, lo);
    CountLessSplits(s, hi);
    if a > b {
      assert !Less(s[b], hi) && Less(s[b], lo);
      LessLessEqTransitive(s[b], lo, hi);
    }
  }

  /** The part of a sorted table below `rank(lo)` holds nothing of the range. */
  lemma {:induction false} RangeBelowRank(s: seq<string>, lo: string, hi: string)
    requires StrictlySorted(s)
    ensures Range(s[..CountLess(s, lo)], lo, hi) == []
  {
    var a := CountLess(s, lo);
    CountLessSplits(s, lo);
    forall j | 0 <= j < a ensures !LessEq(lo, s[..a][j]) {
      Trichotomy(s[j], lo);
    }
    RangeNone(s[..a], lo, hi);
  }

  /** Between `rank(lo)` and `rank(hi)` every key lies in the range. */
  lemma {:induction false} RangeBetweenRanks(s: seq<string>, lo: string, hi: string)
    requires StrictlySorted(s) && CountLess(s, lo) <= CountLess(s, hi)
    ensures Range(s[CountLess(s, lo)..CountLess(s, hi)], lo, hi) == s[CountLess(s, lo)..CountLess(s, hi)]
  {
    var a, b := CountLess(s, lo), CountLess(s, hi);
    CountLessSplits(s, lo);
    CountLessSplits(s, hi);
    var m := s[a..b];
    forall j | 0 <= j < |m| ensures LessEq(lo, m[j]) && LessEq(m[j], hi) {
      assert m[j] == s[a + j];
      Trichotomy(s[a + j], lo);
    }
    RangeAll(m, lo, hi);
  }

  /** From `rank(hi)` on, only `hi` itself can lie in the range. */
  lemma {:induction false} RangeFromRank(s: seq<string>, lo: string, hi: string)
    requires StrictlySorted(s) && LessEq(lo, hi)
    ensures var b := CountLess(s, hi);
      Range(s[b..], lo, hi) == if b < |s| && s[b] == hi then [s[b]] else []
  {
    var b := CountLess(s, hi);
    CountLessSplits(s, hi);
    if b < |s| {
      var t := s[b + 1..];
      assert s[b..] == [s[b]] + t;
      RangeAppend([s[b]], t, lo, hi);
      forall j | 0 <= j < |t| ensures !LessEq(t[j], hi) {
        assert t[j] == s[b + 1 + j];
        assert Less(s[b], t[j]);
        Trichotomy(s[b], hi);
        if s[b] != hi {
          LessTransitive(hi, s[b], t[j]);
        }
        Trichotomy(t[j], hi);
      }
      RangeNone(t, lo, hi);
      Trichotomy(s[b], hi);
    } else {
      assert s[b..] == [];
    }
  }

  /**
   * For `lo <= hi`, `keys(lo, hi)` as written enqueues exactly the stored
   * keys inside `[lo, hi]`.
   */
  lemma {:induction false} RangeAsWrittenCorrect(s: seq<string>, lo: string, hi: string)
    requires StrictlySorted(s) && LessEq(lo, hi)
    ensures RangeAsWritten(s, lo, hi) == Range(s, lo, hi)
  {
    var a, b := CountLess(s, lo), CountLess(s, hi);
    RankMonotone(s, lo, hi);
    var below, between, from := s[..a], s[a..b], s[b..];
    assert s == below + between + from;
    RangeAppend(below, between, lo, hi);
    RangeAppend(below + between, from, lo, hi);
    RangeBelowRank(s, lo, hi);
    RangeBetweenRanks(s, lo, hi);
    RangeFromRank(s, lo, hi);
    calc {
      Range(s, lo, hi);
      Range(below + between, lo, hi) + Range(from, lo, hi);
      Range(below, lo, hi) + Range(between, lo, hi) + Range(from, lo, hi);
      [] + between + Range(from, lo, hi);
      (if a < b then s[a..b] else []) + (if b < |s| && s[b] == hi then [s[b]] else []);
      RangeAsWritten(s, lo, hi);
    }
  }

  /** An inverted interval holds no key. */
  lemma {:induction false} RangeInverted(s: seq<string>, lo: string, hi: string)
    requires Less(hi, lo)
    ensures Range(s, lo, hi) == []
  {
    forall j | 0 <= j < |s| ensures !(LessEq(lo, s[j]) && LessEq(s[j], hi)) {
      if LessEq(lo, s[j]) && LessEq(s[j], hi) {
        LessLessEqTransitive(hi, lo, s[j]);
        Trichotomy(s[j], hi);
      }
    }
    RangeNone(s, lo, hi);
  }

  /**
   * With `lo > hi`, `keys(lo, hi)` as written still yields `hi` when it is
   * stored, although no key lies in the empty interval.
   */
  lemma {:induction false} RangeAsWrittenInvertedBounds()
    ensures RangeAsWritten(["a", "b"], "b", "a") == ["a"]
    ensures Range(["a", "b"], "b", "a") == []
  {
    assert Less("a", "b");
    assert CountLess(["a", "b"], "b") == 1;
    assert CountLess(["a", "b"], "a") == 0;
  }
}
