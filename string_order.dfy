/**
 * The order on keys.  Keys of the symbol table are Java strings compared
 * with `String.compareTo`: lexicographically, character by character, a
 * proper prefix coming first.  Dafny's own `<` on sequences means "proper
 * prefix", so the order is written out here and shown to be a strict
 * total order.
 */
module StringOrder {

  /** The sign of Java's `a.compareTo(b)`: -1, 0 or 1. */
  function Compare(a: string, b: string): (c: int)
    ensures -1 <= c <= 1
    ensures c == 0 <==> a == b
  {
    if a == [] then (if b == [] then 0 else -1)
    else if b == [] then 1
    else if a[0] < b[0] then -1
    else if a[0] > b[0] then 1
    else (assert a == [a[0]] + a[1..] && b == [b[0]] + b[1..]; Compare(a[1..], b[1..]))
  }

  predicate Less(a: string, b: string) {
    Compare(a, b) < 0
  }

  predicate LessEq(a: string, b: string) {
    Compare(a, b) <= 0
  }

  /** Swapping the operands flips the sign. */
  lemma {:induction false} CompareFlip(a: string, b: string)
    ensures Compare(b, a) == -Compare(a, b)
  {
    if a != [] && b != [] && a[0] == b[0] {
      CompareFlip(a[1..], b[1..]);
    }
  }

  /** The order is transitive. */
  lemma {:induction false} LessTransitive(a: string, b: string, c: string)
    requires Less(a, b) && Less(b, c)
    ensures Less(a, c)
  {
    if a != [] && b != [] && c != [] && a[0] == b[0] == c[0] {
      LessTransitive(a[1..], b[1..], c[1..]);
    }
  }

  /** Any two keys are comparable one way or the other. */
  lemma {:induction false} Trichotomy(a: string, b: string)
    ensures Less(a, b) || a == b || Less(b, a)
    ensures !(Less(a, b) && Less(b, a))
  {
    CompareFlip(a, b);
  }

  /** A key below `b` is below everything at or above `b`. */
  lemma {:induction false} LessLessEqTransitive(a: string, b: string, c: string)
    requires Less(a, b) && LessEq(b, c)
    ensures Less(a, c)
  {
    if b != c { LessTransitive(a, b, c); }
  }
}
