/**
 * Small concrete call sequences on the symbol table, each with its
 * results proved.
 */
module Scenarios {
  import opened Wrappers
  import opened StringOrder
  import opened SortedKeys
  import opened OrderedTable

  /** A table of capacity 10 after put(apple, 1), put(bible, 3), put(zebra, 2). */
  method ThreeWords() returns (t: Table<int>)
    ensures fresh(t) && fresh(t.keys) && fresh(t.vals) && t.Valid()
    ensures t.ks == ["apple", "bible", "zebra"] && t.vs == [1, 3, 2]
  {
    t := new Table<int>(10);
    var ok := t.Put("apple", 1);
    assert t.ks == ["apple"];
    assert Less("apple", "bible") && CountLess(["apple"], "bible") == 1;
    ok := t.Put("bible", 3);
    assert t.ks == ["apple", "bible"];
    assert Less("bible", "zebra") && Less("apple", "zebra");
    assert CountLess(["apple", "bible"], "zebra") == 2;
    ok := t.Put("zebra", 2);
  }

  /** The order-statistics queries on that table. */
  method ThreeWordsOrder() returns (size: nat, least: Option<string>, greatest: Option<string>,
                                   second: Option<string>, rankBible: nat)
    ensures size == 3 && least == Some("apple") && greatest == Some("zebra")
    ensures second == Some("bible") && rankBible == 1
  {
    var t := ThreeWords();
    size := t.Size();
    least := t.Min();
    greatest := t.Max();
    second := t.Select(1);
    rankBible := t.Rank("bible");
  }

  /** Floor and ceiling of a missing key, a rank past the end, a missing key. */
  method ThreeWordsLookups() returns (floorCat: Option<string>, ceilingCat: Option<string>,
                                     fifth: Option<string>, durian: Option<int>)
    ensures floorCat == Some("bible") && ceilingCat == Some("zebra")
    ensures fifth == None && durian == None
  {
    var t := ThreeWords();
    assert Less("apple", "bible") && Less("bible", "cat") && Less("cat", "zebra");
    assert !LessEq("bible", "apple") && !LessEq("zebra", "cat");
    assert !LessEq("cat", "apple") && !LessEq("cat", "bible");
    floorCat := t.Floor("cat");
    assert !Less("cat", t.ks[1]) && LessEq(t.ks[1], "cat");
    ceilingCat := t.Ceiling("cat");
    assert !Less(t.ks[2], "cat") && LessEq("cat", t.ks[2]);
    fifth := t.Select(5);
    durian := t.Get("durian");
  }

  /** `deleteMin` on that table removes "apple"; the new least key is "bible". */
  method ThreeWordsDeleteMin() returns (removed: Option<string>, least: Option<string>)
    ensures removed == Some("apple") && least == Some("bible")
  {
    var t := ThreeWords();
    removed := t.DeleteMin();
    least := t.Min();
  }

  /**
   * `ceiling` as written on a full table: with capacity 1 holding "a",
   * the rank of "b" is 1, one past the last slot of the array.
   */
  method CeilingPastFullTable() returns (r: SlotRead, fixed: Option<string>)
    ensures r == OutOfBounds && fixed == None
  {
    var t := new Table<int>(1);
    var ok := t.Put("a", 1);
    assert Less("a", "b");
    r := t.CeilingAsWritten("b");
    fixed := t.Ceiling("b");
  }

  /**
   * `max` as written on an empty table: `N - 1` is -1, before the first
   * slot of the array, where the Javadoc promises `null`.
   */
  method MaxOfEmptyTable() returns (r: SlotRead, fixed: Option<string>)
    ensures r == OutOfBounds && fixed == None
  {
    var t := new Table<int>(10);
    r := t.MaxAsWritten();
    fixed := t.Max();
  }
}
