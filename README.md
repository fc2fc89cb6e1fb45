# ProyectoBiblia: ordered symbol table, result queue and word counting

ProyectoBiblia counts word frequencies in a text, such as the Bible, and
answers order queries over the counted words. This project models three
parts of it in Dafny and proves properties of the model:

- **`TablaDeSimbolosOrdenada`** is an ordered symbol table. It keeps two
  parallel arrays of fixed capacity, with the keys in ascending order and
  the values beside them, plus a count `N`.
  - It supports `rank` (binary search), `get`, `contains`, `put` and
    `delete` (which shift the tail of the arrays),
    `deletemin`/`deletemax`, `min`/`max`, `select`, `floor`/`ceiling`
    and `keys(lo, hi)`.
  - The model is the class `OrderedTable.Table`. Its arrays are
    `array<Option<...>>`, where `None` stands for Java's `null`.
  - The ghost sequences `ks` and `vs` are the live contents. `Valid()`
    says the keys are strictly ascending and every slot from `N` on is
    `null`.
  - Each operation is stated against functions on those sequences:
    `CountLess` (rank), `Find` (lookup), `PutPair`, `DeletePair`,
    `Range` and `RangeAsWritten`, all in module `SortedKeys`.
  - The key order is Java's `String.compareTo`, written out in
    `StringOrder` and shown to be a strict total order.
- **`Queue`** is a linked FIFO queue with a forward iterator. It is what
  `keys(lo, hi)` returns. In `Fifo`, the class keeps real `next` links.
  The ghost `Nodes` and `Contents` tie those links to the sequence of
  items.
- **`LeerArchivo`** holds two things:
  - `limpiarPalabra`, which lower-cases a word, strips Spanish accents,
    maps ñ to n and drops everything outside `a`..`z`. This is
    `WordCount.CleanWord`.
  - The counting loop of `procesarArchivo`. It runs over the tokens of a
    file that has already been read and split, and is
    `WordCount.ProcessTokens`.

The model follows the code, branch by branch, with two kinds of
exception:

- Where the Java code throws, the model returns a value instead:
  `None`, or `ok == false` for `put`.
- Where the code departs from its own Javadoc, there is one member as
  written and one corrected member beside it. For `max` and `ceiling` the
  as-written one returns a `SlotRead`, which says whether the array read
  is in bounds and, if so, what the slot holds. For `keys(lo, hi)` the
  as-written `Keys` returns the queue the code builds.

In detail:

- The Javadoc of `max` says it returns `null` on an empty table. The code
  reads `keys[-1]` and throws (Finding 3). `MaxAsWritten` keeps that read.
  `Max` returns `None`.
- The Javadoc of `ceiling` says it returns `null` when no stored key is
  `>= key`. The code reads `keys[N]`, which throws on a full table
  (Finding 1). `CeilingAsWritten` keeps that read. `Ceiling` returns
  `None`.
- The Javadoc of `keys(lo, hi)` says it returns the keys in `[lo, hi]`.
  When `lo > hi` the code still adds `hi` (Finding 2). `Keys` keeps that.
  `RangeKeys` returns an empty queue.
- `select(k)` for `N <= k < capacity` returns a `null` slot, and for any
  other `k` outside `0 <= k < N` it throws. There is no key to return in
  either case, and `Select` returns `None` for both.
- `put` of a new key on a full table has no slot to write. The code throws
  `ArrayIndexOutOfBoundsException` on its first write, and nothing has
  changed by then. `Put` returns `ok == false` with the table unchanged.
- `procesarArchivo` catches only `IOException`. The
  `ArrayIndexOutOfBoundsException` from such a `put` is not caught, so it
  ends the whole run of words. `ProcessTokens` stops there and returns how
  many tokens it counted before it.

## Model

| member | source | states |
|---|---|---|
| StringOrder.Compare | ProyectoBiblia/src/TablaOrdenada/TablaDeSimbolosOrdenada.java:80 | the sign of `compareTo` is in -1..1 and is 0 exactly when the two keys are equal |
| StringOrder.CompareFlip | ProyectoBiblia/src/TablaOrdenada/TablaDeSimbolosOrdenada.java:80-82 | swapping the keys flips the sign of the comparison, so `key.compareTo(keys[mid])` and `keys[i].compareTo(key)` agree |
| StringOrder.LessTransitive | ProyectoBiblia/src/TablaOrdenada/TablaDeSimbolosOrdenada.java:14 | the key order is transitive |
| StringOrder.LessLessEqTransitive | ProyectoBiblia/src/TablaOrdenada/TablaDeSimbolosOrdenada.java:14 | a key below `b` is below every key at or above `b` |
| StringOrder.Trichotomy | ProyectoBiblia/src/TablaOrdenada/TablaDeSimbolosOrdenada.java:14 | any two keys are less, equal or greater, and never less both ways |
| SortedKeys.CountLess | ProyectoBiblia/src/TablaOrdenada/TablaDeSimbolosOrdenada.java:66-75 | the rank is at most the size, and below the size for a stored key |
| SortedKeys.CountLessSplits | ProyectoBiblia/src/TablaOrdenada/TablaDeSimbolosOrdenada.java:66-75 | in sorted keys, exactly the keys before the rank are smaller than the query |
| SortedKeys.RankFindsKey | ProyectoBiblia/src/TablaOrdenada/TablaDeSimbolosOrdenada.java:59-60 | a key is stored exactly when the slot at its rank holds it, which is the test `i < N && keys[i].compareTo(key) == 0` |
| SortedKeys.RankOfSelect | ProyectoBiblia/src/TablaOrdenada/TablaDeSimbolosOrdenada.java:192-201 | `rank(select(i)) == i` for every valid position |
| SortedKeys.SelectOfRank | ProyectoBiblia/src/TablaOrdenada/TablaDeSimbolosOrdenada.java:66-75 | `select(rank(k)) == k` for every stored key |
| SortedKeys.RankMonotone | ProyectoBiblia/src/TablaOrdenada/TablaDeSimbolosOrdenada.java:268 | `lo <= hi` gives `rank(lo) <= rank(hi)` |
| SortedKeys.Find | ProyectoBiblia/src/TablaOrdenada/TablaDeSimbolosOrdenada.java:47-55 | a lookup finds a value exactly when the key is stored |
| SortedKeys.SortedDistinct | ProyectoBiblia/src/TablaOrdenada/TablaDeSimbolosOrdenada.java:16-17 | strictly ascending keys are pairwise distinct |
| SortedKeys.InsertSorted | ProyectoBiblia/src/TablaOrdenada/TablaDeSimbolosOrdenada.java:104-110 | inserting a new key at its rank keeps the keys strictly ascending |
| SortedKeys.RemoveSorted | ProyectoBiblia/src/TablaOrdenada/TablaDeSimbolosOrdenada.java:135-139 | removing any position keeps the keys strictly ascending |
| SortedKeys.PutPair | ProyectoBiblia/src/TablaOrdenada/TablaDeSimbolosOrdenada.java:98-111 | `put` on the live contents keeps keys and values the same length; its meaning is PutPairSpec |
| SortedKeys.PutPairSpec | ProyectoBiblia/src/TablaOrdenada/TablaDeSimbolosOrdenada.java:88-111 | after `put(key, val)` the keys stay sorted, the size grows by one exactly for a new key, `key` finds `val` and every other key finds what it found before |
| SortedKeys.DeletePair | ProyectoBiblia/src/TablaOrdenada/TablaDeSimbolosOrdenada.java:131-142 | `delete` on the live contents keeps keys and values the same length; its meaning is DeletePairSpec |
| SortedKeys.DeletePairSpec | ProyectoBiblia/src/TablaOrdenada/TablaDeSimbolosOrdenada.java:123-142 | after `delete(key)` the keys stay sorted, the size drops by one exactly for a stored key, `key` finds nothing and every other key finds what it found before |
| SortedKeys.Range | ProyectoBiblia/src/TablaOrdenada/TablaDeSimbolosOrdenada.java:256-265 | the documented range is no longer than the stored keys |
| SortedKeys.RangeMembers | ProyectoBiblia/src/TablaOrdenada/TablaDeSimbolosOrdenada.java:256-265 | a key is in the documented range exactly when it is stored and `lo <= key <= hi` |
| SortedKeys.RangeSorted | ProyectoBiblia/src/TablaOrdenada/TablaDeSimbolosOrdenada.java:256-265 | the range of sorted keys is in ascending order |
| SortedKeys.RangeAppend | ProyectoBiblia/src/TablaOrdenada/TablaDeSimbolosOrdenada.java:268-271 | the range of a concatenation is the concatenation of the ranges |
| SortedKeys.RangeBelowRank | ProyectoBiblia/src/TablaOrdenada/TablaDeSimbolosOrdenada.java:268 | no key before `rank(lo)` is in the range |
| SortedKeys.RangeBetweenRanks | ProyectoBiblia/src/TablaOrdenada/TablaDeSimbolosOrdenada.java:268-269 | every key at positions `rank(lo) .. rank(hi)-1` is in the range |
| SortedKeys.RangeFromRank | ProyectoBiblia/src/TablaOrdenada/TablaDeSimbolosOrdenada.java:270-271 | from `rank(hi)` on, the range holds `hi` when it is stored and nothing else |
| SortedKeys.RangeAsWritten | ProyectoBiblia/src/TablaOrdenada/TablaDeSimbolosOrdenada.java:266-273 | what `keys(lo, hi)` collects as written: only stored keys, and no more of them than are stored; RangeAsWrittenCorrect and RangeAsWrittenInvertedBounds say what it is |
| SortedKeys.RangeAsWrittenCorrect | ProyectoBiblia/src/TablaOrdenada/TablaDeSimbolosOrdenada.java:266-273 | for `lo <= hi`, what `keys(lo, hi)` collects is exactly the documented range |
| SortedKeys.RangeInverted | ProyectoBiblia/src/TablaOrdenada/TablaDeSimbolosOrdenada.java:256-265 | for `hi < lo` the documented range is empty |
| SortedKeys.RangeAsWrittenInvertedBounds | ProyectoBiblia/src/TablaOrdenada/TablaDeSimbolosOrdenada.java:266-273 | with keys a, b, `keys("b", "a")` as written yields `["a"]` where the documented range is empty |
| OrderedTable.Table.constructor | ProyectoBiblia/src/TablaOrdenada/TablaDeSimbolosOrdenada.java:33-36 | a new table has the given capacity, no entries and all slots `null` |
| OrderedTable.Table.Size | ProyectoBiblia/src/TablaOrdenada/TablaDeSimbolosOrdenada.java:43-45 | the number of stored pairs |
| OrderedTable.Table.IsEmpty | ProyectoBiblia/src/TablaOrdenada/TablaDeSimbolosOrdenada.java:119-121 | true exactly when nothing is stored |
| OrderedTable.Table.Rank | ProyectoBiblia/src/TablaOrdenada/TablaDeSimbolosOrdenada.java:76-86 | the binary search returns the number of stored keys below `key`, which is the key's position when it is stored |
| OrderedTable.Table.Get | ProyectoBiblia/src/TablaOrdenada/TablaDeSimbolosOrdenada.java:56-64 | the value paired with `key`, present exactly when `key` is stored |
| OrderedTable.Table.Contains | ProyectoBiblia/src/TablaOrdenada/TablaDeSimbolosOrdenada.java:250-254 | true exactly when `key` is stored |
| OrderedTable.Table.InsertAt | ProyectoBiblia/src/TablaOrdenada/TablaDeSimbolosOrdenada.java:104-110 | the shift-right loop and the write leave the new pair at its rank with the tail moved up by one, and the table valid |
| OrderedTable.Table.Put | ProyectoBiblia/src/TablaOrdenada/TablaDeSimbolosOrdenada.java:98-111 | the contents become `PutPair` of the old ones; a new key on a full table is refused and changes nothing; the table stays valid |
| OrderedTable.Table.RemoveAt | ProyectoBiblia/src/TablaOrdenada/TablaDeSimbolosOrdenada.java:135-141 | the shift-left loop and the clearing of the vacated slot remove exactly one position and keep the table valid |
| OrderedTable.Table.Delete | ProyectoBiblia/src/TablaOrdenada/TablaDeSimbolosOrdenada.java:131-142 | the contents become `DeletePair` of the old ones, so an absent key changes nothing |
| OrderedTable.Table.DeleteMin | ProyectoBiblia/src/TablaOrdenada/TablaDeSimbolosOrdenada.java:150-156 | removes the least key with its value and returns the key; empty table: `null`, nothing changes |
| OrderedTable.Table.DeleteMax | ProyectoBiblia/src/TablaOrdenada/TablaDeSimbolosOrdenada.java:164-170 | removes the greatest key with its value and returns the key; empty table: `null`, nothing changes |
| OrderedTable.Table.Min | ProyectoBiblia/src/TablaOrdenada/TablaDeSimbolosOrdenada.java:178-180 | `keys[0]`: the first stored key, `<=` every stored key; `null` on an empty table |
| OrderedTable.Table.Max | ProyectoBiblia/src/TablaOrdenada/TablaDeSimbolosOrdenada.java:188-190 | the last stored key, `>=` every stored key; absent on an empty table |
| OrderedTable.Table.MaxAsWritten | ProyectoBiblia/src/TablaOrdenada/TablaDeSimbolosOrdenada.java:188-190 | `keys[N - 1]` unguarded: out of bounds exactly on an empty table, otherwise the last stored key |
| OrderedTable.Table.Select | ProyectoBiblia/src/TablaOrdenada/TablaDeSimbolosOrdenada.java:199-201 | a key exactly for `0 <= k < N`: the key at position `k`, whose rank is `k` |
| OrderedTable.Table.Floor | ProyectoBiblia/src/TablaOrdenada/TablaDeSimbolosOrdenada.java:212-227 | the greatest stored key `<= key`; absent exactly when every stored key is greater |
| OrderedTable.Table.Ceiling | ProyectoBiblia/src/TablaOrdenada/TablaDeSimbolosOrdenada.java:229-241 | corrected: the least stored key `>= key`; absent exactly when every stored key is smaller |
| OrderedTable.Table.CeilingAsWritten | ProyectoBiblia/src/TablaOrdenada/TablaDeSimbolosOrdenada.java:238-241 | `keys[rank(key)]` unguarded: out of bounds exactly when the table is full and `key` exceeds every stored key; otherwise the slot at the rank, `null` at rank `N` |
| OrderedTable.Table.EnqueueSlots | ProyectoBiblia/src/TablaOrdenada/TablaDeSimbolosOrdenada.java:268-269 | the loop appends the stored keys at positions `from .. to-1` to the queue, in order |
| OrderedTable.Table.Keys | ProyectoBiblia/src/TablaOrdenada/TablaDeSimbolosOrdenada.java:266-273 | the returned queue holds `RangeAsWritten`: positions `rank(lo) .. rank(hi)-1`, then `hi` when stored |
| OrderedTable.Table.RangeKeys | ProyectoBiblia/src/TablaOrdenada/TablaDeSimbolosOrdenada.java:256-265 | corrected: the queue holds exactly the stored keys in `[lo, hi]`, ascending, and is empty for `lo > hi` |
| Fifo.Node.constructor | ProyectoBiblia/src/TablaOrdenada/Queue.java:30-33 | a new node holds its item and has no successor |
| Fifo.Queue.constructor | ProyectoBiblia/src/TablaOrdenada/Queue.java:16-25 | a new queue is valid and empty |
| Fifo.Queue.Enqueue | ProyectoBiblia/src/TablaOrdenada/Queue.java:40-50 | the item is appended at the back; the links stay valid |
| Fifo.Queue.Dequeue | ProyectoBiblia/src/TablaOrdenada/Queue.java:57-67 | removes and returns the front item; `null` and no change when empty |
| Fifo.Queue.IsEmpty | ProyectoBiblia/src/TablaOrdenada/Queue.java:74-76 | `first == null` exactly when there are no items, and exactly when the count is 0 |
| Fifo.Queue.Size | ProyectoBiblia/src/TablaOrdenada/Queue.java:83-85 | the count is the number of items |
| Fifo.Queue.Iterator | ProyectoBiblia/src/TablaOrdenada/Queue.java:92-95 | a fresh iterator at the front of this queue |
| Fifo.QueueIterator.constructor | ProyectoBiblia/src/TablaOrdenada/Queue.java:103 | the iterator starts at `first`, position 0 |
| Fifo.QueueIterator.HasNext | ProyectoBiblia/src/TablaOrdenada/Queue.java:110-113 | true exactly when items remain past the current position |
| Fifo.QueueIterator.Next | ProyectoBiblia/src/TablaOrdenada/Queue.java:120-125 | returns the item at the current position and advances by one |
| Fifo.FromSeq | ProyectoBiblia/src/TablaOrdenada/Queue.java:40-50 | enqueueing items one by one gives a queue with those items in that order |
| Fifo.Drain | ProyectoBiblia/src/TablaOrdenada/Queue.java:57-67 | dequeueing until empty yields the contents front to back and leaves the queue empty |
| Fifo.FirstInFirstOut | ProyectoBiblia/src/TablaOrdenada/Queue.java:5-10 | items come out in the order they went in |
| Fifo.Traverse | ProyectoBiblia/src/TablaOrdenada/Queue.java:87-126 | iterating yields the contents front to back, as the `for` loops over `keys(lo, hi)` rely on |
| WordCount.ToLowerCase | ProyectoBiblia/src/Txt/LeerArchivo.java:39 | lower-casing keeps the length and maps each character on its own |
| WordCount.Replace | ProyectoBiblia/src/Txt/LeerArchivo.java:40-46 | each occurrence of one character becomes the other; everything else is kept in place |
| WordCount.KeepLowerLetters | ProyectoBiblia/src/Txt/LeerArchivo.java:47 | the result holds only `a`..`z` and is no longer than the input |
| WordCount.Lower | ProyectoBiblia/src/Txt/LeerArchivo.java:39 | lower-casing one character leaves no capital `A`..`Z`, and changes only a character that stands for a letter, into one that stands for the same letter |
| WordCount.StripAccents | ProyectoBiblia/src/Txt/LeerArchivo.java:40-46 | the seven replacements keep the length of the word |
| WordCount.StripOne | ProyectoBiblia/src/Txt/LeerArchivo.java:40-46 | one character goes through the seven replacements to its plain letter if it is á, é, í, ó, ú, ü or ñ, and otherwise stays |
| WordCount.StripAccentsSpec | ProyectoBiblia/src/Txt/LeerArchivo.java:40-46 | after the seven replacements each á, é, í, ó, ú, ü, ñ is a, e, i, o, u, u, n, and every other character is unchanged |
| WordCount.CleanWord | ProyectoBiblia/src/Txt/LeerArchivo.java:37-48 | the cleaned word holds only `a`..`z`, is no longer than the word, and is empty for `null` |
| WordCount.CleanOneCharacter | ProyectoBiblia/src/Txt/LeerArchivo.java:39-47 | one character cleans to the base letter it stands for, or to nothing |
| WordCount.CleanWordIsPerCharacter | ProyectoBiblia/src/Txt/LeerArchivo.java:22-36 | cleaning equals the reference definition: each character replaced by its base letter (case and Spanish accents removed), others dropped |
| WordCount.CleanRefOfLetters | ProyectoBiblia/src/Txt/LeerArchivo.java:47 | a word of `a`..`z` is unchanged by the reference cleaning |
| WordCount.CleanWordIdempotent | ProyectoBiblia/src/Txt/LeerArchivo.java:37-48 | cleaning a cleaned word changes nothing |
| WordCount.CleanAll | ProyectoBiblia/src/Txt/LeerArchivo.java:73-74 | one cleaned word per token, in order |
| WordCount.Count | ProyectoBiblia/src/Txt/LeerArchivo.java:75-81 | counting one word keeps keys and values the same length; its meaning is CountOne |
| WordCount.CountAll | ProyectoBiblia/src/Txt/LeerArchivo.java:73-82 | counting words in order keeps keys and values the same length; its meaning is CountAllCounts |
| WordCount.CountOne | ProyectoBiblia/src/Txt/LeerArchivo.java:75-81 | one non-empty word gains one occurrence (1 when new), the empty word is skipped, every other word keeps its count, and keys stay sorted |
| WordCount.AddCountStep | ProyectoBiblia/src/Txt/LeerArchivo.java:80 | one more occurrence on top of `k` is `k + 1` |
| WordCount.OccurrencesOfLast | ProyectoBiblia/src/Txt/LeerArchivo.java:73 | the occurrences of a word are those before the last token, plus one if the last token is that word |
| WordCount.CountAllCounts | ProyectoBiblia/src/Txt/LeerArchivo.java:73-82 | after counting, each non-empty word's count is its old count plus its number of occurrences; the empty word is never stored |
| WordCount.FrequenciesFromEmpty | ProyectoBiblia/src/Txt/LeerArchivo.java:49-67 | from an empty table, a word is stored exactly when some token cleans to it, with the number of such tokens as its value |
| WordCount.CountToken | ProyectoBiblia/src/Txt/LeerArchivo.java:74-81 | the table becomes `Count` of the cleaned token; it fails, changing nothing, exactly when a new non-empty word meets a full table |
| WordCount.CountAllNextToken | ProyectoBiblia/src/Txt/LeerArchivo.java:73 | counting one more token extends the count of the tokens before it |
| WordCount.ProcessTokens | ProyectoBiblia/src/Txt/LeerArchivo.java:68-88 | the table holds `CountAll` of the cleaned tokens counted so far; stopping early means the next cleaned word is new, non-empty and the table is full |
| Scenarios.ThreeWords | ProyectoBiblia/src/TablaOrdenada/TablaDeSimbolosOrdenada.java:98-111 | capacity 10, then `put(apple,1)`, `put(bible,3)`, `put(zebra,2)`, stores exactly those pairs in key order |
| Scenarios.ThreeWordsOrder | ProyectoBiblia/src/TablaOrdenada/TablaDeSimbolosOrdenada.java:178-201 | on that table: size 3, min apple, max zebra, select(1) bible, rank(bible) 1 |
| Scenarios.ThreeWordsLookups | ProyectoBiblia/src/TablaOrdenada/TablaDeSimbolosOrdenada.java:199-241 | on that table: floor(cat) bible, ceiling(cat) zebra, select(5) absent, get(durian) absent |
| Scenarios.ThreeWordsDeleteMin | ProyectoBiblia/src/TablaOrdenada/TablaDeSimbolosOrdenada.java:150-180 | on that table deletemin returns apple, and min is then bible |
| Scenarios.MaxOfEmptyTable | ProyectoBiblia/src/TablaOrdenada/TablaDeSimbolosOrdenada.java:188-190 | on an empty table `max` as written reads before the array; the corrected one answers absent |
| Scenarios.CeilingPastFullTable | ProyectoBiblia/src/TablaOrdenada/TablaDeSimbolosOrdenada.java:238-241 | capacity 1 holding "a": `ceiling("b")` as written reads past the array; the corrected one answers absent |

## Left out

- File reading (`BufferedReader`, `readLine`), the `IOException` handler and its console message are not modelled. The lines of the file, split on white space, are the `tokens` parameter of `ProcessTokens`.
- `split("\\s+")` is not modelled. In particular, the empty first token of a line that starts with white space is not produced. It would clean to "" and be skipped anyway.
- The interactive menu in `Interfaz/ProyectoBiblia.java` is not part of this model.
- Java `null` keys are not modelled. Keys are always strings, so the `key == null` guards of `floor` and `contains` have no counterpart. `CleanWord` does take `null` (`None`).
- Counts are unbounded integers. The 32-bit overflow of `contador + 1` after 2^31-1 occurrences is not modelled.
- WordCount.Lower: models `toLowerCase` only where the cleaning can tell it apart. Characters outside the handled set keep their case here; their lower case would be dropped by the final filter anyway.
- WordCount.Lower: does not model the locale dependence of `toLowerCase`. In a Turkish locale `I` becomes a dotless `ı` and is dropped.
- WordCount.Lower: does not model the change of length from `İ` to `i` plus a combining dot. The combining dot is removed by the filter, and the model keeps the `i`.
- StringOrder.Compare: orders characters by their code points. Java compares UTF-16 code units, which differs only between characters above U+FFFF and those in U+E000..U+FFFF. It returns only the sign, which is all the table uses.
- OrderedTable.Table.Put: a new key on a full table throws in Java. Here it returns `ok == false` with the table unchanged, which is the state Java leaves.
- OrderedTable.Table.Max: on an empty table Java throws (`keys[-1]`). Here the result is `None`, as the Javadoc promises. `MaxAsWritten` keeps the out-of-bounds read (Finding 3).
- OrderedTable.Table.constructor: takes a `nat` capacity. Java's `NegativeArraySizeException` for a negative capacity is not modelled.
- Java `null` values are not modelled. After `put(k, null)`, Java's `get(k)` returns `null` while `contains(k)` is true. The model stores `Some(val)`, so `Get` is absent exactly when the key is absent. The word counter never stores `null`.
- OrderedTable.Table.Select: an index below 0 or at or above the capacity throws in Java. Here the result is `None`, the same as for the `null` slots between `N` and the capacity.
- OrderedTable.Table.Min: on a table of capacity 0, `keys[0]` throws in Java. Here the result is `None`.
- OrderedTable.Table.Keys: Java evaluates `rank(hi)` on each loop test, and `contains(hi)` and `keys[rank(hi)]` after the loop. The model evaluates each once, before the loop. The table is not changed in between, so the result is the same.
- OrderedTable.Table.Rank: its contract states the result through `CountLess`. The two facts that the keys before the rank are smaller and the rest are not are the separate lemma `SortedKeys.CountLessSplits`.
- Fifo.Queue.Dequeue: the `first.item = null` write, which lets the removed item be garbage-collected, is not modelled.
- Fifo.QueueIterator.Next: requires an item to remain. Past the end, Java dereferences `null` and throws. The iterator's `remove`, which Java leaves to the default that throws, is not modelled.
- Fifo.QueueIterator: iterating while the queue is changed is not modelled. The iterator's contracts assume the queue is left alone.
- WordCount.ProcessTokens: an exception from `put` stops the counting. The state left behind and the count of processed tokens are modelled. The exception itself reaching the caller of `procesarArchivo` is not.

## Findings

| source | as written | input that shows it | evidently intended | confidence | as-written member | corrected member |
|---|---|---|---|---|---|---|
| ProyectoBiblia/src/TablaOrdenada/TablaDeSimbolosOrdenada.java:238-241 | `ceiling` returns `keys[rank(key)]` with no check on the rank | capacity 1 holding "a", `ceiling("b")`: rank 1 reads past the array and throws | return `null` when the rank is `N`, that is when no stored key is `>= key` | not executed | OrderedTable.Table.CeilingAsWritten | OrderedTable.Table.Ceiling |
| ProyectoBiblia/src/TablaOrdenada/TablaDeSimbolosOrdenada.java:266-273 | `keys(lo, hi)` adds `hi` whenever it is stored, even when `lo > hi` | keys a, b stored, `keys("b", "a")` yields `[a]` | the keys in `[lo, hi]`, which is empty for `lo > hi` | not executed | SortedKeys.RangeAsWrittenInvertedBounds | OrderedTable.Table.RangeKeys |
| ProyectoBiblia/src/TablaOrdenada/TablaDeSimbolosOrdenada.java:188-190 | `max` returns `keys[N - 1]` with no check for an empty table | an empty table of capacity 10, `max()`: reads `keys[-1]` and throws | return `null` on an empty table, as the Javadoc says | not executed | OrderedTable.Table.MaxAsWritten | OrderedTable.Table.Max |
