/**
 * Word cleaning and frequency counting over the ordered symbol table.
 *
 * `CleanWord` is `limpiarPalabra`: lower-case the word, strip the Spanish
 * accents and the tilde of ñ, then drop every character outside `a`..`z`.
 * `ProcessTokens` is the body of `procesarArchivo` once the file has been
 * read and split: every token is cleaned, and each non-empty cleaned word
 * has its count in the table raised by one (or set to 1 when new).
 */
module WordCount {
  import opened Wrappers
  import opened SortedKeys
  import opened OrderedTable

  // ----- limpiarPalabra -----

  /**
   * `String.toLowerCase`, one character at a time, restricted to the
   * characters whose lower case can survive the cleaning: `A`..`Z`, the
   * capitals of the accented vowels, Ü and Ñ, the Kelvin sign (lower
   * case `k`) and the capital I with dot above (lower case `i` plus a
   * combining dot that the final filter removes).  Every other character
   * keeps its case here; its lower case lies outside `a`..`z` and the
   * accented letters either way.
   */
  function Lower(c: char): (r: char)
    ensures !('A' <= r <= 'Z')
    ensures r != c ==> BaseLetter(c).Some? && BaseLetter(r) == BaseLetter(c)
  {
    if 'A' <= c <= 'Z' then (c as int + 32) as char
    else if c == '\U{C1}' then '\U{E1}'
    else if c == '\U{C9}' then '\U{E9}'
    else if c == '\U{CD}' then '\U{ED}'
    else if c == '\U{D3}' then '\U{F3}'
    else if c == '\U{DA}' then '\U{FA}'
    else if c == '\U{DC}' then '\U{FC}'
    else if c == '\U{D1}' then '\U{F1}'
    else if c == '\U{212A}' then 'k'
    else if c == '\U{130}' then 'i'
    else c
  }

  /** `String.toLowerCase`, character by character. */
  function ToLowerCase(s: string): (r: string)
    ensures |r| == |s|
    ensures forall i :: 0 <= i < |s| ==> r[i] == Lower(s[i])
  {
    if s == [] then [] else [Lower(s[0])] + ToLowerCase(s[1..])
  }

  /** `String.replace` of a one-character string by another. */
  function Replace(s: string, from: char, to: char): (r: string)
    ensures |r| == |s|
    ensures forall i :: 0 <= i < |s| ==> r[i] == if s[i] == from then to else s[i]
  {
    if s == [] then [] else [if s[0] == from then to else s[0]] + Replace(s[1..], from, to)
  }

  predicate IsLowerLetter(c: char) {
    'a' <= c <= 'z'
  }

  /** `replaceAll("[^a-z]", "")`: the characters in `a`..`z`, in order. */
  function KeepLowerLetters(s: string): (r: string)
    ensures |r| <= |s|
    ensures forall i :: 0 <= i < |r| ==> IsLowerLetter(r[i])
  {
    if s == [] then []
    else (if IsLowerLetter(s[0]) then [s[0]] else []) + KeepLowerLetters(s[1..])
  }

  /** The lower-case accented letters that `limpiarPalabra` replaces. */
  predicate IsAccented(c: char) {
    c in {'\U{E1}', '\U{E9}', '\U{ED}', '\U{F3}', '\U{FA}', '\U{FC}', '\U{F1}'}
  }

  /** The seven replacements of `limpiarPalabra`, applied to the lower-cased word. */
  function StripAccents(s: string): (r: string)
    ensures |r| == |s|
  {
    Replace(Replace(Replace(Replace(Replace(Replace(Replace(s,
      '\U{E1}', 'a'), '\U{E9}', 'e'), '\U{ED}', 'i'), '\U{F3}', 'o'),
      '\U{FA}', 'u'), '\U{FC}', 'u'), '\U{F1}', 'n')
  }

  /** `limpiarPalabra`: `None` is Java's `null`, which cleans to the empty word. */
  function CleanWord(word: Option<string>): (r: string)
    ensures forall i :: 0 <= i < |r| ==> IsLowerLetter(r[i])
    ensures word.Some? ==> |r| <= |word.value|
    ensures word.None? ==> r == ""
  {
    match word
    case None => ""
    case Some(s) => KeepLowerLetters(StripAccents(ToLowerCase(s)))
  }

  /**
   * Reference definition, one character at a time: the letter of `a`..`z`
   * a character stands for, or nothing.  Upper and lower case, and the
   * accented vowels with their plain ones, stand for the same letter.
   */
  function BaseLetter(c: char): (r: Option<char>) {
    if 'a' <= c <= 'z' then Some(c)
    else if 'A' <= c <= 'Z' then Some((c as int + 32) as char)
    else if c in {'\U{E1}', '\U{C1}'} then Some('a')
    else if c in {'\U{E9}', '\U{C9}'} then Some('e')
    else if c in {'\U{ED}', '\U{CD}', '\U{130}'} then Some('i')
    else if c in {'\U{F3}', '\U{D3}'} then Some('o')
    else if c in {'\U{FA}', '\U{DA}', '\U{FC}', '\U{DC}'} then Some('u')
    else if c in {'\U{F1}', '\U{D1}'} then Some('n')
    else if c == '\U{212A}' then Some('k')
    else None
  }

  function CleanRef(s: string): (r: string) {
    if s == [] then []
    else (match BaseLetter(s[0]) case None => [] case Some(l) => [l]) + CleanRef(s[1..])
  }

  /** The cleaning of a word is the concatenation of the cleaning of its characters. */
  lemma {:induction false} CleanWordIsPerCharacter(s: string)
    ensures CleanWord(Some(s)) == CleanRef(s)
  {
    if s != [] {
      var c, t := s[0], s[1..];
      CleanWordIsPerCharacter(t);
      var lowered := ToLowerCase(s);
      assert lowered == [Lower(c)] + ToLowerCase(t);
      var stripped := StripAccents(lowered);
      assert stripped == StripAccents([Lower(c)]) + StripAccents(ToLowerCase(t)) by {
        ReplaceAppend7([Lower(c)], ToLowerCase(t));
      }
      KeepAppend(StripAccents([Lower(c)]), StripAccents(ToLowerCase(t)));
      CleanOneCharacter(c);
    }
  }

  lemma {:induction false} CleanOneCharacter(c: char)
    ensures KeepLowerLetters(StripAccents([Lower(c)]))
         == match BaseLetter(c) case None => [] case Some(l) => [l]
  {
    var x := StripAccents([Lower(c)]);
    assert |x| == 1;
    assert KeepLowerLetters(x) == if IsLowerLetter(x[0]) then [x[0]] else [] by {
      assert x[1..] == [];
    }
  }

  lemma {:induction false} ReplaceAppend(a: string, b: string, from: char, to: char)
    ensures Replace(a + b, from, to) == Replace(a, from, to) + Replace(b, from, to)
  {
    assert |Replace(a + b, from, to)| == |Replace(a, from, to) + Replace(b, from, to)|;
    forall i | 0 <= i < |a + b|
      ensures Replace(a + b, from, to)[i] == (Replace(a, from, to) + Replace(b, from, to))[i]
    {
      if i < |a| {
        assert (a + b)[i] == a[i];
      } else {
        assert (a + b)[i] == b[i - |a|];
      }
    }
  }

  lemma {:induction false} ReplaceAppend7(a: string, b: string)
    ensures StripAccents(a + b) == StripAccents(a) + StripAccents(b)
  {
    var x := a + b;
    ReplaceAppend(a, b, '\U{E1}', 'a');
    var a1, b1 := Replace(a, '\U{E1}', 'a'), Replace(b, '\U{E1}', 'a');
    ReplaceAppend(a1, b1, '\U{E9}', 'e');
    var a2, b2 := Replace(a1, '\U{E9}', 'e'), Replace(b1, '\U{E9}', 'e');
    ReplaceAppend(a2, b2, '\U{ED}', 'i');
    var a3, b3 := Replace(a2, '\U{ED}', 'i'), Replace(b2, '\U{ED}', 'i');
    ReplaceAppend(a3, b3, '\U{F3}', 'o');
    var a4, b4 := Replace(a3, '\U{F3}', 'o'), Replace(b3, '\U{F3}', 'o');
    ReplaceAppend(a4, b4, '\U{FA}', 'u');
    var a5, b5 := Replace(a4, '\U{FA}', 'u'), Replace(b4, '\U{FA}', 'u');
    ReplaceAppend(a5, b5, '\U{FC}', 'u');
    var a6, b6 := Replace(a5, '\U{FC}', 'u'), Replace(b5, '\U{FC}', 'u');
    ReplaceAppend(a6, b6, '\U{F1}', 'n');
  }

  /** An accented lower-case letter's plain letter; every other character is itself. */
  function PlainLetter(c: char): (r: char) {
    if IsAccented(c) then BaseLetter(c).value else c
  }

  /** The seven replacements change one character to its plain letter. */
  lemma {:induction false} StripOne(c: char)
    ensures StripAccents([c]) == [PlainLetter(c)]
  {
  }

  /** Each accented letter becomes its plain letter; every other character stays. */
  lemma {:induction false} StripAccentsSpec(s: string)
    ensures forall i :: 0 <= i < |s| ==> StripAccents(s)[i] == PlainLetter(s[i])
  {
    if s != [] {
      StripAccentsSpec(s[1..]);
      ReplaceAppend7([s[0]], s[1..]);
      StripOne(s[0]);
      assert s == [s[0]] + s[1..];
    }
  }

  lemma {:induction false} KeepAppend(a: string, b: string)
    ensures KeepLowerLetters(a + b) == KeepLowerLetters(a) + KeepLowerLetters(b)
  {
    if a != [] {
      assert (a + b)[1..] == a[1..] + b;
      KeepAppend(a[1..], b);
    } else {
      assert a + b == b;
    }
  }

  /** A word already made of `a`..`z` is its own cleaning. */
  lemma {:induction false} CleanRefOfLetters(s: string)
    requires forall i :: 0 <= i < |s| ==> IsLowerLetter(s[i])
    ensures CleanRef(s) == s
  {
    if s != [] {
      CleanRefOfLetters(s[1..]);
    }
  }

  /** Cleaning is idempotent. */
  lemma CleanWordIdempotent(w: Option<string>)
    ensures CleanWord(Some(CleanWord(w))) == CleanWord(w)
  {
    CleanWordIsPerCharacter(CleanWord(w));
    CleanRefOfLetters(CleanWord(w));
  }

  // ----- procesarArchivo -----

  /** The tokens of the file, each cleaned. */
  function CleanAll(tokens: seq<string>): (r: seq<string>)
    ensures |r| == |tokens|
    ensures forall i :: 0 <= i < |tokens| ==> r[i] == CleanWord(Some(tokens[i]))
  {
    if tokens == [] then []
    else CleanAll(tokens[..|tokens| - 1]) + [CleanWord(Some(tokens[|tokens| - 1]))]
  }

  /** One cleaned word counted: empty words are skipped, others gain one occurrence. */
  function Count(ks: seq<string>, vs: seq<int>, w: string): (r: (seq<string>, seq<int>))
    requires |ks| == |vs|
    ensures |r.0| == |r.1|
  {
    if w == "" then (ks, vs)
    else PutPair(ks, vs, w, match Find(ks, vs, w) case None => 1 case Some(c) => c + 1)
  }

  /** The table's contents after counting every word, in order. */
  function CountAll(ks: seq<string>, vs: seq<int>, words: seq<string>): (r: (seq<string>, seq<int>))
    requires |ks| == |vs|
    ensures |r.0| == |r.1|
  {
    if words == [] then (ks, vs)
    else var p := CountAll(ks, vs, words[..|words| - 1]); Count(p.0, p.1, words[|words| - 1])
  }

  /** A previous count, raised by `k` further occurrences. */
  function AddCount(before: Option<int>, k: nat): (r: Option<int>) {
    match before
    case None => if k == 0 then None else Some(k)
    case Some(c) => Some(c + k)
  }

  /** One word: it gains one occurrence unless it is empty, every other word keeps its count. */
  lemma {:induction false} CountOne(ks: seq<string>, vs: seq<int>, word: string, w: string)
    requires |ks| == |vs| && StrictlySorted(ks)
    ensures StrictlySorted(Count(ks, vs, word).0)
    ensures Find(Count(ks, vs, word).0, Count(ks, vs, word).1, w)
         == if w != "" && word == w then AddCount(Find(ks, vs, w), 1) else Find(ks, vs, w)
  {
    if word != "" {
      PutPairSpec(ks, vs, word, match Find(ks, vs, word) case None => 1 case Some(k) => k + 1);
    }
  }

  /**
   * Counting keeps the keys sorted, never stores the empty word, and
   * leaves every non-empty word with its old count plus its number of
   * occurrences among the words.
   */
  lemma {:induction false} CountAllCounts(ks: seq<string>, vs: seq<int>, words: seq<string>, w: string)
    requires |ks| == |vs| && StrictlySorted(ks)
    ensures StrictlySorted(CountAll(ks, vs, words).0)
    ensures Find(CountAll(ks, vs, words).0, CountAll(ks, vs, words).1, w)
         == if w == "" then Find(ks, vs, w) else AddCount(Find(ks, vs, w), multiset(words)[w])
  {
    if words != [] {
      var init, last := words[..|words| - 1], words[|words| - 1];
      CountAllCounts(ks, vs, init, w);
      var p := CountAll(ks, vs, init);
      assert CountAll(ks, vs, words) == Count(p.0, p.1, last);
      CountOne(p.0, p.1, last, w);
      OccurrencesOfLast(words, w);
      if w != "" && last == w {
        AddCountStep(Find(ks, vs, w), multiset(init)[w]);
      }
    }
  }

  /** The occurrences of `w` are those before the last word, plus one if the last word is `w`. */
  lemma OccurrencesOfLast(words: seq<string>, w: string)
    requires words != []
    ensures multiset(words)[w]
         == multiset(words[..|words| - 1])[w] + if words[|words| - 1] == w then 1 else 0
  {
    assert words == words[..|words| - 1] + [words[|words| - 1]];
  }

  /** One more occurrence on top of `k` is `k + 1` occurrences. */
  lemma AddCountStep(before: Option<int>, k: nat)
    ensures AddCount(AddCount(before, k), 1) == AddCount(before, k + 1)
  {
  }

  /**
   * Counted into an empty table, each non-empty word is stored exactly
   * when some token cleans to it, with the number of such tokens as value.
   */
  lemma FrequenciesFromEmpty(tokens: seq<string>, w: string)
    requires w != ""
    ensures var r := CountAll([], [], CleanAll(tokens));
      Find(r.0, r.1, w) == if w in CleanAll(tokens) then Some(multiset(CleanAll(tokens))[w]) else None
  {
    CountAllCounts([], [], CleanAll(tokens), w);
  }

  /**
   * One token of the inner loop: clean it and, if anything is left, raise
   * its count.  `ok` is false exactly when a new word meets a full table,
   * where Java's `put` throws and nothing changes.
   */
  method CountToken(table: Table<int>, token: string) returns (ok: bool)
    requires table.Valid()
    modifies table, table.keys, table.vals
    ensures table.Valid()
    ensures ok <==> CleanWord(Some(token)) == "" || CleanWord(Some(token)) in old(table.ks)
                    || old(table.n) < table.keys.Length
    ensures ok ==> (table.ks, table.vs) == Count(old(table.ks), old(table.vs), CleanWord(Some(token)))
    ensures !ok ==> table.ks == old(table.ks) && table.vs == old(table.vs)
  {
    var clean := CleanWord(Some(token));
    if clean == "" {
      return true;
    }
    var count := table.Get(clean);
    if count.None? {
      ok := table.Put(clean, 1);
    } else {
      ok := table.Put(clean, count.value + 1);
    }
  }

  /**
   * The loops of `procesarArchivo` over the tokens of the file, in order.
   * An exception from `put` (a new word on a full table) is not caught
   * there and ends the whole run; `processed` is the number of tokens
   * counted before that, `|tokens|` when there was none.
   */
  method ProcessTokens(table: Table<int>, tokens: seq<string>) returns (processed: nat)
    requires table.Valid()
    modifies table, table.keys, table.vals
    ensures table.Valid()
    ensures processed <= |tokens|
    ensures (table.ks, table.vs) == CountAll(old(table.ks), old(table.vs), CleanAll(tokens[..processed]))
    ensures processed < |tokens| ==>
      var w := CleanWord(Some(tokens[processed]));
      w != "" && w !in table.ks && table.n == table.keys.Length
  {
    ghost var ks0, vs0 := table.ks, table.vs;
    processed := 0;
    while processed < |tokens|
      invariant table.Valid()
      invariant processed <= |tokens|
      invariant (table.ks, table.vs) == CountAll(old(table.ks), old(table.vs), CleanAll(tokens[..processed]))
    {
      var ok := CountToken(table, tokens[processed]);
      if !ok {
        return;
      }
      CountAllNextToken(ks0, vs0, tokens, processed);
      processed := processed + 1;
    }
  }

  /** Counting one more token extends the count of the tokens before it. */
  lemma CountAllNextToken(ks: seq<string>, vs: seq<int>, tokens: seq<string>, i: nat)
    requires |ks| == |vs| && i < |tokens|
    ensures var p := CountAll(ks, vs, CleanAll(tokens[..i]));
      CountAll(ks, vs, CleanAll(tokens[..i + 1])) == Count(p.0, p.1, CleanWord(Some(tokens[i])))
  {
    assert tokens[..i + 1][..i] == tokens[..i];
  }
}
