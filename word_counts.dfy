/**
 * count_words and common_words: a table from word to count (a Python dict
 * that both functions update in place), modelled as a class with one map field.
 *
 * CountWords is specified by AddAll over the words a text contributes;
 * CommonWords is specified by Retained, which keeps a word exactly when at
 * most num words of the table have a count at least as high as its own.
 */
module WordCounts {
  import opened PyStr
  import opened PyList
  import opened PySort
  import opened Tokens

  const UrlStart: string := "http"

  // ---------------------------------------------------------------------
  // count_words
  // ---------------------------------------------------------------------

  /** A token that count_words drops before counting: a mention, a hashtag or a link. */
  predicate IsSkipped(token: string) {
    StartsWith(token, [MentionSymbol]) || StartsWith(token, [HashSymbol]) || StartsWith(token, UrlStart)
  }

  /** The tokens that are not skipped, in their original order. */
  function Kept(tokens: seq<string>): seq<string> {
    if tokens == [] then []
    else Kept(tokens[..|tokens| - 1]) + (if IsSkipped(tokens[|tokens| - 1]) then [] else [tokens[|tokens| - 1]])
  }

  lemma {:induction false} KeptMembers(tokens: seq<string>)
    ensures forall t :: t in Kept(tokens) <==> t in tokens && !IsSkipped(t)
  {
    if tokens != [] {
      var p := tokens[..|tokens| - 1];
      KeptMembers(p);
      assert tokens == p + [tokens[|tokens| - 1]];
    }
  }

  /** The cleaned words of the tokens, with the ones that clean to "" left out. */
  function CountedWords(tokens: seq<string>): seq<string> {
    if tokens == [] then []
    else
      var w := Cleaned(tokens[|tokens| - 1]);
      CountedWords(tokens[..|tokens| - 1]) + (if w == "" then [] else [w])
  }

  /** The words of text that count_words counts, one entry per occurrence. */
  function TextWords(text: string): seq<string> {
    CountedWords(Kept(Split(text)))
  }

  /** Every counted word is a non-empty run of lower-case letters and digits. */
  lemma {:induction false} CountedWordsClean(tokens: seq<string>)
    ensures forall w :: w in CountedWords(tokens) ==> IsCleanWord(w)
  {
    if tokens != [] {
      var p := tokens[..|tokens| - 1];
      CountedWordsClean(p);
      CleanedSpec(tokens[|tokens| - 1]);
    }
  }

  /** The table after adding one to the count of each key in turn (a new key starts at one). */
  function AddAll(m: map<string, int>, keys: seq<string>): map<string, int> {
    if keys == [] then m
    else
      var p := AddAll(m, keys[..|keys| - 1]);
      var k := keys[|keys| - 1];
      p[k := if k in p then p[k] + 1 else 1]
  }

  /**
   * After counting, a word is in the table iff it was there before or was
   * counted, and its count is its old count (zero when new) plus the number
   * of times it was counted.
   */
  lemma {:induction false} AddAllCounts(m: map<string, int>, keys: seq<string>, k: string)
    ensures k in AddAll(m, keys) <==> k in m || k in keys
    ensures k in AddAll(m, keys) ==> AddAll(m, keys)[k] == (if k in m then m[k] else 0) + Count(keys, k)
  {
    if keys != [] {
      var p := keys[..|keys| - 1];
      AddAllCounts(m, p, k);
      if k !in p {
        CountNone(p, k);
      }
    }
  }

  /** The whole effect of count_words on the table, in terms of the counted words of text. */
  lemma CountWordsEffect(m: map<string, int>, text: string, k: string)
    ensures k in AddAll(m, TextWords(text)) <==> k in m || k in TextWords(text)
    ensures k in AddAll(m, TextWords(text)) ==>
      AddAll(m, TextWords(text))[k] == (if k in m then m[k] else 0) + Count(TextWords(text), k)
    ensures k !in m && k in AddAll(m, TextWords(text)) ==> IsCleanWord(k)
  {
    AddAllCounts(m, TextWords(text), k);
    CountedWordsClean(Kept(Split(text)));
  }

  /** Tokens that all clean to "" contribute no word. */
  lemma {:induction false} CountedWordsNone(tokens: seq<string>)
    requires forall t :: t in tokens ==> Cleaned(t) == ""
    ensures CountedWords(tokens) == []
  {
    if tokens != [] {
      CountedWordsNone(tokens[..|tokens| - 1]);
    }
  }

  /**
   * A text whose every token is a mention, a hashtag, a link or cleans to ""
   * (in particular the empty text) leaves the table unchanged.
   */
  lemma CountWordsNothing(m: map<string, int>, text: string)
    requires forall t :: t in Split(text) ==> IsSkipped(t) || Cleaned(t) == ""
    ensures AddAll(m, TextWords(text)) == m
  {
    KeptMembers(Split(text));
    CountedWordsNone(Kept(Split(text)));
  }

  // ---------------------------------------------------------------------
  // common_words: the specification
  // ---------------------------------------------------------------------

  /** The words of m whose count is at least v. */
  function KeysAtLeast(m: map<string, int>, v: int): set<string> {
    set k | k in m && m[k] >= v
  }

  /** How many words of m have a count of at least v. */
  function AtLeast(m: map<string, int>, v: int): nat {
    |KeysAtLeast(m, v)|
  }

  /** What common_words leaves: the words that at most num words (themselves included) reach or beat. */
  function Retained(m: map<string, int>, num: int): map<string, int> {
    map k | k in m && AtLeast(m, m[k]) <= num :: m[k]
  }

  lemma {:induction false} SubsetCardinality(a: set<string>, b: set<string>)
    requires a <= b
    ensures |a| <= |b|
  {
    if a != {} {
      var x :| x in a;
      SubsetCardinality(a - {x}, b - {x});
    }
  }

  /** A word of the set whose count is smallest. */
  ghost function MinKey(m: map<string, int>, ks: set<string>): (k: string)
    requires ks != {} && ks <= m.Keys
    ensures k in ks && forall k' :: k' in ks ==> m[k] <= m[k']
    decreases ks
  {
    var x :| x in ks;
    if ks == {x} then x
    else
      var y := MinKey(m, ks - {x});
      if m[x] <= m[y] then x else y
  }

  /** A higher threshold is reached by no more words. */
  lemma AtLeastAntitone(m: map<string, int>, v: int, v': int)
    requires v <= v'
    ensures AtLeast(m, v') <= AtLeast(m, v)
  {
    SubsetCardinality(KeysAtLeast(m, v'), KeysAtLeast(m, v));
  }

  /** common_words keeps a sub-table of at most num words, with their counts unchanged. */
  lemma RetainedBounds(m: map<string, int>, num: int)
    ensures forall k :: k in Retained(m, num) ==> k in m && Retained(m, num)[k] == m[k]
    ensures |Retained(m, num)| <= num || Retained(m, num) == map[]
  {
    var r := Retained(m, num);
    if r != map[] {
      var low := MinKey(m, r.Keys);
      assert r.Keys <= KeysAtLeast(m, m[low]);
      SubsetCardinality(r.Keys, KeysAtLeast(m, m[low]));
    }
  }

  /** A word counted at least as often as a kept word is kept too; so words with equal counts go together. */
  lemma RetainedMonotone(m: map<string, int>, num: int, k: string, k': string)
    requires k in Retained(m, num) && k' in m && m[k'] >= m[k]
    ensures k' in Retained(m, num)
  {
    AtLeastAntitone(m, m[k], m[k']);
  }

  /** A table of at most num words is left as it is. */
  lemma RetainedSmall(m: map<string, int>, num: int)
    requires |m| <= num
    ensures Retained(m, num) == m
  {
    forall k | k in m ensures AtLeast(m, m[k]) <= num {
      SubsetCardinality(KeysAtLeast(m, m[k]), m.Keys);
    }
  }

  /** Applying common_words twice with the same num is the same as applying it once. */
  lemma RetainedIdempotent(m: map<string, int>, num: int)
    requires num > 0
    ensures Retained(Retained(m, num), num) == Retained(m, num)
  {
    RetainedBounds(m, num);
    RetainedSmall(Retained(m, num), num);
  }

  /**
   * The retained words are the largest set of at most num words that is
   * closed upwards: any such set is part of what is retained.
   */
  lemma RetainedGreatest(m: map<string, int>, num: int, keep: set<string>)
    requires keep <= m.Keys && |keep| <= num
    requires forall k, k' :: k in keep && k' in m && m[k'] >= m[k] ==> k' in keep
    ensures keep <= Retained(m, num).Keys
  {
    forall k | k in keep ensures AtLeast(m, m[k]) <= num {
      SubsetCardinality(KeysAtLeast(m, m[k]), keep);
    }
  }

  /**
   * A tie across the boundary drops the whole group: when more than num words
   * reach a count v, no word with a count of v or less is retained.
   */
  lemma RetainedTieDropped(m: map<string, int>, num: int, v: int, group: set<string>)
    requires group <= m.Keys && |group| > num
    requires forall k :: k in group ==> m[k] >= v
    ensures forall k :: k in m && m[k] <= v ==> k !in Retained(m, num)
  {
    forall k | k in m && m[k] <= v ensures AtLeast(m, m[k]) > num {
      SubsetCardinality(group, KeysAtLeast(m, m[k]));
    }
  }

  /**
   * Without a tie at the boundary exactly the num most frequent words stay:
   * when num words all have higher counts than every other word, they are
   * what is retained.
   */
  lemma RetainedTop(m: map<string, int>, num: int, top: set<string>)
    requires top <= m.Keys && |top| == num
    requires forall k, k' :: k in top && k' in m && k' !in top ==> m[k] > m[k']
    ensures Retained(m, num).Keys == top
  {
    forall k | k in top ensures AtLeast(m, m[k]) <= num {
      SubsetCardinality(KeysAtLeast(m, m[k]), top);
    }
    forall k | k in m && k !in top ensures AtLeast(m, m[k]) > num {
      SubsetCardinality(top + {k}, KeysAtLeast(m, m[k]));
    }
  }

  // ---------------------------------------------------------------------
  // common_words: from the sorted counts list to Retained
  // ---------------------------------------------------------------------

  /** In a descending list, the copies of its last (smallest) element fill exactly its last Count positions. */
  lemma {:induction false} TrailingBlock(w: seq<int>)
    requires SortedDesc(w) && w != []
    ensures forall j :: 0 <= j < |w| ==> (w[j] == w[|w| - 1] <==> j >= |w| - Count(w, w[|w| - 1]))
  {
    var b := w[|w| - 1];
    var p := w[..|w| - 1];
    if p != [] && p[|p| - 1] == b {
      TrailingBlock(p);
    } else {
      assert forall j :: 0 <= j < |p| ==> p[j] != b by {
        if p != [] {
          assert p[|p| - 1] > b;
        }
      }
      CountNone(p, b);
    }
  }

  /** safe_list after the tie test: the first num counts, less their smallest one when it continues past them. */
  function SafeList(s: seq<int>, num: nat): seq<int>
    requires num > 0
  {
    var w := s[..if num < |s| then num else |s|];
    if |s| > 0 && Count(w, w[|w| - 1]) < Count(s, w[|w| - 1]) then w[..|w| - Count(w, w[|w| - 1])] else w
  }

  /** The tie test succeeds exactly when the count just past the window equals the window's last count. */
  lemma TieTest(s: seq<int>, num: nat)
    requires SortedDesc(s) && 0 < num < |s|
    ensures Count(s[..num], s[num - 1]) < Count(s, s[num - 1]) <==> s[num] == s[num - 1]
  {
    var b := s[num - 1];
    assert s == s[..num] + s[num..];
    CountAppend(s[..num], s[num..], b);
    if s[num] == b {
      CountPositive(s[num..], b);
    } else {
      assert b !in s[num..];
      CountNone(s[num..], b);
    }
  }

  /** When the window is the whole list, nothing lies past it to tie with. */
  lemma NoTieInWhole(s: seq<int>)
    requires s != []
    ensures Count(s[..|s|], s[|s| - 1]) == Count(s, s[|s| - 1])
  {
    assert s[..|s|] == s;
  }

  /** With a tie at the boundary, the counts before the tied group are those reached by at most num counts. */
  lemma TiedWindowMembers(s: seq<int>, num: nat, cnt: nat, v: int)
    requires SortedDesc(s) && 0 < num < |s| && s[num] == s[num - 1] && v in s
    requires cnt <= num
    requires forall j :: 0 <= j < num ==> (s[j] == s[num - 1] <==> j >= num - cnt)
    ensures v in s[..num - cnt] <==> CountAtLeast(s, v) <= num
  {
    var b := s[num - 1];
    SortedCountAtLeast(s, v);
    var i :| 0 <= i < |s| && s[i] == v;
    if v > b {
      assert i < num - 1;
      assert s[..num - cnt][i] == v;
    } else {
      assert s[num] >= v;
      forall j | 0 <= j < num - cnt ensures s[j] != v {
        assert s[j] != b;
      }
    }
  }

  /** Without a tie at the boundary, the first num counts are those reached by at most num counts. */
  lemma UntiedWindowMembers(s: seq<int>, num: nat, v: int)
    requires SortedDesc(s) && 0 < num && v in s
    requires num < |s| ==> s[num] != s[num - 1]
    ensures v in s[..if num < |s| then num else |s|] <==> CountAtLeast(s, v) <= num
  {
    var W := if num < |s| then num else |s|;
    var c := CountAtLeast(s, v);
    SortedCountAtLeast(s, v);
    var i :| 0 <= i < |s| && s[i] == v;
    if c <= num {
      assert s[..W][i] == v;
    }
  }

  /** A count of the sorted list is in safe_list exactly when at most num counts reach it. */
  lemma SafeListMembers(s: seq<int>, num: nat, v: int)
    requires SortedDesc(s) && num > 0 && v in s
    ensures v in SafeList(s, num) <==> CountAtLeast(s, v) <= num
  {
    var W := if num < |s| then num else |s|;
    var w := s[..W];
    if W < |s| {
      TieTest(s, num);
    } else {
      NoTieInWhole(s);
    }
    if W < |s| && s[W] == s[W - 1] {
      var cnt := Count(w, w[W - 1]);
      TrailingBlock(w);
      assert SafeList(s, num) == s[..W - cnt];
      TiedWindowMembers(s, num, cnt, v);
    } else {
      assert SafeList(s, num) == w;
      UntiedWindowMembers(s, num, v);
    }
  }

  /** Counting the values listed under distinct keys. */
  lemma {:induction false} ValuesCountAtLeast(m: map<string, int>, ks: seq<string>, v: int)
    requires NoDuplicates(ks) && forall k :: k in ks ==> k in m
    ensures CountAtLeast(ValuesAt(m, ks), v) == |set k | k in ks && m[k] >= v|
  {
    if ks != [] {
      var t := ks[1..];
      ValuesCountAtLeast(m, t, v);
      assert ValuesAt(m, ks)[1..] == ValuesAt(m, t);
      var rest := set k | k in t && m[k] >= v;
      assert ks[0] !in t;
      if m[ks[0]] >= v {
        assert (set k | k in ks && m[k] >= v) == rest + {ks[0]};
      } else {
        assert (set k | k in ks && m[k] >= v) == rest;
      }
    }
  }

  /** Every count of m is in its sorted counts list, and as many entries of that list reach it as words of m do. */
  lemma SortedCountsOfTable(m: map<string, int>, ks: seq<string>)
    requires Enumerates(ks, m)
    ensures forall k :: k in m ==>
      m[k] in SortDesc(ValuesAt(m, ks)) && CountAtLeast(SortDesc(ValuesAt(m, ks)), m[k]) == AtLeast(m, m[k])
  {
    var vs := ValuesAt(m, ks);
    var s := SortDesc(vs);
    forall k | k in m
      ensures m[k] in s && CountAtLeast(s, m[k]) == AtLeast(m, m[k])
    {
      var v := m[k];
      var i :| 0 <= i < |ks| && ks[i] == k;
      assert vs[i] == v;
      assert v in multiset(s);
      SortDescCountAtLeast(vs, v);
      ValuesCountAtLeast(m, ks, v);
      assert (set k' | k' in ks && m[k'] >= v) == KeysAtLeast(m, v);
    }
  }

  /** The words of m whose count is in the list. */
  function Filtered(m: map<string, int>, safe: seq<int>): map<string, int> {
    map k | k in m && m[k] in safe :: m[k]
  }

  /** Keeping the words whose count is in the safe list of the sorted counts is keeping what Retained keeps. */
  lemma FilteredIsRetained(m: map<string, int>, ks: seq<string>, num: int, safe: seq<int>)
    requires Enumerates(ks, m)
    requires forall v :: v in SortDesc(ValuesAt(m, ks)) ==>
      (v in safe <==> CountAtLeast(SortDesc(ValuesAt(m, ks)), v) <= num)
    ensures Filtered(m, safe) == Retained(m, num)
  {
    SortedCountsOfTable(m, ks);
  }

  /** Removing the first b from a list that ends in a run of b's, with no b before the run, shortens the run. */
  lemma RemoveFromRun(a: seq<int>, b: int, run: seq<int>)
    requires b !in a && run != [] && run[0] == b
    requires forall j :: 0 <= j < |run| ==> run[j] == b
    ensures RemoveFirst(a + run, b) == a + run[..|run| - 1]
  {
    assert a + run == a + [b] + run[1..];
    RemoveFirstAfter(a, b, run[1..]);
    assert run[1..] == run[..|run| - 1];
  }

  /**
   * Removing the first copy of the last element from a list whose last cnt
   * positions, and no others, hold that element (as in a descending list),
   * after k of those copies are gone.
   */
  lemma RemoveFromBlock(w: seq<int>, cnt: nat, k: nat)
    requires k < cnt <= |w|
    requires forall j :: 0 <= j < |w| ==> (w[j] == w[|w| - 1] <==> j >= |w| - cnt)
    ensures w[|w| - 1 - k] == w[|w| - 1]
    ensures RemoveFirst(w[..|w| - k], w[|w| - 1]) == w[..|w| - k - 1]
  {
    var b, n := w[|w| - 1], |w|;
    var a, run := w[..n - cnt], w[n - cnt..n - k];
    assert b !in a && forall j :: 0 <= j < |run| ==> run[j] == b;
    assert run[|run| - 1] == w[n - 1 - k];
    assert w[..n - k] == a + run;
    RemoveFromRun(a, b, run);
    assert run[..|run| - 1] == w[n - cnt..n - k - 1];
    assert w[..n - k - 1] == a + w[n - cnt..n - k - 1];
  }

  // ---------------------------------------------------------------------
  // The loops of count_words and common_words that only compute lists
  // ---------------------------------------------------------------------

  /** One step of the first loop of count_words: the i-th token is removed when it is skipped, kept otherwise. */
  lemma RemoveSkippedStep(text1: seq<string>, i: nat)
    requires i < |text1|
    ensures IsSkipped(text1[i]) ==>
      text1[i] in Kept(text1[..i]) + text1[i..] &&
      RemoveFirst(Kept(text1[..i]) + text1[i..], text1[i]) == Kept(text1[..i + 1]) + text1[i + 1..]
    ensures !IsSkipped(text1[i]) ==> Kept(text1[..i]) + text1[i..] == Kept(text1[..i + 1]) + text1[i + 1..]
  {
    var word := text1[i];
    assert text1[i..] == [word] + text1[i + 1..];
    assert text1[..i + 1][..i] == text1[..i];
    if IsSkipped(word) {
      KeptMembers(text1[..i]);
      assert Kept(text1[..i]) + text1[i..] == Kept(text1[..i]) + [word] + text1[i + 1..];
      RemoveFirstAfter(Kept(text1[..i]), word, text1[i + 1..]);
    }
  }

  /** count_words, first loop: remove each mention, hashtag and link from a copy of the tokens. */
  method RemoveSkipped(text1: seq<string>) returns (text: seq<string>)
    ensures text == Kept(text1)
    ensures forall t :: t in text <==> t in text1 && !IsSkipped(t)
  {
    text := text1;
    for i := 0 to |text1|
      invariant text == Kept(text1[..i]) + text1[i..]
    {
      var word := text1[i];
      RemoveSkippedStep(text1, i);
      if StartsWith(word, [MentionSymbol]) || StartsWith(word, [HashSymbol]) || StartsWith(word, UrlStart) {
        text := RemoveFirst(text, word);
      }
    }
    assert text1[..|text1|] == text1;
    KeptMembers(text1);
  }

  /** count_words, second loop: the lower-cased cleaned words, empty ones left out. */
  method CleanedKeys(text: seq<string>) returns (keys: seq<string>)
    ensures keys == CountedWords(text)
    ensures forall w :: w in keys ==> IsCleanWord(w)
  {
    keys := [];
    for i := 0 to |text|
      invariant keys == CountedWords(text[..i])
    {
      var cleanedWord := CleanWord(text[i]);
      assert text[..i + 1] == text[..i] + [text[i]];
      if cleanedWord != "" {
        CleanedIdempotent(text[i]);
        keys := keys + [LowerStr(cleanedWord)];
      }
    }
    assert text[..|text|] == text;
    CountedWordsClean(text);
  }

  /**
   * common_words, the safe list: the first num counts of the descending
   * list, less the whole group of the num-th count when it is tied past num.
   */
  method SafeCounts(countsList: seq<int>, num: int) returns (safeList: seq<int>)
    requires SortedDesc(countsList) && num > 0
    ensures safeList == SafeList(countsList, num)
    ensures forall v :: v in countsList ==> (v in safeList <==> CountAtLeast(countsList, v) <= num)
  {
    safeList := [];
    for i := 0 to |countsList|
      invariant safeList == countsList[..if i < num then i else num]
    {
      if |safeList| < num {
        safeList := safeList + [countsList[i]];
      }
    }
    ghost var window := safeList;
    assert window == countsList[..if num < |countsList| then num else |countsList|];

    // a tie for the num-th place: drop the whole tied group
    if |countsList| > 0 && Count(safeList, safeList[|safeList| - 1]) < Count(countsList, safeList[|safeList| - 1]) {
      TrailingBlock(window);
      var i := 0;
      var lastElementCount := Count(safeList, safeList[|safeList| - 1]);
      while i < lastElementCount
        invariant 0 <= i <= lastElementCount
        invariant safeList == window[..|window| - i]
      {
        RemoveFromBlock(window, lastElementCount, i);
        safeList := RemoveFirst(safeList, safeList[|safeList| - 1]);
        i := i + 1;
      }
    }
    forall v | v in countsList
      ensures v in safeList <==> CountAtLeast(countsList, v) <= num
    {
      SafeListMembers(countsList, num, v);
    }
  }

  // ---------------------------------------------------------------------
  // The table
  // ---------------------------------------------------------------------

  class WordTable {
    /** words_to_counts: word to number of occurrences. */
    var counts: map<string, int>

    constructor(initial: map<string, int>)
      ensures counts == initial
    {
      counts := initial;
    }

    /**
     * count_words(text, words_to_counts): drop mentions, hashtags and links,
     * clean the remaining tokens, and add one per non-empty cleaned word.
     */
    method CountWords(text: string)
      modifies this
      ensures counts == AddAll(old(counts), TextWords(text))
    {
      var text1 := Split(text);
      var kept := RemoveSkipped(text1);
      var keys := CleanedKeys(kept);
      // one more for each key, starting at one for a new key
      for i := 0 to |keys|
        invariant counts == AddAll(old(counts), keys[..i])
      {
        var key := keys[i];
        assert keys[..i + 1] == keys[..i] + [key];
        if key in counts {
          counts := counts[key := counts[key] + 1];
        } else {
          counts := counts[key := 1];
        }
      }
      assert keys[..|keys|] == keys;
    }

    /**
     * common_words(words_to_counts, num): keep the num most frequent words,
     * dropping every word of a tie for the num-th place.
     */
    method CommonWords(num: int)
      requires num > 0
      modifies this
      ensures counts == Retained(old(counts), num)
    {
      var words := KeyList(counts);
      // the counts, highest first
      var countsList := SortDesc(ValuesAt(counts, words));
      var safeList := SafeCounts(countsList, num);
      FilteredIsRetained(counts, words, num, safeList);
      RemoveUnsafe(words, safeList);
    }

    /** common_words, last loop: pop every listed word whose count is not in the safe list. */
    method RemoveUnsafe(words: seq<string>, safeList: seq<int>)
      requires Enumerates(words, counts)
      modifies this
      ensures counts == Filtered(old(counts), safeList)
    {
      ghost var m := counts;
      for i := 0 to |words|
        invariant forall k :: k in counts <==> k in m && (k !in words[..i] || m[k] in safeList)
        invariant forall k :: k in counts ==> counts[k] == m[k]
      {
        var word := words[i];
        assert word !in words[..i];
        if counts[word] !in safeList {
          counts := counts - {word};
        }
      }
      assert words[..|words|] == words;
    }
  }
}
