/**
 * Token extraction and cleaning (tweets.py: alnum_prefix, clean_word,
 * extract_words, extract_mentions, extract_hashtags). Each operation is a
 * method with the loop of the original, proved equal to a specification
 * function; the lemmas state what those functions guarantee.
 */
module Tokens {
  import opened PyStr
  import opened PyList

  const MentionSymbol: char := '@'
  const HashSymbol: char := '#'

  // ---------------------------------------------------------------------
  // alnum_prefix
  // ---------------------------------------------------------------------

  /** The leading alphanumeric characters of text, lower-cased. */
  function AlnumPrefixOf(text: string): string {
    if text == [] || !IsAlnum(text[0]) then [] else [Lower(text[0])] + AlnumPrefixOf(text[1..])
  }

  /** AlnumPrefixOf(text) is text's longest alphanumeric prefix, lower-cased: it stops at
      the first non-alphanumeric character or at the end. */
  lemma {:induction false} AlnumPrefixOfSpec(text: string)
    ensures var r := AlnumPrefixOf(text);
      && |r| <= |text|
      && (forall i :: 0 <= i < |r| ==> IsAlnum(text[i]))
      && (|r| == |text| || !IsAlnum(text[|r|]))
      && r == LowerStr(text[..|r|])
  {
    if text != [] && IsAlnum(text[0]) {
      AlnumPrefixOfSpec(text[1..]);
      var r := AlnumPrefixOf(text);
      assert r == [Lower(text[0])] + AlnumPrefixOf(text[1..]);
      forall i | 0 <= i < |r| ensures IsAlnum(text[i]) && r[i] == Lower(text[i]) {
        if i > 0 {
          assert text[i] == text[1..][i - 1];
        }
      }
    }
  }

  /** alnum_prefix: advance an index over the alphanumeric prefix, then lower-case it. */
  method AlnumPrefix(text: string) returns (r: string)
    ensures r == AlnumPrefixOf(text)
    ensures |r| <= |text|
    ensures forall i :: 0 <= i < |r| ==> IsAlnum(text[i]) && r[i] == Lower(text[i]) && IsLowerAlnum(r[i])
    ensures |r| == |text| || !IsAlnum(text[|r|])
  {
    var index := 0;
    while index < |text| && IsAlnum(text[index])
      invariant index <= |text|
      invariant forall i :: 0 <= i < index ==> IsAlnum(text[i])
    {
      index := index + 1;
    }
    r := LowerStr(text[..index]);
    AlnumPrefixOfSpec(text);
  }

  // ---------------------------------------------------------------------
  // clean_word
  // ---------------------------------------------------------------------

  /** What clean_word computes: walk over the lower-cased word and keep the alphanumeric
      characters. */
  function Cleaned(word: string): string {
    if word == [] then []
    else
      var c := Lower(word[|word| - 1]);
      Cleaned(word[..|word| - 1]) + (if IsAlnum(c) then [c] else [])
  }

  /** The alphanumeric characters of s, in order. */
  function AlnumOnly(s: string): string {
    if s == [] then [] else (if IsAlnum(s[0]) then [s[0]] else []) + AlnumOnly(s[1..])
  }

  lemma {:induction false} AlnumOnlyAppend(s: string, c: char)
    ensures AlnumOnly(s + [c]) == AlnumOnly(s) + (if IsAlnum(c) then [c] else [])
  {
    if s == [] {
      assert AlnumOnly([c][1..]) == [];
    } else {
      var t := s + [c];
      assert t[0] == s[0] && t[1..] == s[1..] + [c];
      AlnumOnlyAppend(s[1..], c);
      var h := if IsAlnum(s[0]) then [s[0]] else [];
      assert AlnumOnly(t) == h + AlnumOnly(s[1..] + [c]);
      assert AlnumOnly(s) == h + AlnumOnly(s[1..]);
    }
  }

  lemma LowerStrAppend(a: string, b: string)
    ensures LowerStr(a + b) == LowerStr(a) + LowerStr(b)
  {
  }

  /** Lower-casing then filtering, as clean_word does, equals filtering the original word
      and lower-casing what is left; either way the result is lower-case alphanumeric. */
  lemma {:induction false} CleanedSpec(word: string)
    ensures Cleaned(word) == LowerStr(AlnumOnly(word))
    ensures forall i :: 0 <= i < |Cleaned(word)| ==> IsLowerAlnum(Cleaned(word)[i])
  {
    if word != [] {
      var p, c := word[..|word| - 1], word[|word| - 1];
      CleanedSpec(p);
      assert word == p + [c];
      AlnumOnlyAppend(p, c);
      LowerStrAppend(AlnumOnly(p), if IsAlnum(c) then [c] else []);
    }
  }

  /** A string of lower-case letters and digits is its own lower-case form. */
  lemma LowerStrOfLowerAlnum(s: string)
    requires forall i :: 0 <= i < |s| ==> IsLowerAlnum(s[i])
    ensures LowerStr(s) == s
  {
  }

  /** clean_word is idempotent, and lower-casing its result changes nothing. */
  lemma CleanedIdempotent(word: string)
    ensures Cleaned(Cleaned(word)) == Cleaned(word)
    ensures LowerStr(Cleaned(word)) == Cleaned(word)
  {
    var w := Cleaned(word);
    CleanedSpec(word);
    CleanedSpec(w);
    LowerStrOfLowerAlnum(w);
    AlnumOnlyOfAlnum(w);
  }

  lemma AlnumOnlyOfAlnum(s: string)
    requires forall i :: 0 <= i < |s| ==> IsAlnum(s[i])
    ensures AlnumOnly(s) == s
  {
    if s != [] {
      AlnumOnlyOfAlnum(s[1..]);
    }
  }

  /** clean_word: accumulate the alphanumeric characters of word.lower(). */
  method CleanWord(word: string) returns (cleanedWord: string)
    ensures cleanedWord == Cleaned(word)
    ensures cleanedWord == LowerStr(AlnumOnly(word))
    ensures forall i :: 0 <= i < |cleanedWord| ==> IsLowerAlnum(cleanedWord[i])
  {
    cleanedWord := "";
    var lowered := LowerStr(word);
    for i := 0 to |lowered|
      invariant cleanedWord == Cleaned(word[..i])
    {
      var c := lowered[i];
      assert word[..i + 1][..i] == word[..i];
      if IsAlnum(c) {
        cleanedWord := cleanedWord + [c];
      }
    }
    assert word[..|word|] == word;
    CleanedSpec(word);
  }

  // ---------------------------------------------------------------------
  // extract_words, extract_mentions
  // ---------------------------------------------------------------------

  /** A whitespace token that extract_words picks up: it starts with the marker and its
      second character is alphanumeric. */
  predicate IsMarked(token: string, marker: char) {
    |token| >= 2 && token[0] == marker && IsAlnum(token[1])
  }

  /** What extract_words gives for a list of tokens: for each marked token, in order, the
      alphanumeric prefix of what follows the marker. */
  function Extracted(tokens: seq<string>, marker: char): seq<string> {
    if tokens == [] then []
    else
      var t := tokens[|tokens| - 1];
      Extracted(tokens[..|tokens| - 1], marker)
        + (if IsMarked(t, marker) then [AlnumPrefixOf(t[1..])] else [])
  }

  /** extract_words(text, marker). */
  function Words(text: string, marker: char): seq<string> {
    Extracted(Split(text), marker)
  }

  /** Extraction works token by token: the words of a + b are those of a followed by those
      of b, so order and repeats are kept. */
  lemma {:induction false} ExtractedAppend(a: seq<string>, b: seq<string>, marker: char)
    ensures Extracted(a + b, marker) == Extracted(a, marker) + Extracted(b, marker)
    decreases |b|
  {
    if b == [] {
      assert a + b == a;
    } else {
      assert (a + b)[..|a + b| - 1] == a + b[..|b| - 1];
      ExtractedAppend(a, b[..|b| - 1], marker);
    }
  }

  /** A marked token's word is non-empty and lower-case alphanumeric. */
  lemma MarkedWordIsClean(t: string, marker: char)
    requires IsMarked(t, marker)
    ensures IsCleanWord(AlnumPrefixOf(t[1..]))
  {
    AlnumPrefixOfSpec(t[1..]);
  }

  /** Every extracted word is non-empty and lower-case alphanumeric. */
  lemma {:induction false} ExtractedClean(tokens: seq<string>, marker: char)
    ensures forall w :: w in Extracted(tokens, marker) ==> IsCleanWord(w)
  {
    if tokens != [] {
      var t := tokens[|tokens| - 1];
      ExtractedClean(tokens[..|tokens| - 1], marker);
      if IsMarked(t, marker) {
        MarkedWordIsClean(t, marker);
      }
    }
  }

  /** w is extracted exactly when some marked token's word is w. */
  lemma {:induction false} ExtractedMembers(tokens: seq<string>, marker: char, w: string)
    ensures w in Extracted(tokens, marker)
        <==> exists t :: t in tokens && IsMarked(t, marker) && AlnumPrefixOf(t[1..]) == w
  {
    if tokens != [] {
      var p, t := tokens[..|tokens| - 1], tokens[|tokens| - 1];
      ExtractedMembers(p, marker, w);
      assert tokens == p + [t];
      if exists u :: u in tokens && IsMarked(u, marker) && AlnumPrefixOf(u[1..]) == w {
        var u :| u in tokens && IsMarked(u, marker) && AlnumPrefixOf(u[1..]) == w;
        if u != t {
          assert u in p;
        }
      }
    }
  }

  /** extract_words: keep the alphanumeric prefix after the marker of every whitespace
      token that starts with the marker and whose second character is alphanumeric. */
  method ExtractWords(text: string, phrase: char) returns (result: seq<string>)
    ensures result == Words(text, phrase)
    ensures forall w :: w in result ==> IsCleanWord(w)
  {
    var textLst := Split(text);
    result := [];
    for i := 0 to |textLst|
      invariant result == Extracted(textLst[..i], phrase)
    {
      var element := textLst[i];
      assert textLst[..i + 1][..i] == textLst[..i];
      if StartsWith(element, [phrase]) && IsAlnumStr(Slice(element, 1, 2)) {
        assert IsMarked(element, phrase) by {
          assert |element| >= 2 && element[1..2][0] == element[1];
        }
        var prefix := AlnumPrefix(element[1..]);
        result := result + [prefix];
      } else {
        assert !IsMarked(element, phrase) by {
          if |element| >= 2 {
            assert Slice(element, 1, 2) == [element[1]];
          }
        }
      }
    }
    assert textLst[..|textLst|] == textLst;
    ExtractedClean(textLst, phrase);
  }

  /** extract_mentions: the words after '@', repeats included. */
  method ExtractMentions(text: string) returns (mentions: seq<string>)
    ensures mentions == Words(text, MentionSymbol)
    ensures forall w :: w in mentions ==> IsCleanWord(w)
  {
    mentions := ExtractWords(text, MentionSymbol);
  }

  // ---------------------------------------------------------------------
  // extract_hashtags
  // ---------------------------------------------------------------------

  /** s without its later repeats: each element is appended only if it is not there yet. */
  function Deduplicated(s: seq<string>): seq<string> {
    if s == [] then []
    else
      var d := Deduplicated(s[..|s| - 1]);
      if s[|s| - 1] in d then d else d + [s[|s| - 1]]
  }

  /** Deduplication keeps every element of s exactly once and adds nothing. */
  lemma {:induction false} DeduplicatedMembers(s: seq<string>)
    ensures NoDuplicates(Deduplicated(s))
    ensures forall x :: x in Deduplicated(s) <==> x in s
  {
    if s != [] {
      var p := s[..|s| - 1];
      DeduplicatedMembers(p);
      assert s == p + [s[|s| - 1]];
    }
  }

  /** Every element of r occurs in s, and r lists them in the order of their first occurrence in s. */
  predicate InFirstOccurrenceOrder(r: seq<string>, s: seq<string>) {
    forall i, j :: 0 <= i < j < |r| ==> r[i] in s && r[j] in s && FirstIndex(s, r[i]) < FirstIndex(s, r[j])
  }

  /** Deduplication keeps the elements in the order of their first occurrence in s. */
  lemma {:induction false} DeduplicatedOrder(s: seq<string>)
    ensures InFirstOccurrenceOrder(Deduplicated(s), s)
  {
    if s != [] {
      var p, y := s[..|s| - 1], s[|s| - 1];
      var d := Deduplicated(p);
      DeduplicatedOrder(p);
      DeduplicatedMembers(p);
      assert s == p + [y];
      var r := Deduplicated(s);
      assert r == if y in d then d else d + [y];
      forall i, j | 0 <= i < j < |r|
        ensures r[i] in s && r[j] in s && FirstIndex(s, r[i]) < FirstIndex(s, r[j])
      {
        assert r[i] == d[i] && d[i] in d;
        FirstIndexAppend(p, y, r[i]);
        if j < |d| {
          assert r[j] == d[j] && d[j] in d;
          assert FirstIndex(p, d[i]) < FirstIndex(p, d[j]);
          FirstIndexAppend(p, y, r[j]);
        } else {
          assert r[j] == y && y !in p;
          assert FirstIndex(s, y) == |p|;
          assert FirstIndex(p, d[i]) < |p|;
        }
      }
    }
  }

  /** extract_hashtags(text): the words after '#', first occurrences only. */
  function Hashtags(text: string): seq<string> {
    Deduplicated(Words(text, HashSymbol))
  }

  /** extract_hashtags: extract the '#' words, then append each one not seen before. */
  method ExtractHashtags(text: string) returns (uniqueHashtags: seq<string>)
    ensures uniqueHashtags == Hashtags(text)
    ensures NoDuplicates(uniqueHashtags)
    ensures forall h :: h in uniqueHashtags <==> h in Words(text, HashSymbol)
    ensures forall h :: h in uniqueHashtags ==> IsCleanWord(h)
    ensures InFirstOccurrenceOrder(uniqueHashtags, Words(text, HashSymbol))
  {
    var allHashtags := ExtractWords(text, HashSymbol);
    uniqueHashtags := [];
    for i := 0 to |allHashtags|
      invariant uniqueHashtags == Deduplicated(allHashtags[..i])
    {
      var hashtag := allHashtags[i];
      assert allHashtags[..i + 1][..i] == allHashtags[..i];
      if hashtag !in uniqueHashtags {
        uniqueHashtags := uniqueHashtags + [hashtag];
      }
    }
    assert allHashtags[..|allHashtags|] == allHashtags;
    DeduplicatedMembers(allHashtags);
    DeduplicatedOrder(allHashtags);
  }
}
