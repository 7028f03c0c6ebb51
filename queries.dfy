/**
 * Queries over the dictionary read_tweets builds (tweets.py: find_key,
 * most_popular, detect_author). Each function of the original is a method
 * with its loops, proved against a specification: the unique most popular
 * user, and the sole user of a tweet's hashtags.
 */
module Queries {
  import opened Wrappers
  import opened PyStr
  import opened PyList
  import opened PySort
  import opened Tokens
  import opened TweetFile

  /** The answer of most_popular when no single user is the most popular. */
  const Tie := "tie"
  /** The answer of detect_author when no single user is the author. */
  const Unknown := "unknown"

  // ---------------------------------------------------------------------
  // find_key
  // ---------------------------------------------------------------------

  /** find_key: a key whose value is v; the caller guarantees one exists. */
  method FindKey<K(==), V(==)>(m: map<K, V>, v: V) returns (key: K)
    requires exists k :: k in m && m[k] == v
    ensures key in m && m[key] == v
  {
    var keys := KeyList(m);
    var result: Option<K> := None;
    for i := 0 to |keys|
      invariant result.Some? ==> result.value in m && m[result.value] == v
      invariant result.None? ==> forall j :: 0 <= j < i ==> m[keys[j]] != v
    {
      if m[keys[i]] == v {
        result := Some(keys[i]);
      }
    }
    ghost var k :| k in m && m[k] == v;
    assert k in keys;
    key := result.value;
  }

  // ---------------------------------------------------------------------
  // most_popular
  // ---------------------------------------------------------------------

  /** A tweet posted between the two dates, both included. */
  predicate InPeriod(t: Tweet, startDate: int, endDate: int) {
    startDate <= t.date <= endDate
  }

  /** The favourites and retweets of the tweets posted in the period. */
  function Popularity(tweets: seq<Tweet>, startDate: int, endDate: int): int {
    if tweets == [] then 0
    else
      var t := tweets[|tweets| - 1];
      Popularity(tweets[..|tweets| - 1], startDate, endDate) +
        (if InPeriod(t, startDate, endDate) then t.favourites + t.retweets else 0)
  }

  /** Popularity adds up over consecutive runs of tweets. */
  lemma {:induction false} PopularityAppend(a: seq<Tweet>, b: seq<Tweet>, startDate: int, endDate: int)
    ensures Popularity(a + b, startDate, endDate) == Popularity(a, startDate, endDate) + Popularity(b, startDate, endDate)
  {
    if b != [] {
      var c := b[..|b| - 1];
      var t := b[|b| - 1];
      assert (a + b)[..|a + b| - 1] == a + c;
      assert (a + b)[|a + b| - 1] == t;
      PopularityAppend(a, c, startDate, endDate);
      assert Popularity(a + b, startDate, endDate) ==
        Popularity(a + c, startDate, endDate) + (if InPeriod(t, startDate, endDate) then t.favourites + t.retweets else 0);
    } else {
      assert a + b == a;
    }
  }

  /** Tweets outside the period count for nothing. */
  lemma {:induction false} PopularityOutside(tweets: seq<Tweet>, startDate: int, endDate: int)
    requires forall i :: 0 <= i < |tweets| ==> !InPeriod(tweets[i], startDate, endDate)
    ensures Popularity(tweets, startDate, endDate) == 0
  {
    if tweets != [] {
      PopularityOutside(tweets[..|tweets| - 1], startDate, endDate);
    }
  }

  /** With no negative counts, popularity is never negative and never falls as tweets are added. */
  lemma {:induction false} PopularityNonNegative(tweets: seq<Tweet>, startDate: int, endDate: int)
    requires forall i :: 0 <= i < |tweets| ==> tweets[i].favourites >= 0 && tweets[i].retweets >= 0
    ensures Popularity(tweets, startDate, endDate) >= 0
    ensures forall n :: 0 <= n <= |tweets| ==> Popularity(tweets[..n], startDate, endDate) <= Popularity(tweets, startDate, endDate)
  {
    if tweets != [] {
      var init := tweets[..|tweets| - 1];
      PopularityNonNegative(init, startDate, endDate);
      forall n | 0 <= n <= |tweets|
        ensures Popularity(tweets[..n], startDate, endDate) <= Popularity(tweets, startDate, endDate)
      {
        if n < |tweets| {
          assert tweets[..n] == init[..n];
        } else {
          assert tweets[..n] == tweets;
        }
      }
    }
  }

  /** most_popular, one user: add up the tweets in the period. */
  method UserPopularity(tweets: seq<Tweet>, startDate: int, endDate: int) returns (usersPopularity: int)
    ensures usersPopularity == Popularity(tweets, startDate, endDate)
  {
    usersPopularity := 0;
    for i := 0 to |tweets|
      invariant usersPopularity == Popularity(tweets[..i], startDate, endDate)
    {
      assert tweets[..i + 1][..i] == tweets[..i];
      if startDate <= tweets[i].date <= endDate {
        usersPopularity := usersPopularity + (tweets[i].favourites + tweets[i].retweets);
      }
    }
    assert tweets[..|tweets|] == tweets;
  }

  /** Every user's popularity in the period. */
  function PopularityMap(usersToTweets: map<string, seq<Tweet>>, startDate: int, endDate: int): map<string, int> {
    map u | u in usersToTweets :: Popularity(usersToTweets[u], startDate, endDate)
  }

  /** most_popular, the first loop: the popularity of each user. */
  method UserPopularities(usersToTweets: map<string, seq<Tweet>>, startDate: int, endDate: int)
    returns (usersToPopularity: map<string, int>)
    ensures usersToPopularity == PopularityMap(usersToTweets, startDate, endDate)
  {
    var users := KeyList(usersToTweets);
    usersToPopularity := map[];
    for i := 0 to |users|
      invariant forall u :: u in usersToPopularity ==>
        u in usersToTweets && usersToPopularity[u] == Popularity(usersToTweets[u], startDate, endDate)
      invariant forall j :: 0 <= j < i ==> users[j] in usersToPopularity
    {
      var usersPopularity := UserPopularity(usersToTweets[users[i]], startDate, endDate);
      usersToPopularity := usersToPopularity[users[i] := usersPopularity];
    }
    forall u | u in usersToTweets ensures u in usersToPopularity {
      var j :| 0 <= j < |users| && users[j] == u;
    }
  }

  /** u alone has the highest popularity. */
  predicate IsUniqueMax(popularity: map<string, int>, u: string) {
    u in popularity && forall u' :: u' in popularity && u' != u ==> popularity[u'] < popularity[u]
  }

  /**
   * Over the values listed in any key order: when the maximum occurs once,
   * the user holding it is the unique most popular; when it occurs more than
   * once, nobody is.
   */
  lemma UniqueMaxOfValues(popularity: map<string, int>, keys: seq<string>)
    requires Enumerates(keys, popularity) && keys != []
    ensures var values := ValuesAt(popularity, keys);
      Count(values, Max(values)) == 1 ==>
        forall u :: u in popularity && popularity[u] == Max(values) ==> IsUniqueMax(popularity, u)
    ensures var values := ValuesAt(popularity, keys);
      Count(values, Max(values)) > 1 ==> forall u :: !IsUniqueMax(popularity, u)
  {
    var values := ValuesAt(popularity, keys);
    var top := Max(values);
    CountAtLeastTwo(values, top);
    if Count(values, top) == 1 {
      forall u | u in popularity && popularity[u] == top ensures IsUniqueMax(popularity, u) {
        var i :| 0 <= i < |keys| && keys[i] == u;
        forall u' | u' in popularity && u' != u ensures popularity[u'] < top {
          var j :| 0 <= j < |keys| && keys[j] == u';
          assert values[j] in values && values[i] == top && i != j;
        }
      }
    } else if Count(values, top) > 1 {
      var i, j :| 0 <= i < j < |values| && values[i] == top && values[j] == top;
    }
  }

  /** A user with the highest value of a non-empty map. */
  ghost function MaxKey(popularity: map<string, int>, users: set<string>): (u: string)
    requires users != {} && users <= popularity.Keys
    ensures u in users && forall u' :: u' in users ==> popularity[u'] <= popularity[u]
    decreases users
  {
    var x :| x in users;
    if users == {x} then x
    else
      var y := MaxKey(popularity, users - {x});
      if popularity[x] >= popularity[y] then x else y
  }

  /**
   * Nobody is the unique most popular exactly when there are no users or two
   * users share the highest popularity.
   */
  lemma TieExactly(popularity: map<string, int>)
    ensures (forall u :: !IsUniqueMax(popularity, u)) <==>
      (popularity == map[] ||
       exists u, v :: u in popularity && v in popularity && u != v && popularity[u] == popularity[v] &&
         forall w :: w in popularity ==> popularity[w] <= popularity[u])
  {
    if popularity != map[] {
      var top := MaxKey(popularity, popularity.Keys);
      if !IsUniqueMax(popularity, top) {
        var v :| v in popularity && v != top && popularity[v] >= popularity[top];
        assert popularity[top] == popularity[v];
      }
    }
  }

  /**
   * most_popular: the user with the highest popularity in the period, or
   * "tie" when there is no user or the highest popularity is shared.
   */
  method MostPopular(usersToTweets: map<string, seq<Tweet>>, startDate: int, endDate: int) returns (result: string)
    ensures var popularity := PopularityMap(usersToTweets, startDate, endDate);
      (exists u :: IsUniqueMax(popularity, u)) ==> IsUniqueMax(popularity, result)
    ensures var popularity := PopularityMap(usersToTweets, startDate, endDate);
      (forall u :: !IsUniqueMax(popularity, u)) ==> result == Tie
  {
    var usersToPopularity := UserPopularities(usersToTweets, startDate, endDate);
    var users := KeyList(usersToPopularity);
    var popularityValues := ValuesAt(usersToPopularity, users);
    if |popularityValues| == 0 {
      result := Tie;
      return;
    }
    var top := Max(popularityValues);
    UniqueMaxOfValues(usersToPopularity, users);
    if Count(popularityValues, top) > 1 {
      result := Tie;
    } else {
      CountPositive(popularityValues, top);
      var i :| 0 <= i < |users| && popularityValues[i] == top;
      assert users[i] in usersToPopularity && usersToPopularity[users[i]] == top;
      result := FindKey(usersToPopularity, top);
    }
  }

  // ---------------------------------------------------------------------
  // detect_author
  // ---------------------------------------------------------------------

  /** The texts of a user's tweets, each followed by a space. */
  function AllTweetText(tweets: seq<Tweet>): (r: string)
    ensures r == [] || r[|r| - 1] == ' '
  {
    if tweets == [] then ""
    else AllTweetText(tweets[..|tweets| - 1]) + tweets[|tweets| - 1].text + " "
  }

  /** Words after a text that ends in whitespace, and across the space that ends a tweet, stay apart. */
  lemma WordsAppendTweet(prefix: string, text: string, marker: char)
    requires prefix == [] || IsSpace(prefix[|prefix| - 1])
    ensures Words(prefix + (text + " "), marker) == Words(prefix, marker) + Words(text, marker)
  {
    SplitAppend(prefix, text + " ");
    SplitSpaceEnd(text, ' ');
    ExtractedAppend(Split(prefix), Split(text), marker);
  }

  /** The word lists one after the other. */
  function Flatten(parts: seq<seq<string>>): seq<string> {
    if parts == [] then [] else Flatten(parts[..|parts| - 1]) + parts[|parts| - 1]
  }

  /** A word of the flattened lists is a word of one of them. */
  lemma {:induction false} FlattenMembers(parts: seq<seq<string>>)
    ensures forall w :: w in Flatten(parts) <==> exists i :: 0 <= i < |parts| && w in parts[i]
  {
    if parts != [] {
      var init := parts[..|parts| - 1];
      FlattenMembers(init);
      assert forall i :: 0 <= i < |init| ==> init[i] == parts[i];
    }
  }

  /** The marked words of each tweet. */
  function TweetWords(tweets: seq<Tweet>, marker: char): (r: seq<seq<string>>)
    ensures |r| == |tweets| && forall i :: 0 <= i < |tweets| ==> r[i] == Words(tweets[i].text, marker)
  {
    seq(|tweets|, i requires 0 <= i < |tweets| => Words(tweets[i].text, marker))
  }

  /**
   * The space after each text keeps words of different tweets apart: the
   * marked words of a user's joined text are those of the single tweets, in order.
   */
  lemma {:induction false} AllTweetTextWords(tweets: seq<Tweet>, marker: char)
    ensures Words(AllTweetText(tweets), marker) == Flatten(TweetWords(tweets, marker))
  {
    if tweets != [] {
      var init, t := tweets[..|tweets| - 1], tweets[|tweets| - 1];
      AllTweetTextWords(init, marker);
      assert TweetWords(tweets, marker)[..|tweets| - 1] == TweetWords(init, marker);
      assert AllTweetText(tweets) == AllTweetText(init) + (t.text + " ");
      WordsAppendTweet(AllTweetText(init), t.text, marker);
    }
  }

  /** The hashtags a user has used. */
  function UserHashtags(tweets: seq<Tweet>): seq<string> {
    Hashtags(AllTweetText(tweets))
  }

  /** A user's hashtags are the hashtags of the user's tweets, each listed once. */
  lemma UserHashtagsMembers(tweets: seq<Tweet>)
    ensures NoDuplicates(UserHashtags(tweets))
    ensures forall h :: h in UserHashtags(tweets) <==> exists i :: 0 <= i < |tweets| && h in Hashtags(tweets[i].text)
  {
    DeduplicatedMembers(Words(AllTweetText(tweets), HashSymbol));
    AllTweetTextWords(tweets, HashSymbol);
    FlattenMembers(TweetWords(tweets, HashSymbol));
    forall i | 0 <= i < |tweets|
      ensures forall h :: h in Hashtags(tweets[i].text) <==> h in Words(tweets[i].text, HashSymbol)
    {
      DeduplicatedMembers(Words(tweets[i].text, HashSymbol));
    }
  }

  /** Every user's hashtags. */
  function HashtagMap(usersToTweets: map<string, seq<Tweet>>): map<string, seq<string>> {
    map u | u in usersToTweets :: UserHashtags(usersToTweets[u])
  }

  /** The hashtags that are wanted, in their order. */
  function Relevant(hashtags: seq<string>, wanted: seq<string>): seq<string> {
    if hashtags == [] then []
    else
      var h := hashtags[|hashtags| - 1];
      Relevant(hashtags[..|hashtags| - 1], wanted) + (if h in wanted then [h] else [])
  }

  /** Relevant keeps exactly the wanted hashtags, each once if the input has each once. */
  lemma {:induction false} RelevantMembers(hashtags: seq<string>, wanted: seq<string>)
    ensures forall x :: x in Relevant(hashtags, wanted) <==> x in hashtags && x in wanted
    ensures NoDuplicates(hashtags) ==> NoDuplicates(Relevant(hashtags, wanted))
  {
    if hashtags != [] {
      var init := hashtags[..|hashtags| - 1];
      var h := hashtags[|hashtags| - 1];
      RelevantMembers(init, wanted);
      assert hashtags == init + [h];
      if NoDuplicates(hashtags) {
        assert h !in init;
      }
    }
  }

  /** The wanted hashtags of a user, sorted. */
  function WantedOf(hashtags: seq<string>, wanted: seq<string>): seq<string> {
    SortStrings(Relevant(hashtags, wanted))
  }

  /** The filtered hashtags of every user. */
  function FilteredMap(userTags: map<string, seq<string>>, wanted: seq<string>): map<string, seq<string>> {
    map u | u in userTags :: WantedOf(userTags[u], wanted)
  }

  /**
   * u uses every hashtag of the tweet, and nobody else uses any of them; with
   * no hashtag in the tweet there is no such user.
   */
  predicate SoleAuthor(userTags: map<string, seq<string>>, wanted: seq<string>, u: string) {
    wanted != [] && u in userTags &&
    (forall h :: h in wanted ==> h in userTags[u]) &&
    forall u' :: u' in userTags && u' != u ==> forall h :: h in userTags[u'] ==> h !in wanted
  }

  /** u alone holds w; every other user holds nothing. */
  predicate OnlyHolder(m: map<string, seq<string>>, w: seq<string>, u: string) {
    u in m && m[u] == w && forall u' :: u' in m && u' != u ==> m[u'] == []
  }

  /** A user's filtered hashtags are empty iff the user uses none of the wanted ones. */
  lemma FilteredEmpty(hashtags: seq<string>, wanted: seq<string>)
    ensures WantedOf(hashtags, wanted) == [] <==> forall h :: h in hashtags ==> h !in wanted
  {
    RelevantMembers(hashtags, wanted);
    var r := Relevant(hashtags, wanted);
    assert |SortStrings(r)| == |multiset(SortStrings(r))| == |multiset(r)| == |r|;
    if r != [] {
      assert r[0] in r;
    }
  }

  /** A user's filtered hashtags are all the wanted ones, sorted, iff the user uses every one of them. */
  lemma FilteredAll(hashtags: seq<string>, wanted: seq<string>)
    requires NoDuplicates(hashtags) && NoDuplicates(wanted)
    ensures WantedOf(hashtags, SortStrings(wanted)) == SortStrings(wanted) <==> forall h :: h in wanted ==> h in hashtags
  {
    var sorted := SortStrings(wanted);
    SameMembers(sorted, wanted);
    RelevantMembers(hashtags, sorted);
    var r := Relevant(hashtags, sorted);
    SortStringsEqual(r, wanted);
  }

  /**
   * The filtered map has one user holding all the wanted hashtags and the
   * others holding none exactly when that user is the sole author.
   */
  lemma OnlyHolderIsSoleAuthor(userTags: map<string, seq<string>>, wanted: seq<string>, u: string)
    requires forall v :: v in userTags ==> NoDuplicates(userTags[v])
    requires NoDuplicates(wanted) && wanted != []
    ensures OnlyHolder(FilteredMap(userTags, SortStrings(wanted)), SortStrings(wanted), u) <==> SoleAuthor(userTags, wanted, u)
  {
    var sorted := SortStrings(wanted);
    SameMembers(sorted, wanted);
    var f := FilteredMap(userTags, sorted);
    forall v | v in userTags
      ensures f[v] == [] <==> forall h :: h in userTags[v] ==> h !in wanted
      ensures f[v] == sorted <==> forall h :: h in wanted ==> h in userTags[v]
    {
      FilteredEmpty(userTags[v], sorted);
      FilteredAll(userTags[v], wanted);
    }
    OnlyHolderOfFacts(userTags, f, wanted, sorted, u);
  }

  /**
   * Any map over the same users in which a value is empty exactly when the user
   * holds no wanted hashtag, and equals w exactly when the user holds them all.
   */
  lemma OnlyHolderOfFacts(userTags: map<string, seq<string>>, f: map<string, seq<string>>,
                          wanted: seq<string>, w: seq<string>, u: string)
    requires f.Keys == userTags.Keys && wanted != [] && w != []
    requires forall v :: v in userTags ==>
      (f[v] == [] <==> forall h :: h in userTags[v] ==> h !in wanted) &&
      (f[v] == w <==> forall h :: h in wanted ==> h in userTags[v])
    ensures OnlyHolder(f, w, u) <==> SoleAuthor(userTags, wanted, u)
  {
  }

  /**
   * detect_author's final test, over the values listed in any key order:
   * all but one value empty and exactly one equal to w holds iff one user
   * holds w and the others nothing.
   */
  lemma OnlyHolderOfValues(m: map<string, seq<string>>, keys: seq<string>, w: seq<string>)
    requires Enumerates(keys, m) && w != []
    ensures var values := ValuesAt(m, keys);
      (Count(values, []) == |values| - 1 && Count(values, w) == 1) <==> exists u :: OnlyHolder(m, w, u)
  {
    var values := ValuesAt(m, keys);
    if Count(values, []) == |values| - 1 && Count(values, w) == 1 {
      CountsFill(values, [], w);
      CountPositive(values, w);
      var p :| 0 <= p < |values| && values[p] == w;
      CountAtLeastTwo(values, w);
      forall u' | u' in m && u' != keys[p] ensures m[u'] == [] {
        var j :| 0 <= j < |keys| && keys[j] == u';
      }
      assert OnlyHolder(m, w, keys[p]);
    }
    if u :| OnlyHolder(m, w, u) {
      var p :| 0 <= p < |keys| && keys[p] == u;
      forall i | 0 <= i < |values| && i != p ensures values[i] == [] {
        assert keys[i] != keys[p];
      }
      CountAllButOne(values, p, []);
    }
  }

  /** detect_author, one user: the texts of the user's tweets, each followed by a space. */
  method JoinTweetTexts(tweets: seq<Tweet>) returns (allTweetText: string)
    ensures allTweetText == AllTweetText(tweets)
  {
    allTweetText := "";
    for i := 0 to |tweets|
      invariant allTweetText == AllTweetText(tweets[..i])
    {
      assert tweets[..i + 1][..i] == tweets[..i];
      allTweetText := allTweetText + (tweets[i].text + " ");
    }
    assert tweets[..|tweets|] == tweets;
  }

  /** detect_author, the first loop: the hashtags of each user. */
  method UsersHashtags(usersToTweets: map<string, seq<Tweet>>) returns (usersToHashtags: map<string, seq<string>>)
    ensures usersToHashtags == HashtagMap(usersToTweets)
  {
    var users := KeyList(usersToTweets);
    usersToHashtags := map[];
    for i := 0 to |users|
      invariant forall u :: u in usersToHashtags ==>
        u in usersToTweets && usersToHashtags[u] == UserHashtags(usersToTweets[u])
      invariant forall j :: 0 <= j < i ==> users[j] in usersToHashtags
    {
      var allTweetText := JoinTweetTexts(usersToTweets[users[i]]);
      var hashtags := ExtractHashtags(allTweetText);
      usersToHashtags := usersToHashtags[users[i] := hashtags];
    }
    forall u | u in usersToTweets ensures u in usersToHashtags {
      var j :| 0 <= j < |users| && users[j] == u;
    }
  }

  /** detect_author, one user: the wanted hashtags the user has used, sorted. */
  method KeepWanted(hashtags: seq<string>, wanted: seq<string>) returns (updatedHashtags: seq<string>)
    ensures updatedHashtags == WantedOf(hashtags, wanted)
  {
    updatedHashtags := [];
    for i := 0 to |hashtags|
      invariant updatedHashtags == Relevant(hashtags[..i], wanted)
    {
      assert hashtags[..i + 1][..i] == hashtags[..i];
      if hashtags[i] in wanted {
        updatedHashtags := updatedHashtags + [hashtags[i]];
      }
    }
    assert hashtags[..|hashtags|] == hashtags;
    updatedHashtags := SortStrings(updatedHashtags);
  }

  /** detect_author, the second loop: replace each user's hashtags by the wanted ones, sorted. */
  method FilterUsers(usersToHashtags: map<string, seq<string>>, wanted: seq<string>)
    returns (updated: map<string, seq<string>>)
    ensures updated == FilteredMap(usersToHashtags, wanted)
  {
    ghost var target := FilteredMap(usersToHashtags, wanted);
    var users := KeyList(usersToHashtags);
    updated := usersToHashtags;
    for i := 0 to |users|
      invariant updated.Keys == target.Keys
      invariant AgreeOn(updated, target, users, i)
    {
      // keys are listed once each, so earlier users keep their new value
      var updatedHashtags := KeepWanted(usersToHashtags[users[i]], wanted);
      AgreeOnStep(updated, target, users, i, updatedHashtags);
      updated := updated[users[i] := updatedHashtags];
    }
    AgreeOnAll(updated, target, users);
  }

  /**
   * detect_author: the only user who has used every hashtag of the tweet
   * while nobody else has used any of them, or "unknown".
   */
  method DetectAuthor(usersToTweets: map<string, seq<Tweet>>, tweetText: string) returns (result: string)
    ensures var userTags := HashtagMap(usersToTweets);
      (exists u :: SoleAuthor(userTags, Hashtags(tweetText), u)) ==> SoleAuthor(userTags, Hashtags(tweetText), result)
    ensures var userTags := HashtagMap(usersToTweets);
      (forall u :: !SoleAuthor(userTags, Hashtags(tweetText), u)) ==> result == Unknown
  {
    var hashtags := ExtractHashtags(tweetText);
    var wantedHashtags := SortStrings(hashtags);
    var usersToHashtags := UsersHashtags(usersToTweets);
    var filtered := FilterUsers(usersToHashtags, wantedHashtags);
    var users := KeyList(filtered);
    var usersHashtagsList := ValuesAt(filtered, users);
    forall v | v in usersToHashtags ensures NoDuplicates(usersToHashtags[v]) {
      DeduplicatedMembers(Words(AllTweetText(usersToTweets[v]), HashSymbol));
    }
    if hashtags == [] {
      assert wantedHashtags == [] by {
        assert multiset(wantedHashtags) == multiset{};
      }
      forall i | 0 <= i < |usersHashtagsList| ensures usersHashtagsList[i] == [] {
        FilteredEmpty(usersToHashtags[users[i]], wantedHashtags);
      }
      CountAllSame(usersHashtagsList, []);
      return Unknown;
    }
    assert wantedHashtags != [] by {
      assert multiset(wantedHashtags) != multiset{};
    }
    OnlyHolderOfValues(filtered, users, wantedHashtags);
    forall u ensures OnlyHolder(filtered, wantedHashtags, u) <==> SoleAuthor(usersToHashtags, hashtags, u) {
      OnlyHolderIsSoleAuthor(usersToHashtags, hashtags, u);
    }
    if Count(usersHashtagsList, []) == |usersHashtagsList| - 1 && Count(usersHashtagsList, wantedHashtags) == 1 {
      var u :| OnlyHolder(filtered, wantedHashtags, u);
      result := FindKey(filtered, wantedHashtags);
      assert result == u;
    } else {
      result := Unknown;
    }
  }
}
