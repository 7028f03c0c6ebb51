/**
 * The line format of a tweet file, and read_tweets over its lines.
 *
 * A file is a sequence of lines. A line ending in ":\n" that is accepted as
 * a username starts that user's block, which runs to the next username line
 * or to the end. Inside a block, each line ending in "<<<EOT\n" closes a
 * tweet: the first line after the previous end is the comma-separated header
 * (date, location, source, favourites, retweets) and the lines after it are
 * the text. The exceptions read_tweets can raise become ParseError values.
 */
module TweetFile {
  import opened Wrappers
  import opened PyStr
  import opened PyList

  const Sentinel: string := "<<<EOT\n"
  const UsernameEnd: string := ":\n"
  const FieldSeparator: char := ','

  /** A tweet tuple: (text, date, source, favourite count, retweet count). */
  datatype Tweet = Tweet(text: string, date: int, source: string, favourites: int, retweets: int)

  /**
   * What stops read_tweets: a tweet with no lines at all (IndexError on its
   * header), a header with too few fields (IndexError), or a header field
   * that int() rejects (ValueError).
   */
  datatype ParseError = MissingHeader | MissingField | BadInteger

  predicate Increasing(s: seq<int>) {
    forall a, b :: 0 <= a < b < |s| ==> s[a] < s[b]
  }

  lemma AppendIncreasing(s: seq<int>, y: int)
    requires Increasing(s) && forall x :: x in s ==> x < y
    ensures Increasing(s + [y])
  {
    forall a, b | 0 <= a < b < |s| + 1 ensures (s + [y])[a] < (s + [y])[b] {
      if b == |s| {
        assert s[a] in s;
      }
    }
  }

  // ---------------------------------------------------------------------
  // get_indexes
  // ---------------------------------------------------------------------

  /** get_indexes(text, s): the indexes of the lines that end with s, in ascending order. */
  function IndexesOf(text: seq<string>, s: string): (r: seq<int>)
    ensures forall i :: i in r <==> 0 <= i < |text| && EndsWith(text[i], s)
    ensures Increasing(r)
    ensures forall j :: 0 <= j < |r| ==> 0 <= r[j] < |text|
  {
    if text == [] then []
    else
      var p := IndexesOf(text[..|text| - 1], s);
      if EndsWith(text[|text| - 1], s) then
        AppendIncreasing(p, |text| - 1);
        p + [|text| - 1]
      else p
  }

  method GetIndexes(text: seq<string>, s: string) returns (result: seq<int>)
    ensures result == IndexesOf(text, s)
  {
    result := [];
    for i := 0 to |text|
      invariant result == IndexesOf(text[..i], s)
    {
      assert text[..i + 1][..i] == text[..i];
      if EndsWith(text[i], s) {
        result := result + [i];
      }
    }
    assert text[..|text|] == text;
  }

  // ---------------------------------------------------------------------
  // get_usernames
  // ---------------------------------------------------------------------

  /** Candidate indexes into text, none before the first candidate. */
  predicate Candidates(text: seq<string>, first: int, ps: seq<int>) {
    0 <= first && forall j :: 0 <= j < |ps| ==> first <= ps[j] < |text|
  }

  /**
   * The candidates of ps accepted in turn: the first candidate, one right
   * after a sentinel line, or one right after an accepted username.
   */
  function Accepted(text: seq<string>, first: int, ps: seq<int>): seq<int>
    requires Candidates(text, first, ps)
  {
    if ps == [] then []
    else
      var acc := Accepted(text, first, ps[..|ps| - 1]);
      var index := ps[|ps| - 1];
      acc + (if index == first || text[index - 1] == Sentinel || (index - 1) in acc then [index] else [])
  }

  /** Accepting one more candidate. */
  lemma AcceptedStep(text: seq<string>, first: int, ps: seq<int>, i: nat)
    requires Candidates(text, first, ps) && i < |ps|
    ensures Candidates(text, first, ps[..i]) && Candidates(text, first, ps[..i + 1])
    ensures var acc := Accepted(text, first, ps[..i]);
      Accepted(text, first, ps[..i + 1]) ==
        acc + (if ps[i] == first || text[ps[i] - 1] == Sentinel || (ps[i] - 1) in acc then [ps[i]] else [])
  {
    assert ps[..i + 1][..i] == ps[..i];
  }

  /** Accepted keeps some of the candidates, in ascending order. */
  lemma {:induction false} AcceptedSubset(text: seq<string>, first: int, ps: seq<int>)
    requires Candidates(text, first, ps) && Increasing(ps)
    ensures forall x :: x in Accepted(text, first, ps) ==> x in ps
    ensures Increasing(Accepted(text, first, ps))
  {
    if ps != [] {
      var q := ps[..|ps| - 1];
      var y := ps[|ps| - 1];
      var acc := Accepted(text, first, q);
      AcceptedSubset(text, first, q);
      forall x | x in acc ensures x < y && x in ps {
        var j :| 0 <= j < |q| && q[j] == x;
        assert ps[j] == x;
      }
      AppendIncreasing(acc, y);
    }
  }

  /**
   * Each candidate is accepted exactly when it is the first one, follows a
   * sentinel line, or follows an accepted candidate.
   */
  lemma {:induction false} AcceptedRule(text: seq<string>, first: int, ps: seq<int>)
    requires Candidates(text, first, ps) && Increasing(ps)
    ensures forall j :: 0 <= j < |ps| ==>
      (ps[j] in Accepted(text, first, ps) <==>
        ps[j] == first || text[ps[j] - 1] == Sentinel || (ps[j] - 1) in Accepted(text, first, ps))
  {
    if ps != [] {
      var q := ps[..|ps| - 1];
      var y := ps[|ps| - 1];
      var acc := Accepted(text, first, q);
      AcceptedRule(text, first, q);
      AcceptedSubset(text, first, q);
      var r := Accepted(text, first, ps);
      assert forall x :: x in acc ==> x < y by {
        forall x | x in acc ensures x < y {
          var j :| 0 <= j < |q| && q[j] == x;
          assert ps[j] == x;
        }
      }
      forall j | 0 <= j < |ps|
        ensures ps[j] in r <==> ps[j] == first || text[ps[j] - 1] == Sentinel || (ps[j] - 1) in r
      {
        if j < |q| {
          assert ps[j] == q[j] && q[j] < y;
        }
      }
    }
  }

  /** The candidate lines are candidates from the first of them on. */
  lemma CandidateLines(text: seq<string>)
    requires IndexesOf(text, UsernameEnd) != []
    ensures var ps := IndexesOf(text, UsernameEnd); Candidates(text, ps[0], ps)
  {
    var ps := IndexesOf(text, UsernameEnd);
    assert ps[0] in ps;
    forall j | 0 <= j < |ps| ensures ps[0] <= ps[j] < |text| {
      assert ps[j] in ps;
    }
  }

  /** get_usernames(text): the indexes of the username lines, in ascending order. */
  function Usernames(text: seq<string>): (r: seq<int>)
    ensures Increasing(r)
    ensures forall u :: u in r ==> 0 <= u < |text| && EndsWith(text[u], UsernameEnd)
    ensures forall j :: 0 <= j < |r| ==> 0 <= r[j] < |text|
  {
    var ps := IndexesOf(text, UsernameEnd);
    if ps == [] then []
    else
      AcceptedLines(text);
      Accepted(text, ps[0], ps)
  }

  /** The accepted candidates are ascending username-shaped lines of the text. */
  lemma AcceptedLines(text: seq<string>)
    requires IndexesOf(text, UsernameEnd) != []
    ensures var ps := IndexesOf(text, UsernameEnd); var r := Accepted(text, ps[0], ps);
      Increasing(r) &&
      (forall u :: u in r ==> 0 <= u < |text| && EndsWith(text[u], UsernameEnd)) &&
      forall j :: 0 <= j < |r| ==> 0 <= r[j] < |text|
  {
    var ps := IndexesOf(text, UsernameEnd);
    CandidateLines(text);
    AcceptedSubset(text, ps[0], ps);
    var r := Accepted(text, ps[0], ps);
    forall j | 0 <= j < |r| ensures 0 <= r[j] < |text| {
      assert r[j] in r;
    }
  }

  /**
   * A line is a username line exactly when it ends in ":\n" and is the first
   * such line, follows a sentinel line, or follows a username line; with no
   * line ending in ":\n" there are no usernames.
   */
  lemma UsernamesSpec(text: seq<string>)
    ensures IndexesOf(text, UsernameEnd) == [] ==> Usernames(text) == []
    ensures IndexesOf(text, UsernameEnd) != [] ==> forall i :: 0 <= i < |text| ==>
      (i in Usernames(text) <==>
        (EndsWith(text[i], UsernameEnd) &&
         (i == IndexesOf(text, UsernameEnd)[0] ||
          (i >= 1 && (text[i - 1] == Sentinel || (i - 1) in Usernames(text))))))
  {
    var ps := IndexesOf(text, UsernameEnd);
    if ps != [] {
      CandidateLines(text);
      AcceptedSubset(text, ps[0], ps);
      AcceptedRule(text, ps[0], ps);
      var r := Usernames(text);
      forall i | 0 <= i < |text| && EndsWith(text[i], UsernameEnd)
        ensures i in r <==> i == ps[0] || (i >= 1 && (text[i - 1] == Sentinel || (i - 1) in r))
      {
        var j :| 0 <= j < |ps| && ps[j] == i;
      }
    }
  }

  method GetUsernames(text: seq<string>) returns (username: seq<int>)
    ensures username == Usernames(text)
  {
    var potential := GetIndexes(text, UsernameEnd);
    username := [];
    if potential == [] {
      return;
    }
    CandidateLines(text);
    for i := 0 to |potential|
      invariant username == Accepted(text, potential[0], potential[..i])
    {
      var index := potential[i];
      AcceptedStep(text, potential[0], potential, i);
      // aside from the first, a username follows a sentinel line or another username
      if index == potential[0] || text[index - 1] == Sentinel || (index - 1) in username {
        username := username + [index];
      }
    }
    assert potential[..|potential|] == potential;
  }

  // ---------------------------------------------------------------------
  // One tweet
  // ---------------------------------------------------------------------

  /**
   * The tuple read_tweets builds from the lines of one tweet, raising in the
   * order Python evaluates the tuple: int(info[0]), info[2], int(info[3]),
   * int(info[4][:-1]).
   */
  function ParseTweet(tweetData: seq<string>): Result<Tweet, ParseError> {
    if tweetData == [] then Err(MissingHeader)
    else
      var info := SplitOn(tweetData[0], FieldSeparator);
      var text := Strip(Concat(tweetData[1..]));
      match ParseInt(info[0])
      case None => Err(BadInteger)
      case Some(date) =>
        if |info| < 4 then Err(MissingField)
        else
          match ParseInt(info[3])
          case None => Err(BadInteger)
          case Some(favourites) =>
            if |info| < 5 then Err(MissingField)
            else
              match ParseInt(DropLast(info[4], 1))
              case None => Err(BadInteger)
              case Some(retweets) => Ok(Tweet(text, date, info[2], favourites, retweets))
  }

  /** The header line of a tweet as the file stores it. */
  function HeaderLine(t: Tweet, location: string): string
    requires t.date >= 0 && t.favourites >= 0 && t.retweets >= 0
  {
    Join([DecimalString(t.date), location, t.source, DecimalString(t.favourites), DecimalString(t.retweets) + "\n"],
      FieldSeparator)
  }

  /** A decimal string holds no separator. */
  lemma DecimalHasNoSeparator(n: nat)
    ensures FieldSeparator !in DecimalString(n)
    ensures FieldSeparator !in DecimalString(n) + "\n"
  {
    var s := DecimalString(n);
    assert forall i :: 0 <= i < |s| ==> IsDigit(s[i]);
  }

  /**
   * Reading back a written tweet gives the tweet: a header line and one line
   * of text, whose text has no whitespace at its ends and whose location and
   * source hold no comma.
   */
  lemma ParseTweetRoundTrip(t: Tweet, location: string)
    requires t.date >= 0 && t.favourites >= 0 && t.retweets >= 0
    requires FieldSeparator !in location && FieldSeparator !in t.source
    requires t.text == [] || (!IsSpace(t.text[0]) && !IsSpace(t.text[|t.text| - 1]))
    ensures ParseTweet([HeaderLine(t, location), t.text + "\n"]) == Ok(t)
  {
    var fields := [DecimalString(t.date), location, t.source, DecimalString(t.favourites), DecimalString(t.retweets) + "\n"];
    DecimalHasNoSeparator(t.date);
    DecimalHasNoSeparator(t.favourites);
    DecimalHasNoSeparator(t.retweets);
    JoinSplitOn(fields, FieldSeparator);
    ParseDecimalString(t.date);
    ParseDecimalString(t.favourites);
    ParseDecimalString(t.retweets);
    assert DropLast(DecimalString(t.retweets) + "\n", 1) == DecimalString(t.retweets);
    var data := [HeaderLine(t, location), t.text + "\n"];
    assert data[1..] == [t.text + "\n"];
    assert Concat([t.text + "\n"]) == t.text + "\n" by {
      assert [t.text + "\n"][..0] == [];
    }
    StripLine(t.text);
  }

  /** read_tweets, building one tuple: the header fields, then the text lines joined and stripped. */
  method ReadTweet(tweetData: seq<string>) returns (r: Result<Tweet, ParseError>)
    ensures r == ParseTweet(tweetData)
  {
    if tweetData == [] {
      return Err(MissingHeader);
    }
    var tweetInfo := SplitOn(tweetData[0], FieldSeparator);
    var tweetText := "";
    for k := 1 to |tweetData|
      invariant tweetText == Concat(tweetData[1..k])
    {
      assert tweetData[1..k + 1][..k - 1] == tweetData[1..k];
      tweetText := tweetText + tweetData[k];
    }
    assert tweetData[1..|tweetData|] == tweetData[1..];
    var date := ParseInt(tweetInfo[0]);
    if date.None? {
      return Err(BadInteger);
    }
    if |tweetInfo| < 4 {
      return Err(MissingField);
    }
    var source := tweetInfo[2];
    var favourites := ParseInt(tweetInfo[3]);
    if favourites.None? {
      return Err(BadInteger);
    }
    if |tweetInfo| < 5 {
      return Err(MissingField);
    }
    var retweets := ParseInt(DropLast(tweetInfo[4], 1));
    if retweets.None? {
      return Err(BadInteger);
    }
    r := Ok(Tweet(Strip(tweetText), date.value, source, favourites.value, retweets.value));
  }

  // ---------------------------------------------------------------------
  // One user's block
  // ---------------------------------------------------------------------

  /** Line indexes that can cut a block. */
  predicate NonNegative(ends: seq<int>) {
    forall j :: 0 <= j < |ends| ==> 0 <= ends[j]
  }

  /** The lines of the k-th tweet: from just after the previous sentinel (or the username line) to the k-th sentinel. */
  function Chunk(block: seq<string>, ends: seq<int>, k: nat): seq<string>
    requires k < |ends| && NonNegative(ends)
  {
    Slice(block, if k == 0 then 1 else ends[k - 1] + 1, ends[k])
  }

  /** The results of parsing a block's tweets, gathered in order; the first error wins. */
  function Collect(rs: seq<Result<Tweet, ParseError>>): Result<seq<Tweet>, ParseError> {
    if rs == [] then Ok([])
    else
      match Collect(rs[..|rs| - 1])
      case Err(e) => Err(e)
      case Ok(ts) =>
        match rs[|rs| - 1]
        case Err(e) => Err(e)
        case Ok(t) => Ok(ts + [t])
  }

  /** The tweets are there iff every tweet parses. */
  lemma {:induction false} CollectOk(rs: seq<Result<Tweet, ParseError>>)
    ensures Collect(rs).Ok? <==> forall k :: 0 <= k < |rs| ==> rs[k].Ok?
  {
    if rs != [] {
      var init := rs[..|rs| - 1];
      CollectOk(init);
      assert forall k :: 0 <= k < |init| ==> init[k] == rs[k];
    }
  }

  /** When they are there, the tweets are the parsed tweets, one each, in order. */
  lemma {:induction false} CollectValues(rs: seq<Result<Tweet, ParseError>>)
    requires Collect(rs).Ok?
    ensures |Collect(rs).value| == |rs|
    ensures forall k :: 0 <= k < |rs| ==> rs[k].Ok? && Collect(rs).value[k] == rs[k].value
  {
    if rs != [] {
      var init := rs[..|rs| - 1];
      CollectValues(init);
      assert forall k :: 0 <= k < |init| ==> init[k] == rs[k];
    }
  }

  /** Otherwise the error is that of the first tweet that does not parse. */
  lemma {:induction false} CollectError(rs: seq<Result<Tweet, ParseError>>)
    requires Collect(rs).Err?
    ensures exists k :: (0 <= k < |rs| && rs[k] == Err(Collect(rs).error) &&
      forall k' :: 0 <= k' < k ==> rs[k'].Ok?)
  {
    var init := rs[..|rs| - 1];
    assert forall k :: 0 <= k < |init| ==> init[k] == rs[k];
    if Collect(init).Err? {
      CollectError(init);
      var k :| 0 <= k < |init| && init[k] == Err(Collect(init).error) && forall k' :: 0 <= k' < k ==> init[k'].Ok?;
      assert rs[k] == Err(Collect(rs).error);
    } else {
      CollectOk(init);
      assert rs[|rs| - 1] == Err(Collect(rs).error);
    }
  }

  /** Collecting one more result. */
  lemma CollectStep(rs: seq<Result<Tweet, ParseError>>, n: nat)
    requires n < |rs|
    ensures Collect(rs[..n + 1]) ==
      if Collect(rs[..n]).Err? then Collect(rs[..n])
      else if rs[n].Err? then Err(rs[n].error)
      else Ok(Collect(rs[..n]).value + [rs[n].value])
  {
    assert rs[..n + 1][..n] == rs[..n];
  }

  /** Once a tweet fails, the whole block fails with its error. */
  lemma {:induction false} CollectErr(rs: seq<Result<Tweet, ParseError>>, n: nat)
    requires n <= |rs| && Collect(rs[..n]).Err?
    ensures Collect(rs) == Collect(rs[..n])
    decreases |rs| - n
  {
    if n < |rs| {
      assert rs[..n + 1][..n] == rs[..n];
      CollectErr(rs, n + 1);
    } else {
      assert rs[..n] == rs;
    }
  }

  /** The k-th tweet of a block, parsed. */
  function Parsed(block: seq<string>, ends: seq<int>): (rs: seq<Result<Tweet, ParseError>>)
    requires NonNegative(ends)
    ensures |rs| == |ends| && forall k :: 0 <= k < |ends| ==> rs[k] == ParseTweet(Chunk(block, ends, k))
  {
    seq(|ends|, k requires 0 <= k < |ends| => ParseTweet(Chunk(block, ends, k)))
  }

  /** The tweet list read_tweets builds for one user's block. */
  function UserTweets(block: seq<string>): Result<seq<Tweet>, ParseError> {
    Collect(Parsed(block, IndexesOf(block, Sentinel)))
  }

  /**
   * A user's tweets are there iff every chunk of the block parses; then there
   * is one tweet per sentinel line, the k-th being the k-th chunk parsed.
   */
  lemma UserTweetsSpec(block: seq<string>)
    ensures var ends := IndexesOf(block, Sentinel);
      UserTweets(block).Ok? <==> forall k :: 0 <= k < |ends| ==> ParseTweet(Chunk(block, ends, k)).Ok?
    ensures var ends := IndexesOf(block, Sentinel);
      UserTweets(block).Ok? ==>
        |UserTweets(block).value| == |ends| &&
        forall k :: 0 <= k < |ends| ==> UserTweets(block).value[k] == ParseTweet(Chunk(block, ends, k)).value
  {
    var ends := IndexesOf(block, Sentinel);
    var rs := Parsed(block, ends);
    CollectOk(rs);
    if forall k :: 0 <= k < |ends| ==> ParseTweet(Chunk(block, ends, k)).Ok? {
      assert forall k :: 0 <= k < |rs| ==> rs[k].Ok?;
    }
    if Collect(rs).Ok? {
      CollectValues(rs);
    }
  }

  /** read_tweets, one user: cut the block at its sentinel lines and read each tweet. */
  method ReadUserTweets(usersTweets: seq<string>) returns (r: Result<seq<Tweet>, ParseError>)
    ensures r == UserTweets(usersTweets)
  {
    var tweetsEnd := GetIndexes(usersTweets, Sentinel);
    ghost var rs := Parsed(usersTweets, tweetsEnd);
    var tweetList: seq<Tweet> := [];
    var start: nat := 1;
    for j := 0 to |tweetsEnd|
      invariant Collect(rs[..j]) == Ok(tweetList)
      invariant start == if j == 0 then 1 else tweetsEnd[j - 1] + 1
    {
      var end: nat := tweetsEnd[j];
      var tweetData := Slice(usersTweets, start, end);
      assert tweetData == Chunk(usersTweets, tweetsEnd, j);
      var tweet := ReadTweet(tweetData);
      CollectStep(rs, j);
      if tweet.Err? {
        CollectErr(rs, j + 1);
        return Err(tweet.error);
      }
      tweetList := tweetList + [tweet.value];
      start := end + 1;
    }
    assert rs[..|tweetsEnd|] == rs;
    r := Ok(tweetList);
  }

  // ---------------------------------------------------------------------
  // The whole file
  // ---------------------------------------------------------------------

  /** Username line indexes that can cut a file into blocks. */
  predicate ValidUserLines(lines: seq<string>, us: seq<int>) {
    Increasing(us) && forall j :: 0 <= j < |us| ==> 0 <= us[j] < |lines|
  }

  /** The i-th user's block: from its username line to the next one, or to the end for the last. */
  function Block(lines: seq<string>, us: seq<int>, i: nat): (block: seq<string>)
    requires ValidUserLines(lines, us) && i < |us|
    ensures block != [] && block[0] == lines[us[i]]
  {
    if us[i] == us[|us| - 1] then lines[us[i]..] else lines[us[i]..us[i + 1]]
  }

  /**
   * A user's block is the run of lines from its username line up to the next
   * username line, or to the end of the file for the last user. It holds no
   * other user's username line.
   */
  lemma BlockSpec(lines: seq<string>, us: seq<int>, i: nat)
    requires ValidUserLines(lines, us) && i < |us|
    ensures var block := Block(lines, us, i);
      us[i] + |block| <= |lines| && block == lines[us[i]..us[i] + |block|] &&
      us[i] + |block| == (if i + 1 < |us| then us[i + 1] else |lines|) &&
      forall j :: 0 <= j < |us| && us[i] < us[j] ==> us[i] + |block| <= us[j]
  {
  }

  /** The dictionary key of a username line: without its last two characters, lower-cased. */
  function UserKey(line: string): string {
    LowerStr(DropLast(line, 2))
  }

  /** One user's dictionary entry: its key and its tweets, or the error reading them. */
  datatype Entry = Entry(key: string, tweets: Result<seq<Tweet>, ParseError>)

  /** The dictionary built from the entries in order; a later key overwrites, the first error wins. */
  function Gather(es: seq<Entry>): Result<map<string, seq<Tweet>>, ParseError> {
    if es == [] then Ok(map[])
    else
      match Gather(es[..|es| - 1])
      case Err(e) => Err(e)
      case Ok(m) =>
        match es[|es| - 1].tweets
        case Err(e) => Err(e)
        case Ok(ts) => Ok(m[es[|es| - 1].key := ts])
  }

  /** The dictionary is there iff every entry's tweets are. */
  lemma {:induction false} GatherOk(es: seq<Entry>)
    ensures Gather(es).Ok? <==> forall i :: 0 <= i < |es| ==> es[i].tweets.Ok?
  {
    if es != [] {
      var init := es[..|es| - 1];
      GatherOk(init);
      assert forall i :: 0 <= i < |init| ==> init[i] == es[i];
    }
  }

  /** Its keys are exactly the entries' keys. */
  lemma {:induction false} GatherKeys(es: seq<Entry>)
    requires Gather(es).Ok?
    ensures forall key :: key in Gather(es).value <==> exists i :: 0 <= i < |es| && es[i].key == key
  {
    if es != [] {
      var init := es[..|es| - 1];
      GatherKeys(init);
      assert forall i :: 0 <= i < |init| ==> init[i] == es[i];
    }
  }

  /** A key holds the tweets of the last entry with that key. */
  lemma {:induction false} GatherLastWins(es: seq<Entry>)
    requires Gather(es).Ok?
    ensures forall i :: (0 <= i < |es| && forall i' :: i < i' < |es| ==> es[i'].key != es[i].key) ==>
      es[i].tweets.Ok? && es[i].key in Gather(es).value && Gather(es).value[es[i].key] == es[i].tweets.value
  {
    if es != [] {
      var init := es[..|es| - 1];
      GatherLastWins(init);
      GatherOk(es);
      assert forall i :: 0 <= i < |init| ==> init[i] == es[i];
    }
  }

  /** Gathering one more entry. */
  lemma GatherStep(es: seq<Entry>, n: nat)
    requires n < |es|
    ensures Gather(es[..n + 1]) ==
      if Gather(es[..n]).Err? then Gather(es[..n])
      else if es[n].tweets.Err? then Err(es[n].tweets.error)
      else Ok(Gather(es[..n]).value[es[n].key := es[n].tweets.value])
  {
    assert es[..n + 1][..n] == es[..n];
  }

  /** Once an entry fails, the whole file fails with its error. */
  lemma {:induction false} GatherErr(es: seq<Entry>, n: nat)
    requires n <= |es| && Gather(es[..n]).Err?
    ensures Gather(es) == Gather(es[..n])
    decreases |es| - n
  {
    if n < |es| {
      assert es[..n + 1][..n] == es[..n];
      GatherErr(es, n + 1);
    } else {
      assert es[..n] == es;
    }
  }

  /** The entries of the users whose username lines are us, in file order. */
  function UserEntries(lines: seq<string>, us: seq<int>): (es: seq<Entry>)
    requires ValidUserLines(lines, us)
    ensures |es| == |us| && forall i :: 0 <= i < |us| ==>
      es[i] == Entry(UserKey(lines[us[i]]), UserTweets(Block(lines, us, i)))
  {
    seq(|us|, i requires 0 <= i < |us| => Entry(UserKey(lines[us[i]]), UserTweets(Block(lines, us, i))))
  }

  /** read_tweets(file), over the lines the file holds. */
  function ReadTweetsOf(lines: seq<string>): Result<map<string, seq<Tweet>>, ParseError> {
    Gather(UserEntries(lines, Usernames(lines)))
  }

  /** Cut at any username lines, the dictionary is there iff every user's block parses. */
  lemma UsersOk(lines: seq<string>, us: seq<int>)
    requires ValidUserLines(lines, us)
    ensures Gather(UserEntries(lines, us)).Ok? <==> forall i :: 0 <= i < |us| ==> UserTweets(Block(lines, us, i)).Ok?
  {
    GatherOk(UserEntries(lines, us));
  }

  /** Its keys are the keys of the username lines. */
  lemma UsersKeys(lines: seq<string>, us: seq<int>)
    requires ValidUserLines(lines, us) && Gather(UserEntries(lines, us)).Ok?
    ensures forall key ::
      key in Gather(UserEntries(lines, us)).value <==> exists u :: u in us && UserKey(lines[u]) == key
  {
    var es := UserEntries(lines, us);
    var m := Gather(es).value;
    GatherKeys(es);
    forall key ensures key in m <==> exists u :: u in us && UserKey(lines[u]) == key {
      if key in m {
        var i :| 0 <= i < |es| && es[i].key == key;
        assert us[i] in us && UserKey(lines[us[i]]) == key;
      }
    }
  }

  /** A key maps to the tweets of the last block with that key. */
  lemma UsersLastWins(lines: seq<string>, us: seq<int>)
    requires ValidUserLines(lines, us) && Gather(UserEntries(lines, us)).Ok?
    ensures forall i ::
      (0 <= i < |us| && forall i' :: i < i' < |us| ==> UserKey(lines[us[i']]) != UserKey(lines[us[i]])) ==>
        UserTweets(Block(lines, us, i)).Ok? && UserKey(lines[us[i]]) in Gather(UserEntries(lines, us)).value &&
        Gather(UserEntries(lines, us)).value[UserKey(lines[us[i]])] == UserTweets(Block(lines, us, i)).value
  {
    var es := UserEntries(lines, us);
    GatherLastWins(es);
    forall i | 0 <= i < |us| && forall i' :: i < i' < |us| ==> UserKey(lines[us[i']]) != UserKey(lines[us[i]])
      ensures UserTweets(Block(lines, us, i)).Ok? && UserKey(lines[us[i]]) in Gather(es).value &&
        Gather(es).value[UserKey(lines[us[i]])] == UserTweets(Block(lines, us, i)).value
    {
      assert forall i' :: i < i' < |es| ==> es[i'].key != es[i].key;
    }
  }

  /**
   * read_tweets returns a dictionary iff every user's block parses; its keys
   * are the keys of the username lines, each holding the tweets of the last
   * block with that key.
   */
  lemma ReadTweetsSpec(lines: seq<string>)
    ensures var us := Usernames(lines);
      ReadTweetsOf(lines).Ok? <==> forall i :: 0 <= i < |us| ==> UserTweets(Block(lines, us, i)).Ok?
    ensures var us := Usernames(lines);
      ReadTweetsOf(lines).Ok? ==> forall key ::
        key in ReadTweetsOf(lines).value <==> exists u :: u in us && UserKey(lines[u]) == key
    ensures var us := Usernames(lines);
      ReadTweetsOf(lines).Ok? ==> forall i ::
        (0 <= i < |us| && forall i' :: i < i' < |us| ==> UserKey(lines[us[i']]) != UserKey(lines[us[i]])) ==>
          UserTweets(Block(lines, us, i)).Ok? && UserKey(lines[us[i]]) in ReadTweetsOf(lines).value &&
          ReadTweetsOf(lines).value[UserKey(lines[us[i]])] == UserTweets(Block(lines, us, i)).value
  {
    var us := Usernames(lines);
    UsersOk(lines, us);
    if ReadTweetsOf(lines).Ok? {
      UsersKeys(lines, us);
      UsersLastWins(lines, us);
    }
  }

  /** read_tweets, slicing out one user's lines. */
  method UserBlock(lines: seq<string>, usernames: seq<int>, i: nat) returns (usersTweets: seq<string>)
    requires ValidUserLines(lines, usernames) && i < |usernames|
    ensures usersTweets == Block(lines, usernames, i)
  {
    if usernames[i] == usernames[|usernames| - 1] {
      usersTweets := lines[usernames[i]..];
    } else {
      usersTweets := lines[usernames[i]..usernames[i + 1]];
    }
  }

  /** read_tweets, the loop over the username lines: read each user's block into the dictionary. */
  method ReadUsers(lines: seq<string>, usernames: seq<int>) returns (r: Result<map<string, seq<Tweet>>, ParseError>)
    requires ValidUserLines(lines, usernames)
    ensures r == Gather(UserEntries(lines, usernames))
  {
    ghost var es := UserEntries(lines, usernames);
    var usersToTweets: map<string, seq<Tweet>> := map[];
    for i := 0 to |usernames|
      invariant Gather(es[..i]) == Ok(usersToTweets)
    {
      var usersTweets := UserBlock(lines, usernames, i);
      var tweetList := ReadUserTweets(usersTweets);
      assert es[i] == Entry(UserKey(usersTweets[0]), tweetList);
      GatherStep(es, i);
      if tweetList.Err? {
        GatherErr(es, i + 1);
        return Err(tweetList.error);
      }
      usersToTweets := usersToTweets[LowerStr(DropLast(usersTweets[0], 2)) := tweetList.value];
    }
    assert es[..|usernames|] == es;
    r := Ok(usersToTweets);
  }

  /** read_tweets: one dictionary entry per username line, keyed by the lower-cased name. */
  method ReadTweets(lines: seq<string>) returns (r: Result<map<string, seq<Tweet>>, ParseError>)
    ensures r == ReadTweetsOf(lines)
  {
    var usernames := GetUsernames(lines);
    r := ReadUsers(lines, usernames);
  }
}
