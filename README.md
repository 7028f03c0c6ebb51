# Tweet analysis, modelled in Dafny

This project models `tweets.py`, a small module that analyses Twitter
histories held in memory. It has four parts:

- **Token extraction.** It extracts mentions (`@name`) and hashtags (`#tag`)
  from a text, as lower-cased alphanumeric words.
- **Word counting.** It counts the plain words of a text into a dictionary,
  then cuts that dictionary down to its `num` most frequent words. A tie at
  the cut-off removes the whole tied group.
- **File parsing.** It reads a tweet file, given as a list of lines, into a
  dictionary from lower-cased username to that user's tweets. Each tweet is a
  record of text, date, source, favourites and retweets.
- **Queries.** It finds the user whose tweets in a date range were most
  popular (or `"tie"`), and the only user whose hashtags cover a new tweet's
  hashtags (or `"unknown"`).

The original is written as loops that update local variables and
dictionaries, so every operation is a Dafny `method` with the same loops.
Three methods add an early return where the original runs on, each giving
the original's result:
- `Queries.MostPopular` returns "tie" at once for an empty dictionary, which
  tweets.py:359-361 fold into one condition.
- `Queries.DetectAuthor` returns "unknown" at once for a tweet without
  hashtags, where tweets.py:405-414 would fall through to the same answer.
- `TweetFile.GetUsernames` returns no usernames at once when no line ends in
  ":\n", where tweets.py:105-113 would run an empty loop.

Each method is proved against a specification function (`ensures r ==
Words(text, marker)`, `ensures counts == Retained(old(counts), num)`). Lemmas
then state what those functions guarantee.

- `count_words` and `common_words` update the caller's dictionary in place.
  They are methods of the class `WordCounts.WordTable`, whose `counts: map`
  field is that dictionary.
- Exceptions raised while parsing (a missing field, a non-numeric integer)
  become `Err` values of `Result<_, ParseError>`.
- Iterating over a dictionary is `PyList.KeyList`. It returns the keys in an
  arbitrary order, and the proofs hold for every order.

Modules:

| file | module | contents |
|---|---|---|
| wrappers.dfy | `Wrappers` | `Option`, `Result` |
| py_str.dfy | `PyStr` | the `str` built-ins the module uses: `isalnum`, `lower`, `split()`, `split(',')`, `strip`, `endswith`, `int` on digit strings |
| py_list.dfy | `PyList` | `list.count`, `list.remove`, `max`, `dict.keys()/values()` |
| py_sort.dfy | `PySort` | `sort()` on integers (followed by `reverse()`) and on strings |
| tokens.dfy | `Tokens` | `alnum_prefix`, `clean_word`, `extract_words`, `extract_mentions`, `extract_hashtags` |
| word_counts.dfy | `WordCounts` | `count_words`, `common_words` |
| tweet_file.dfy | `TweetFile` | `get_indexes`, `get_usernames`, `read_tweets` |
| queries.dfy | `Queries` | `find_key`, `most_popular`, `detect_author` |

Three details of tweets.py are easy to misread. The model follows the code:

- A username line counts as following a sentinel only when the previous line
  *equals* `"<<<EOT\n"` (tweets.py:110). Tweets, however, end at every line
  that *ends with* `"<<<EOT\n"` (tweets.py:302).
- `detect_author` has no separate sort or de-duplication step of its own for
  a user's hashtags. They are already unique because `extract_hashtags` drops
  repeats (tweets.py:393), and each filtered list is sorted (tweets.py:402).
  `Queries.UserHashtagsMembers` proves the first point.
- The retweet field loses its last character before conversion
  (tweets.py:319). A header line without its final newline therefore loses a
  digit. `TweetFile.ParseTweet` does the same.

## Model

| member | source | states |
|---|---|---|
| PyStr.Slice | tweets.py:89 | `s[lo:hi]` clips to the string and is empty when `hi <= lo`, so `element[1:2]` never fails |
| PyStr.Split | tweets.py:84 | `str.split()`: the maximal runs of non-whitespace characters, in order; its properties are stated by `PyStr.SplitSpec`, `PyStr.SplitToken`, `PyStr.SplitSpaced`, `PyStr.SplitAppend` and `PyStr.SplitSpaceEnd` |
| PyStr.LowerStr | tweets.py:47 | `lower()` keeps the length and lower-cases each character separately |
| PyStr.SplitSpec | tweets.py:84 | every token of `split()` is non-empty and contains no whitespace, and the tokens in order are exactly the non-whitespace characters of the text |
| PyStr.SplitAppend | tweets.py:392 | when the first text ends in whitespace, splitting the concatenation gives the tokens of the first text followed by those of the second |
| PyStr.SplitSpaceEnd | tweets.py:392 | trailing whitespace adds no token |
| PyStr.SplitToken | tweets.py:84 | a whitespace-free non-empty text is a single token: runs are never cut short |
| PyStr.SplitSpaced | tweets.py:84 | whitespace-free tokens written out with a space after each split back into exactly those tokens, so `split()` cuts only at whitespace and at every run of it |
| PyStr.SplitOn | tweets.py:310 | `split(',')` always gives at least one field; `PyStr.SplitOnJoin` and `PyStr.JoinSplitOn` state the round trip |
| PyStr.SplitOnJoin | tweets.py:310 | `split(',')` loses nothing: joining the fields with ',' gives back the line, and no field contains ',' |
| PyStr.JoinSplitOn | tweets.py:310 | fields without ',' joined with ',' split back into the same fields |
| PyStr.Strip | tweets.py:315 | `str.strip()`: the text without its leading and trailing whitespace; its properties are stated by `PyStr.StripSpec` and `PyStr.StripLine` |
| PyStr.StripSpec | tweets.py:315 | `strip()` gives a contiguous slice of the text, with only whitespace cut away on either side and no whitespace left at either end |
| PyStr.StripLine | tweets.py:315 | stripping a text with its newline gives back a text that has no whitespace at either end |
| PyStr.ParseInt | tweets.py:316-319 | `int` succeeds exactly on non-empty decimal digit strings and then gives a non-negative value |
| PyStr.ParseDecimalString | tweets.py:316-319 | `int` of the decimal form of n is n |
| PyStr.DropLast | tweets.py:319 | `s[:-k]` drops the last k characters for k ≥ 1, and gives the empty string when s is shorter than k or when k is 0 (`s[:-0]` is `s[:0]`) |
| PyList.Count | tweets.py:270-271 | `list.count` is at most the length of the list |
| PyList.CountPositive | tweets.py:410-411 | a value's count is positive exactly when it occurs in the list |
| PyList.CountAtLeastTwo | tweets.py:360 | a count above one means two distinct positions hold the value, and the converse |
| PyList.CountAllButOne | tweets.py:410 | when every position but p holds x, x counts length - 1 and the value at p counts once |
| PyList.CountsFill | tweets.py:410-411 | when two distinct values' counts add up to the length, every element is one of the two |
| PyList.RemoveFirstAfter | tweets.py:218 | `list.remove(x)` deletes the first occurrence of x and leaves everything else in order |
| PyList.RemoveFirst | tweets.py:218 | `list.remove(x)` on a list holding x is one element shorter; `PyList.RemoveFirstAfter` states which element goes |
| PyList.Max | tweets.py:360 | `max` is an element of the list and no element exceeds it |
| PyList.KeyList | tweets.py:279 | `list(d.keys())` lists every key exactly once, in some order |
| PyList.ValuesAt | tweets.py:357 | `list(d.values())` holds, position by position, the values of the listed keys |
| PyList.FirstIndex | tweets.py:191-193 | the first position of x holds x, and no earlier position does |
| PySort.SortDesc | tweets.py:257-258 | `sort()` then `reverse()` gives the same counts, largest first |
| PySort.SortDescCountAtLeast | tweets.py:257-258 | sorting does not change how many counts reach a value |
| PySort.SortedCountAtLeast | tweets.py:264-266 | in a descending list, position i holds at least v exactly when i is less than the number of elements at least v |
| PySort.SortStrings | tweets.py:386 | `sort()` on strings permutes the list (same multiset) |
| PySort.SortStringsSorted | tweets.py:386 | `sort()` on strings leaves them in ascending order |
| PySort.SortStringsStrict | tweets.py:402 | sorting a list without repeats gives a strictly ascending list without repeats |
| PySort.SortStringsEqual | tweets.py:407-411 | two repeat-free lists sort to the same list exactly when they have the same members, so order does not matter |
| Tokens.AlnumPrefixOfSpec | tweets.py:25-47 | the prefix stops at the first non-alphanumeric character or at the end, and is that part of the text lower-cased |
| Tokens.AlnumPrefix | tweets.py:44-47 | the loop returns the specified prefix: alphanumeric characters of the text, lower-cased, up to the first non-alphanumeric one |
| Tokens.CleanedSpec | tweets.py:50-66 | lower-casing then keeping alphanumerics equals keeping alphanumerics then lower-casing, and the result is lower-case alphanumeric |
| Tokens.CleanedIdempotent | tweets.py:225 | a cleaned word cleans and lower-cases to itself, so the extra `.lower()` in count_words changes nothing |
| Tokens.CleanWord | tweets.py:62-66 | the loop returns the alphanumeric characters of the word, in order, lower-cased |
| Tokens.Extracted | tweets.py:84-93 | for each marked token in order, the alphanumeric prefix after the marker; its properties are stated by `Tokens.ExtractedAppend`, `Tokens.ExtractedMembers` and `Tokens.ExtractedClean` |
| Tokens.ExtractedAppend | tweets.py:87-93 | extraction works token by token, so order and repeats are kept |
| Tokens.ExtractedMembers | tweets.py:89-91 | a word is extracted exactly when some token starts with the marker, has an alphanumeric second character, and has that word as the alphanumeric prefix after the marker |
| Tokens.ExtractedClean | tweets.py:89-91 | every extracted word is non-empty, lower-case and alphanumeric |
| Tokens.ExtractWords | tweets.py:84-93 | the loop returns the specified words, each of them non-empty lower-case alphanumeric |
| Tokens.ExtractMentions | tweets.py:154-169 | mentions are the '@' words, repeats included, each of them non-empty lower-case alphanumeric |
| Tokens.Deduplicated | tweets.py:188-193 | each word appended when not already present; its properties are stated by `Tokens.DeduplicatedMembers` and `Tokens.DeduplicatedOrder` |
| Tokens.DeduplicatedMembers | tweets.py:188-193 | deduplication has no repeats and the same members as its input |
| Tokens.DeduplicatedOrder | tweets.py:191-193 | deduplication keeps the order of first occurrence |
| Tokens.ExtractHashtags | tweets.py:172-195 | hashtags are the '#' words without repeats, in first-occurrence order, each of them clean |
| WordCounts.KeptMembers | tweets.py:215-218 | a token is kept exactly when it does not start with '@', '#' or "http" |
| WordCounts.RemoveSkipped | tweets.py:212-218 | removing skipped tokens from a copy, one `remove` at a time, leaves the other tokens in their original order |
| WordCounts.CountedWordsClean | tweets.py:221-225 | every counted word is non-empty lower-case alphanumeric |
| WordCounts.CleanedKeys | tweets.py:221-225 | the loop cleans each kept token and drops those that clean to '' |
| WordCounts.AddAllCounts | tweets.py:229-235 | after counting, a key is present iff it was present or counted, and its count is its old count (0 if absent) plus how often it was counted |
| WordCounts.CountWordsEffect | tweets.py:212-235 | the same for a whole text; new keys are clean words; keys not in the text keep their counts |
| WordCounts.CountedWordsNone | tweets.py:224 | tokens that clean to '' contribute no word |
| WordCounts.CountWordsNothing | tweets.py:202-205 | a text whose tokens are all skipped or clean to '' leaves the table unchanged, which includes the empty text |
| WordCounts.WordTable.CountWords | tweets.py:198-235 | the new table is the old one with the text's counted words added |
| WordCounts.TieTest | tweets.py:270-271 | the window holds fewer copies of its last count than the whole list exactly when the count just past the window equals it, i.e. a tie straddles the cut-off |
| WordCounts.SafeListMembers | tweets.py:264-276 | after the tie removal, a count is safe exactly when at most num counts reach it |
| WordCounts.SafeCounts | tweets.py:260-276 | the window loop and the tie-removal `while` loop leave exactly the counts that at most num counts reach |
| WordCounts.SortedCountsOfTable | tweets.py:256-258 | in the sorted values, the number of counts reaching a key's count equals the number of keys that reach it |
| WordCounts.FilteredIsRetained | tweets.py:278-282 | keeping the keys whose count is safe keeps exactly the retained keys |
| WordCounts.WordTable.RemoveUnsafe | tweets.py:279-282 | the pop loop leaves exactly the keys whose count is in the safe list, with unchanged values |
| WordCounts.WordTable.CommonWords | tweets.py:238-282 | the new table is Retained(old table, num) |
| WordCounts.Retained | tweets.py:238-282 | the words that at most num words (themselves included) reach or beat, with their counts; its properties are stated by the `WordCounts.Retained…` lemmas below |
| WordCounts.RetainedBounds | tweets.py:238-243 | the result is a sub-map of the table, with values unchanged, and has at most num keys |
| WordCounts.RetainedMonotone | tweets.py:262-266 | when a key is retained, every key with a count at least as high is retained |
| WordCounts.RetainedTieDropped | tweets.py:268-276 | when more than num keys reach a count v, no key with count v or less survives, so a straddling tie removes its whole group |
| WordCounts.RetainedTop | tweets.py:264-266 | when exactly num keys beat all the others, those are the keys retained |
| WordCounts.RetainedGreatest | tweets.py:262-266 | any set of at most num keys closed under "count at least as high" is retained |
| WordCounts.RetainedSmall | tweets.py:245-248 | a table of at most num keys is left unchanged |
| WordCounts.RetainedIdempotent | tweets.py:238-282 | applying common_words twice with the same num equals applying it once |
| TweetFile.IndexesOf | tweets.py:116-131 | the indexes are exactly those of the lines ending in s, in ascending order |
| TweetFile.GetIndexes | tweets.py:125-131 | the loop returns the specified indexes |
| TweetFile.AcceptedRule | tweets.py:107-112 | a candidate is accepted exactly when it is the first one, follows a sentinel line, or follows an accepted candidate |
| TweetFile.Usernames | tweets.py:96-113 | the usernames are ascending indexes of lines that end in ":\n" |
| TweetFile.UsernamesSpec | tweets.py:105-113 | a line is a username iff it ends in ":\n" and is the first candidate, follows a line equal to the sentinel, or follows a username; no candidate means no usernames |
| TweetFile.GetUsernames | tweets.py:105-113 | the loop returns the specified usernames |
| TweetFile.ParseTweet | tweets.py:308-319 | one tweet's lines: no line is `MissingHeader`; header fields 0 and 3, and field 4 less its last character, as integers (`BadInteger` otherwise); fewer than 4 or 5 fields is `MissingField`; field 2 the source; the other lines concatenated and stripped the text |
| TweetFile.ParseTweetRoundTrip | tweets.py:308-319 | a tweet written as a header line and a text line parses back to the same tweet |
| TweetFile.ReadTweet | tweets.py:308-319 | the method parses one tweet's lines: fields 0 and 3 and field 4 without its last character as integers, field 2 as the source, and the remaining lines concatenated and stripped as the text; a missing line or field, or a non-numeric integer, is an error |
| TweetFile.CollectOk | tweets.py:305-320 | a user's tweets are read iff every tweet parses |
| TweetFile.CollectValues | tweets.py:305-320 | the tweets are then in file order, one per chunk |
| TweetFile.CollectError | tweets.py:305-320 | an error is the error of the first tweet that fails |
| TweetFile.UserTweetsSpec | tweets.py:302-320 | a user's tweets are read iff every chunk parses; then there is one tweet per line ending in the sentinel, the k-th being the k-th chunk parsed |
| TweetFile.ReadUserTweets | tweets.py:302-320 | the nested loop with the moving start returns the specified tweets, or the first error |
| TweetFile.Block | tweets.py:297-300 | a user's block starts with that user's username line; `TweetFile.BlockSpec` states where it ends |
| TweetFile.BlockSpec | tweets.py:297-300 | a user's block is the contiguous run of lines from that user's username line up to the next username line, or to the end of the file for the last user; it holds no other username line |
| TweetFile.UserBlock | tweets.py:297-300 | the slice taken by the loop, which tests the last username by value rather than by position, is exactly the user's block, which `TweetFile.BlockSpec` characterises |
| TweetFile.GatherOk | tweets.py:296-322 | the dictionary is built iff every user's tweets are read |
| TweetFile.GatherKeys | tweets.py:322 | its keys are exactly the users' keys |
| TweetFile.GatherLastWins | tweets.py:322 | a key's value is the tweets of the last user with that key |
| TweetFile.UsersOk | tweets.py:296-322 | over the username lines: the dictionary is built iff every block parses |
| TweetFile.UsersKeys | tweets.py:322 | over the username lines: the keys are the lines without their last two characters, lower-cased |
| TweetFile.UsersLastWins | tweets.py:322 | over the username lines: a later duplicate name overwrites an earlier one |
| TweetFile.ReadTweetsSpec | tweets.py:285-323 | read_tweets succeeds iff every accepted user's block parses; then the keys are the users' keys, and each key holds the tweets of the last block with that key |
| TweetFile.ReadUsers | tweets.py:296-323 | the loop over the username lines builds the specified dictionary, or returns the first error |
| TweetFile.ReadTweets | tweets.py:291-323 | read_tweets returns the specified dictionary |
| Queries.FindKey | tweets.py:134-148 | when the value occurs, the key returned holds it |
| Queries.PopularityAppend | tweets.py:350-353 | popularity adds up over consecutive runs of tweets |
| Queries.PopularityOutside | tweets.py:351 | tweets outside the period add nothing |
| Queries.PopularityNonNegative | tweets.py:350-353 | with non-negative counts, popularity is non-negative and never falls as tweets are added |
| Queries.UserPopularity | tweets.py:348-353 | the loop sums favourites and retweets over the tweets dated inside the period, bounds included |
| Queries.UserPopularities | tweets.py:345-354 | the loop maps every user to that user's popularity |
| Queries.UniqueMaxOfValues | tweets.py:357-363 | in any key order, a maximum occurring once means its holder is strictly the most popular, and a maximum occurring more than once means nobody is |
| Queries.MaxKey | tweets.py:360 | some user of a non-empty set has the highest popularity |
| Queries.TieExactly | tweets.py:328-331 | nobody is strictly most popular exactly when the map is empty or two users share the highest popularity |
| Queries.MostPopular | tweets.py:326-365 | if a user is strictly most popular, that user is returned; otherwise "tie" |
| Queries.AllTweetText | tweets.py:390-392 | the joined text is empty or ends in a space |
| Queries.WordsAppendTweet | tweets.py:392 | appending a tweet's text and a space appends that text's words |
| Queries.FlattenMembers | tweets.py:389-393 | a word of the joined lists is a word of one of them |
| Queries.AllTweetTextWords | tweets.py:389-393 | the words of the joined texts are the words of each tweet in turn |
| Queries.UserHashtagsMembers | tweets.py:389-393 | a user's hashtags have no repeats and are exactly the hashtags of the user's tweets |
| Queries.JoinTweetTexts | tweets.py:390-392 | the loop joins the tweet texts, each followed by a space |
| Queries.UsersHashtags | tweets.py:389-393 | the loop maps every user to that user's hashtags |
| Queries.RelevantMembers | tweets.py:399-401 | filtering keeps exactly the wanted hashtags, without repeats if the input has none |
| Queries.FilteredEmpty | tweets.py:398-403 | a user's filtered list is empty iff the user uses none of the wanted hashtags |
| Queries.FilteredAll | tweets.py:398-411 | a user's filtered list equals the sorted wanted list iff the user uses all of them |
| Queries.KeepWanted | tweets.py:398-402 | the inner loop and sort return the wanted hashtags of one user, sorted |
| Queries.FilterUsers | tweets.py:397-403 | the loop replaces every user's hashtags by the filtered ones |
| Queries.OnlyHolderOfValues | tweets.py:405-411 | in any key order, all values but one being empty and one equal to w holds iff one user holds w and the others nothing |
| Queries.OnlyHolderIsSoleAuthor | tweets.py:397-411 | after filtering, a user holds all the wanted hashtags and the others none iff that user uses all of them and nobody else uses any |
| Queries.OnlyHolderOfFacts | tweets.py:407-411 | the same for any map with the per-user facts of filtering |
| Queries.DetectAuthor | tweets.py:368-414 | if some user uses all of the tweet's hashtags and nobody else uses any, that user is returned; otherwise "unknown", which covers a tweet without hashtags |

## Left out

- Reading the file (`file.readlines()`, tweets.py:291) is outside the model. `TweetFile.ReadTweets` takes the list of lines.
- `str.isalnum`, `str.lower` and `str.isspace` are modelled on ASCII only: letters `A-Z`, `a-z`, digits, and the ASCII whitespace characters. Unicode letters, digits and case mappings are not modelled.
- `int()` is modelled on non-empty strings of ASCII digits. Signs, surrounding whitespace and underscores, which Python accepts, are parse errors here (`BadInteger`).
- Python distinguishes `IndexError` from `ValueError`; the model distinguishes `MissingHeader`, `MissingField` and `BadInteger`, and does not model the exception types themselves.
- Dictionary insertion order is not modelled: a dictionary is a `map`, and iteration visits its keys in an arbitrary order. No proved property depends on the order.
- Queries.FindKey: returns a key holding the value. When several do, it is not stated that this is the last one in iteration order. The original's precondition is that the value occurs once, and then the key is unique.
- Queries.FindKey: the original crashes when the value is absent. The model requires that the value occurs, as the original's precondition does.
- Queries.MostPopular: the original's precondition `end_date >= start_date` is not required. With an empty period every popularity is 0, and the contract still holds.
- `extract_words` tests `element[1:2]` whatever the length of `phrase`. The marker is modelled as one character, which is how the module always calls it.
- `sort()` followed by `reverse()` on integers is modelled as one descending insertion sort. Only the resulting list matters, not the algorithm.
- Some functions of the original are split into several methods (for example `WordTable.CountWords` calls `RemoveSkipped` and `CleanedKeys`). The loops are unchanged; only the method boundaries are new.
- The `__main__` block and the doctest scaffolding (tweets.py:417-421) are not modelled.
