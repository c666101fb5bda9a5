# Highscore leaderboard — a verified Dafny model

`Highscore` is a leaderboard over one Redis sorted set. A namespace, which is the Redis key, holds user ids with scores. The class can:
- set, increment, decrement and remove a user's score;
- read a user's score and 1-based rank;
- count entries, either all of them or those in a score range;
- list ranked entries in two ways: by a window of ranks (`listByRank`) or from a score threshold on (`listByScore`).

Every namespace and user id passes through the same sanitiser first:
- an integer becomes its decimal string;
- a string is trimmed;
- anything that is not a non-empty string afterwards raises `InvalidArgumentException`.

The project is laid out as follows:

- `wrappers.dfy` (`Wrappers`): `Option` and `Result`. A `Failure` carries the exception the PHP code throws.
- `identifiers.dfy` (`Identifiers`): the sanitiser.
  - The PHP values a caller can pass.
  - PHP's `trim()` with its default character set: space, tab, LF, CR, NUL and vertical tab.
  - The `(string)` cast of an integer, with its inverse.
  - `Normalize`, the sanitising rule, with lemmas saying exactly which values it accepts and what it makes of them.
- `sorted_set.dfy` (`SortedSet`): a sorted set as a value.
  - It is a sequence of `(member, score)` entries in ascending score order with unique members.
  - It has the behaviour of each Redis command the class sends: ZSCORE, ZADD, ZREM, ZREMRANGEBYSCORE, ZINCRBY, ZCOUNT, ZRANK, ZRANGE and ZRANGEBYSCORE ... LIMIT.
  - Alongside are lemmas showing that each write keeps the set valid.
  - Further lemmas connect reads with writes: ZSCORE after ZADD, ZINCRBY and ZREM, and ZCOUNT after ZREMRANGEBYSCORE.
- `redis.dfy` (`RedisModel`): the Redis handle as a class whose `data` maps keys to sorted sets.
  - There is one method per command.
  - Each command reads or replaces the set under one key and leaves every other key alone.
- `highscore.dfy` (`Leaderboard`): the `Highscore` class.
  - Its fields are the shared Redis handle and the sanitised namespace. Both are `const`, so the namespace cannot change after construction.
  - The sanitisers are methods that rewrite a local copy step by step, the way the PHP rewrites its by-reference argument.
  - Each public method is specified against the sorted-set model.
  - The loop both listings use is proved against the specification function `Numbered`.
  - Lemmas state what the listings mean: the positions they cover and the ranks they report (true ranks for `listByScore`).
  - Four client methods string operations together: set then get, increment then decrement, remove then get, and clear then count.

Where the documented behaviour and the code differ, the model follows the code:

- **`rank()` of an absent user is 1.** ZRANK answers null, and PHP evaluates `null + 1` to 1 (`RankOf`, `RankOfAbsent`). It is not an error.
- **`listByRank` numbers its rows relative to the window.** The rank of row `i` is `i + 1`, not `start + i` (`Highscore.ListByRank`). The entry in row `i` is the one at zero-based position `start - 1 + i` (`RankListingPositions`).
- **`listByScore` with no matching entry raises an error.** `$rows[0][0]` reads as null, and `rank(null)` raises the user-id `InvalidArgumentException`. The model has this error path and puts no precondition on the caller (`Highscore.ListByScore`).
- **The ranks of `listByScore` are exact only under a condition.** The first row's rank comes from `rank()`, which sanitises the member name again. The ranks are the true ones when the first listed row holds a sanitised key (`ScoreListingFirstRank`, `ScoreListingTrueRanks`). That is the case when every member was written through this class (`WritesKeepSanitised`, `SanitisedRows`).

## Model

| member | source | states |
|---|---|---|
| Identifiers.TrimLeft | php/Highscore.php:50-52 | stripping the front leaves a suffix of the input that is empty or starts with a character trim() keeps |
| Identifiers.TrimRight | php/Highscore.php:50-52 | stripping the back leaves a prefix of the input that is empty or ends with a character trim() keeps |
| Identifiers.TrimLeftDropsBlanks | php/Highscore.php:50-52 | every character stripped from the front is a trim character |
| Identifiers.TrimRightDropsBlanks | php/Highscore.php:50-52 | every character stripped from the back is a trim character |
| Identifiers.Trim | php/Highscore.php:50-52 | trim() leaves no trim character at either end |
| Identifiers.TrimIsWindow | php/Highscore.php:50-52 | trim() yields a window of the input, and every character outside that window is a trim character |
| Identifiers.TrimEmptyIffBlank | php/Highscore.php:50-55 | trimming leaves the empty string exactly when every character is a trim character, so blank strings reach the length-0 rejection |
| Identifiers.TrimKeepsTrimmed | php/Highscore.php:72-73 | trim() leaves a string with nothing to strip unchanged |
| Identifiers.TrimStripsSpaces | php/Highscore.php:72-73 | trim() strips one space on each side of a key and gives back the key |
| Identifiers.NatToString | php/Highscore.php:46-48 | the decimal digits of a natural number, with no leading zero |
| Identifiers.IntToString | php/Highscore.php:46-48 | PHP's (string) cast of an integer: a minus sign exactly for a negative number, then decimal digits with no leading zero; 0 becomes "0" |
| Identifiers.NatToStringRoundTrip | php/Highscore.php:46-48 | reading the decimal digits of a natural number back gives the number |
| Identifiers.IntToStringRoundTrip | php/Highscore.php:68-70 | ParseInt inverts the integer-to-string coercion |
| Identifiers.IntToStringInjective | php/Highscore.php:68-70 | two different integers never become the same key |
| Identifiers.IntToStringIsKey | php/Highscore.php:46-52 | a coerced integer is non-empty and has nothing for trim() to strip |
| Identifiers.Normalize | php/Highscore.php:44-60 | a value the sanitiser accepts becomes a non-empty, trimmed string |
| Identifiers.Coerce | php/Highscore.php:46-48 | after the numeric step no integer is left |
| Identifiers.TrimString | php/Highscore.php:50-52 | the trimming step keeps a string a string and leaves every other value a non-string |
| Identifiers.NormalizeAccepts | php/Highscore.php:54-59 | accepted exactly when the value is an integer or a string that is not blank; the empty string, blank strings, booleans, null, arrays and objects are rejected |
| Identifiers.NormalizeTrims | php/Highscore.php:72-73 | a non-blank string is accepted as its trimmed form |
| Identifiers.NormalizeInt | php/Highscore.php:68-69 | an integer is accepted as its decimal string, which reads back as the integer |
| Identifiers.NormalizeIntMatchesString | php/Highscore.php:66-82 | an integer id and its decimal string sanitise to the same key, so both address the same entry |
| Identifiers.NormalizeKeepsKeys | php/Highscore.php:66-82 | a non-empty, trimmed string comes back unchanged |
| Identifiers.NormalizeIdempotent | php/Highscore.php:177-181 | sanitising an already sanitised user id again, as decrement() does through increment(), changes nothing |
| Identifiers.NormalizeStripsSpaces | php/Highscore.php:66-82 | a key padded with one space on each side is accepted as the key |
| Identifiers.NormalizeExampleTrimmed | php/HighscoreTest.php:63-67 | `' trimmed '` is sanitised to `'trimmed'` |
| Identifiers.NormalizeExampleInteger | php/HighscoreTest.php:75-78 | the integer 12 is sanitised to `'12'` |
| SortedSet.Position | php/Highscore.php:219-222 | ZRANK: an answer is a zero-based index whose entry holds the member |
| SortedSet.PositionNoneIffAbsent | php/Highscore.php:219-223 | ZRANK answers none exactly when no entry holds the member |
| SortedSet.PositionOfPresent | php/Highscore.php:219-222 | with unique members, ZRANK answers the index of the entry holding the member |
| SortedSet.Score | php/Highscore.php:103-106 | ZSCORE: an answer is the score of a stored entry of the member |
| SortedSet.ScoreNoneIffAbsent | php/Highscore.php:103-106 | ZSCORE answers none exactly when no entry holds the member |
| SortedSet.ScoreOfPresent | php/Highscore.php:103-106 | with unique members, ZSCORE answers the score stored with the member |
| SortedSet.PositionsOfWindow | php/Highscore.php:233-255 | with unique members, the entries of a run of consecutive positions from `k` are found by ZRANK at `k`, `k + 1`, ... |
| SortedSet.Remove | php/Highscore.php:134-137 | ZREM: every entry of the member is gone and every other entry stays |
| SortedSet.Add | php/Highscore.php:118-122 | ZADD: the set holds the member with the new score |
| SortedSet.AddValid | php/Highscore.php:118-122 | ZADD keeps the set in ascending score order with unique members |
| SortedSet.ScoreAfterAdd | php/Highscore.php:114-124 | after ZADD, ZSCORE reads back the written score and every other member's score is unchanged |
| SortedSet.ScoreAfterRemove | php/Highscore.php:130-139 | after ZREM, ZSCORE of the removed member is none and every other member's score is unchanged |
| SortedSet.IncrBy | php/Highscore.php:163-167 | ZINCRBY: the set holds the member with the answered score |
| SortedSet.IncrByScore | php/Highscore.php:163-167 | ZINCRBY answers the old score (0 when absent) plus the delta, stores exactly that, keeps the set valid and leaves other members alone |
| SortedSet.IncrByUndone | php/Highscore.php:159-183 | incrementing by `up` and then by `down` with `up + down = 0` answers and stores the member's original score, or 0 when it had none |
| SortedSet.Range | php/Highscore.php:236-243 | ZRANGE with Redis's negative indices and clamping never returns more entries than the set holds |
| SortedSet.RangeWindow | php/Highscore.php:233-239 | a non-negative start with at least one position gives the entries from start on, at most `count` of them |
| SortedSet.RangeByScore | php/Highscore.php:264-272 | ZRANGEBYSCORE ... LIMIT returns at most `count` rows (all when count is negative), each a stored entry scoring within the range |
| SortedSet.AtLeastIsSuffix | php/Highscore.php:264-267 | in a sorted set, the entries scoring at least x are exactly those from position CountBelow(x) on |
| SortedSet.CountBelowAtMost | php/Highscore.php:215-224 | no more entries score below an entry's score than its zero-based position |
| SortedSet.CountBelowUnique | php/Highscore.php:215-224 | when no other entry shares an entry's score, exactly the entries before it score less |
| SortedSet.ScoreRangeIsWindow | php/Highscore.php:264-272 | the rows of a score listing are the consecutive entries from position CountBelow(start), as many as the limit allows |
| SortedSet.Count | php/Highscore.php:204-208 | ZCOUNT never exceeds the size of the set |
| SortedSet.CountIsMembers | php/Highscore.php:202-209 | with unique members, ZCOUNT equals the number of members scoring within the range |
| SortedSet.CountAll | php/Highscore.php:188-195 | ZCOUNT -inf +inf is the size of the set |
| SortedSet.RemoveRangeByScore | php/Highscore.php:146-150 | ZREMRANGEBYSCORE keeps exactly the entries scoring outside the range |
| SortedSet.RemoveAllEmpties | php/Highscore.php:144-152 | ZREMRANGEBYSCORE -inf +inf empties the set |
| SortedSet.RemovedAreCounted | php/Highscore.php:146-150 | the entries ZREMRANGEBYSCORE keeps plus those ZCOUNT counts over the same range add up to the size of the set |
| RedisModel.Redis.ZScore | php/Highscore.php:103-106 | answers ZSCORE on the set under the key |
| RedisModel.Redis.ZAdd | php/Highscore.php:118-122 | replaces the set under the key with its ZADD result and keeps every stored set valid |
| RedisModel.Redis.ZRem | php/Highscore.php:134-137 | replaces the set under the key with its ZREM result and keeps every stored set valid |
| RedisModel.Redis.ZRemRangeByScore | php/Highscore.php:146-150 | replaces the set under the key with its ZREMRANGEBYSCORE result and keeps every stored set valid |
| RedisModel.Redis.ZIncrBy | php/Highscore.php:163-167 | answers the ZINCRBY score and stores the ZINCRBY set under the key, keeping every stored set valid |
| RedisModel.Redis.ZCount | php/Highscore.php:190-194 | answers ZCOUNT on the set under the key |
| RedisModel.Redis.ZRank | php/Highscore.php:219-222 | answers ZRANK on the set under the key |
| RedisModel.Redis.ZRange | php/Highscore.php:236-243 | answers ZRANGE on the set under the key |
| RedisModel.Redis.ZRangeByScore | php/Highscore.php:264-272 | answers ZRANGEBYSCORE ... LIMIT on the set under the key |
| Leaderboard.RankOf | php/Highscore.php:215-224 | the user-id error exactly when the sanitiser rejects the id; otherwise a rank of at least 1, which for a present member is its zero-based position plus one |
| Leaderboard.RankCountsLowerScores | php/Highscore.php:215-224 | a present member's rank is above the number of members scoring less and at most the set size, and is that number plus one when no other member shares its score |
| Leaderboard.RankOfPresent | php/Highscore.php:215-224 | rank() of a sanitised member at zero-based position `i` is `i + 1` |
| Leaderboard.RankOfAbsent | php/Highscore.php:219-223 | an absent user reads as rank 1 |
| Leaderboard.ScoreListingPositions | php/Highscore.php:264-272 | the rows of the score listing stand at consecutive positions from CountBelow(start) |
| Leaderboard.ScoreListingFirstRank | php/Highscore.php:274 | when the first listed row holds a sanitised key, rank() of it is CountBelow(start) + 1 |
| Leaderboard.SanitisedRows | php/Highscore.php:264-274 | when every stored member is a sanitised key, so is every row of the score listing, the first among them |
| Leaderboard.DrawnKeepsSanitised | php/Highscore.php:264-274 | entries all drawn from a set of sanitised members hold sanitised keys |
| Leaderboard.WritesKeepSanitised | php/Highscore.php:114-168 | every write of the class keeps every stored member a sanitised key: ZADD and ZINCRBY of a sanitised id, as set() and increment() send, and ZREM and ZREMRANGEBYSCORE, as remove() and clear() send |
| Leaderboard.ScoreListingScores | php/Highscore.php:262-286 | the score listing has at most `limit` rows (any number for a negative limit), each scoring at least `start` |
| Leaderboard.Numbered | php/Highscore.php:277-283 | row `i` of a listing carries the user id and score of entry `i` and the rank `first + i` |
| Leaderboard.ScoreListingTrueRanks | php/Highscore.php:262-286 | numbered from CountBelow(start) + 1, every row's rank is its entry's true 1-based rank |
| Leaderboard.NumberedAtPositions | php/Highscore.php:274-283 | rows found at consecutive positions from `k`, numbered from `k + 1`, each carry their true 1-based rank |
| Leaderboard.RankListingWindow | php/Highscore.php:231-255 | for start and limit of at least 1, listByRank() lists the entries from zero-based position start-1 on, at most `limit` of them, numbered from 1 |
| Leaderboard.RankListingPositions | php/Highscore.php:231-255 | with unique members, row `i` of listByRank() is numbered `i + 1` while its entry stands at zero-based position `start - 1 + i` |
| Leaderboard.ZeroLimitListsAll | php/Highscore.php:233-239 | listByRank(1, 0) asks for ZRANGE 0 -1, which is the whole set |
| Leaderboard.ZeroStartListsLast | php/Highscore.php:233-239 | listByRank(0, 1) asks for ZRANGE -1 -1, which is the highest-scoring entry |
| Leaderboard.ListByRankExample | php/Highscore.php:231-255 | with A at 12 and B at 34, listByRank(1, 2) is `[{A,12,1},{B,34,2}]` |
| Leaderboard.ListByScoreExample | php/Highscore.php:262-286 | on the same set, listByScore(12, 2) finds both entries and, numbered from 1, lists `[{A,12,1},{B,34,2}]` |
| Leaderboard.ListByScoreExampleFirstRank | php/Highscore.php:274 | on the same set, rank() of A, the first row, is 1 |
| Leaderboard.Highscore.Sanitize | php/Highscore.php:44-60 | the stepwise sanitiser fails with the given error exactly when Normalize rejects the value, and otherwise yields Normalize's key |
| Leaderboard.Highscore.SanitizeNamespace | php/Highscore.php:44-60 | the namespace sanitiser, raising the namespace message |
| Leaderboard.Highscore.SanitizeUserId | php/Highscore.php:66-82 | the user-id sanitiser, raising the user-id message |
| Leaderboard.Highscore.constructor | php/Highscore.php:88-91 | stores the handle and an already sanitised namespace, which is `const` from then on |
| Leaderboard.Highscore.Create | php/Highscore.php:88-93 | `new Highscore`: the namespace error when the namespace is rejected; otherwise a fresh object holding the handle and the sanitised namespace, a non-empty trimmed key |
| Leaderboard.Highscore.Get | php/Highscore.php:99-107 | the user-id error, or ZSCORE of the sanitised id |
| Leaderboard.Highscore.Set | php/Highscore.php:114-124 | the user-id error with the store unchanged, or the given score returned unchanged with only the namespace's set replaced by its ZADD result |
| Leaderboard.Highscore.Remove | php/Highscore.php:130-139 | the user-id error with the store unchanged, or the object itself with the user's entry removed from the namespace only |
| Leaderboard.Highscore.Clear | php/Highscore.php:144-152 | answers the object itself and leaves the namespace's set empty, with every other key unchanged |
| Leaderboard.Highscore.Increment | php/Highscore.php:159-168 | the user-id error with the store unchanged, or the ZINCRBY score with only the namespace's set replaced |
| Leaderboard.Highscore.Decrement | php/Highscore.php:175-183 | exactly increment() by `-1 * delta`: the same error, answered score and new store |
| Leaderboard.Highscore.Count | php/Highscore.php:188-195 | the number of entries in the namespace |
| Leaderboard.Highscore.CountByScore | php/Highscore.php:202-209 | ZCOUNT over [min, max], which on a valid store is the number of users scoring within it |
| Leaderboard.Highscore.Rank | php/Highscore.php:215-224 | answers RankOf on the namespace's set, so at least 1 on success |
| Leaderboard.Highscore.NumberRows | php/Highscore.php:277-283 | the listing loop turns row i into `{userId, score, first + i}` for every row, in order |
| Leaderboard.Highscore.ListByRank | php/Highscore.php:231-255 | the ZRANGE rows of the zero-based window [start-1, start-1+limit-1], numbered from 1; at most `limit` rows when start and limit are at least 1 |
| Leaderboard.Highscore.ListByScore | php/Highscore.php:262-286 | rank()'s error, which is the user-id error when no row matches; otherwise the ZRANGEBYSCORE rows numbered from rank() of the first row, at least one and at most `limit` of them |
| Leaderboard.SetThenGet | php/Highscore.php:99-124 | get() after set() reads the score that was set |
| Leaderboard.IncrementThenDecrement | php/Highscore.php:159-183 | increment() then decrement() by the same amount leaves get() reading the original score, or 0 for a new user |
| Leaderboard.RemoveThenGet | php/Highscore.php:99-139 | get() reads null right after remove() |
| Leaderboard.ClearThenCount | php/Highscore.php:144-195 | count() is 0 right after clear() |

## Left out

- Floating-point values: scores and `(double)` casts are exact `real`s, with no IEEE-754 rounding.
  - A float namespace or user id, such as `1.2` becoming `"1.2"`, is not a `Value` of the model, because PHP's float-to-string formatting is not modelled.
  - A numeric string is a `Str`, because the cast leaves it unchanged.
- Leaderboard.Highscore.ListByRank: `start` and `limit` are integers. The PHP code casts them to doubles, and non-integral arguments are not modelled.
- Leaderboard.Highscore.ListByScore: `limit` is an integer. The PHP code sends `(double) $limit` as the LIMIT count, and a non-integral count, which Redis refuses, is not modelled.
- The Predis client, the connection and network I/O: Redis is the in-memory `RedisModel.Redis`. Reply conversions of the client, such as scores answered as strings, are not modelled.
- Error replies of the Redis server, which the client raises as exceptions, are not modelled: WRONGTYPE when the namespace key holds a value other than a sorted set, and the "not an integer" error for a fractional ZRANGE index or LIMIT count. Every key of the model holds a sorted set, and every command succeeds.
- Concurrency: commands run one at a time. The two separate commands of `listByScore` are not modelled as non-atomic against other writers.
- Redis orders equal scores by member name. The model places a newly written member after every entry with a score not above its own. The lemmas about ranks and listings hold for every set in ascending score order, whatever the order among equal scores.
- Leaderboard.ScoreListingFirstRank assumes the first listed row holds a sanitised key, and only then does the listing start from the true rank that ScoreListingTrueRanks describes. A member written to Redis by other code, with surrounding whitespace, is sanitised again by `rank()`, and the rank reported for it is not characterised.
- `getNamespace()` and `getRedis()` are called by the tests but are not part of the `Highscore` class, so they are not modelled.
- The PHPUnit bootstrap file (autoloading and include-path set-up) is not part of this model.
- The `Countable` interface is not modelled as such. Only `count()` is, as `Highscore.Count`.
