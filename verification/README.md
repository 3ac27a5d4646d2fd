# WeChat data analysis: a verified model of five cores

This project models, in Dafny, five pieces of the WeChatDataAnalysis backend.
It proves properties of each.

- **Monthly best-friends wall** (`wrapped/cards/card_04_monthly_best_friends_wall.py`).
  Messages from the chat search index arrive ordered by conversation and time.
  They are folded into one aggregate per (conversation, month): incoming and
  outgoing counts, replies and reply gaps, active days, and a 4-bit mask of
  six-hour time buckets. Each month's eligible aggregates are ranked by a tie
  key, the month's winner is picked, and the year is summarised as filled
  months plus a top champion. Modules `MonthAgg`, `ConversationFold` and
  `BestFriendsWall`.
- **Message-edit store** (`chat_edit_store.py`).
  - Message ids have the form `db:table:local_id` and are formatted and
    parsed (module `MessageId`).
  - Before a snapshot is stored, each blob becomes `0x…` hex text, and on
    loading it is turned back into bytes (module `BlobCodec`).
  - One edit record is kept per message (module `EditStore`). The store
    upserts the first snapshot only once, merges edited column names as a
    sorted lower-case set, moves a record to a new local id, gets and
    deletes records, and lists an account's sessions.
  - The SQLite table is modelled as a `map` from the five-part key to the
    row.
- **Common phrases card** (`wrapped/cards/card_05_keywords_wordcloud.py`).
  - The phrase filter that mirrors WeFlow and the keyword token normaliser,
    with its stopword lists (modules `Stopwords`, `KeywordText`).
  - The `(-count, word)` ranking with its minimum-count cut and top-N
    (module `KeywordRanking`).
  - Example picking in two passes: unique messages first, then repeats
    (module `PhraseExamples`).
  - The common-phrases payload (module `PhrasePayload`).
- **SNS stage timing headers** (`sns_stage_timing.py`).
  - Builds the `Server-Timing` metrics `sns_source_*`, `sns_hit_*` and
    `sns_xenc_*`, with a sanitised token and an escaped description.
  - Sets `Timing-Allow-Origin`.
  - Appends to an upstream `Server-Timing` value unless a source metric is
    already there.
  - Module `StageTiming`.
- **Path checks on request bodies** (`path_fix.py`).
  - The absolute-path test for Windows and Unix.
  - The `db_storage_path` validation, with its three error messages.
  - The regular-expression repair that doubles lone backslashes in quoted
    paths.
  - Module `PathFix`.

Shared modules:

- `Wrappers` holds `Option` and `Result`.
- `Text` holds Python's `strip`, `startswith`, substring `in`, ASCII `lower`
  and code-point string order, and `str(int)`.
- `Json` holds the value tree that the JSON and Python objects are modelled
  as.

Conventions:

- Every source function whose outcome can fail returns `Option` or
  `Result`. An exception the source raises, or a `None` or `False` it
  returns, becomes an `Err`, a `None` or a `false` flag in the model.
- Clocks, randomness, the database and the filesystem are parameters, or are
  left out as listed below.

## Model

| member | source | states |
|---|---|---|
| MonthAgg.TimeBucketCount | src/wechat_decrypt_tool/wrapped/cards/card_04_monthly_best_friends_wall.py:68-71 | the bit count of the low four mask bits equals the number of distinct time buckets seen, at most 4 |
| MonthAgg.BucketCountIsCardinality | src/wechat_decrypt_tool/wrapped/cards/card_04_monthly_best_friends_wall.py:69-71 | for every 4-bit mask, the sum of its four bits is the size of the set of buckets it marks |
| MonthAgg.BucketOf | src/wechat_decrypt_tool/wrapped/cards/card_04_monthly_best_friends_wall.py:86 | the bucket is clamped to 0..3; for hours 0..23 it is the six-hour window that contains the hour |
| MonthAgg.SetBucket | src/wechat_decrypt_tool/wrapped/cards/card_04_monthly_best_friends_wall.py:87 | or-ing in bit `b` adds exactly bucket `b` to the marked set |
| MonthAgg.Observe | src/wechat_decrypt_tool/wrapped/cards/card_04_monthly_best_friends_wall.py:83-87 | the hour's bucket is added to the mask; the day is added only when it is in 1..31; no counter changes |
| ConversationFold.Record | src/wechat_decrypt_tool/wrapped/cards/card_04_monthly_best_friends_wall.py:224-235 | only the five counters change. An incoming message adds one to incoming, leaves every other counter alone and becomes the pending time. An outgoing message adds one to outgoing. When a pending time p ≤ ts exists it also adds one reply, adds the gap ts - p to the raw sum and min(gap, 6 h) to the capped sum, and clears p. Otherwise replies, both sums and p stay. Well-formedness is kept |
| ConversationFold.OrderedIsGrouped | src/wechat_decrypt_tool/wrapped/cards/card_04_monthly_best_friends_wall.py:177 | the `ORDER BY username` row order puts each conversation's rows next to each other |
| ConversationFold.FlushKeepsInv | src/wechat_decrypt_tool/wrapped/cards/card_04_monthly_best_friends_wall.py:186-194 | flushing keeps the pool invariant, keeps the current name, and empties the per-month table and the pending time |
| ConversationFold.StepKeepsInv | src/wechat_decrypt_tool/wrapped/cards/card_04_monthly_best_friends_wall.py:196-235 | one row keeps the fold invariant: every pooled aggregate is well formed, has a total above 0, and belongs to the pool of its month |
| ConversationFold.FoldKeepsInv | src/wechat_decrypt_tool/wrapped/cards/card_04_monthly_best_friends_wall.py:196-237 | the invariant holds after any row sequence |
| ConversationFold.PoolsWellFormed | src/wechat_decrypt_tool/wrapped/cards/card_04_monthly_best_friends_wall.py:186-237 | every aggregate in the twelve final pools is well formed, non-empty and in its month's pool |
| ConversationFold.StepShape | src/wechat_decrypt_tool/wrapped/cards/card_04_monthly_best_friends_wall.py:204-210 | a valid row of a new conversation flushes the old one; an invalid row (non-positive time, blank name) changes neither the pools nor the current name |
| ConversationFold.StepTracks | src/wechat_decrypt_tool/wrapped/cards/card_04_monthly_best_friends_wall.py:207-209 | on grouped input each pool holds at most one aggregate per conversation after every row |
| ConversationFold.FoldTracks | src/wechat_decrypt_tool/wrapped/cards/card_04_monthly_best_friends_wall.py:196-237 | the one-aggregate-per-conversation invariant holds after the whole grouped row sequence |
| ConversationFold.PoolsDistinct | src/wechat_decrypt_tool/wrapped/cards/card_04_monthly_best_friends_wall.py:186-237 | on grouped input no month pool lists a conversation twice |
| ConversationFold.StepWithinConversation | src/wechat_decrypt_tool/wrapped/cards/card_04_monthly_best_friends_wall.py:211-235 | a kept row of the current conversation only updates that month's aggregate, created fresh when missing, through observe and the reply tracking |
| ConversationFold.ReplyScenario | src/wechat_decrypt_tool/wrapped/cards/card_04_monthly_best_friends_wall.py:224-235 | incoming at t, then outgoing at t+60 and t+120: one aggregate with 1 in, 2 out, 1 reply and gap 60; only the first answer counts |
| BestFriendsWall.EligibleOf | src/wechat_decrypt_tool/wrapped/cards/card_04_monthly_best_friends_wall.py:269-279 | keeps exactly the aggregates that reach the four minimums (8 messages, interaction 3, 1 reply, 2 active days) and keeps distinct names distinct |
| BestFriendsWall.MaxOf | src/wechat_decrypt_tool/wrapped/cards/card_04_monthly_best_friends_wall.py:284-285 | the result bounds every value and is attained |
| BestFriendsWall.KeyLessTransitive | src/wechat_decrypt_tool/wrapped/cards/card_04_monthly_best_friends_wall.py:295-303 | the five-part tie key order is transitive |
| BestFriendsWall.KeyLessTotal | src/wechat_decrypt_tool/wrapped/cards/card_04_monthly_best_friends_wall.py:295-303 | any two keys are ordered one way or the other, or are equal |
| BestFriendsWall.ArgBest | src/wechat_decrypt_tool/wrapped/cards/card_04_monthly_best_friends_wall.py:303-304 | the chosen index is a minimum of the tie key, and it is the first such index |
| BestFriendsWall.DecideMonth | src/wechat_decrypt_tool/wrapped/cards/card_04_monthly_best_friends_wall.py:267-309 | there is no winner, with reason insufficient_data, exactly when no aggregate is eligible. Otherwise the winner is an eligible pool member that no eligible member beats on the tie key, and it carries its own score |
| BestFriendsWall.WinnerUnique | src/wechat_decrypt_tool/wrapped/cards/card_04_monthly_best_friends_wall.py:295-304 | with distinct names, any eligible aggregate that no one beats is the winner: the tie key breaks all ties |
| BestFriendsWall.ChampionFrom | src/wechat_decrypt_tool/wrapped/cards/card_04_monthly_best_friends_wall.py:374-386 | there is no champion exactly when no month has a named winner. Otherwise the champion is a winner whom no winner beats on (more months won, smaller name) |
| BestFriendsWall.FilledExact | src/wechat_decrypt_tool/wrapped/cards/card_04_monthly_best_friends_wall.py:397 | the filled months are exactly the months with a winner, in increasing order |
| BestFriendsWall.WinCountIsMonthsWon | src/wechat_decrypt_tool/wrapped/cards/card_04_monthly_best_friends_wall.py:374-382 | a name's count in the winner list equals the number of months it won |
| BestFriendsWall.ChampionSummary | src/wechat_decrypt_tool/wrapped/cards/card_04_monthly_best_friends_wall.py:383-395 | the champion exists exactly when some month is filled. Its monthsWon is its number of won months, at least 1, and no other winner beats it |
| BestFriendsWall.MonthPoolsFacts | src/wechat_decrypt_tool/wrapped/cards/card_04_monthly_best_friends_wall.py:138-237 | pooled aggregates are named and no month pool names a conversation twice |
| BestFriendsWall.DecideAll | src/wechat_decrypt_tool/wrapped/cards/card_04_monthly_best_friends_wall.py:267-334 | months 1..12 in order, each decided from its own pool |
| BestFriendsWall.Compute | src/wechat_decrypt_tool/wrapped/cards/card_04_monthly_best_friends_wall.py:119-406 | twelve months. The index is used iff it is ready and the user is known; without it no month has a winner. filledMonths is exactly the winning months, increasing, with monthsWithWinner its length. topChampion has the properties above |
| BestFriendsWall.MaskName | src/wechat_decrypt_tool/wrapped/cards/card_04_monthly_best_friends_wall.py:33-41 | the mask has the stripped name's length. It keeps the first character when there are 2 or more and the last when there are 3 or more; every other character is `*` |
| MessageId.FindColon | src/wechat_decrypt_tool/chat_edit_store.py:87 | the index of the first colon, or none exactly when there is no colon |
| MessageId.Split3 | src/wechat_decrypt_tool/chat_edit_store.py:87-89 | a successful split rebuilds the text with two colons, and the first two parts hold no colon |
| MessageId.Split3Unique | src/wechat_decrypt_tool/chat_edit_store.py:87 | `split(":", 2)` of `a:b:c`, with a and b colon-free, yields (a, b, c); the third part may hold colons |
| MessageId.ParseIntOfIntToStr | src/wechat_decrypt_tool/chat_edit_store.py:93 | `int(str(n)) == n` for every integer |
| MessageId.Parse | src/wechat_decrypt_tool/chat_edit_store.py:86-98 | succeeds exactly when `split(":", 2)` gives three parts, the first two strip to non-blank text, and `int(part or 0)` of the third parses to a positive id. It then returns the stripped parts and that id. Every failure is the single "Invalid message_id format." error |
| MessageId.RejectsNonIntegerId | src/wechat_decrypt_tool/chat_edit_store.py:91-94 | `db:table:x` is rejected whenever `int(x or 0)` fails, whatever db and table hold |
| MessageId.ParseFormat | src/wechat_decrypt_tool/chat_edit_store.py:82-98 | parsing a formatted id succeeds iff the stripped db and table are non-blank and the id is positive; it then returns the stripped parts |
| MessageId.ParseIsCanonical | src/wechat_decrypt_tool/chat_edit_store.py:82-98 | re-formatting a parsed id and parsing again gives the same id |
| BlobCodec.BytesToHex | src/wechat_decrypt_tool/chat_edit_store.py:101-102 | `0x` followed by two lower-case hex digits per byte |
| BlobCodec.HexToBytes | src/wechat_decrypt_tool/chat_edit_store.py:105-115 | decodes exactly when the stripped text is `0x` and a non-empty, even-length run of hex digits; the bytes are half the digit count |
| BlobCodec.HexRoundTrip | src/wechat_decrypt_tool/chat_edit_store.py:101-115 | decoding an encoded byte string gives it back, except that the empty string does not decode |
| BlobCodec.HexOfFromHex | src/wechat_decrypt_tool/chat_edit_store.py:113 | re-encoding decoded hex gives its lower-case form |
| BlobCodec.HexNormalForm | src/wechat_decrypt_tool/chat_edit_store.py:101-115 | any decodable text re-encodes to its stripped lower-case form |
| BlobCodec.RejectsMissingPrefix | src/wechat_decrypt_tool/chat_edit_store.py:107-108 | text without the `0x` prefix never decodes |
| BlobCodec.Jsonify | src/wechat_decrypt_tool/chat_edit_store.py:118-127 | the result holds no bytes and no tuples, so it is plain JSON data |
| BlobCodec.BlobRoundTrip | src/wechat_decrypt_tool/chat_edit_store.py:118-140 | loading a stored snapshot gives the original value, with tuples as lists. This holds when it has no empty blob and no text that itself reads as hex |
| BlobCodec.JsonifyFixesJsonData | src/wechat_decrypt_tool/chat_edit_store.py:118-127 | plain JSON data is stored unchanged |
| BlobCodec.JsonifyIdempotent | src/wechat_decrypt_tool/chat_edit_store.py:118-127 | storing twice is storing once |
| BlobCodec.EmptyBytesComeBackAsText | src/wechat_decrypt_tool/chat_edit_store.py:101-115 | an empty blob is stored as `0x` and loads back as the text `0x`, not as bytes |
| EditStore.UpsertAt | src/wechat_decrypt_tool/chat_edit_store.py:171-206 | only key k is touched. A new key gets first = last = now, count 1, the stored snapshot and resource, and no columns. An existing key gets last = now and count + 1, and its snapshot, resource, columns and first time stay |
| EditStore.Upsert | src/wechat_decrypt_tool/chat_edit_store.py:151-206 | fails with the missing-keys error exactly when a part is blank or the id ≤ 0; otherwise upserts at the stripped key |
| EditStore.UpsertKeepsInv | src/wechat_decrypt_tool/chat_edit_store.py:151-206 | upserting keeps the table invariant: normal keys, count ≥ 1, JSON-data snapshots, sorted lower-case columns |
| EditStore.UpsertTwice | src/wechat_decrypt_tool/chat_edit_store.py:162-206 | two upserts keep the first snapshot and first time, take the second time and count 2 |
| EditStore.SnapshotLoads | src/wechat_decrypt_tool/chat_edit_store.py:143-172 | the stored snapshot loads back as the original message, tuples as lists; a falsy message (missing, empty or zero) loads back as `{}` |
| EditStore.ParseStrList | src/wechat_decrypt_tool/chat_edit_store.py:216-230 | every entry read back from the column list is non-blank and stripped |
| EditStore.InsertSorted | src/wechat_decrypt_tool/chat_edit_store.py:274-275 | inserting into a strictly sorted list keeps it strictly sorted and adds exactly the new element |
| EditStore.SortedSet | src/wechat_decrypt_tool/chat_edit_store.py:275 | `sorted(set)`: strictly increasing, with exactly the input's elements |
| EditStore.SortedUnique | src/wechat_decrypt_tool/chat_edit_store.py:275 | two strictly sorted lists with the same elements are equal |
| EditStore.MergeAt | src/wechat_decrypt_tool/chat_edit_store.py:254-286 | nothing to merge returns true and leaves the table. A missing row returns false and leaves it. Otherwise only that row's column list changes, to the sorted lower-case union of the old and new names |
| EditStore.Merge | src/wechat_decrypt_tool/chat_edit_store.py:246-252 | a blank key part or an id ≤ 0 returns false with no change; otherwise it merges at the stripped key |
| EditStore.ParseStrs | src/wechat_decrypt_tool/chat_edit_store.py:216-230 | a written column list reads back as itself |
| EditStore.MergeIdempotent | src/wechat_decrypt_tool/chat_edit_store.py:233-292 | merging the same columns twice is merging them once |
| EditStore.MergeKeepsInv | src/wechat_decrypt_tool/chat_edit_store.py:233-292 | merging keeps the table invariant, so stored column lists stay sorted lower-case names |
| EditStore.MoveAt | src/wechat_decrypt_tool/chat_edit_store.py:470-481 | succeeds iff the old row exists and the new key is free, which is the unique-key clash; on success the row moves unchanged, otherwise nothing changes |
| EditStore.MoveLocalId | src/wechat_decrypt_tool/chat_edit_store.py:456-481 | a blank part or a non-positive id is false with no change; the same id is true with no change; otherwise it moves |
| EditStore.MoveKeepsInv | src/wechat_decrypt_tool/chat_edit_store.py:446-481 | moving to a positive id keeps the table invariant |
| EditStore.MoveAndBack | src/wechat_decrypt_tool/chat_edit_store.py:446-481 | a successful move followed by a move back restores the table |
| EditStore.RequestKey | src/wechat_decrypt_tool/chat_edit_store.py:382-389 | a lookup key exists only for non-blank account and session and a parsable message id, and it is a normal key |
| EditStore.GetEdit | src/wechat_decrypt_tool/chat_edit_store.py:381-407 | returns a row exactly when the request key is in the table; the row is that key's record, and its message id parses back to the key |
| EditStore.Delete | src/wechat_decrypt_tool/chat_edit_store.py:416-437 | returns true exactly when the request key was in the table, and it removes just that key |
| EditStore.DeleteKeepsInv | src/wechat_decrypt_tool/chat_edit_store.py:416-437 | deleting keeps the table invariant |
| EditStore.DeleteTwice | src/wechat_decrypt_tool/chat_edit_store.py:416-437 | a second delete of the same id returns false and changes nothing |
| EditStore.UpsertThenGet | src/wechat_decrypt_tool/chat_edit_store.py:151-207 | after an upsert, getting the formatted id returns the stored row with that id |
| EditStore.MoveThenGet | src/wechat_decrypt_tool/chat_edit_store.py:446-479 | after a successful move the old id is no longer found and the new one is |
| EditStore.InsertDescending | src/wechat_decrypt_tool/chat_edit_store.py:318 | inserting keeps the list in descending last-edit order and adds exactly the new entry |
| EditStore.GroupStat | src/wechat_decrypt_tool/chat_edit_store.py:314-317 | the group entry has the stripped session, the number of rows in the group (at least 1) and the latest edit time among them |
| EditStore.CollectStats | src/wechat_decrypt_tool/chat_edit_store.py:312-336 | in descending last-edit order: one entry per session with a non-blank stripped value, nothing else, each from its group |
| EditStore.ListSessions | src/wechat_decrypt_tool/chat_edit_store.py:304-337 | a blank account gives nothing. Otherwise there is exactly one entry per group of the stripped account whose session is non-blank, in descending last-edit order |
| KeywordText.DropNoise | src/wechat_decrypt_tool/wrapped/cards/card_05_keywords_wordcloud.py:435-436 | the result has no zero-width and no control characters, and text that has none is unchanged |
| KeywordText.PhraseOrEmpty | src/wechat_decrypt_tool/wrapped/cards/card_05_keywords_wordcloud.py:421-449 | the phrase is either empty or the cleaned, stripped text. It is non-empty exactly when the cleaned text is 2..20 characters long, holds no "http" and no `<`, and does not start with `[` |
| KeywordText.PhraseIdempotent | src/wechat_decrypt_tool/wrapped/cards/card_05_keywords_wordcloud.py:421-449 | filtering a phrase again returns it unchanged |
| KeywordText.PhraseIgnoresNoise | src/wechat_decrypt_tool/wrapped/cards/card_05_keywords_wordcloud.py:435-436 | inserting a zero-width space, a byte-order mark or a control character anywhere in a message leaves its phrase unchanged |
| KeywordText.PhraseRejectsShortAndBracketed | src/wechat_decrypt_tool/wrapped/cards/card_05_keywords_wordcloud.py:441-448 | a one-character message and a bracketed sticker name are not phrases |
| KeywordText.DigitCount | src/wechat_decrypt_tool/wrapped/cards/card_05_keywords_wordcloud.py:261 | the count of digits is positive exactly when the text has a digit |
| KeywordText.DateishHasDigit | src/wechat_decrypt_tool/wrapped/cards/card_05_keywords_wordcloud.py:32-39 | every date- or time-shaped token holds a digit |
| KeywordText.KeepToken | src/wechat_decrypt_tool/wrapped/cards/card_05_keywords_wordcloud.py:268-282 | a kept token is a CJK token (2..8 long, no stopword) kept as is, or a 3..16-letter English word lower-cased and not a stopword |
| KeywordText.NormalizeToken | src/wechat_decrypt_tool/wrapped/cards/card_05_keywords_wordcloud.py:243-282 | the result is empty, a CJK token or an English token, with no punctuation at either end |
| KeywordText.NormalizeIdempotent | src/wechat_decrypt_tool/wrapped/cards/card_05_keywords_wordcloud.py:243-282 | normalising a normalised token changes nothing |
| KeywordText.NormalizeLowersEnglish | src/wechat_decrypt_tool/wrapped/cards/card_05_keywords_wordcloud.py:243-280 | every 3..16-letter English word whose lower-case form is not a stopword is counted lower-cased |
| KeywordText.NormalizeKeepsCjk | src/wechat_decrypt_tool/wrapped/cards/card_05_keywords_wordcloud.py:243-274 | every 2..8-character Chinese token with no digit, no punctuation at either end and not a stopword is counted as is |
| KeywordText.NormalizeDropsStopword | src/wechat_decrypt_tool/wrapped/cards/card_05_keywords_wordcloud.py:272-273 | the stopword 哈哈 is dropped |
| KeywordText.NormalizeDropsDigits | src/wechat_decrypt_tool/wrapped/cards/card_05_keywords_wordcloud.py:265-266 | a token with digits is dropped |
| KeywordRanking.BeforeTransitive | src/wechat_decrypt_tool/wrapped/cards/card_05_keywords_wordcloud.py:467 | the `(-count, word)` order is transitive |
| KeywordRanking.BeforeTotal | src/wechat_decrypt_tool/wrapped/cards/card_05_keywords_wordcloud.py:467 | any two distinct entries are ordered one way or the other |
| KeywordRanking.Sort | src/wechat_decrypt_tool/wrapped/cards/card_05_keywords_wordcloud.py:467 | the result is sorted by `(-count, word)` and is a permutation of the input |
| KeywordRanking.SortedUnique | src/wechat_decrypt_tool/wrapped/cards/card_05_keywords_wordcloud.py:467 | two sorted permutations of the same entries are equal, so the order is fully determined |
| KeywordRanking.Kept | src/wechat_decrypt_tool/wrapped/cards/card_05_keywords_wordcloud.py:463 | exactly the entries with count ≥ the minimum |
| KeywordRanking.Ranking | src/wechat_decrypt_tool/wrapped/cards/card_05_keywords_wordcloud.py:463-468 | sorted, drawn from the kept entries, and of length min(max(0, top_n), number kept) |
| KeywordRanking.RankingIsTop | src/wechat_decrypt_tool/wrapped/cards/card_05_keywords_wordcloud.py:467-468 | no kept entry that was cut off comes before any ranked entry |
| KeywordRanking.RankingOrderIndependent | src/wechat_decrypt_tool/wrapped/cards/card_05_keywords_wordcloud.py:463-468 | the ranking does not depend on the counter's iteration order |
| KeywordRanking.PhraseRanking | src/wechat_decrypt_tool/wrapped/cards/card_05_keywords_wordcloud.py:463-470 | phrases with count ≥ 2, sorted; empty exactly when top_n ≤ 0 or no phrase repeats |
| KeywordRanking.KeywordRanking | src/wechat_decrypt_tool/wrapped/cards/card_05_keywords_wordcloud.py:318-324 | keeps words seen more than once when any is, otherwise every counted word, sorted |
| KeywordRanking.RankingExample | src/wechat_decrypt_tool/wrapped/cards/card_05_keywords_wordcloud.py:463-468 | the counts 好的 5, 在吗 2, movie 2, 单次 1 rank as 好的, movie, 在吗 |
| PhraseExamples.CleanPool | src/wechat_decrypt_tool/wrapped/cards/card_05_keywords_wordcloud.py:348 | only non-empty cleaned messages remain |
| PhraseExamples.DedupFacts | src/wechat_decrypt_tool/wrapped/cards/card_05_keywords_wordcloud.py:349 | the same elements, each once |
| PhraseExamples.FilterMembers | src/wechat_decrypt_tool/wrapped/cards/card_05_keywords_wordcloud.py:369-381 | the matches are exactly the messages that satisfy the predicate |
| PhraseExamples.TopUp | src/wechat_decrypt_tool/wrapped/cards/card_05_keywords_wordcloud.py:376-381 | the second pass appends matches from the full pool until the limit |
| PhraseExamples.PickHits | src/wechat_decrypt_tool/wrapped/cards/card_05_keywords_wordcloud.py:368-381 | the two passes compute the first `limit` matches of the unique pool, then of the full pool |
| PhraseExamples.PickForShape | src/wechat_decrypt_tool/wrapped/cards/card_05_keywords_wordcloud.py:358-381 | at most `limit` hits, all matching messages of the pool. None exactly when nothing matches. The unique matches come first, and the hits are distinct when enough unique matches exist |
| PhraseExamples.Limit | src/wechat_decrypt_tool/wrapped/cards/card_05_keywords_wordcloud.py:359 | the limit is at least 1 and at least per_word |
| PhraseExamples.PickExamplesShape | src/wechat_decrypt_tool/wrapped/cards/card_05_keywords_wordcloud.py:342-385 | one entry per non-blank keyword, in order, with its stripped word. Each holds at most `limit` matching messages from the cleaned pool, and none exactly when none match |
| PhraseExamples.PickFillsWithRepeats | src/wechat_decrypt_tool/wrapped/cards/card_05_keywords_wordcloud.py:368-381 | for 在吗 with limit 3, the unique 在吗 and 在吗？ come first and a repeated 在吗 fills the third slot |
| PhrasePayload.KeywordsOf | src/wechat_decrypt_tool/wrapped/cards/card_05_keywords_wordcloud.py:476-482 | one keyword per ranked entry, in order, with its word and count |
| PhrasePayload.Finish | src/wechat_decrypt_tool/wrapped/cards/card_05_keywords_wordcloud.py:495-501 | the example keeps the first per_word stripped, non-blank messages. If there are none, it falls back to the stripped word itself, or to nothing when the word is blank |
| PhrasePayload.SelfExamples | src/wechat_decrypt_tool/wrapped/cards/card_05_keywords_wordcloud.py:503 | with no example texts, each keyword is its own single example |
| PhrasePayload.SampledExamples | src/wechat_decrypt_tool/wrapped/cards/card_05_keywords_wordcloud.py:492-501 | one example per non-blank keyword, in keyword order, with that keyword's word and count and 1..per_word messages. Each message is the stripped text of a cleaned sample that illustrates the word, or the word itself; when no cleaned sample illustrates the word, the messages are exactly `[word]` |
| PhrasePayload.FinishOfPick | src/wechat_decrypt_tool/wrapped/cards/card_05_keywords_wordcloud.py:495-501 | finishing picks that illustrate a word leaves only stripped illustrations or the word, and `[word]` when the pool has none |
| PhrasePayload.CommonPhrasesPayload | src/wechat_decrypt_tool/wrapped/cards/card_05_keywords_wordcloud.py:452-512 | the empty payload exactly when the ranking is empty. keywords is the ranking; topKeyword is its head. Examples are the keywords themselves when there are no texts. Otherwise there is one example per non-blank keyword, in order, with its word and count and 1..per_word messages, and the fallback `[word]` when no cleaned sample illustrates it |
| PhrasePayload.PayloadKeywords | src/wechat_decrypt_tool/wrapped/cards/card_05_keywords_wordcloud.py:463-482 | every keyword is a counted phrase with count ≥ 2; later keywords never come before earlier ones; there are at most top_n |
| PhrasePayload.BubblePool | src/wechat_decrypt_tool/wrapped/cards/card_05_keywords_wordcloud.py:485-486 | distinct and non-empty. It holds every non-blank stripped phrase of the counter, and nothing else |
| StageTiming.Sanitize | src/wechat_decrypt_tool/sns_stage_timing.py:38 | the result has only `[0-9A-Za-z_.-]`, is no longer than the input, and leaves safe text unchanged; it has a non-underscore safe character exactly when the input does |
| StageTiming.Token | src/wechat_decrypt_tool/sns_stage_timing.py:33-41 | a safe token of at most 64 characters that does not start with `_`; it is empty exactly when the stripped value has no letter, digit, `.` or `-` |
| StageTiming.TokenOfToken | src/wechat_decrypt_tool/sns_stage_timing.py:33-41 | a clean token is its own token |
| StageTiming.UnescapeEsc | src/wechat_decrypt_tool/sns_stage_timing.py:30-31 | unescaping the escaped description gives it back |
| StageTiming.EscHasNoBareQuote | src/wechat_decrypt_tool/sns_stage_timing.py:30-31 | every `"` in an escaped description is preceded by a backslash, so the quoted desc cannot end early |
| StageTiming.Metric | src/wechat_decrypt_tool/sns_stage_timing.py:45 | a metric starts with its name and ends with the closing quote |
| StageTiming.Metrics | src/wechat_decrypt_tool/sns_stage_timing.py:43-53 | the source metric comes first, named from its token or "unknown". The hit and xenc metrics follow only when their tokens are non-empty, so there are 1..3 metrics |
| StageTiming.HitIsNotXenc | src/wechat_decrypt_tool/sns_stage_timing.py:49-53 | a hit metric never equals an xenc metric |
| StageTiming.Join | src/wechat_decrypt_tool/sns_stage_timing.py:61 | the joined text starts with the first part and ends with a quote when the last part does |
| StageTiming.AllowOrigin | src/wechat_decrypt_tool/sns_stage_timing.py:27-28 | Timing-Allow-Origin is set to `*` only when missing; every other header is untouched |
| StageTiming.Inject | src/wechat_decrypt_tool/sns_stage_timing.py:20-62 | a blank source leaves the headers alone. Otherwise Timing-Allow-Origin is present (kept or `*`), and nothing but the two timing headers changes |
| StageTiming.InjectedValue | src/wechat_decrypt_tool/sns_stage_timing.py:55-62 | when the existing value is non-blank and the guard fires, Server-Timing is kept; otherwise it becomes the stripped existing value, then ", ", then the new metrics, or just the metrics |
| StageTiming.InjectsWhenMissing | src/wechat_decrypt_tool/sns_stage_timing.py:55-62 | (corrected guard) without Server-Timing the header starts with the `sns_source_` metric of the source token |
| StageTiming.AppendsAfterUpstream | src/wechat_decrypt_tool/sns_stage_timing.py:61-62 | (corrected guard) an upstream value without a source metric is kept in front, followed by ", sns_source_" |
| StageTiming.LeadingMetricIsKept | src/wechat_decrypt_tool/sns_stage_timing.py:58-59 | a value that already starts with a source metric is left unchanged, by both the written and the intended guard |
| StageTiming.AddTimingHeadersMarks | src/wechat_decrypt_tool/sns_stage_timing.py:20-62 | (corrected guard) after injection Server-Timing is non-blank and contains a source metric that the guard finds |
| StageTiming.AddTimingHeadersIdempotent | src/wechat_decrypt_tool/sns_stage_timing.py:55-62 | with the comma-and-whitespace guard, injecting twice equals injecting once |
| StageTiming.AsWrittenNeedsBackslash | src/wechat_decrypt_tool/sns_stage_timing.py:58 | on text without a backslash, the guard as written only finds a source metric at the very start |
| StageTiming.AsWrittenCommaBranch | src/wechat_decrypt_tool/sns_stage_timing.py:58 | the written comma branch matches only a literal `,\` before the metric |
| StageTiming.AsWrittenAppends | src/wechat_decrypt_tool/sns_stage_timing.py:55-62 | behind a non-blank upstream value with no backslash that does not start with `s`, the written guard lets the stage metrics be appended after ", " |
| StageTiming.AsWrittenAppendsTwice | src/wechat_decrypt_tool/sns_stage_timing.py:55-62 | behind such an upstream value, with metrics that hold no backslash, a second call with the written guard appends the same metrics again |
| StageTiming.IntendedAppendsOnce | src/wechat_decrypt_tool/sns_stage_timing.py:55-62 | behind any non-blank upstream value without a source metric, the intended guard appends the metrics once and a second call changes nothing |
| StageTiming.AsWrittenDuplicatesSourceMetric | src/wechat_decrypt_tool/sns_stage_timing.py:55-62 | with upstream "edge;dur=1", two calls with source "proxy" append the source metric twice |
| StageTiming.IntendedKeepsOneSourceMetric | src/wechat_decrypt_tool/sns_stage_timing.py:55-62 | with the intended guard the second call leaves the headers as the first call left them |
| PathFix.AbsoluteExamples | src/wechat_decrypt_tool/path_fix.py:17-30 | drive letter + `:` + a slash or backslash, or a leading `/`, is absolute. "", "C:", "C:x", "dir\x", " /home" and "1:/x" are not |
| PathFix.AbsoluteExtends | src/wechat_decrypt_tool/path_fix.py:17-30 | the test only looks at a prefix: extending an absolute path keeps it absolute |
| PathFix.RelativeMessage | src/wechat_decrypt_tool/path_fix.py:50-51 | the relative-path message starts with its fixed head and quotes the offending path |
| PathFix.MessagesDistinct | src/wechat_decrypt_tool/path_fix.py:36-52 | the three error messages are pairwise different |
| PathFix.EarlyCheck | src/wechat_decrypt_tool/path_fix.py:36-52 | a missing key is rejected first. A falsy or blank value gets the blank message. A truthy non-text value fails on `.strip()`. A non-blank relative text path gets the relative-path message quoting it. Only a non-blank absolute text path goes on to the filesystem checks |
| PathFix.ValidatePaths | src/wechat_decrypt_tool/path_fix.py:32-53 | the call fails exactly for a truthy non-text value. It reports no problem exactly when the path is non-blank, absolute, and passes the filesystem probe |
| PathFix.RejectedBeforeProbe | src/wechat_decrypt_tool/path_fix.py:36-52 | a body rejected by the early checks gets the same answer whatever the filesystem says |
| PathFix.AbsolutePathIsProbed | src/wechat_decrypt_tool/path_fix.py:47-53 | a non-blank absolute path's answer is the filesystem probe's |
| PathFix.BlankIsReported | src/wechat_decrypt_tool/path_fix.py:39-44 | a falsy value, or a text value that strips to nothing, gets the blank message whatever the filesystem says |
| PathFix.RelativeIsReported | src/wechat_decrypt_tool/path_fix.py:47-52 | a non-blank text path that fails the absolute test gets the relative-path message quoting it |
| PathFix.PaddedAbsoluteIsRelative | src/wechat_decrypt_tool/path_fix.py:43-52 | any absolute path with one leading space is not blank, yet counts as relative, because the test sees the unstripped path |
| PathFix.NonStringExample | src/wechat_decrypt_tool/path_fix.py:43 | the number 5 fails: `.strip()` is called on a non-text value |
| PathFix.FixFrom | src/wechat_decrypt_tool/path_fix.py:154 | the repair never shortens and keeps the first character |
| PathFix.NoLoneFrom | src/wechat_decrypt_tool/path_fix.py:154 | the scan's notion of a lone backslash agrees with the look-around definition: not preceded and not followed by a backslash |
| PathFix.FixFromLeavesNoLone | src/wechat_decrypt_tool/path_fix.py:154 | no lone backslash is left after repair |
| PathFix.FixFromLength | src/wechat_decrypt_tool/path_fix.py:154 | the repair adds one character per lone backslash, and nothing when there are none |
| PathFix.FixFromKeepsOthers | src/wechat_decrypt_tool/path_fix.py:154 | the repair only inserts backslashes: with every backslash removed, the repaired and the original string are equal |
| PathFix.FixBackslashesIdempotent | src/wechat_decrypt_tool/path_fix.py:154 | repairing a repaired path changes nothing |
| PathFix.FixBackslashesChanges | src/wechat_decrypt_tool/path_fix.py:154 | the repair leaves a path unchanged exactly when it has no lone backslash |
| PathFix.FixKeepsAbsolute | src/wechat_decrypt_tool/path_fix.py:154 | repair does not change whether a path is absolute |
| PathFix.FixExamples | src/wechat_decrypt_tool/path_fix.py:154 | `a\b` becomes `a\\b` and a lone `\` becomes `\\` |
| PathFix.KeptRunExample | src/wechat_decrypt_tool/path_fix.py:154 | an already doubled `a\\b` is left alone |

## Left out

- Database and filesystem access are left out.
  - The SQLite queries and connections of the edit store and of the search index are not modelled. The edit table is a `map`, and the search index rows are an ordered event list.
  - The existence, directory and `db_storage` checks in `path_fix.py` lines 54-113 are a `probe` parameter.
  - `PathFix.ValidatePaths`: the filesystem checks are that parameter, so the contract states their effect but not their content.
- Calendar and clock.
  - `datetime.fromtimestamp` and the year range are left out. Events arrive with their month, day and hour.
  - `now_ms` is a parameter.
- Randomness. The `SystemRandom` shuffle of the bubble pool is left out. `PhrasePayload.BubblePool` states what the pool holds, before any shuffle or cut.
- Floating point.
  - `BestFriendsWall.DecideMonth`: the weighted float score is an abstract `Scorer` parameter. The contract states the tie-key ranking whatever the score, not the log1p/weight formula.
  - The keyword weights (`sqrt`, `round`) and `score100` are not modelled.
  - `BestFriendsWall.AvgGapCapped`: the average capped reply gap in the tie key is an exact rational. The source divides two floats, so rounding can make two averages equal, or unequal, where the model says otherwise.
- Contact lookup, display names and avatar URLs are left out. `BestFriendsWall.MaskName` is applied to a given name.
- `_should_keep_session` is a `keep` parameter.
- `_clean_text` and `_is_good_example_text` are `clean` and `good` parameters of the example picker.
- `jieba` segmentation and the two-character fallback in `extract_keywords_jieba` are left out. `KeywordRanking.KeywordRanking` takes the token counts.
- The phrase scan over message tables is left out. Phrase counts are an input.
- `list_messages` and the schema setup are left out: they are SQL plumbing only.
- `EditStore.ListSessions`: sessions with equal last-edit times come in an order SQL leaves unspecified. The contract states only the descending order and the exact set of entries.
- `EditStore.MergeAt`: column names are lower-cased on ASCII letters only (`Text.Lower`). Python's `str.lower` also maps other cased letters, such as `É`, and the model leaves those unchanged.
- `PhraseExamples.PickExamples`: the case-insensitive match of a non-CJK keyword lower-cases ASCII letters only. So "ÉTÉ" matches "été" in Python but not in the model.
- `MessageId.Parse`: `int()` is modelled on ASCII digits. Python also accepts other Unicode decimal digits, such as the full-width `５`, which the model rejects.
- `KeywordText.NormalizeToken`: Python's Unicode `\w`, `str.isdigit` and `str.lower` are modelled on ASCII letters, ASCII digits, `_` and the CJK block `[一-鿿]`. Other scripts are treated as punctuation.
- `StageTiming.Inject`: header names are compared exactly. Starlette's case-insensitive header lookup is not modelled.
- `PathFix.FixBackslashes`:
  - only the substitution inside one quoted segment (line 154) is modelled;
  - the segment regex at line 149, and the JSON re-parse around it, are not.
- `PathFix.EarlyCheck`: the body is a JSON object of string keys. Non-object bodies and duplicate keys are not modelled.
- `Json.Value`: numbers are integers. Floats in snapshots are not modelled.
- Non-text inputs where the source calls `str(...)` on arbitrary objects are not modelled. Inputs are typed.
- `routers/decrypt.py` is not part of this model.

## Findings

| source | as written | input that shows it | evidently intended | confidence | as-written member | corrected member |
|---|---|---|---|---|---|---|
| src/wechat_decrypt_tool/sns_stage_timing.py:58-59 | the guard `(^\|,\\s*)sns_source(_\|;)` is a raw string, so its comma branch needs a literal backslash after the comma | Server-Timing "edge;dur=1", then two calls with source "proxy": the second call appends a second `sns_source_proxy` metric | a comma followed by optional whitespace, so an appended source metric is found and not duplicated | not executed; medium | StageTiming.AsWrittenDuplicatesSourceMetric | StageTiming.IntendedKeepsOneSourceMetric |
