# trend_miner pipeline core in Dafny

A model of the deterministic part of trend_miner. That part turns news items collected from RSS feeds into scored topics:

- building an item record from a feed entry, with its canonical URL;
- the stable identifiers: content hash, item id, topic signature and configuration hash;
- URL-then-hash deduplication;
- the post-processing around the clustering model;
- aggregating clustered items into topic records with time buckets;
- the narrative signal score.

Each source file has its own module:

| module | source file |
|---|---|
| `Rss` | `collectors/rss.py` |
| `UrlNormalize` | `processing/url_normalize.py` |
| `Hashing` | `utils/hashing.py`, with `Json` for its JSON serialisation |
| `Dedupe` | `processing/dedupe.py` |
| `Clustering` | `processing/bertopic_model.py` |
| `TopicAggregate` | `processing/topic_aggregate.py` |
| `TimeBuckets` | `calculate_time_buckets`, and the bucket labels of `utils/time.py` |
| `Scoring` | `processing/scoring.py` |

Shared vocabulary lives in four modules:

- `Models` holds the records of `models.py`.
- `Text` holds `str.lower`, `strip`, `split`/`join` and lexicographic order.
- `Collections` holds first-occurrence `Distinct`, `Filter`, Python slicing, sums and extrema.
- `Sorting` holds stable sorts and top-k selection.

Everything is a pure function over immutable values. Python's in-place updates are modelled by returning the updated values:

- `aggregate_topics` writing signatures onto items;
- `cluster_items` writing topic ids;
- `calculate_narrative_scores` writing scores.

Outside code enters as function-valued parameters:

- SHA-256 is a function into `Hashing.Digest`, the 64-character lower-case hex strings. So every signature has the format `tests/test_signature.py:61-70` checks by construction.
- `urlparse`, `urlunparse` and `unquote` enter as `UrlNormalize.UrlLib`.
- `feedparser` fetching and date parsing, and `tldextract`, enter as `Rss.Environment`.
- The fitted topic model enters as `Clustering.FitTransform`, and `get_topic` as a lookup.
- `math.log10`, `math.exp` and the clock are parameters too. `math.exp` returns `None` where Python raises `OverflowError`.

Timestamps are integers, counting microseconds since the epoch in UTC.

Source paths below are relative to the repository root.

## Model

| member | source | states |
|---|---|---|
| Hashing.NormalizedText | trend_miner/utils/hashing.py:20-21 | The normalised text is the words of the lower-cased title followed by the words of the lower-cased summary, joined by single spaces. |
| Hashing.NormalizedTextIsNormal | trend_miner/utils/hashing.py:20-21 | The normalised text has no whitespace at the ends and no adjacent whitespace. It has no upper-case letters. Normalising it again gives it back. |
| Hashing.ContentHashWordsOnly | trend_miner/utils/hashing.py:8-23 | Two title/summary pairs with the same lower-cased word sequence have the same content hash. Case, amount of whitespace and the split point between title and summary do not matter. |
| Hashing.UrlHash | trend_miner/utils/hashing.py:26-36 | The item id is 16 lower-case hex characters and a prefix of the URL's digest. Equal URLs give equal ids. |
| Hashing.SignatureInputContents | trend_miner/utils/hashing.py:51-56 | The serialised signature input starts with the `"kw"` member. It decodes back to exactly the first 10 keywords and first 5 domains, in their given order. |
| Hashing.SignatureInputIffPrefixes | trend_miner/utils/hashing.py:51-56 | Two keyword/domain pairs serialise to the same text if and only if they agree on the first 10 keywords and the first 5 domains. |
| Hashing.SignatureOfTruncated | tests/test_signature.py:46-58 | Truncating the inputs to 10 keywords and 5 domains first leaves the signature unchanged. |
| Hashing.StableConfig | trend_miner/utils/hashing.py:71-72 | The kept entries are the configuration's entries whose key is on the allow-list. Absent keys stay absent and are not nulled. |
| Hashing.ConfigHash | trend_miner/utils/hashing.py:74-75 | The configuration hash is 16 lower-case hex characters. |
| Hashing.ConfigHashIgnoresOtherKeys | trend_miner/utils/hashing.py:60-75 | Configurations that agree on the four allow-listed keys, present or absent, get the same hash. |
| Json.EncodeSignatureInput | trend_miner/utils/hashing.py:56 | The sorted-key dump always starts with `{"kw": `. |
| Json.SignatureInputRoundTrip | trend_miner/utils/hashing.py:56 | Decoding the dump of `{"kw": kw, "pub": pub}` gives back `kw` and `pub`. Escaping loses nothing. |
| Json.SignatureInputInjective | trend_miner/utils/hashing.py:56 | Two dumps are equal if and only if both lists are equal. |
| Json.EscapeDecodes | trend_miner/utils/hashing.py:56 | Every escaped string reads back as itself, up to the closing quote. |
| Json.HexRoundTrip | trend_miner/utils/hashing.py:56 | The hex digit written in a `\u00XX` escape reads back as its value. |
| Dedupe.Deduplicate | trend_miner/processing/dedupe.py:16-91 | Any strategy other than `url_then_hash` is an error. Otherwise: the survivors are input items with pairwise distinct canonical URLs and pairwise distinct content hashes; `final_count` is the output length and equals `original_count - duplicates_by_url - duplicates_by_hash`; `duplicates_by_url` is the input length minus the number of distinct URLs. |
| Dedupe.RunPhase | trend_miner/processing/dedupe.py:41-61 | Every input of a pass is either kept or counted as a collision, and every kept item is an input. |
| Dedupe.FindKey | trend_miner/processing/dedupe.py:46 | The lookup finds the slot holding the key, or reports that no slot holds it. |
| Dedupe.PhaseOrder | trend_miner/processing/dedupe.py:46-61 | The keys of a pass's survivors are the distinct input keys in order of first occurrence. Replacing an item keeps its slot. |
| Dedupe.AbsorbKeys | trend_miner/processing/dedupe.py:46-59 | One loop step appends the key when it is new and otherwise leaves the key sequence unchanged. |
| Dedupe.PhaseKeys | trend_miner/processing/dedupe.py:41-61 | A pass keeps pairwise distinct keys, and every input key is among them. |
| Dedupe.PhaseCollisions | trend_miner/processing/dedupe.py:46-59 | A pass keeps one item per distinct key. It counts the input length minus the number of distinct keys as collisions, whether or not an item was replaced. |
| Dedupe.PhaseWinner | trend_miner/processing/dedupe.py:53-59 | No item with a survivor's key outranks it by (weight, published time). Any item that ranks equally with it comes no earlier than it. |
| Dedupe.PhaseHolds | trend_miner/processing/dedupe.py:43-59 | Loop invariant of the pass: every kept item holds its ground against every input seen so far with its key. |
| Dedupe.HoldsStep | trend_miner/processing/dedupe.py:43-59 | One more input preserves that invariant. |
| Dedupe.PhaseIdentity | trend_miner/processing/dedupe.py:46-47 | A pass over items with pairwise distinct keys returns them unchanged and counts no collision. |
| Dedupe.SubsequenceKeepsDistinct | trend_miner/processing/dedupe.py:61-84 | The hash pass keeps a subset of the URL pass's survivors, so the final items still have distinct URLs. |
| Dedupe.DeduplicateDistinct | tests/test_dedupe.py:83-94 | Items with all-distinct URLs and hashes come back unchanged, with both counters 0. |
| Dedupe.HeavierUrlDuplicateWins | tests/test_dedupe.py:42-52 | Same URL: the heavier item survives, and `duplicates_by_url` is 1. |
| Dedupe.HeavierHashDuplicateWins | tests/test_dedupe.py:55-65 | Same hash with different URLs: the heavier item survives, and `duplicates_by_hash` is 1. |
| Dedupe.NewerDuplicateWinsOnEqualWeight | tests/test_dedupe.py:68-80 | Same URL and equal weight: the later item survives. |
| Dedupe.ExactTieKeepsFirst | trend_miner/processing/dedupe.py:53-59 | Same URL, equal weight and equal time: the item seen first stays, and the collision is still counted. |
| Clustering.Document | trend_miner/processing/bertopic_model.py:127 | A document is the title, one space, then the summary. |
| Clustering.NoiseCount | trend_miner/processing/bertopic_model.py:141 | The noise count is the number of `-1` labels. |
| Clustering.TopicCount | trend_miner/processing/bertopic_model.py:140-142 | The topic count is the number of distinct labels other than `-1`. |
| Clustering.TopicCountIsDistinctClusters | trend_miner/processing/bertopic_model.py:140-142 | The topic count equals the number of distinct labels left after removing the noise labels. |
| Clustering.Assign | trend_miner/processing/bertopic_model.py:136-137 | The i-th item takes the i-th label. Items past the end of the label list keep their id, as `zip` does. |
| Clustering.ClusterItems | trend_miner/processing/bertopic_model.py:85-157 | Degraded mode runs exactly when there are fewer than `min_items_to_cluster` items. Then every item gets topic 0, none is dropped, there is 1 topic and no noise. Otherwise the statistics are the distinct non-noise labels, the `-1` count and its ratio to the item count; `"drop"` returns the labelled items without noise, in order, and any other value returns all of them. |
| Clustering.ClusterItemsDropsNoise | trend_miner/processing/bertopic_model.py:140-154 | When the model labels every item: the noise ratio is in [0, 1]; dropping leaves `n_items - noise_count` items, none of them noise; every non-noise labelled item is kept. |
| Clustering.FilterLength | trend_miner/processing/bertopic_model.py:152 | Dropping noise removes exactly as many items as there are `-1` labels. |
| Clustering.EntryFor | trend_miner/processing/bertopic_model.py:194-200 | A topic's keyword entry is its first `top_n` words, or empty when the lookup raised. |
| Clustering.GetTopicKeywords | trend_miner/processing/bertopic_model.py:188-202 | A topic id has an entry exactly when some item carries it, it is not `-1`, and the lookup raised or returned words. Each entry is that topic's `EntryFor`. |
| Clustering.KeywordTableShape | trend_miner/processing/bertopic_model.py:190-200 | The keyword table has no `-1` key. Every entry has at most `top_n` words, and each entry is a prefix of the topic's word list. |
| TimeBuckets.ParseInterval | trend_miner/processing/topic_aggregate.py:156-161 | `daily` and `hourly` are the only supported intervals. |
| TimeBuckets.BucketStart | trend_miner/utils/time.py:64-89 | A bucket starts at a multiple of the day or hour width, and the instant lies in the bucket it starts. |
| TimeBuckets.Bump | trend_miner/processing/topic_aggregate.py:163 | Counting one more instant keeps the table ascending by start. |
| TimeBuckets.BumpCounts | trend_miner/processing/topic_aggregate.py:163 | Counting one more instant adds one to its bucket and to the total, and leaves every other bucket's count as it was. |
| TimeBuckets.CountStarts | trend_miner/processing/topic_aggregate.py:153-171 | The buckets are ascending and non-empty. Their counts sum to the number of instants, and each bucket's count is the number of instants with that start. |
| TimeBuckets.CalculateTimeBuckets | trend_miner/processing/topic_aggregate.py:139-172 | An unsupported interval is an error exactly when there is an item to bucket. Otherwise the buckets have distinct, ascending starts and no empty bucket; the counts sum to the number of items; each count is the number of items in that day or hour. |
| TopicAggregate.MostCommon | trend_miner/processing/topic_aggregate.py:85-87 | `most_common(n)` lists min(n, number of distinct values) distinct values with their true counts, in descending count order, with ties in first-seen order. A value left out occurs no more often than any listed value, and only when n values were listed. A left-out value as frequent as a listed one first occurs after it. |
| TopicAggregate.MostCommonPrefix | trend_miner/processing/topic_aggregate.py:87-132 | `most_common(5)` is the first five entries of `most_common(10)`. |
| TopicAggregate.RepresentativeIndices | trend_miner/processing/topic_aggregate.py:194-199 | The stable sort by (weight desc, time desc) keeps min(n, count) distinct items, best first, ties in input order. No item left out outranks one that was chosen. |
| TopicAggregate.Preview | trend_miner/processing/topic_aggregate.py:201-208 | A representative has the item's URL, title, domain and time. Its summary is the first 200 characters of the item's summary. |
| TopicAggregate.SelectRepresentatives | trend_miner/processing/topic_aggregate.py:175-212 | The representatives are the previews of the chosen items, in the chosen order. |
| TopicAggregate.DuplicateRatio | trend_miner/processing/topic_aggregate.py:93-95 | The duplicate ratio lies in [0, 1). It is 0 exactly when no content hash repeats. |
| TopicAggregate.AverageWeightBounds | trend_miner/processing/topic_aggregate.py:90 | The average source weight lies within any bounds on the individual weights. |
| TopicAggregate.CreateTopicRecord | trend_miner/processing/topic_aggregate.py:57-136 | Building a record fails exactly on an empty group or an unsupported interval. Otherwise the record has the group's id and size, the first 15 keywords, and the group's signature. |
| TopicAggregate.CreateTopicRecordFacts | trend_miner/processing/topic_aggregate.py:78-134 | A built record holds the first item's run id and the distinct domain count. It holds the average weight, and the duplicate ratio `1 - distinct hashes / volume` (`TopicAggregate.DuplicateRatio`), which lies in [0, 1). `first_seen_at` is the min time and `last_seen_at` the max. The buckets are those `TimeBuckets.CalculateTimeBuckets` makes of the group's published times, so they partition the group: ascending, non-empty, with counts summing to the volume. It holds the representatives and the 10 most common domains, whose first 5 are `top_domains`. The signature is that of the keywords and those 5 domains. There is no score and no breakdown. |
| TopicAggregate.Group | trend_miner/processing/topic_aggregate.py:36-40 | A group holds exactly the items carrying its id. |
| TopicAggregate.GroupSnoc | trend_miner/processing/topic_aggregate.py:36-40 | One more input item is appended to the end of its own group and changes no other group, so a group lists its items in input order. |
| TopicAggregate.GroupSize | trend_miner/processing/topic_aggregate.py:36-40 | A group's size is the number of items carrying its id. |
| TopicAggregate.ClusteredIds | trend_miner/processing/topic_aggregate.py:39 | The clustered ids are the item topic ids other than `-1`. |
| TopicAggregate.KeywordsFor | trend_miner/processing/topic_aggregate.py:48 | A topic with no keyword entry gets `[]`. |
| TopicAggregate.WriteBackSignatures | trend_miner/processing/topic_aggregate.py:111-113 | Only the items' signatures change, and noise items do not change at all. A clustered item gets the signature of its own group: the first 10 keywords of its id's entry and the group's first 5 top domains. |
| TopicAggregate.AggregateTopics | trend_miner/processing/topic_aggregate.py:19-54 | There is one record per distinct non-noise topic id, in first-appearance order. It fails exactly when some item is clustered and the interval is unsupported. Items change only in their signature, and noise items not at all. |
| TopicAggregate.AggregateTopicsRecords | trend_miner/processing/topic_aggregate.py:44-113 | Each record is exactly what `create_topic_record` builds from the items with its id, in input order, and that id's keyword entry (`[]` when there is none). Its volume is the number of items with its id, and its keywords are the first 15 of that entry. Afterwards every item with its id carries the record's signature. |
| Scoring.Clamp | trend_miner/processing/scoring.py:71 | The result lies in the bounds and leaves a value inside them unchanged. |
| Scoring.VolumeScore | trend_miner/processing/scoring.py:83-99 | The volume score is 0 for a volume of 0 or less, and always in [0, 100]. |
| Scoring.VolumeScoreMonotone | trend_miner/processing/scoring.py:93-99 | With a monotone logarithm, a larger volume never scores lower. |
| Scoring.VelocityScore | trend_miner/processing/scoring.py:102-126 | The velocity score is 0 without a last article. Otherwise it fails with `math range error` exactly when `exp(-hours_ago / 24)` overflows, and is in [0, 100] when it does not. |
| Scoring.PastArticleScores | trend_miner/processing/scoring.py:117-126 | An article at or before `now` always gets a score, since the exponent is not positive. |
| Scoring.FutureArticleOverflows | trend_miner/processing/scoring.py:117-124 | A last article more than 709.79 days after `now` makes `math.exp` overflow, and the score fails with `math range error`. |
| Scoring.VelocityScoreMonotone | trend_miner/processing/scoring.py:119-126 | With a monotone exponential, a later last article never scores lower. If the later article gets a score, so does the earlier one. |
| Scoring.DiversityScore | trend_miner/processing/scoring.py:144-149 | Diversity is 0 for one domain or none, and always in [0, 40]. |
| Scoring.SourceScore | trend_miner/processing/scoring.py:129-152 | The source score is in [0, 100]. For weights in [0, 1] it is exactly `weight * 60 + diversity`: the weight term is not clamped on its own. |
| Scoring.SourceScoreMonotone | trend_miner/processing/scoring.py:140-152 | A heavier average weight never lowers the source score. |
| Scoring.WatchTerms | trend_miner/processing/scoring.py:177 | The terms are the lower-cased watchlist keywords and tickers. |
| Scoring.KeywordHits | trend_miner/processing/scoring.py:180-181 | The keyword hit count is positive exactly when some lower-cased topic keyword is a term. |
| Scoring.TitleHits | trend_miner/processing/scoring.py:184-188 | The title hit count is positive exactly when some lower-cased representative title contains a term. |
| Scoring.WatchlistBonus | trend_miner/processing/scoring.py:155-195 | The bonus is exactly 0 or 80. |
| Scoring.WatchlistBonusIff | trend_miner/processing/scoring.py:173-193 | The bonus is 80 if and only if one of two things holds: a topic keyword equals a watchlist entry ignoring case, or a representative title contains one ignoring case. |
| Scoring.CombinedScore | trend_miner/processing/scoring.py:63-71 | The weighted sum, once clamped, lies in [0, 100]. |
| Scoring.CombinedScoreUnclamped | trend_miner/processing/scoring.py:63-71 | For sub-scores in [0, 100] the clamp changes nothing, because the weights sum to 1. |
| Scoring.Round2 | trend_miner/processing/scoring.py:73 | `round(x, 2)` is a whole number of hundredths, within half a hundredth of x. |
| Scoring.Round2Bounds | trend_miner/processing/scoring.py:71-73 | Rounding a score in [0, 100] stays in [0, 100]. |
| Scoring.Breakdown | trend_miner/processing/scoring.py:40-60 | It fails with the recency score's overflow error exactly when that score overflows. Otherwise the breakdown is exactly the topic's volume, velocity and source scores and its watchlist bonus, each sub-score in [0, 100] and the bonus 0 or 80. |
| Scoring.ScoreTopic | trend_miner/processing/scoring.py:39-74 | It fails exactly when the recency score overflows. Otherwise the topic stores the breakdown of exactly its four sub-scores (`Scoring.Breakdown`) and, as its score, the clamped weighted sum of that breakdown rounded to two decimals, a value in [0, 100]. Nothing else about it changes. |
| Scoring.ScoreTopicValue | trend_miner/processing/scoring.py:63-73 | The stored score is a whole number of hundredths within 0.005 of `0.25*volume + 0.35*velocity + 0.30*source + 0.10*watchlist` of the stored sub-scores: the clamp never acts, since every sub-score is in [0, 100] and the weights sum to 1. |
| Scoring.CalculateNarrativeScores | trend_miner/processing/scoring.py:18-80 | The call fails with `math range error` exactly when some topic's recency score overflows. Otherwise length and order are kept, and every topic is scored against one `now`, with missing watchlists read as empty. Only the score and breakdown change, and each topic's score is its rounded, clamped weighted sum, exactly as `Scoring.ScoreTopic` stores it. |
| UrlNormalize.ParseField | trend_miner/processing/url_normalize.py:51 | A field splits at its first `=`. A field without `=` has an empty value. |
| UrlNormalize.ParseFields | trend_miner/processing/url_normalize.py:51 | Empty fields are skipped, and non-empty ones give one parameter each. |
| UrlNormalize.FirstValues | trend_miner/processing/url_normalize.py:51-66 | Each name appears once, in first-occurrence order, with the value of its first occurrence. |
| UrlNormalize.CleanParams | trend_miner/processing/url_normalize.py:61-66 | The surviving parameters are sorted by name, and none is a tracking parameter. |
| UrlNormalize.CleanParamsContents | trend_miner/processing/url_normalize.py:51-66 | Exactly the non-tracking names of the query survive, each once, with its first value. |
| UrlNormalize.KeptFirstValues | trend_miner/processing/url_normalize.py:61-66 | A sorted rearrangement of the kept first values has these properties: distinct names; exactly the non-tracking names; each name's first value. |
| UrlNormalize.FieldsAsWritten | trend_miner/processing/url_normalize.py:66 | Each field is `name=value` with the decoded name and value. |
| UrlNormalize.CleanQueryAsWritten | trend_miner/processing/url_normalize.py:65-68 | The query as the source rebuilds it. No survivors give the empty query. |
| UrlNormalize.AsWrittenSplitsEncodedAmpersand | trend_miner/processing/url_normalize.py:65-66 | The single parameter `q=a%26b` is rebuilt as `q=a&b`, which reads back as two parameters. |
| UrlNormalize.ParseFieldsRoundTrip | trend_miner/processing/url_normalize.py:51-66 | Suppose the encoder's output for every name and value decodes back and holds no `&` (and no `=` in a name). Then the `&`-joined `name=value` fields read back as exactly the parameters. |
| UrlNormalize.CleanQueryAsWrittenIdempotent | trend_miner/processing/url_normalize.py:50-68 | Suppose the parsed names and values hold no `&`, names hold no `=`, and each reads back as itself through `unquote`. Then the query as the source rebuilds it reads back as the surviving parameters, and cleaning it again changes nothing. |
| UrlNormalize.CleanQuery | trend_miner/processing/url_normalize.py:65-68 | The corrected rebuild, which encodes names and values again. No survivors give the empty query. |
| UrlNormalize.CleanQueryReadsBack | trend_miner/processing/url_normalize.py:50-68 | With an encoder that `unquote` inverts and whose output holds no separator, the corrected rebuild reads back as exactly the surviving parameters, for every query. |
| UrlNormalize.CleanQueryIdempotent | trend_miner/processing/url_normalize.py:50-68 | With such an encoder, cleaning a query cleaned by the corrected rebuild changes nothing, for every query. |
| UrlNormalize.NormalizeParts | trend_miner/processing/url_normalize.py:43-77 | Scheme and network location are lower-cased. Path and params pass through. The fragment is empty. When removal is on and the query is non-empty, the query is rebuilt as the source writes it, from the decoded survivors without encoding. Otherwise it is kept verbatim. |
| UrlNormalize.NormalizedQueryParams | trend_miner/processing/url_normalize.py:50-70 | For a query whose decoded names and values hold no separator and decode to themselves, the normalised query reads back as the first value of each non-tracking original name, each once, sorted by name. |
| UrlNormalize.NormalizePartsIdempotent | trend_miner/processing/url_normalize.py:28-77 | Under the same condition on the query, normalising a normalised URL changes nothing. |
| Rss.ParseRssDate | trend_miner/collectors/rss.py:22-44 | An empty date string gives no date. Any other gives whatever the parser makes of it. |
| Rss.InferPublisher | trend_miner/collectors/rss.py:47-78 | The publisher is the entry's source title, else its author, else the feed title, else the URL's network location. |
| Rss.InferPublisherNonEmpty | trend_miner/collectors/rss.py:64-74 | When any of the first three sources is non-empty, so is the publisher name. |
| Rss.EntryToItem | trend_miner/collectors/rss.py:116-179 | An entry becomes an item exactly when: its stripped title and link are non-empty; and it is not published before the lookback bound. |
| Rss.EntryToItemFacts | trend_miner/collectors/rss.py:119-177 | An accepted entry's item has these fields: the stripped title; the canonical link; the original link; `has_summary` exactly when the stripped summary is non-empty, with the title in its place otherwise; `text_len` of title plus summary; the content hash of that text; the id hashed from the canonical URL; the publication instant, or the fetch instant when the date is missing or unparseable; topic `-1` with an empty signature; the feed's name and weight; the run id; language defaulting to `en`. |
| Rss.SameLinkSameId | trend_miner/collectors/rss.py:127-148 | Entries with the same link get the same item id. |
| Rss.CollectEntries | trend_miner/collectors/rss.py:116-184 | The items are those of the accepted entries, with no more items than entries. |
| Rss.CollectEntriesSnoc | trend_miner/collectors/rss.py:116-184 | One more entry appends its item when it is accepted and nothing otherwise, so the items follow entry order. |
| Rss.CollectedWellFormed | trend_miner/collectors/rss.py:116-184 | Every collected item is well formed for its feed. |
| Rss.CollectEntriesCount | trend_miner/collectors/rss.py:116-184 | There is exactly one item per accepted entry. |
| Rss.CollectFromFeed | trend_miner/collectors/rss.py:81-191 | A feed that cannot be fetched gives nothing. A fetched feed gives the items of its first `max_items` entries (`entries[:max_items]`, in order), with the feed's title, or the configured name when it has none, as the publisher of last resort. Every item carries the run id, the feed's name and weight, the fetch instant and topic `-1`, and is no older than the lookback bound. |
| Rss.CollectAllFeeds | trend_miner/collectors/rss.py:194-230 | At most `max_items_per_feed` items per feed. |
| Rss.CollectAllFeedsSnoc | trend_miner/collectors/rss.py:219-227 | Collecting one more feed appends that feed's items after the others, in feed order. |
| Rss.CollectAllFeedsItems | trend_miner/collectors/rss.py:194-230 | Every collected item belongs to the run, is unclustered and within the lookback bound, and carries the name and weight of one of the configured feeds. |
| Text.CollapseNormalForm | trend_miner/utils/hashing.py:21 | `" ".join(s.split())` leaves no whitespace at the ends and no adjacent whitespace, and applying it twice equals applying it once. |
| Text.SplitStrip | trend_miner/utils/hashing.py:20-21 | Stripping before splitting does not change the words. |
| Text.SplitAround | trend_miner/utils/hashing.py:20-21 | Splitting two strings joined by a whitespace character gives the words of one, then the words of the other. |
| Text.SplitJoin | trend_miner/utils/hashing.py:21 | Splitting words joined by single spaces gives the words back. |
| Text.LowerFixes | trend_miner/processing/url_normalize.py:46-47 | Lower-casing fixes exactly the strings with no upper-case letter. |
| Text.SplitOnJoin | trend_miner/processing/url_normalize.py:51-66 | Splitting `&`-joined fields without `&` at `&` gives the fields back. |
| Text.LexLessTotal | trend_miner/processing/url_normalize.py:66 | String order, as `sorted` uses it, orders any two distinct names. |
| Sorting.SortBySorted | trend_miner/processing/url_normalize.py:66 | Sorting pairwise comparable elements gives a strictly sorted permutation. |
| Sorting.SortedUnique | trend_miner/processing/url_normalize.py:66 | Two strictly sorted permutations of the same elements are equal. |
| Sorting.TopIndices | trend_miner/processing/topic_aggregate.py:194-199 | The first k indices in a strict order: each comes before every later chosen index and every index left out. |
| Collections.Distinct | trend_miner/processing/dedupe.py:61 | The distinct values, each once, are exactly the values of the sequence. |
| Collections.DistinctInFirstOccurrenceOrder | trend_miner/processing/dedupe.py:61 | `Distinct` lists values in the order of their first occurrences, which is the order a dictionary's keys keep. |
| Collections.SliceTo | trend_miner/collectors/rss.py:116 | `s[:n]` is a prefix with Python's length, including a negative `n`. |
| Collections.Min | trend_miner/processing/topic_aggregate.py:99 | The min is an element and no larger than any element. |
| Collections.Max | trend_miner/processing/topic_aggregate.py:100 | The max is an element and no smaller than any element. |

## Left out

- Fetching and parsing feeds, `feedparser`'s date parser, `tldextract`, and `urlparse`/`urlunparse`/`unquote` are library code. They are parameters. Nothing is assumed of them except in the lemmas that state a hypothesis about them. The corrected query rebuild `UrlNormalize.CleanQuery` takes its encoder as a parameter as well; the source calls no encoder, and `UrlNormalize.SoundCodec` states what is assumed of that encoder.
- `get_extractor` and `extract_domain` in `url_normalize.py` are a cached library call, so the registrable domain is a parameter.
- SHA-256 is a parameter whose outputs are 64 lower-case hex characters. Collisions are not ruled out, so equal signatures are only proved for equal inputs.
- `math.log10`, `math.exp` and the clock (`utcnow`, `calculate_lookback_date`) are parameters. Floating point is modelled by exact reals, and `round` by exact round-half-even on reals.
- `str.lower()` is modelled on ASCII letters only: Unicode case mapping is out of scope. `str.isspace()`, and so `split()` and `strip()`, use Python's full set of Unicode whitespace characters (`Text.IsSpace`).
- The embedding model, UMAP, HDBSCAN and BERTopic (`create_bertopic_model`, `set_random_seeds`, `fit`, `fit_transform`) are a randomised foreign library. Labels come from `Clustering.FitTransform` and topic words from a lookup. The refit in `get_topic_keywords` is not modelled, since its texts reach only the library.
- Logging, and the per-entry and per-feed `try/except` in `rss.py`. Only a failed fetch is modelled, as `Environment.fetch` returning nothing. An exception inside one entry is not.
- Storage, the CLI, configuration loading and the pydantic validation of `models.py`: none of them holds pipeline logic.
- Bucket labels: the source keys buckets by the formatted day or hour string. The model keys a bucket by its start instant, which identifies the same bucket and orders the same way for four-digit years.
- UrlNormalize.NormalizeUrl: splitting and joining are parameters, so its properties are stated on `UrlNormalize.NormalizeParts`.
- Hashing.ContentHash (`content_hash`, trend_miner/utils/hashing.py:8-23): SHA-256 is a parameter, so its properties are stated on the text it hashes, by `Hashing.NormalizedText`, `Hashing.NormalizedTextIsNormal` and `Hashing.ContentHashWordsOnly`.
- Hashing.TopicSignature (`topic_signature`, trend_miner/utils/hashing.py:39-57): SHA-256 is a parameter, so its properties are stated on the JSON it hashes, by `Hashing.SignatureInputContents`, `Hashing.SignatureInputIffPrefixes` and `Hashing.SignatureOfTruncated`.
- Clustering.KeywordTableShape: takes `top_n` as a natural number. With a negative `top_n`, Python's slice drops words from the end, and `Clustering.EntryFor` models that, but no bound is stated for it.
- Scoring.VolumeScoreMonotone and Scoring.VelocityScoreMonotone: they assume monotone `log10` and `exp`, and that `exp` defined at a point is defined below it. The bounds hold for any functions.
- Scoring.CalculateNarrativeScores: on an overflow the model returns the error alone. In the source, the topics scored before the failing one keep the scores already written into them.
- UrlNormalize.NormalizedQueryParams and UrlNormalize.NormalizePartsIdempotent: proved only for queries whose decoded names and values hold no `&`, names hold no `=`, and values read back as themselves. Other queries break both promises in the source (see Findings). Both are stated on the split parts: a decoded `#` or `?` written back into the query would move when the joined URL is split again, and splitting is a parameter.
- Hashing.ConfigHash: `json.dumps` of arbitrary configuration values is a parameter, so only the allow-listing and the truncation are modelled.

Where the code and its documentation disagree, the model follows the code:

- On an exact tie in weight and time, deduplication keeps the item seen first. The replacement test is strict.
- The source score does not clamp `avg_source_weight * 60` to [0, 60]. Only the total is clamped.
- A volume of 0 or less scores 0.
- `aggregate_topics` is modelled as failing up front when some item is clustered and the interval is unsupported. That is the same outcome and message as the first record's bucketing raising.

## Findings

| source | as written | input that shows it | evidently intended | confidence | as-written member | corrected member |
|---|---|---|---|---|---|---|
| trend_miner/processing/url_normalize.py:65-66 | The rebuilt query writes the decoded names and values back without percent-encoding them. | The query `q=a%26b`: its one value decodes to `a&b`, it is rebuilt as `q=a&b`, and that reads back as two parameters. | Names and values are encoded again (`UrlNormalize.CleanQuery`), so the canonical query reads back as the same parameters and cleaning it again changes nothing. The model's `NormalizeParts` keeps the rebuild as written, and its read-back and idempotence are proved only for queries that avoid the problem. | medium, not executed | UrlNormalize.AsWrittenSplitsEncodedAmpersand | UrlNormalize.CleanQueryIdempotent |
