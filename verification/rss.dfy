/**
 * The RSS collector (trend_miner/collectors/rss.py): turning feed entries
 * into item records, choosing the publisher name, and collecting every
 * configured feed.
 *
 * Fetching and parsing a feed, parsing dates, the public-suffix lookup and
 * the clock are parameters. Only the title, summary (or description), link
 * and dates of an entry are read.
 */
module Rss {
  import opened Wrappers
  import opened Text
  import opened Models
  import opened Collections
  import Hashing
  import UrlNormalize

  /** One configured feed (`RSSFeedConfig`). */
  datatype FeedConfig = FeedConfig(
    name: string,
    url: string,
    weight: real,
    category: Option<string>,
    market: Option<string>,
    language: Option<string>)

  /**
   * One parsed entry; `None` is a key the entry does not have.
   * `sourceTitle` is the title of the entry's `source` element, when it has one.
   */
  datatype Entry = Entry(
    title: Option<string>,
    summary: Option<string>,
    description: Option<string>,
    link: Option<string>,
    published: Option<string>,
    updated: Option<string>,
    author: Option<string>,
    sourceTitle: Option<string>)

  /** A parsed feed: its own title, if it has one, and its entries. */
  datatype Feed = Feed(title: Option<string>, entries: seq<Entry>)

  /**
   * What the collector consults outside itself: fetching and parsing a feed
   * (`None` when that raises), the date parser, the URL library, the
   * registrable-domain extraction and SHA-256.
   */
  datatype Environment = Environment(
    fetch: string -> Option<Feed>,
    parseDate: string -> Option<Timestamp>,
    url: UrlNormalize.UrlLib,
    extractDomain: string -> string,
    sha: Hashing.Sha256)

  /** What one feed's entries share: the feed, the run, the fetch instant and the lookback bound. */
  datatype FeedContext = FeedContext(
    env: Environment,
    config: FeedConfig,
    runId: string,
    feedTitle: string,
    fetchedAt: Timestamp,
    lookback: Option<Timestamp>)

  const DefaultLanguage: string := "en"
  const DefaultMaxItems: int := 50

  /** A Python value used in an `if`: present and non-empty. */
  predicate Truthy(o: Option<string>) {
    o.Some? && o.value != ""
  }

  /** `parse_rss_date`: no date for an empty string, otherwise whatever the parser makes of it. */
  function ParseRssDate(parseDate: string -> Option<Timestamp>, s: string): (r: Option<Timestamp>)
    ensures s == "" ==> r.None?
    ensures s != "" ==> r == parseDate(s)
  {
    if s == "" then None else parseDate(s)
  }

  /**
   * `infer_publisher`: the entry's source title, else its author, else the
   * feed title, else the network location of the canonical URL.
   */
  function InferPublisher(split: string -> UrlNormalize.UrlParts, entry: Entry, feedTitle: string,
                          canonicalUrl: string): (r: string)
    ensures Truthy(entry.sourceTitle) ==> r == entry.sourceTitle.value
    ensures !Truthy(entry.sourceTitle) && Truthy(entry.author) ==> r == entry.author.value
    ensures !Truthy(entry.sourceTitle) && !Truthy(entry.author) && feedTitle != "" ==> r == feedTitle
    ensures !Truthy(entry.sourceTitle) && !Truthy(entry.author) && feedTitle == "" ==>
      r == split(canonicalUrl).netloc
  {
    if Truthy(entry.sourceTitle) then entry.sourceTitle.value
    else if Truthy(entry.author) then entry.author.value
    else if feedTitle != "" then feedTitle
    else split(canonicalUrl).netloc
  }

  /** The publisher name is never empty when any of its sources is non-empty. */
  lemma InferPublisherNonEmpty(split: string -> UrlNormalize.UrlParts, entry: Entry, feedTitle: string,
                               canonicalUrl: string)
    requires Truthy(entry.sourceTitle) || Truthy(entry.author) || feedTitle != ""
    ensures InferPublisher(split, entry, feedTitle, canonicalUrl) != ""
  {
  }

  function EntryTitle(entry: Entry): string {
    Strip(entry.title.GetOr(""))
  }

  /** `entry.get('summary', entry.get('description', ''))`, stripped: a present summary wins even when empty. */
  function EntrySummary(entry: Entry): string {
    Strip(entry.summary.GetOr(entry.description.GetOr("")))
  }

  function EntryLink(entry: Entry): string {
    Strip(entry.link.GetOr(""))
  }

  /** The publication instant: the entry's `published` (else `updated`) date, else the fetch instant. */
  function PublishedAt(ctx: FeedContext, entry: Entry): Timestamp {
    ParseRssDate(ctx.env.parseDate, entry.published.GetOr(entry.updated.GetOr(""))).GetOr(ctx.fetchedAt)
  }

  /** The loop body of `collect_from_feed`: whether an entry is kept. */
  predicate Accepted(ctx: FeedContext, entry: Entry) {
    && EntryTitle(entry) != ""
    && EntryLink(entry) != ""
    && (ctx.lookback.None? || PublishedAt(ctx, entry) >= ctx.lookback.value)
  }

  /**
   * The loop body of `collect_from_feed`: skip entries without a title or
   * link and those published before the lookback bound, otherwise build
   * the item record.
   */
  function EntryToItem(ctx: FeedContext, entry: Entry): (r: Option<Item>)
    ensures r.Some? <==> Accepted(ctx, entry)
  {
    var title := EntryTitle(entry);
    var link := EntryLink(entry);
    if title == "" || link == "" then None
    else
      var canonical := UrlNormalize.NormalizeUrl(ctx.env.url, link, true);
      var published := PublishedAt(ctx, entry);
      if ctx.lookback.Some? && published < ctx.lookback.value then None
      else
        var summary := EntrySummary(entry);
        var hasSummary := summary != "";
        var text := if hasSummary then summary else title;
        var payload := ItemPayload(
          InferPublisher(ctx.env.url.split, entry, ctx.feedTitle, canonical),
          ctx.config.category,
          ctx.config.market,
          if Truthy(ctx.config.language) then ctx.config.language.value else DefaultLanguage,
          link);
        Some(Item(
          Hashing.UrlHash(ctx.env.sha, canonical),
          ctx.runId,
          canonical,
          ctx.env.extractDomain(canonical),
          published,
          ctx.fetchedAt,
          ctx.config.name,
          ctx.config.weight,
          title,
          text,
          hasSummary,
          |title| + |text|,
          Hashing.ContentHash(ctx.env.sha, title, text),
          NoiseTopic,
          "",
          payload))
  }

  /** What every collected item of a feed satisfies. */
  predicate WellFormed(ctx: FeedContext, item: Item) {
    && item.runId == ctx.runId
    && item.sourceName == ctx.config.name
    && item.sourceWeight == ctx.config.weight
    && item.fetchedAt == ctx.fetchedAt
    && item.title != "" && item.summary != ""
    && item.textLen == |item.title| + |item.summary|
    && item.topicId == NoiseTopic && item.topicSignature == ""
    && item.itemId == Hashing.UrlHash(ctx.env.sha, item.canonicalUrl)
    && item.contentHash == Hashing.ContentHash(ctx.env.sha, item.title, item.summary)
    && (ctx.lookback.Some? ==> item.publishedAt >= ctx.lookback.value)
  }

  /**
   * An accepted entry's item: stripped title, the stripped summary or the
   * title in its place, the canonical link, fresh pipeline fields, and the
   * identifiers derived from the link and the text.
   */
  lemma EntryToItemFacts(ctx: FeedContext, entry: Entry)
    requires Accepted(ctx, entry)
    ensures var item := EntryToItem(ctx, entry).value;
      && WellFormed(ctx, item)
      && item.title == EntryTitle(entry)
      && item.canonicalUrl == UrlNormalize.NormalizeUrl(ctx.env.url, EntryLink(entry), true)
      && item.payload.originalLink == EntryLink(entry)
      && (item.hasSummary <==> EntrySummary(entry) != "")
      && item.summary == (if item.hasSummary then EntrySummary(entry) else item.title)
      && item.publishedAt == PublishedAt(ctx, entry)
      && (ParseRssDate(ctx.env.parseDate, entry.published.GetOr(entry.updated.GetOr(""))).None? ==>
            item.publishedAt == ctx.fetchedAt)
      && (!Truthy(ctx.config.language) ==> item.payload.language == DefaultLanguage)
  {
    var title := EntryTitle(entry);
    var summary := EntrySummary(entry);
    var canonical := UrlNormalize.NormalizeUrl(ctx.env.url, EntryLink(entry), true);
    var text := if summary != "" then summary else title;
    var item := EntryToItem(ctx, entry).value;
    assert item.title == title && item.summary == text && item.hasSummary == (summary != "");
    assert item.canonicalUrl == canonical && item.publishedAt == PublishedAt(ctx, entry);
    assert item.itemId == Hashing.UrlHash(ctx.env.sha, canonical);
    assert item.contentHash == Hashing.ContentHash(ctx.env.sha, title, text);
  }

  /** Entries with the same link get the same item id. */
  lemma SameLinkSameId(ctx: FeedContext, a: Entry, b: Entry)
    requires Accepted(ctx, a) && Accepted(ctx, b)
    requires EntryLink(a) == EntryLink(b)
    ensures EntryToItem(ctx, a).value.itemId == EntryToItem(ctx, b).value.itemId
  {
  }

  /** The items of the accepted entries, in entry order. */
  function CollectEntries(ctx: FeedContext, entries: seq<Entry>): (r: seq<Item>)
    ensures |r| <= |entries|
    ensures forall item :: item in r <==> exists j :: 0 <= j < |entries| && EntryToItem(ctx, entries[j]) == Some(item)
  {
    FilterMap(entries, e => EntryToItem(ctx, e))
  }

  /**
   * Collecting one more entry appends its item when it is accepted and
   * nothing otherwise, so the items follow the entry order.
   */
  lemma CollectEntriesSnoc(ctx: FeedContext, entries: seq<Entry>, e: Entry)
    ensures CollectEntries(ctx, entries + [e])
         == CollectEntries(ctx, entries) + (if Accepted(ctx, e) then [EntryToItem(ctx, e).value] else [])
  {
    FilterMapSnoc(entries, e, e' => EntryToItem(ctx, e'));
  }

  /** Every collected item is well formed for its feed. */
  lemma CollectedWellFormed(ctx: FeedContext, entries: seq<Entry>)
    ensures forall item :: item in CollectEntries(ctx, entries) ==> WellFormed(ctx, item)
  {
    forall item | item in CollectEntries(ctx, entries)
      ensures WellFormed(ctx, item)
    {
      var j :| 0 <= j < |entries| && EntryToItem(ctx, entries[j]) == Some(item);
      EntryToItemFacts(ctx, entries[j]);
    }
  }

  lemma CollectedWellFormedAt(ctx: FeedContext, entries: seq<Entry>)
    ensures var r := CollectEntries(ctx, entries);
      forall k :: 0 <= k < |r| ==> WellFormed(ctx, r[k])
  {
    var r := CollectEntries(ctx, entries);
    CollectedWellFormed(ctx, entries);
    forall k | 0 <= k < |r|
      ensures WellFormed(ctx, r[k])
    {
      assert r[k] in r;
    }
  }

  /** The number of accepted entries. */
  function AcceptedCount(ctx: FeedContext, entries: seq<Entry>): (r: nat)
    ensures r <= |entries|
    decreases |entries|
  {
    if |entries| == 0 then 0
    else (if Accepted(ctx, entries[0]) then 1 else 0) + AcceptedCount(ctx, entries[1..])
  }

  /** One item per accepted entry. */
  lemma {:induction false} CollectEntriesCount(ctx: FeedContext, entries: seq<Entry>)
    ensures |CollectEntries(ctx, entries)| == AcceptedCount(ctx, entries)
    decreases |entries|
  {
    if |entries| > 0 {
      CollectEntriesCount(ctx, entries[1..]);
      assert EntryToItem(ctx, entries[0]).Some? <==> Accepted(ctx, entries[0]);
    }
  }

  /**
   * `collect_from_feed`: the first `maxItems` entries of the feed, in order;
   * nothing when the feed cannot be fetched. The feed's own title, when it
   * has the key, names the publisher of last resort; otherwise the feed's
   * configured name does.
   */
  function CollectFromFeed(env: Environment, config: FeedConfig, runId: string, maxItems: int,
                           lookback: Option<Timestamp>, fetchedAt: Timestamp): (r: seq<Item>)
    ensures env.fetch(config.url).None? ==> r == []
    ensures env.fetch(config.url).Some? ==>
      var feed := env.fetch(config.url).value;
      r == CollectEntries(FeedContext(env, config, runId, feed.title.GetOr(config.name), fetchedAt, lookback),
                          SliceTo(feed.entries, maxItems))
    ensures 0 <= maxItems ==> |r| <= maxItems
    ensures forall k :: 0 <= k < |r| ==>
      && r[k].runId == runId && r[k].sourceName == config.name && r[k].sourceWeight == config.weight
      && r[k].fetchedAt == fetchedAt && r[k].topicId == NoiseTopic
      && (lookback.Some? ==> r[k].publishedAt >= lookback.value)
  {
    match env.fetch(config.url)
    case None => []
    case Some(feed) =>
      var ctx := FeedContext(env, config, runId, feed.title.GetOr(config.name), fetchedAt, lookback);
      var entries := SliceTo(feed.entries, maxItems);
      CollectedWellFormedAt(ctx, entries);
      CollectEntries(ctx, entries)
  }

  /**
   * `collect_all_feeds`: each feed's items in feed order, concatenated.
   * `clock(k)` is the instant the k-th feed is fetched.
   */
  function CollectAllFeeds(env: Environment, configs: seq<FeedConfig>, runId: string, maxItemsPerFeed: int,
                           lookback: Timestamp, clock: nat -> Timestamp): (r: seq<Item>)
    ensures 0 <= maxItemsPerFeed ==> |r| <= |configs| * maxItemsPerFeed
    decreases |configs|
  {
    if |configs| == 0 then []
    else
      var n := |configs| - 1;
      var prev := CollectAllFeeds(env, configs[..n], runId, maxItemsPerFeed, lookback, clock);
      var last := CollectFromFeed(env, configs[n], runId, maxItemsPerFeed, Some(lookback), clock(n));
      MulStep(n, maxItemsPerFeed);
      prev + last
  }

  lemma MulStep(n: int, m: int)
    ensures (n + 1) * m == n * m + m
  {
  }

  /**
   * An item of the run, not yet clustered, no older than the lookback
   * bound, from one of the configured feeds, whose name and weight it carries.
   */
  predicate CollectedFrom(item: Item, configs: seq<FeedConfig>, runId: string, lookback: Timestamp) {
    && item.runId == runId && item.topicId == NoiseTopic && item.publishedAt >= lookback
    && (item.sourceName, item.sourceWeight) in Sources(configs)
  }

  /** Every one of `items` is collected from `configs`. */
  predicate AllCollected(items: seq<Item>, configs: seq<FeedConfig>, runId: string, lookback: Timestamp) {
    forall k :: 0 <= k < |items| ==> CollectedFrom(items[k], configs, runId, lookback)
  }

  /** The name and weight of each configured feed. */
  function Sources(configs: seq<FeedConfig>): (r: seq<(string, real)>)
    ensures |r| == |configs|
    ensures forall f :: 0 <= f < |configs| ==> r[f] == (configs[f].name, configs[f].weight)
  {
    seq(|configs|, f requires 0 <= f < |configs| => (configs[f].name, configs[f].weight))
  }

  /** Every item `collect_all_feeds` returns is collected from the configured feeds. */
  lemma {:induction false} CollectAllFeedsItems(env: Environment, configs: seq<FeedConfig>, runId: string,
                                                maxItemsPerFeed: int, lookback: Timestamp, clock: nat -> Timestamp)
    ensures AllCollected(CollectAllFeeds(env, configs, runId, maxItemsPerFeed, lookback, clock), configs, runId, lookback)
    decreases |configs|
  {
    if |configs| > 0 {
      var n := |configs| - 1;
      CollectAllFeedsItems(env, configs[..n], runId, maxItemsPerFeed, lookback, clock);
      var prev := CollectAllFeeds(env, configs[..n], runId, maxItemsPerFeed, lookback, clock);
      var last := CollectFromFeed(env, configs[n], runId, maxItemsPerFeed, Some(lookback), clock(n));
      CollectedStep(prev, last, configs, runId, lookback);
    }
  }

  /** The items of the first feeds and those of the last feed are together collected from all of them. */
  lemma CollectedStep(prev: seq<Item>, last: seq<Item>, configs: seq<FeedConfig>, runId: string, lookback: Timestamp)
    requires |configs| > 0
    requires AllCollected(prev, configs[..|configs| - 1], runId, lookback)
    requires forall k :: 0 <= k < |last| ==>
      && last[k].runId == runId && last[k].sourceName == configs[|configs| - 1].name
      && last[k].sourceWeight == configs[|configs| - 1].weight
      && last[k].topicId == NoiseTopic && last[k].publishedAt >= lookback
    ensures AllCollected(prev + last, configs, runId, lookback)
  {
    var n := |configs| - 1;
    AllCollectedWider(prev, configs[..n], configs, runId, lookback);
    forall k | 0 <= k < |last|
      ensures CollectedFrom(last[k], configs, runId, lookback)
    {
      assert Sources(configs)[n] == (last[k].sourceName, last[k].sourceWeight);
    }
    AllCollectedAppend(prev, last, configs, runId, lookback);
  }

  lemma AllCollectedAppend(a: seq<Item>, b: seq<Item>, configs: seq<FeedConfig>, runId: string, lookback: Timestamp)
    requires forall k :: 0 <= k < |a| ==> CollectedFrom(a[k], configs, runId, lookback)
    requires forall k :: 0 <= k < |b| ==> CollectedFrom(b[k], configs, runId, lookback)
    ensures forall k :: 0 <= k < |a + b| ==> CollectedFrom((a + b)[k], configs, runId, lookback)
  {
    forall k | 0 <= k < |a + b|
      ensures CollectedFrom((a + b)[k], configs, runId, lookback)
    {
      if k < |a| {
        assert (a + b)[k] == a[k];
      } else {
        assert (a + b)[k] == b[k - |a|];
      }
    }
  }

  lemma AllCollectedWider(items: seq<Item>, prefix: seq<FeedConfig>, configs: seq<FeedConfig>, runId: string,
                          lookback: Timestamp)
    requires prefix <= configs
    requires forall k :: 0 <= k < |items| ==> CollectedFrom(items[k], prefix, runId, lookback)
    ensures forall k :: 0 <= k < |items| ==> CollectedFrom(items[k], configs, runId, lookback)
  {
    forall k | 0 <= k < |items|
      ensures CollectedFrom(items[k], configs, runId, lookback)
    {
      CollectedFromWider(items[k], prefix, configs, runId, lookback);
    }
  }

  lemma CollectedFromWider(item: Item, prefix: seq<FeedConfig>, configs: seq<FeedConfig>, runId: string,
                           lookback: Timestamp)
    requires prefix <= configs
    requires CollectedFrom(item, prefix, runId, lookback)
    ensures CollectedFrom(item, configs, runId, lookback)
  {
    var f :| 0 <= f < |prefix| && Sources(prefix)[f] == (item.sourceName, item.sourceWeight);
    assert prefix[f] == configs[f];
    assert Sources(configs)[f] == (item.sourceName, item.sourceWeight);
  }

  /** Collecting a list of feeds collects the first feeds, then the rest. */
  lemma CollectAllFeedsSnoc(env: Environment, configs: seq<FeedConfig>, config: FeedConfig, runId: string,
                            maxItemsPerFeed: int, lookback: Timestamp, clock: nat -> Timestamp)
    ensures CollectAllFeeds(env, configs + [config], runId, maxItemsPerFeed, lookback, clock)
         == CollectAllFeeds(env, configs, runId, maxItemsPerFeed, lookback, clock)
            + CollectFromFeed(env, config, runId, maxItemsPerFeed, Some(lookback), clock(|configs|))
  {
    assert (configs + [config])[..|configs|] == configs;
  }
}
