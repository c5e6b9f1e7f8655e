/**
 * The records that flow through the pipeline: collected items and the topics
 * aggregated from them (trend_miner/models.py).
 *
 * Timestamps are UTC instants counted in microseconds since the Unix epoch.
 * The open `json_payload` dictionaries become records holding exactly the
 * keys the pipeline writes.
 */
module Models {
  import opened Wrappers

  type Timestamp = int

  const MicrosPerSecond: int := 1_000_000
  const MicrosPerHour: int := 3600 * MicrosPerSecond
  const MicrosPerDay: int := 24 * MicrosPerHour

  /** Label used for items the clustering could not place. */
  const NoiseTopic: int := -1

  /** The side-channel payload the RSS collector attaches to every item. */
  datatype ItemPayload = ItemPayload(
    publisherName: string,
    category: Option<string>,
    market: Option<string>,
    language: string,
    originalLink: string)

  /** One collected news article (`ItemRecord`). */
  datatype Item = Item(
    itemId: string,
    runId: string,
    canonicalUrl: string,
    publisherDomain: string,
    publishedAt: Timestamp,
    fetchedAt: Timestamp,
    sourceName: string,
    sourceWeight: real,
    title: string,
    summary: string,
    hasSummary: bool,
    textLen: int,
    contentHash: string,
    topicId: int,
    topicSignature: string,
    payload: ItemPayload)

  /**
   * The ranking shared by deduplication and the choice of representative
   * items: a heavier source first, then a later publication time.
   */
  predicate Outranks(a: Item, b: Item) {
    || a.sourceWeight > b.sourceWeight
    || (a.sourceWeight == b.sourceWeight && a.publishedAt > b.publishedAt)
  }

  /** Number of items whose timestamp falls in the bucket starting at `bucketStart`. */
  datatype TopicBucket = TopicBucket(bucketStart: Timestamp, count: nat)

  /** The reduced view of an item shown as an example of its topic. */
  datatype RepresentativeItem = RepresentativeItem(
    url: string,
    title: string,
    domain: string,
    publishedAt: Timestamp,
    summary: string)

  /** The four sub-scores recorded next to a topic's final score. */
  datatype ScoreBreakdown = ScoreBreakdown(
    volumeScore: real,
    velocityScore: real,
    sourceScore: real,
    watchlistBonus: real)

  /** A publisher domain with its number of items in one topic. */
  datatype DomainCount = DomainCount(domain: string, count: nat)

  /** The topic's side-channel payload. */
  datatype TopicPayload = TopicPayload(
    topDomains: seq<string>,
    domainCounts: seq<DomainCount>,
    scoreBreakdown: Option<ScoreBreakdown>)

  /** One aggregated cluster (`TopicRecord`). */
  datatype Topic = Topic(
    runId: string,
    topicId: int,
    topicSignature: string,
    topKeywords: seq<string>,
    topicVolume: int,
    uniqueDomains: int,
    avgSourceWeight: real,
    duplicateRatio: real,
    countsByBucket: seq<TopicBucket>,
    firstSeenAt: Option<Timestamp>,
    lastSeenAt: Option<Timestamp>,
    representativeItems: seq<RepresentativeItem>,
    narrativeSignalScore: Option<real>,
    payload: TopicPayload)
}
