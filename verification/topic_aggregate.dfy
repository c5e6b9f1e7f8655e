/**
 * Topic aggregation (trend_miner/processing/topic_aggregate.py): clustered
 * items are grouped by topic id, and each group becomes one topic record
 * with its statistics, time buckets, representative items and signature.
 * The signature is written back onto every item of the group.
 */
module TopicAggregate {
  import opened Wrappers
  import opened Text
  import opened Models
  import opened Collections
  import opened Sorting
  import opened TimeBuckets
  import Hashing

  /** How many domains `top_domains` keeps, and how many `domain_counts` keeps. */
  const TopDomainCount: nat := 5
  const DomainCountsKept: nat := 10

  /** How many keywords a topic record keeps. */
  const TopKeywordCount: nat := 15

  /** How many representative items a topic shows, and how much of each summary. */
  const RepresentativeCount: nat := 5
  const SummaryPreviewLength: nat := 200

  function Domains(items: seq<Item>): (r: seq<string>)
    ensures |r| == |items|
    ensures forall i :: 0 <= i < |items| ==> r[i] == items[i].publisherDomain
  {
    seq(|items|, i requires 0 <= i < |items| => items[i].publisherDomain)
  }

  function Hashes(items: seq<Item>): (r: seq<string>)
    ensures |r| == |items|
    ensures forall i :: 0 <= i < |items| ==> r[i] == items[i].contentHash
  {
    seq(|items|, i requires 0 <= i < |items| => items[i].contentHash)
  }

  function Weights(items: seq<Item>): (r: seq<real>)
    ensures |r| == |items|
    ensures forall i :: 0 <= i < |items| ==> r[i] == items[i].sourceWeight
  {
    seq(|items|, i requires 0 <= i < |items| => items[i].sourceWeight)
  }

  function PublishedTimes(items: seq<Item>): (r: seq<Timestamp>)
    ensures |r| == |items|
    ensures forall i :: 0 <= i < |items| ==> r[i] == items[i].publishedAt
  {
    seq(|items|, i requires 0 <= i < |items| => items[i].publishedAt)
  }

  function TopicIds(items: seq<Item>): (r: seq<int>)
    ensures |r| == |items|
    ensures forall i :: 0 <= i < |items| ==> r[i] == items[i].topicId
  {
    seq(|items|, i requires 0 <= i < |items| => items[i].topicId)
  }

  function DomainsOf(counts: seq<DomainCount>): (r: seq<string>)
    ensures |r| == |counts|
    ensures forall k :: 0 <= k < |counts| ==> r[k] == counts[k].domain
  {
    seq(|counts|, k requires 0 <= k < |counts| => counts[k].domain)
  }

  // ---------------------------------------------------------------------
  // Counter(...).most_common(n)
  // ---------------------------------------------------------------------

  /**
   * Position `i` of the table of distinct values comes before position `j`:
   * its value occurs more often, or equally often and was seen first.
   */
  function MoreCommon(values: seq<string>, table: seq<string>): (int, int) -> bool {
    (i: int, j: int) =>
      && 0 <= i < |table| && 0 <= j < |table|
      && (|| multiset(values)[table[i]] > multiset(values)[table[j]]
          || (multiset(values)[table[i]] == multiset(values)[table[j]] && i < j))
  }

  lemma MoreCommonOrders(values: seq<string>, table: seq<string>)
    ensures StrictOrder(MoreCommon(values, table))
    ensures TotalBelow(MoreCommon(values, table), |table|)
  {
  }

  /**
   * `Counter(values).most_common(n)`: the `n` most frequent values with their
   * counts, most frequent first and, among equally frequent ones, in order of
   * first occurrence. A value left out occurs no more often than any listed,
   * and one as frequent as a listed value first occurs after it.
   */
  function MostCommon(values: seq<string>, n: nat): (r: seq<DomainCount>)
    ensures |r| == if n < |Elements(values)| then n else |Elements(values)|
    ensures forall k :: 0 <= k < |r| ==> r[k].domain in values && r[k].count == multiset(values)[r[k].domain]
    ensures forall k, l :: 0 <= k < l < |r| ==> r[k].domain != r[l].domain
    ensures forall k, l :: 0 <= k < l < |r| ==> r[k].count >= r[l].count
    ensures forall k, l :: 0 <= k < l < |r| && r[k].count == r[l].count ==>
      FirstIndex(values, r[k].domain) < FirstIndex(values, r[l].domain)
    ensures forall d :: d in values && d !in DomainsOf(r) ==> |r| == n
    ensures forall d, k :: d in values && d !in DomainsOf(r) && 0 <= k < |r| ==> multiset(values)[d] <= r[k].count
    ensures forall d, k :: d in values && d !in DomainsOf(r) && 0 <= k < |r| && multiset(values)[d] == r[k].count ==>
      FirstIndex(values, r[k].domain) < FirstIndex(values, d)
  {
    var table := Distinct(values);
    MoreCommonOrders(values, table);
    var top := TopIndices(|table|, n, MoreCommon(values, table));
    var r := seq(|top|, k requires 0 <= k < |top| => DomainCount(table[top[k]], multiset(values)[table[top[k]]]));
    MostCommonFacts(values, n, table, top, r);
    r
  }

  lemma MostCommonFacts(values: seq<string>, n: nat, table: seq<string>, top: seq<int>, r: seq<DomainCount>)
    requires table == Distinct(values)
    requires StrictOrder(MoreCommon(values, table)) && TotalBelow(MoreCommon(values, table), |table|)
    requires top == TopIndices(|table|, n, MoreCommon(values, table))
    requires |r| == |top|
    requires forall k :: 0 <= k < |top| ==> r[k] == DomainCount(table[top[k]], multiset(values)[table[top[k]]])
    ensures |r| == if n < |Elements(values)| then n else |Elements(values)|
    ensures forall k :: 0 <= k < |r| ==> r[k].domain in values && r[k].count == multiset(values)[r[k].domain]
    ensures forall k, l :: 0 <= k < l < |r| ==> r[k].domain != r[l].domain
    ensures forall k, l :: 0 <= k < l < |r| ==> r[k].count >= r[l].count
    ensures forall k, l :: 0 <= k < l < |r| && r[k].count == r[l].count ==>
      FirstIndex(values, r[k].domain) < FirstIndex(values, r[l].domain)
    ensures forall d :: d in values && d !in DomainsOf(r) ==> |r| == n
    ensures forall d, k :: d in values && d !in DomainsOf(r) && 0 <= k < |r| ==> multiset(values)[d] <= r[k].count
    ensures forall d, k :: d in values && d !in DomainsOf(r) && 0 <= k < |r| && multiset(values)[d] == r[k].count ==>
      FirstIndex(values, r[k].domain) < FirstIndex(values, d)
  {
    DistinctCardinality(values);
    forall k | 0 <= k < |r|
      ensures r[k].domain in values
    {
      assert table[top[k]] in table;
    }
    MostCommonOrdered(values, n, table, top, r);
    MostCommonIsTop(values, n, table, top, r);
  }

  lemma MostCommonOrdered(values: seq<string>, n: nat, table: seq<string>, top: seq<int>, r: seq<DomainCount>)
    requires table == Distinct(values)
    requires StrictOrder(MoreCommon(values, table)) && TotalBelow(MoreCommon(values, table), |table|)
    requires top == TopIndices(|table|, n, MoreCommon(values, table))
    requires |r| == |top|
    requires forall k :: 0 <= k < |top| ==> r[k] == DomainCount(table[top[k]], multiset(values)[table[top[k]]])
    ensures forall k, l :: 0 <= k < l < |r| ==>
      && r[k].domain != r[l].domain
      && r[k].count >= r[l].count
      && (r[k].count == r[l].count ==> FirstIndex(values, r[k].domain) < FirstIndex(values, r[l].domain))
  {
    var lt := MoreCommon(values, table);
    DistinctInFirstOccurrenceOrder(values);
    forall k, l | 0 <= k < l < |r|
      ensures r[k].domain != r[l].domain
      ensures r[k].count >= r[l].count
      ensures r[k].count == r[l].count ==> FirstIndex(values, r[k].domain) < FirstIndex(values, r[l].domain)
    {
      assert lt(top[k], top[l]);
      assert top[k] != top[l];
    }
  }

  lemma MostCommonIsTop(values: seq<string>, n: nat, table: seq<string>, top: seq<int>, r: seq<DomainCount>)
    requires table == Distinct(values)
    requires StrictOrder(MoreCommon(values, table)) && TotalBelow(MoreCommon(values, table), |table|)
    requires top == TopIndices(|table|, n, MoreCommon(values, table))
    requires |r| == |top|
    requires forall k :: 0 <= k < |top| ==> r[k] == DomainCount(table[top[k]], multiset(values)[table[top[k]]])
    ensures forall d :: d in values && d !in DomainsOf(r) ==> |r| == n
    ensures forall d, k :: d in values && d !in DomainsOf(r) && 0 <= k < |r| ==> multiset(values)[d] <= r[k].count
    ensures forall d, k :: d in values && d !in DomainsOf(r) && 0 <= k < |r| && multiset(values)[d] == r[k].count ==>
      FirstIndex(values, r[k].domain) < FirstIndex(values, d)
  {
    var lt := MoreCommon(values, table);
    DistinctInFirstOccurrenceOrder(values);
    forall d | d in values && d !in DomainsOf(r)
      ensures |r| == n
      ensures forall k :: 0 <= k < |r| ==> multiset(values)[d] <= r[k].count
      ensures forall k :: 0 <= k < |r| && multiset(values)[d] == r[k].count ==>
        FirstIndex(values, r[k].domain) < FirstIndex(values, d)
    {
      assert d in table;
      var x :| 0 <= x < |table| && table[x] == d;
      assert x !in top;
      forall k | 0 <= k < |r|
        ensures multiset(values)[d] <= r[k].count
        ensures multiset(values)[d] == r[k].count ==> FirstIndex(values, r[k].domain) < FirstIndex(values, d)
      {
        assert lt(top[k], x);
      }
    }
  }

  /** Asking for fewer of the most common values gives a prefix of the longer answer. */
  lemma MostCommonPrefix(values: seq<string>, m: nat, n: nat)
    requires m <= n
    ensures MostCommon(values, m) == Take(MostCommon(values, n), m)
  {
    var table := Distinct(values);
    MoreCommonOrders(values, table);
    var lt := MoreCommon(values, table);
    var all := SortIndices(|table|, lt);
    var tm := TopIndices(|table|, m, lt);
    var tn := TopIndices(|table|, n, lt);
    assert tm == Take(tn, m);
    var a := MostCommon(values, m);
    var b := Take(MostCommon(values, n), m);
    assert |a| == |b|;
    forall k | 0 <= k < |a|
      ensures a[k] == b[k]
    {
      assert tm[k] == tn[k];
    }
  }

  // ---------------------------------------------------------------------
  // select_representative_items
  // ---------------------------------------------------------------------

  /**
   * Position `i` comes before position `j` in the representative order:
   * `sorted` by (-weight, -published time) keeps equal keys in input order.
   */
  function RanksAhead(items: seq<Item>): (int, int) -> bool {
    (i: int, j: int) =>
      && 0 <= i < |items| && 0 <= j < |items|
      && (Outranks(items[i], items[j]) || (!Outranks(items[j], items[i]) && i < j))
  }

  lemma RanksAheadOrders(items: seq<Item>)
    ensures StrictOrder(RanksAhead(items))
    ensures TotalBelow(RanksAhead(items), |items|)
  {
  }

  /**
   * The positions of the items shown: at most `n`, best first; an item left
   * out outranks none of those shown, and ties go to the earlier item.
   */
  function RepresentativeIndices(items: seq<Item>, n: nat): (r: seq<int>)
    ensures |r| == if n < |items| then n else |items|
    ensures forall a :: 0 <= a < |r| ==> 0 <= r[a] < |items|
    ensures NoDuplicates(r)
    ensures forall a, b :: 0 <= a < b < |r| ==>
      !Outranks(items[r[b]], items[r[a]]) && (Outranks(items[r[a]], items[r[b]]) || r[a] < r[b])
    ensures forall x, a :: 0 <= x < |items| && x !in r && 0 <= a < |r| ==>
      !Outranks(items[x], items[r[a]]) && (Outranks(items[r[a]], items[x]) || r[a] < x)
  {
    RanksAheadOrders(items);
    var r := TopIndices(|items|, n, RanksAhead(items));
    assert forall a, b :: 0 <= a < b < |r| ==> RanksAhead(items)(r[a], r[b]);
    r
  }

  /** The shortened view of an item: its summary cut to 200 characters. */
  function Preview(item: Item): (r: RepresentativeItem)
    ensures r.url == item.canonicalUrl && r.title == item.title && r.domain == item.publisherDomain
    ensures r.publishedAt == item.publishedAt
    ensures |r.summary| <= SummaryPreviewLength && r.summary <= item.summary
    ensures |item.summary| <= SummaryPreviewLength ==> r.summary == item.summary
  {
    RepresentativeItem(item.canonicalUrl, item.title, item.publisherDomain, item.publishedAt,
                       Take(item.summary, SummaryPreviewLength))
  }

  function SelectRepresentatives(items: seq<Item>, n: nat): (r: seq<RepresentativeItem>)
    ensures var idx := RepresentativeIndices(items, n);
      |r| == |idx| && forall a :: 0 <= a < |r| ==> r[a] == Preview(items[idx[a]])
  {
    var idx := RepresentativeIndices(items, n);
    seq(|idx|, a requires 0 <= a < |idx| => Preview(items[idx[a]]))
  }

  // ---------------------------------------------------------------------
  // create_topic_record
  // ---------------------------------------------------------------------

  function TopDomains(items: seq<Item>): seq<string> {
    DomainsOf(MostCommon(Domains(items), TopDomainCount))
  }

  /** The signature of a group: its first 10 keywords and its 5 most common domains. */
  function GroupSignature(sha: Hashing.Sha256, items: seq<Item>, keywords: seq<string>): Hashing.Digest {
    Hashing.TopicSignature(sha, Take(keywords, Hashing.SignatureKeywords), Take(TopDomains(items), Hashing.SignatureDomains))
  }

  /** Share of the group whose content hash repeats an earlier one's. */
  function DuplicateRatio(items: seq<Item>): (r: real)
    requires |items| > 0
    ensures 0.0 <= r < 1.0
    ensures r == 0.0 <==> NoDuplicates(Hashes(items))
  {
    var unique := |Elements(Hashes(items))|;
    DistinctCardinality(Hashes(items));
    assert 1 <= unique by {
      assert Hashes(items)[0] in Elements(Hashes(items));
    }
    DistinctLength(Hashes(items));
    DistinctFullIff(Hashes(items));
    RatioBounds(unique, |items|);
    1.0 - unique as real / |items| as real
  }

  lemma RatioBounds(u: nat, n: nat)
    requires 1 <= u <= n
    ensures 0.0 <= 1.0 - u as real / n as real < 1.0
    ensures 1.0 - u as real / n as real == 0.0 <==> u == n
  {
    var q := u as real / n as real;
    QuotientBounds(u as real, n as real, 1.0 / n as real, 1.0);
    assert q * n as real == u as real;
    if q == 1.0 {
      assert u as real == n as real;
    }
  }

  lemma {:induction false} DistinctLength<T(!new)>(s: seq<T>)
    ensures |Distinct(s)| <= |s|
    decreases |s|
  {
    if |s| > 0 {
      DistinctLength(s[..|s| - 1]);
    }
  }

  /** A sequence has as many distinct values as elements exactly when it has no repetitions. */
  lemma {:induction false} DistinctFullIff<T(!new)>(s: seq<T>)
    ensures |Distinct(s)| == |s| <==> NoDuplicates(s)
    decreases |s|
  {
    if |s| > 0 {
      var p := s[..|s| - 1];
      var x := s[|s| - 1];
      assert s == p + [x];
      DistinctFullIff(p);
      DistinctSnoc(p, x);
      DistinctLength(p);
      if x in p {
        var i :| 0 <= i < |p| && p[i] == x;
        assert s[i] == s[|s| - 1];
      } else if NoDuplicates(p) {
        assert NoDuplicates(s) by {
          forall i, j | 0 <= i < j < |s|
            ensures s[i] != s[j]
          {
            if j == |s| - 1 {
              assert s[i] == p[i];
            } else {
              assert s[i] == p[i] && s[j] == p[j];
            }
          }
        }
      } else {
        assert !NoDuplicates(s) by {
          var i, j :| 0 <= i < j < |p| && p[i] == p[j];
          assert s[i] == s[j];
        }
      }
    }
  }

  function AverageWeight(items: seq<Item>): real
    requires |items| > 0
  {
    Sum(Weights(items)) / |items| as real
  }

  /** The average source weight lies between any bounds on the weights. */
  lemma AverageWeightBounds(items: seq<Item>, lo: real, hi: real)
    requires |items| > 0
    requires forall i :: 0 <= i < |items| ==> lo <= items[i].sourceWeight <= hi
    ensures lo <= AverageWeight(items) <= hi
  {
    SumBounds(Weights(items), lo, hi);
    QuotientBounds(Sum(Weights(items)), |items| as real, lo, hi);
  }

  /**
   * `create_topic_record`. An empty group is an error, and so is an
   * unsupported bucket interval.
   */
  function CreateTopicRecord(sha: Hashing.Sha256, topicId: int, items: seq<Item>, keywords: seq<string>,
                             intervalName: string): (r: Result<Topic>)
    ensures r.Failure? <==> |items| == 0 || ParseInterval(intervalName).None?
    ensures r.Success? ==>
      && r.value.topicId == topicId
      && r.value.topicVolume == |items|
      && r.value.topKeywords == Take(keywords, TopKeywordCount)
      && r.value.topicSignature == GroupSignature(sha, items, keywords)
  {
    if |items| == 0 then Failure("Cannot create TopicRecord with empty items")
    else
      var buckets :- CalculateTimeBuckets(PublishedTimes(items), intervalName);
      var top := TopDomains(items);
      Success(Topic(
        runId := items[0].runId,
        topicId := topicId,
        topicSignature := GroupSignature(sha, items, keywords),
        topKeywords := Take(keywords, TopKeywordCount),
        topicVolume := |items|,
        uniqueDomains := |Distinct(Domains(items))|,
        avgSourceWeight := AverageWeight(items),
        duplicateRatio := DuplicateRatio(items),
        countsByBucket := buckets,
        firstSeenAt := Some(Min(PublishedTimes(items))),
        lastSeenAt := Some(Max(PublishedTimes(items))),
        representativeItems := SelectRepresentatives(items, RepresentativeCount),
        narrativeSignalScore := None,
        payload := TopicPayload(top, MostCommon(Domains(items), DomainCountsKept), None)))
  }

  /**
   * What a topic record holds: the group's size, distinct domain count,
   * average weight, duplicate share in [0, 1), time span, buckets that
   * partition the group, its representatives, 15 keywords, its 10 most
   * common domains of which the first 5 are `top_domains`, and the
   * signature of its first 10 keywords and those 5 domains; no score yet.
   */
  lemma CreateTopicRecordFacts(sha: Hashing.Sha256, topicId: int, items: seq<Item>, keywords: seq<string>,
                               intervalName: string)
    ensures var r := CreateTopicRecord(sha, topicId, items, keywords, intervalName);
      r.Success? ==>
      var t := r.value;
      && t.runId == items[0].runId
      && t.uniqueDomains == |Elements(Domains(items))|
      && t.avgSourceWeight == AverageWeight(items)
      && 0.0 <= t.duplicateRatio < 1.0
      && t.duplicateRatio == DuplicateRatio(items)
      && Success(t.countsByBucket) == CalculateTimeBuckets(PublishedTimes(items), intervalName)
      && t.firstSeenAt == Some(Min(PublishedTimes(items)))
      && t.lastSeenAt == Some(Max(PublishedTimes(items)))
      && Ascending(t.countsByBucket)
      && AllNonEmpty(t.countsByBucket)
      && Total(t.countsByBucket) == t.topicVolume
      && t.representativeItems == SelectRepresentatives(items, RepresentativeCount)
      && t.payload.domainCounts == MostCommon(Domains(items), DomainCountsKept)
      && t.payload.topDomains == Take(DomainsOf(t.payload.domainCounts), TopDomainCount)
      && t.topicSignature == Hashing.TopicSignature(sha, keywords, t.payload.topDomains)
      && t.narrativeSignalScore.None?
      && t.payload.scoreBreakdown.None?
  {
    if |items| > 0 {
      var top := TopDomains(items);
      MostCommonPrefix(Domains(items), TopDomainCount, DomainCountsKept);
      DistinctCardinality(Domains(items));
      Hashing.SignatureOfTruncated(sha, keywords, top);
      assert Take(DomainsOf(MostCommon(Domains(items), DomainCountsKept)), TopDomainCount) == top;
    }
  }

  // ---------------------------------------------------------------------
  // aggregate_topics
  // ---------------------------------------------------------------------

  /** The items of one topic, in input order. */
  function Group(items: seq<Item>, id: int): (r: seq<Item>)
    ensures forall x :: x in r <==> x in items && x.topicId == id
    decreases |items|
  {
    if |items| == 0 then []
    else
      assert items == [items[0]] + items[1..];
      (if items[0].topicId == id then [items[0]] else []) + Group(items[1..], id)
  }

  /**
   * The loop body of the grouping: one more item is appended to its own
   * topic's group and leaves every other group as it was, so each group
   * lists its items in input order.
   */
  lemma {:induction false} GroupSnoc(items: seq<Item>, x: Item, id: int)
    ensures Group(items + [x], id) == Group(items, id) + (if x.topicId == id then [x] else [])
    decreases |items|
  {
    if |items| == 0 {
      assert Group([x], id) == (if x.topicId == id then [x] else []) + Group([], id);
    } else {
      assert (items + [x])[0] == items[0];
      assert (items + [x])[1..] == items[1..] + [x];
      GroupSnoc(items[1..], x, id);
    }
  }

  /** A topic's group holds as many items as the items carry that topic id. */
  lemma {:induction false} GroupSize(items: seq<Item>, id: int)
    ensures |Group(items, id)| == multiset(TopicIds(items))[id]
    decreases |items|
  {
    if |items| > 0 {
      assert TopicIds(items) == [items[0].topicId] + TopicIds(items[1..]);
      GroupSize(items[1..], id);
    }
  }

  lemma GroupNonEmpty(items: seq<Item>, id: int)
    requires id in TopicIds(items)
    ensures |Group(items, id)| > 0
  {
    var i :| 0 <= i < |items| && TopicIds(items)[i] == id;
    assert items[i] in Group(items, id);
  }

  /** The topic ids of the clustered items, noise left out, one entry per item. */
  function ClusteredIds(items: seq<Item>): (r: seq<int>)
    ensures forall id :: id in r <==> id in TopicIds(items) && id != NoiseTopic
  {
    Filter(TopicIds(items), id => id != NoiseTopic)
  }

  /** `topic_keywords.get(topic_id, [])`. */
  function KeywordsFor(keywords: map<int, seq<string>>, id: int): (r: seq<string>)
    ensures id in keywords ==> r == keywords[id]
    ensures id !in keywords ==> r == []
  {
    if id in keywords then keywords[id] else []
  }

  function TopicIdsOf(topics: seq<Topic>): (r: seq<int>)
    ensures |r| == |topics|
    ensures forall k :: 0 <= k < |topics| ==> r[k] == topics[k].topicId
  {
    seq(|topics|, k requires 0 <= k < |topics| => topics[k].topicId)
  }

  /** The record of one topic id present in the items, under a supported interval. */
  function TopicFor(sha: Hashing.Sha256, items: seq<Item>, id: int, keywords: map<int, seq<string>>,
                    intervalName: string): (r: Topic)
    requires id in TopicIds(items)
    requires ParseInterval(intervalName).Some?
    ensures CreateTopicRecord(sha, id, Group(items, id), KeywordsFor(keywords, id), intervalName) == Success(r)
  {
    GroupNonEmpty(items, id);
    CreateTopicRecord(sha, id, Group(items, id), KeywordsFor(keywords, id), intervalName).value
  }

  /** Every clustered item takes the signature of its topic; noise items are left as they are. */
  function WriteBackSignatures(sha: Hashing.Sha256, items: seq<Item>, keywords: map<int, seq<string>>): (r: seq<Item>)
    ensures |r| == |items|
    ensures forall i :: 0 <= i < |items| ==> r[i] == items[i].(topicSignature := r[i].topicSignature)
    ensures forall i :: 0 <= i < |items| && items[i].topicId == NoiseTopic ==> r[i] == items[i]
    ensures forall i :: 0 <= i < |items| && items[i].topicId != NoiseTopic ==>
      r[i].topicSignature == GroupSignature(sha, Group(items, items[i].topicId), KeywordsFor(keywords, items[i].topicId))
  {
    seq(|items|, i requires 0 <= i < |items| =>
      if items[i].topicId == NoiseTopic then items[i]
      else items[i].(topicSignature := GroupSignature(sha, Group(items, items[i].topicId),
                                                      KeywordsFor(keywords, items[i].topicId))))
  }

  /** What `aggregate_topics` leaves behind: the items as updated in place, and the records. */
  datatype Aggregation = Aggregation(items: seq<Item>, topics: seq<Topic>)

  /** Some item is clustered exactly when there is a clustered topic id. */
  lemma ClusteredIff(items: seq<Item>)
    ensures (exists i :: 0 <= i < |items| && items[i].topicId != NoiseTopic) <==> |Distinct(ClusteredIds(items))| > 0
  {
    var ids := Distinct(ClusteredIds(items));
    if i :| 0 <= i < |items| && items[i].topicId != NoiseTopic {
      assert TopicIds(items)[i] in ClusteredIds(items);
    }
    if |ids| > 0 {
      assert ids[0] in TopicIds(items);
    }
  }

  /**
   * `aggregate_topics`: one record per non-noise topic id, in order of first
   * appearance. Only the signatures of the items change, and noise items do
   * not change at all. The error is the one the first record's bucketing
   * raises when the interval is unsupported.
   */
  function AggregateTopics(sha: Hashing.Sha256, items: seq<Item>, keywords: map<int, seq<string>>,
                           intervalName: string): (r: Result<Aggregation>)
    ensures r.Failure? <==>
      (exists i :: 0 <= i < |items| && items[i].topicId != NoiseTopic) && ParseInterval(intervalName).None?
    ensures r.Success? ==>
      && TopicIdsOf(r.value.topics) == Distinct(ClusteredIds(items))
      && |r.value.items| == |items|
      && (forall i :: 0 <= i < |items| ==> r.value.items[i] == items[i].(topicSignature := r.value.items[i].topicSignature))
      && (forall i :: 0 <= i < |items| && items[i].topicId == NoiseTopic ==> r.value.items[i] == items[i])
  {
    var ids := Distinct(ClusteredIds(items));
    ClusteredIff(items);
    if |ids| > 0 && ParseInterval(intervalName).None? then
      Failure("Unsupported bucket_interval: " + intervalName)
    else
      var topics := seq(|ids|, k requires 0 <= k < |ids| => TopicFor(sha, items, ids[k], keywords, intervalName));
      assert TopicIdsOf(topics) == ids by {
        forall k | 0 <= k < |ids|
          ensures topics[k].topicId == ids[k]
        {
          assert ids[k] in ClusteredIds(items);
        }
      }
      Success(Aggregation(WriteBackSignatures(sha, items, keywords), topics))
  }

  /**
   * Each record is built from exactly the items carrying its id: its volume
   * counts them, its keywords are that id's, and every one of those items
   * carries the record's signature afterwards.
   */
  lemma AggregateTopicsRecords(sha: Hashing.Sha256, items: seq<Item>, keywords: map<int, seq<string>>,
                               intervalName: string)
    ensures var r := AggregateTopics(sha, items, keywords, intervalName);
      r.Success? ==> forall k :: 0 <= k < |r.value.topics| ==>
        RecordOfGroup(sha, items, keywords, intervalName, r.value.items, r.value.topics[k])
  {
    var r := AggregateTopics(sha, items, keywords, intervalName);
    if r.Success? {
      var ids := Distinct(ClusteredIds(items));
      var topics := r.value.topics;
      assert |topics| == |ids|;
      forall k | 0 <= k < |topics|
        ensures RecordOfGroup(sha, items, keywords, intervalName, r.value.items, topics[k])
      {
        assert ids[k] in ClusteredIds(items);
        assert topics[k] == TopicFor(sha, items, ids[k], keywords, intervalName);
        TopicForFacts(sha, items, ids[k], keywords, intervalName);
      }
    }
  }

  /**
   * What ties one record to its group: it is the record `create_topic_record`
   * builds from the items carrying its id, and every one of those items
   * carries its signature afterwards.
   */
  predicate RecordOfGroup(sha: Hashing.Sha256, items: seq<Item>, keywords: map<int, seq<string>>,
                          intervalName: string, out: seq<Item>, t: Topic)
    requires |out| == |items|
  {
    && t.topicId != NoiseTopic
    && Success(t) == CreateTopicRecord(sha, t.topicId, Group(items, t.topicId), KeywordsFor(keywords, t.topicId), intervalName)
    && t.topicVolume == multiset(TopicIds(items))[t.topicId]
    && t.topKeywords == Take(KeywordsFor(keywords, t.topicId), TopKeywordCount)
    && (forall i :: 0 <= i < |items| && items[i].topicId == t.topicId ==> out[i].topicSignature == t.topicSignature)
  }

  lemma TopicForFacts(sha: Hashing.Sha256, items: seq<Item>, id: int, keywords: map<int, seq<string>>,
                      intervalName: string)
    requires id in TopicIds(items) && id != NoiseTopic
    requires ParseInterval(intervalName).Some?
    ensures RecordOfGroup(sha, items, keywords, intervalName, WriteBackSignatures(sha, items, keywords),
                          TopicFor(sha, items, id, keywords, intervalName))
  {
    var t := TopicFor(sha, items, id, keywords, intervalName);
    GroupSize(items, id);
    assert t.topicVolume == |Group(items, id)|;
    assert t.topicSignature == GroupSignature(sha, Group(items, id), KeywordsFor(keywords, id));
  }
}
