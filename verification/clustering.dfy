/**
 * Topic assignment around the clustering model
 * (trend_miner/processing/bertopic_model.py).
 *
 * The embedding, UMAP, HDBSCAN and BERTopic fitting are not modelled: the
 * fitted model enters as a function from the documents to one topic id per
 * document, and the topic-word lookup as a function from a topic id to what
 * `get_topic` yields. What is modelled is the code around them: the
 * degraded single-topic path, the assignment of ids, the statistics, the
 * noise handling and the shaping of the keyword table.
 */
module Clustering {
  import opened Models
  import opened Collections
  import TopicAggregate

  /** The text handed to the model for one item: title and summary separated by a space. */
  function Document(item: Item): (r: string)
    ensures |r| == |item.title| + 1 + |item.summary|
    ensures r[..|item.title|] == item.title && r[|item.title|] == ' ' && r[|item.title| + 1..] == item.summary
  {
    item.title + " " + item.summary
  }

  function Documents(items: seq<Item>): (r: seq<string>)
    ensures |r| == |items|
    ensures forall i :: 0 <= i < |items| ==> r[i] == Document(items[i])
  {
    seq(|items|, i requires 0 <= i < |items| => Document(items[i]))
  }

  /** The fitted model: one topic id per document, -1 for noise. */
  type FitTransform = seq<string> -> seq<int>

  datatype ClusterStats = ClusterStats(
    nItems: nat,
    nTopics: nat,
    noiseCount: nat,
    noiseRatio: real,
    degraded: bool)

  datatype Clustered = Clustered(items: seq<Item>, stats: ClusterStats)

  /** An item that the model placed in a topic rather than in noise. */
  predicate InTopic(item: Item) {
    item.topicId != NoiseTopic
  }

  const DefaultMinItemsToCluster: int := 30
  const DropNoise: string := "drop"

  /** Number of noise assignments. */
  function NoiseCount(topics: seq<int>): (r: nat)
    ensures r == multiset(topics)[NoiseTopic]
    ensures r <= |topics|
    decreases |topics|
  {
    if |topics| == 0 then 0
    else
      assert topics == [topics[0]] + topics[1..];
      (if topics[0] == NoiseTopic then 1 else 0) + NoiseCount(topics[1..])
  }

  /** `len(set(topics)) - (1 if -1 in set(topics) else 0)`: the number of distinct non-noise ids. */
  function TopicCount(topics: seq<int>): (r: nat)
    ensures r == |Elements(topics) - {NoiseTopic}|
  {
    var ids := Elements(topics);
    assert |ids - {NoiseTopic}| == |ids| - (if NoiseTopic in ids then 1 else 0) by {
      if NoiseTopic in ids {
        assert ids == (ids - {NoiseTopic}) + {NoiseTopic};
      } else {
        assert ids - {NoiseTopic} == ids;
      }
    }
    |ids| - (if NoiseTopic in ids then 1 else 0)
  }

  /**
   * The topic count is the number of distinct ids that clustered items
   * carry once noise is set aside.
   */
  lemma TopicCountIsDistinctClusters(topics: seq<int>)
    ensures TopicCount(topics) == |Distinct(Filter(topics, t => t != NoiseTopic))|
  {
    var clustered := Filter(topics, t => t != NoiseTopic);
    DistinctCardinality(clustered);
    assert Elements(clustered) == Elements(topics) - {NoiseTopic};
  }

  /**
   * `for item, topic_id in zip(items, topics): item.topic_id = topic_id`:
   * positions past the end of the shorter list keep their id.
   */
  function Assign(items: seq<Item>, topics: seq<int>): (r: seq<Item>)
    ensures |r| == |items|
    ensures forall i :: 0 <= i < |items| && i < |topics| ==> r[i] == items[i].(topicId := topics[i])
    ensures forall i :: |topics| <= i < |items| ==> r[i] == items[i]
  {
    seq(|items|, i requires 0 <= i < |items| => if i < |topics| then items[i].(topicId := topics[i]) else items[i])
  }

  /**
   * `cluster_items`. Below `minItemsToCluster` items every item joins topic 0
   * and the model is not consulted; otherwise the model's ids are assigned,
   * counted, and noise items are dropped when `noiseHandling` is "drop".
   */
  function ClusterItems(model: FitTransform, items: seq<Item>, minItemsToCluster: int,
                        noiseHandling: string): (r: Clustered)
    ensures r.stats.nItems == |items|
    ensures r.stats.degraded <==> |items| < minItemsToCluster
    ensures r.stats.degraded ==>
      && r.stats == ClusterStats(|items|, 1, 0, 0.0, true)
      && |r.items| == |items|
      && forall i :: 0 <= i < |items| ==> r.items[i] == items[i].(topicId := 0)
    ensures !r.stats.degraded ==>
      var topics := model(Documents(items));
      && r.stats.nTopics == |Elements(topics) - {NoiseTopic}|
      && r.stats.noiseCount == multiset(topics)[NoiseTopic]
      && r.stats.noiseRatio == (if |items| > 0 then r.stats.noiseCount as real / |items| as real else 0.0)
      && (noiseHandling == DropNoise ==> r.items == Filter(Assign(items, topics), InTopic))
      && (noiseHandling != DropNoise ==> r.items == Assign(items, topics))
  {
    if |items| < minItemsToCluster then
      Clustered(seq(|items|, i requires 0 <= i < |items| => items[i].(topicId := 0)),
                ClusterStats(|items|, 1, 0, 0.0, true))
    else
      var topics := model(Documents(items));
      var labelled := Assign(items, topics);
      var noise := NoiseCount(topics);
      var stats := ClusterStats(|items|, TopicCount(topics), noise,
                                if |items| > 0 then noise as real / |items| as real else 0.0, false);
      if noiseHandling == DropNoise then
        Clustered(Filter(labelled, InTopic), stats)
      else
        Clustered(labelled, stats)
  }

  /**
   * When the model labels every item, the noise ratio is a proportion, and
   * dropping noise keeps every labelled item except the noise ones, in
   * order: exactly `n_items - noise_count` of them.
   */
  lemma ClusterItemsDropsNoise(model: FitTransform, items: seq<Item>, minItemsToCluster: int)
    requires |items| >= minItemsToCluster
    requires |model(Documents(items))| == |items|
    ensures var r := ClusterItems(model, items, minItemsToCluster, DropNoise);
      && 0.0 <= r.stats.noiseRatio <= 1.0
      && |r.items| == |items| - r.stats.noiseCount
      && (forall it :: it in r.items ==> InTopic(it))
      && (forall i :: 0 <= i < |items| && model(Documents(items))[i] != NoiseTopic ==>
            items[i].(topicId := model(Documents(items))[i]) in r.items)
  {
    var topics := model(Documents(items));
    var labelled := Assign(items, topics);
    var r := ClusterItems(model, items, minItemsToCluster, DropNoise);
    assert r.items == Filter(labelled, InTopic);
    assert r.stats.noiseCount == NoiseCount(topics);
    assert TopicAggregate.TopicIds(labelled) == topics;
    FilterLength(labelled, topics);
    NoiseRatioBounds(NoiseCount(topics), |items|);
    forall i | 0 <= i < |items| && topics[i] != NoiseTopic
      ensures items[i].(topicId := topics[i]) in r.items
    {
      assert labelled[i] in labelled && InTopic(labelled[i]);
    }
  }

  lemma NoiseRatioBounds(noise: nat, n: nat)
    requires noise <= n
    ensures 0.0 <= (if n > 0 then noise as real / n as real else 0.0) <= 1.0
  {
    if n > 0 {
      QuotientBounds(noise as real, n as real, 0.0, 1.0);
    }
  }

  /** Keeping the non-noise items removes exactly as many items as there are noise ids. */
  lemma {:induction false} FilterLength(labelled: seq<Item>, topics: seq<int>)
    requires TopicAggregate.TopicIds(labelled) == topics
    ensures |Filter(labelled, InTopic)| == |labelled| - NoiseCount(topics)
    decreases |labelled|
  {
    if |labelled| > 0 {
      assert TopicAggregate.TopicIds(labelled[1..]) == topics[1..];
      FilterLength(labelled[1..], topics[1..]);
      assert labelled == [labelled[0]] + labelled[1..];
    }
  }

  /**
   * What `get_topic` yields for one topic of the fitted model: its
   * (word, weight) pairs best first, or an exception. A missing topic, for
   * which the library returns a falsy value, is `Words([])`.
   */
  datatype TopicWords = Raised | Words(words: seq<(string, real)>)

  const DefaultTopN: int := 15

  /** Whether a topic gets an entry: a non-empty word list, or an exception (which records no words). */
  predicate HasEntry(answer: TopicWords) {
    answer.Raised? || |answer.words| > 0
  }

  /** The entry a topic gets: its first `topN` words, or none after an exception. */
  function EntryFor(answer: TopicWords, topN: int): (r: seq<string>)
    ensures answer.Raised? ==> r == []
    ensures answer.Words? ==> r == Firsts(SliceTo(answer.words, topN))
    ensures answer.Words? && 0 <= topN ==> |r| <= topN
  {
    match answer
    case Raised => []
    case Words(pairs) => Firsts(SliceTo(pairs, topN))
  }

  /**
   * `get_topic_keywords`: one pass over the distinct topic ids of the items
   * (the model refitted on the items' own ids), skipping noise.
   */
  method GetTopicKeywords(lookup: int -> TopicWords, items: seq<Item>, topN: int)
    returns (r: map<int, seq<string>>)
    ensures forall id :: id in r <==> id in TopicAggregate.TopicIds(items) && id != NoiseTopic && HasEntry(lookup(id))
    ensures forall id :: id in r ==> r[id] == EntryFor(lookup(id), topN)
  {
    var ids := Distinct(TopicAggregate.TopicIds(items));
    r := map[];
    var k := 0;
    while k < |ids|
      invariant 0 <= k <= |ids|
      invariant forall id :: id in r <==> id in ids[..k] && id != NoiseTopic && HasEntry(lookup(id))
      invariant forall id :: id in r ==> r[id] == EntryFor(lookup(id), topN)
    {
      var id := ids[k];
      assert ids[..k + 1] == ids[..k] + [id];
      if id != NoiseTopic {
        var answer := lookup(id);
        match answer {
          case Raised =>
            r := r[id := []];
          case Words(pairs) =>
            if |pairs| > 0 {
              r := r[id := Firsts(SliceTo(pairs, topN))];
            }
        }
      }
      k := k + 1;
    }
    assert ids[..|ids|] == ids;
  }

  /** The keyword table never has an entry for noise, and each entry holds at most `topN` words. */
  lemma KeywordTableShape(lookup: int -> TopicWords, items: seq<Item>, topN: nat, table: map<int, seq<string>>)
    requires forall id :: id in table <==> id in TopicAggregate.TopicIds(items) && id != NoiseTopic && HasEntry(lookup(id))
    requires forall id :: id in table ==> table[id] == EntryFor(lookup(id), topN)
    ensures NoiseTopic !in table
    ensures forall id :: id in table ==> |table[id]| <= topN
    ensures forall id :: id in table && lookup(id).Words? ==> table[id] <= Firsts(lookup(id).words)
  {
    forall id | id in table && lookup(id).Words?
      ensures table[id] <= Firsts(lookup(id).words)
    {
      var pairs := lookup(id).words;
      var s := SliceTo(pairs, topN);
      assert s == pairs[..|s|];
    }
  }
}
