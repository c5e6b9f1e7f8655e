/**
 * Narrative signal scoring (trend_miner/processing/scoring.py): four
 * sub-scores on a 0..100 scale combined with fixed weights into a clamped,
 * rounded topic score.
 *
 * `math.log10` and `math.exp` are parameters: the bounds below hold whatever
 * they return, and the monotonicity lemmas assume only that they are
 * monotone. `math.exp` may raise OverflowError, and that error ends the
 * whole scoring call. Floating point is modelled by exact reals.
 */
module Scoring {
  import opened Wrappers
  import opened Text
  import opened Models
  import opened Collections

  /** `max(lo, min(hi, x))`. */
  function Clamp(x: real, lo: real, hi: real): (r: real)
    requires lo <= hi
    ensures lo <= r <= hi
    ensures lo <= x <= hi ==> r == x
    ensures x < lo ==> r == lo
    ensures hi < x ==> r == hi
  {
    if x < lo then lo else if hi < x then hi else x
  }

  lemma ClampMonotone(x: real, y: real, lo: real, hi: real)
    requires lo <= hi && x <= y
    ensures Clamp(x, lo, hi) <= Clamp(y, lo, hi)
  {
  }

  const MaxScore: real := 100.0

  /** Log-scaled volume: `20 * log10(volume + 1) + 20`, 0 for an empty topic. */
  function VolumeScore(log10: real -> real, volume: int): (r: real)
    ensures 0.0 <= r <= MaxScore
    ensures volume <= 0 ==> r == 0.0
  {
    if volume <= 0 then 0.0
    else Clamp(20.0 * log10((volume + 1) as real) + 20.0, 0.0, MaxScore)
  }

  /** With a monotone logarithm, more articles never score lower. */
  lemma VolumeScoreMonotone(log10: real -> real, v1: int, v2: int)
    requires forall x, y :: 0.0 < x <= y ==> log10(x) <= log10(y)
    requires v1 <= v2
    ensures VolumeScore(log10, v1) <= VolumeScore(log10, v2)
  {
    if v1 > 0 {
      assert log10((v1 + 1) as real) <= log10((v2 + 1) as real);
      ClampMonotone(20.0 * log10((v1 + 1) as real) + 20.0, 20.0 * log10((v2 + 1) as real) + 20.0, 0.0, MaxScore);
    }
  }

  /** Hours between two instants, as `timedelta.total_seconds() / 3600`. */
  function HoursBetween(earlier: Timestamp, later: Timestamp): real {
    (later - earlier) as real / MicrosPerHour as real
  }

  /** What `math.exp` returns, or `None` where it raises OverflowError. */
  type Exp = real -> Option<real>

  /** The message of the OverflowError `math.exp` raises. */
  const OverflowMessage: string := "math range error"

  /**
   * Every argument above this makes `math.exp` overflow a double (the
   * natural logarithm of the largest double is about 709.78).
   */
  const ExpOverflowAbove: real := 709.79

  /** The exponent of the recency decay for a last article at `last`. */
  function DecayExponent(last: Timestamp, now: Timestamp): real {
    -HoursBetween(last, now) / 24.0
  }

  /** Whether scoring the recency of a topic stays within what `math.exp` can return. */
  predicate VelocityDefined(exp: Exp, lastSeenAt: Option<Timestamp>, now: Timestamp) {
    lastSeenAt.None? || exp(DecayExponent(lastSeenAt.value, now)).Some?
  }

  /**
   * Recency: `100 * exp(-hours_since_last_article / 24)`, 0 for a topic
   * without a last article, and an OverflowError when `exp` raises.
   */
  function VelocityScore(exp: Exp, lastSeenAt: Option<Timestamp>, now: Timestamp): (r: Result<real>)
    ensures r.Success? <==> VelocityDefined(exp, lastSeenAt, now)
    ensures r.Success? ==> 0.0 <= r.value <= MaxScore
    ensures r.Failure? ==> r.error == OverflowMessage
    ensures lastSeenAt.None? ==> r == Success(0.0)
  {
    match lastSeenAt
    case None => Success(0.0)
    case Some(last) =>
      match exp(DecayExponent(last, now))
      case None => Failure(OverflowMessage)
      case Some(e) => Success(Clamp(100.0 * e, 0.0, MaxScore))
  }

  /**
   * A last article no later than `now` never overflows, for an `exp` that
   * (like Python's) returns a value at every argument not above 0.
   */
  lemma PastArticleScores(exp: Exp, last: Timestamp, now: Timestamp)
    requires forall x :: x <= 0.0 ==> exp(x).Some?
    requires last <= now
    ensures VelocityScore(exp, Some(last), now).Success?
  {
    assert HoursBetween(last, now) >= 0.0 by {
      QuotientBounds((now - last) as real, MicrosPerHour as real, 0.0, (now - last) as real);
    }
  }

  /**
   * A last article more than `24 * 709.79` hours (about 1.94 years) after
   * `now` makes `exp` overflow, for an `exp` that (like Python's) raises at
   * every argument above 709.79.
   */
  lemma FutureArticleOverflows(exp: Exp, last: Timestamp, now: Timestamp)
    requires forall x :: x > ExpOverflowAbove ==> exp(x).None?
    requires (last - now) as real > ExpOverflowAbove * 24.0 * MicrosPerHour as real
    ensures VelocityScore(exp, Some(last), now) == Failure(OverflowMessage)
  {
    var h := HoursBetween(last, now);
    assert -h * MicrosPerHour as real == (last - now) as real;
    assert DecayExponent(last, now) > ExpOverflowAbove;
  }

  /**
   * With a monotone exponential that, once it returns a value, also returns
   * one at every smaller argument, a later last article never scores lower,
   * and an earlier one scores whenever a later one does.
   */
  lemma VelocityScoreMonotone(exp: Exp, t1: Timestamp, t2: Timestamp, now: Timestamp)
    requires forall x, y :: x <= y && exp(y).Some? ==> exp(x).Some? && exp(x).value <= exp(y).value
    requires t1 <= t2
    requires VelocityScore(exp, Some(t2), now).Success?
    ensures VelocityScore(exp, Some(t1), now).Success?
    ensures VelocityScore(exp, Some(t1), now).value <= VelocityScore(exp, Some(t2), now).value
  {
    var x1 := DecayExponent(t1, now);
    var x2 := DecayExponent(t2, now);
    assert x1 <= x2 by {
      assert (now - t2) as real <= (now - t1) as real;
    }
    assert exp(x1).value <= exp(x2).value;
    ClampMonotone(100.0 * exp(x1).value, 100.0 * exp(x2).value, 0.0, MaxScore);
  }

  /** Share of the source score that diversity can contribute. */
  const MaxDiversityScore: real := 40.0

  /** Diversity: `15 * log10(unique_domains) + 15` capped at 40, and 0 for a single domain. */
  function DiversityScore(log10: real -> real, uniqueDomains: int): (r: real)
    ensures 0.0 <= r <= MaxDiversityScore
    ensures uniqueDomains <= 1 ==> r == 0.0
  {
    var raw := if uniqueDomains > 1 then 15.0 * log10(uniqueDomains as real) + 15.0 else 0.0;
    Clamp(raw, 0.0, MaxDiversityScore)
  }

  /**
   * Source quality: `avg_source_weight * 60` plus diversity, capped at 100.
   * The weight term itself is not capped: a weight above 1 can reach 100 on
   * its own, and a negative weight pulls the score down to 0.
   */
  function SourceScore(log10: real -> real, avgSourceWeight: real, uniqueDomains: int): (r: real)
    ensures 0.0 <= r <= MaxScore
    ensures 0.0 <= avgSourceWeight <= 1.0 ==> r == avgSourceWeight * 60.0 + DiversityScore(log10, uniqueDomains)
  {
    Clamp(avgSourceWeight * 60.0 + DiversityScore(log10, uniqueDomains), 0.0, MaxScore)
  }

  /** Heavier sources never lower the source score. */
  lemma SourceScoreMonotone(log10: real -> real, w1: real, w2: real, uniqueDomains: int)
    requires w1 <= w2
    ensures SourceScore(log10, w1, uniqueDomains) <= SourceScore(log10, w2, uniqueDomains)
  {
    var d := DiversityScore(log10, uniqueDomains);
    ClampMonotone(w1 * 60.0 + d, w2 * 60.0 + d, 0.0, MaxScore);
  }

  const WatchlistHitBonus: real := 80.0

  /** The watchlist terms, lower-cased and merged. */
  function WatchTerms(keywords: seq<string>, tickers: seq<string>): (r: set<string>)
    ensures forall t :: t in r <==> exists w :: w in keywords + tickers && t == Lower(w)
  {
    set w | w in keywords + tickers :: Lower(w)
  }

  /** `any(term in title_lower for term in watchlist_terms)`. */
  predicate TitleMatches(title: string, terms: set<string>) {
    exists t :: t in terms && Contains(Lower(title), t)
  }

  /** Number of topic keywords that are watchlist terms once lower-cased. */
  function KeywordHits(keywords: seq<string>, terms: set<string>): (r: nat)
    ensures r <= |keywords|
    ensures r > 0 <==> exists k :: 0 <= k < |keywords| && Lower(keywords[k]) in terms
    decreases |keywords|
  {
    if |keywords| == 0 then 0
    else
      var rest := KeywordHits(keywords[1..], terms);
      assert forall k :: 1 <= k < |keywords| ==> keywords[k] == keywords[1..][k - 1];
      (if Lower(keywords[0]) in terms then 1 else 0) + rest
  }

  /** Number of representative items whose lower-cased title contains a watchlist term. */
  function TitleHits(items: seq<RepresentativeItem>, terms: set<string>): (r: nat)
    ensures r <= |items|
    ensures r > 0 <==> exists j :: 0 <= j < |items| && TitleMatches(items[j].title, terms)
    decreases |items|
  {
    if |items| == 0 then 0
    else
      var rest := TitleHits(items[1..], terms);
      assert forall j :: 1 <= j < |items| ==> items[j] == items[1..][j - 1];
      (if TitleMatches(items[0].title, terms) then 1 else 0) + rest
  }

  /** A fixed bonus when a keyword or a representative title hits the watchlist. */
  function WatchlistBonus(topic: Topic, keywords: seq<string>, tickers: seq<string>): (r: real)
    ensures r == 0.0 || r == WatchlistHitBonus
  {
    if |keywords| == 0 && |tickers| == 0 then 0.0
    else
      var terms := WatchTerms(keywords, tickers);
      if KeywordHits(topic.topKeywords, terms) > 0 || TitleHits(topic.representativeItems, terms) > 0
      then WatchlistHitBonus
      else 0.0
  }

  /** Some topic keyword equals a watchlist entry, ignoring case. */
  predicate KeywordOnWatchlist(topicKeywords: seq<string>, watchlist: seq<string>) {
    exists k, w :: 0 <= k < |topicKeywords| && w in watchlist && Lower(topicKeywords[k]) == Lower(w)
  }

  /** Some representative title contains a watchlist entry, ignoring case. */
  predicate TitleOnWatchlist(reps: seq<RepresentativeItem>, watchlist: seq<string>) {
    exists j, w :: 0 <= j < |reps| && w in watchlist && Contains(Lower(reps[j].title), Lower(w))
  }

  lemma KeywordHitsIff(topicKeywords: seq<string>, watchlist: seq<string>)
    ensures KeywordHits(topicKeywords, WatchTerms(watchlist, [])) > 0 <==> KeywordOnWatchlist(topicKeywords, watchlist)
  {
    var terms := WatchTerms(watchlist, []);
    assert watchlist + [] == watchlist;
    if KeywordOnWatchlist(topicKeywords, watchlist) {
      var k, w :| 0 <= k < |topicKeywords| && w in watchlist && Lower(topicKeywords[k]) == Lower(w);
      assert Lower(topicKeywords[k]) in terms;
    }
    if KeywordHits(topicKeywords, terms) > 0 {
      var k :| 0 <= k < |topicKeywords| && Lower(topicKeywords[k]) in terms;
      var w :| w in watchlist && Lower(topicKeywords[k]) == Lower(w);
    }
  }

  lemma TitleHitsIff(reps: seq<RepresentativeItem>, watchlist: seq<string>)
    ensures TitleHits(reps, WatchTerms(watchlist, [])) > 0 <==> TitleOnWatchlist(reps, watchlist)
  {
    var terms := WatchTerms(watchlist, []);
    assert watchlist + [] == watchlist;
    if TitleOnWatchlist(reps, watchlist) {
      var j, w :| 0 <= j < |reps| && w in watchlist && Contains(Lower(reps[j].title), Lower(w));
      assert Lower(w) in terms;
      assert TitleMatches(reps[j].title, terms);
    }
    if TitleHits(reps, terms) > 0 {
      var j :| 0 <= j < |reps| && TitleMatches(reps[j].title, terms);
      var t :| t in terms && Contains(Lower(reps[j].title), t);
      var w :| w in watchlist && t == Lower(w);
    }
  }

  /**
   * The bonus is awarded exactly when some topic keyword equals a watchlist
   * keyword or ticker up to case, or some representative title contains one
   * up to case.
   */
  lemma WatchlistBonusIff(topic: Topic, keywords: seq<string>, tickers: seq<string>)
    ensures WatchlistBonus(topic, keywords, tickers) == WatchlistHitBonus <==>
      KeywordOnWatchlist(topic.topKeywords, keywords + tickers) || TitleOnWatchlist(topic.representativeItems, keywords + tickers)
  {
    var all := keywords + tickers;
    assert WatchTerms(keywords, tickers) == WatchTerms(all, []) by {
      assert all + [] == all;
    }
    KeywordHitsIff(topic.topKeywords, all);
    TitleHitsIff(topic.representativeItems, all);
  }

  /** Weights of the four sub-scores in the final score. */
  const VolumeWeight: real := 0.25
  const VelocityWeight: real := 0.35
  const SourceWeight: real := 0.30
  const WatchlistWeight: real := 0.10

  /** The weighted sum of the sub-scores, clamped to 0..100. */
  function CombinedScore(b: ScoreBreakdown): (r: real)
    ensures 0.0 <= r <= MaxScore
  {
    Clamp(b.volumeScore * VolumeWeight + b.velocityScore * VelocityWeight
          + b.sourceScore * SourceWeight + b.watchlistBonus * WatchlistWeight, 0.0, MaxScore)
  }

  /** Sub-scores within 0..100 need no clamping: the weights sum to 1. */
  lemma CombinedScoreUnclamped(b: ScoreBreakdown)
    requires 0.0 <= b.volumeScore <= MaxScore && 0.0 <= b.velocityScore <= MaxScore
    requires 0.0 <= b.sourceScore <= MaxScore && 0.0 <= b.watchlistBonus <= MaxScore
    ensures CombinedScore(b) == b.volumeScore * VolumeWeight + b.velocityScore * VelocityWeight
                                + b.sourceScore * SourceWeight + b.watchlistBonus * WatchlistWeight
  {
  }

  /** `round(x, 2)`: to the nearest hundredth, halves to the even hundredth. */
  function Round2(x: real): (r: real)
    ensures (r * 100.0).Floor as real == r * 100.0
    ensures -0.005 <= r - x <= 0.005
  {
    var y := x * 100.0;
    var f := y.Floor;
    var frac := y - f as real;
    var n := if frac < 0.5 then f
             else if frac > 0.5 then f + 1
             else if f % 2 == 0 then f else f + 1;
    n as real / 100.0
  }

  /** Rounding keeps a score within 0..100. */
  lemma Round2Bounds(x: real)
    requires 0.0 <= x <= MaxScore
    ensures 0.0 <= Round2(x) <= MaxScore
  {
    var y := x * 100.0;
    assert 0 <= y.Floor <= 10000;
  }

  /** The sub-scores of one topic at time `now`, or the OverflowError of its recency score. */
  function Breakdown(log10: real -> real, exp: Exp, topic: Topic, now: Timestamp,
                     keywords: seq<string>, tickers: seq<string>): (r: Result<ScoreBreakdown>)
    ensures r.Success? <==> VelocityDefined(exp, topic.lastSeenAt, now)
    ensures r.Failure? ==> r.error == OverflowMessage
    ensures r.Success? ==>
      && 0.0 <= r.value.volumeScore <= MaxScore && 0.0 <= r.value.velocityScore <= MaxScore
      && 0.0 <= r.value.sourceScore <= MaxScore
      && (r.value.watchlistBonus == 0.0 || r.value.watchlistBonus == WatchlistHitBonus)
    ensures r.Success? ==> r.value == ScoreBreakdown(
      VolumeScore(log10, topic.topicVolume),
      VelocityScore(exp, topic.lastSeenAt, now).value,
      SourceScore(log10, topic.avgSourceWeight, topic.uniqueDomains),
      WatchlistBonus(topic, keywords, tickers))
  {
    var velocity :- VelocityScore(exp, topic.lastSeenAt, now);
    Success(ScoreBreakdown(
      VolumeScore(log10, topic.topicVolume),
      velocity,
      SourceScore(log10, topic.avgSourceWeight, topic.uniqueDomains),
      WatchlistBonus(topic, keywords, tickers)))
  }

  /**
   * Stores the rounded score and its breakdown; nothing else about the
   * topic changes. Fails exactly when the recency score overflows.
   */
  function ScoreTopic(log10: real -> real, exp: Exp, topic: Topic, now: Timestamp,
                      keywords: seq<string>, tickers: seq<string>): (r: Result<Topic>)
    ensures r.Success? <==> VelocityDefined(exp, topic.lastSeenAt, now)
    ensures r.Failure? ==> r.error == OverflowMessage
    ensures r.Success? ==>
      && r.value.narrativeSignalScore.Some?
      && 0.0 <= r.value.narrativeSignalScore.value <= MaxScore
      && Some(Breakdown(log10, exp, topic, now, keywords, tickers).value) == r.value.payload.scoreBreakdown
      && r.value.narrativeSignalScore == Some(Round2(CombinedScore(r.value.payload.scoreBreakdown.value)))
      && r.value == topic.(narrativeSignalScore := r.value.narrativeSignalScore,
                           payload := topic.payload.(scoreBreakdown := r.value.payload.scoreBreakdown))
  {
    var b :- Breakdown(log10, exp, topic, now, keywords, tickers);
    Round2Bounds(CombinedScore(b));
    Success(topic.(narrativeSignalScore := Some(Round2(CombinedScore(b))),
                   payload := topic.payload.(scoreBreakdown := Some(b))))
  }

  /**
   * The stored score is the weighted sum of the stored sub-scores, unclamped
   * since each lies in 0..100, rounded to a whole number of hundredths.
   */
  lemma ScoreTopicValue(log10: real -> real, exp: Exp, topic: Topic, now: Timestamp,
                        keywords: seq<string>, tickers: seq<string>)
    requires VelocityDefined(exp, topic.lastSeenAt, now)
    ensures var t := ScoreTopic(log10, exp, topic, now, keywords, tickers).value;
      var b := Breakdown(log10, exp, topic, now, keywords, tickers).value;
      var sum := b.volumeScore * VolumeWeight + b.velocityScore * VelocityWeight
                 + b.sourceScore * SourceWeight + b.watchlistBonus * WatchlistWeight;
      && t.narrativeSignalScore.Some?
      && (t.narrativeSignalScore.value * 100.0).Floor as real == t.narrativeSignalScore.value * 100.0
      && -0.005 <= t.narrativeSignalScore.value - sum <= 0.005
  {
    var b := Breakdown(log10, exp, topic, now, keywords, tickers).value;
    CombinedScoreUnclamped(b);
  }

  /**
   * `calculate_narrative_scores`: every topic is scored against the same
   * `now`; a missing watchlist counts as an empty one. The topics keep their
   * order and every other field. An OverflowError in any topic's recency
   * score ends the call with that error.
   */
  function CalculateNarrativeScores(log10: real -> real, exp: Exp, topics: seq<Topic>,
                                    watchlistKeywords: Option<seq<string>>, watchlistTickers: Option<seq<string>>,
                                    now: Timestamp): (r: Result<seq<Topic>>)
    ensures r.Success? <==> forall k :: 0 <= k < |topics| ==> VelocityDefined(exp, topics[k].lastSeenAt, now)
    ensures r.Failure? ==> r.error == OverflowMessage
    ensures r.Success? ==> |r.value| == |topics|
    ensures r.Success? ==> forall k :: 0 <= k < |topics| ==>
      && r.value[k].narrativeSignalScore.Some?
      && 0.0 <= r.value[k].narrativeSignalScore.value <= MaxScore
      && r.value[k] == topics[k].(narrativeSignalScore := r.value[k].narrativeSignalScore,
                                  payload := topics[k].payload.(scoreBreakdown := r.value[k].payload.scoreBreakdown))
    ensures r.Success? ==> forall k :: 0 <= k < |topics| ==>
      && r.value[k].payload.scoreBreakdown.Some?
      && r.value[k].narrativeSignalScore == Some(Round2(CombinedScore(r.value[k].payload.scoreBreakdown.value)))
    ensures r.Success? ==> forall k :: 0 <= k < |topics| ==>
      Success(r.value[k]) == ScoreTopic(log10, exp, topics[k], now, watchlistKeywords.GetOr([]), watchlistTickers.GetOr([]))
  {
    var keywords := watchlistKeywords.GetOr([]);
    var tickers := watchlistTickers.GetOr([]);
    if forall k :: 0 <= k < |topics| ==> VelocityDefined(exp, topics[k].lastSeenAt, now) then
      Success(seq(|topics|, k requires 0 <= k < |topics| => ScoreTopic(log10, exp, topics[k], now, keywords, tickers).value))
    else
      Failure(OverflowMessage)
  }
}
