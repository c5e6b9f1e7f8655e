/**
 * Stable identifiers (trend_miner/utils/hashing.py): the content hash of an
 * article's text, the item id derived from its canonical URL, the topic
 * signature and the configuration hash.
 *
 * SHA-256 itself is not modelled: every function takes the digest as a
 * parameter whose only known property is its format, 64 lower-case
 * hexadecimal characters. Everything fed into it is modelled exactly.
 */
module Hashing {
  import opened Wrappers
  import opened Text
  import Json

  predicate IsLowerHex(c: char) {
    '0' <= c <= '9' || 'a' <= c <= 'f'
  }

  predicate IsHexString(s: string) {
    forall i :: 0 <= i < |s| ==> IsLowerHex(s[i])
  }

  /** What `hashlib.sha256(...).hexdigest()` returns. */
  type Digest = s: string | |s| == 64 && IsHexString(s)
    witness seq(64, i => '0')

  /** SHA-256 over the UTF-8 bytes of a string, as a hex digest. */
  type Sha256 = string -> Digest

  /** Number of keywords and of domains the topic signature looks at. */
  const SignatureKeywords: nat := 10
  const SignatureDomains: nat := 5

  /** Length of the truncated digests used as item ids and configuration hashes. */
  const ShortHashLength: nat := 16

  /**
   * The text `content_hash` digests: lower-cased title and summary, each
   * stripped, joined by a space, with every whitespace run collapsed.
   * It depends only on the words of the two lower-cased inputs.
   */
  function NormalizedText(title: string, summary: string): (r: string)
    ensures r == Join(" ", Split(Lower(title)) + Split(Lower(summary)))
  {
    var joined := Strip(Lower(title)) + " " + Strip(Lower(summary));
    SplitAround(Strip(Lower(title)), ' ', Strip(Lower(summary)));
    SplitStrip(Lower(title));
    SplitStrip(Lower(summary));
    Collapse(joined)
  }

  function ContentHash(sha: Sha256, title: string, summary: string): Digest {
    sha(NormalizedText(title, summary))
  }

  /** The normalised text is in normal form: lower-case and collapsed, so normalising it again changes nothing. */
  lemma NormalizedTextIsNormal(title: string, summary: string)
    ensures var n := NormalizedText(title, summary);
      && Collapsed(n)
      && Lower(n) == n
      && Collapse(n) == n
      && NormalizedText(n, "") == n
  {
    var ws := Split(Lower(title)) + Split(Lower(summary));
    var n := NormalizedText(title, summary);
    assert n == Join(" ", ws);
    JoinCollapsed(ws);
    SplitJoin(ws);
    assert Lower(n) == n by {
      NormalizedTextNoUpper(title, summary);
    }
    assert NormalizedText(n, "") == Join(" ", Split(n) + Split(Lower("")));
    assert Split(Lower("")) == [];
    assert Split(n) + [] == ws;
  }

  lemma NormalizedTextNoUpper(title: string, summary: string)
    ensures Lower(NormalizedText(title, summary)) == NormalizedText(title, summary)
  {
    var ws := Split(Lower(title)) + Split(Lower(summary));
    SplitKeepsNoUpper(Lower(title));
    SplitKeepsNoUpper(Lower(summary));
    assert forall k :: 0 <= k < |ws| ==> NoUpper(ws[k]) by {
      forall k | 0 <= k < |ws|
        ensures NoUpper(ws[k])
      {
        if k < |Split(Lower(title))| {
          assert ws[k] == Split(Lower(title))[k];
        } else {
          assert ws[k] == Split(Lower(summary))[k - |Split(Lower(title))|];
        }
      }
    }
    LowerOfLowerWords(ws);
  }

  lemma {:induction false} LowerOfLowerWords(ws: seq<string>)
    requires forall k :: 0 <= k < |ws| ==> NoUpper(ws[k])
    ensures Lower(Join(" ", ws)) == Join(" ", ws)
    decreases |ws|
  {
    if |ws| == 1 {
      LowerFixes(ws[0]);
    } else if |ws| > 1 {
      LowerFixes(ws[0]);
      LowerOfLowerWords(ws[1..]);
      var rest := Join(" ", ws[1..]);
      assert Join(" ", ws) == ws[0] + " " + rest;
      assert Lower(ws[0] + " " + rest) == Lower(ws[0]) + Lower(" ") + Lower(rest);
    }
  }

  /**
   * The content hash sees only the sequence of lower-cased words: changing
   * letter case, the amount of whitespace, or where the words split between
   * title and summary leaves it unchanged.
   */
  lemma ContentHashWordsOnly(sha: Sha256, t1: string, s1: string, t2: string, s2: string)
    requires Split(Lower(t1)) + Split(Lower(s1)) == Split(Lower(t2)) + Split(Lower(s2))
    ensures ContentHash(sha, t1, s1) == ContentHash(sha, t2, s2)
  {
  }

  /** `url_hash`: the first 16 hex digits of the URL's digest, so equal URLs give equal ids. */
  function UrlHash(sha: Sha256, url: string): (r: string)
    ensures |r| == ShortHashLength && IsHexString(r)
    ensures r <= sha(url)
  {
    sha(url)[..ShortHashLength]
  }

  /** The JSON text `topic_signature` digests: the first 10 keywords and the first 5 domains. */
  function SignatureInput(keywords: seq<string>, domains: seq<string>): string {
    Json.EncodeSignatureInput(Take(keywords, SignatureKeywords), Take(domains, SignatureDomains))
  }

  function TopicSignature(sha: Sha256, keywords: seq<string>, domains: seq<string>): Digest {
    sha(SignatureInput(keywords, domains))
  }

  /**
   * The serialised signature input is the JSON object with `"kw"` first, and
   * it holds exactly the truncated lists in their given order.
   */
  lemma SignatureInputContents(keywords: seq<string>, domains: seq<string>)
    ensures Json.KwHeader <= SignatureInput(keywords, domains)
    ensures Json.DecodeSignatureInput(SignatureInput(keywords, domains))
         == Some((Take(keywords, SignatureKeywords), Take(domains, SignatureDomains)))
  {
    Json.SignatureInputRoundTrip(Take(keywords, SignatureKeywords), Take(domains, SignatureDomains));
  }

  /**
   * Two keyword/domain lists serialise to the same signature input exactly
   * when they agree on their first 10 keywords and first 5 domains; beyond
   * that, signatures differ unless SHA-256 collides.
   */
  lemma SignatureInputIffPrefixes(k1: seq<string>, d1: seq<string>, k2: seq<string>, d2: seq<string>)
    ensures SignatureInput(k1, d1) == SignatureInput(k2, d2) <==>
              (Take(k1, SignatureKeywords) == Take(k2, SignatureKeywords)
               && Take(d1, SignatureDomains) == Take(d2, SignatureDomains))
  {
    Json.SignatureInputInjective(Take(k1, SignatureKeywords), Take(d1, SignatureDomains),
                                 Take(k2, SignatureKeywords), Take(d2, SignatureDomains));
  }

  /** Truncating the inputs first changes nothing. */
  lemma SignatureOfTruncated(sha: Sha256, keywords: seq<string>, domains: seq<string>)
    ensures TopicSignature(sha, keywords, domains)
         == TopicSignature(sha, Take(keywords, SignatureKeywords), Take(domains, SignatureDomains))
  {
    TakeTake(keywords, SignatureKeywords, SignatureKeywords);
    TakeTake(domains, SignatureDomains, SignatureDomains);
  }

  /** The configuration keys whose values feed `config_hash`. */
  const StableKeys: set<string> := {"lookback_days", "bertopic", "rss_feeds", "dedupe_strategy"}

  /** The allow-listed part of a configuration; absent keys stay absent. */
  function StableConfig<V>(config: map<string, V>): (r: map<string, V>)
    ensures r.Keys == config.Keys * StableKeys
    ensures forall k :: k in r ==> r[k] == config[k]
  {
    map k | k in config && k in StableKeys :: config[k]
  }

  /**
   * `config_hash`: the first 16 hex digits of the digest of the sorted-key
   * JSON dump of the allow-listed entries. `dumps` is that serialisation;
   * a map has no key order, which is what `sort_keys=True` achieves.
   */
  function ConfigHash<V>(sha: Sha256, dumps: map<string, V> -> string, config: map<string, V>): (r: string)
    ensures |r| == ShortHashLength && IsHexString(r)
  {
    sha(dumps(StableConfig(config)))[..ShortHashLength]
  }

  /** Configurations that agree on the allow-listed keys, present or absent, hash alike. */
  lemma ConfigHashIgnoresOtherKeys<V>(sha: Sha256, dumps: map<string, V> -> string,
                                      c1: map<string, V>, c2: map<string, V>)
    requires forall k :: k in StableKeys ==> (k in c1 <==> k in c2)
    requires forall k :: k in StableKeys && k in c1 && k in c2 ==> c1[k] == c2[k]
    ensures ConfigHash(sha, dumps, c1) == ConfigHash(sha, dumps, c2)
  {
    assert StableConfig(c1) == StableConfig(c2);
  }
}
