/**
 * Deduplication (trend_miner/processing/dedupe.py): two passes over the
 * items, first keyed by canonical URL, then by content hash. Each pass is a
 * fold into an insertion-ordered dictionary: a new key appends the item, a
 * repeated key counts a collision and the incoming item takes the slot only
 * if it ranks strictly higher by (source weight, published time).
 */
module Dedupe {
  import opened Wrappers
  import opened Models
  import opened Collections

  datatype KeyKind = ByUrl | ByHash

  function Key(kind: KeyKind, item: Item): string {
    match kind
    case ByUrl => item.canonicalUrl
    case ByHash => item.contentHash
  }

  /** The keys of a sequence of items, position by position. */
  function Keys(items: seq<Item>, kind: KeyKind): (r: seq<string>)
    ensures |r| == |items|
    ensures forall i :: 0 <= i < |items| ==> r[i] == Key(kind, items[i])
  {
    seq(|items|, i requires 0 <= i < |items| => Key(kind, items[i]))
  }

  /** What one pass produces: the dictionary's values in slot order, and its collision counter. */
  datatype PhaseResult = PhaseResult(kept: seq<Item>, collisions: nat)

  /** The slot holding `key`, or -1 (a dictionary lookup). */
  function FindKey(kept: seq<Item>, kind: KeyKind, key: string): (r: int)
    ensures -1 <= r < |kept|
    ensures r >= 0 ==> Key(kind, kept[r]) == key
    ensures r < 0 ==> forall i :: 0 <= i < |kept| ==> Key(kind, kept[i]) != key
    decreases |kept|
  {
    if |kept| == 0 then -1
    else if Key(kind, kept[|kept| - 1]) == key then |kept| - 1
    else FindKey(kept[..|kept| - 1], kind, key)
  }

  /** One step of the fold: the body of the `for item in items` loop. */
  function Absorb(acc: PhaseResult, item: Item, kind: KeyKind): PhaseResult {
    var slot := FindKey(acc.kept, kind, Key(kind, item));
    if slot < 0 then PhaseResult(acc.kept + [item], acc.collisions)
    else if Outranks(item, acc.kept[slot]) then PhaseResult(acc.kept[slot := item], acc.collisions + 1)
    else PhaseResult(acc.kept, acc.collisions + 1)
  }

  /** The whole pass: every input is either kept or counted as a collision. */
  function RunPhase(items: seq<Item>, kind: KeyKind): (r: PhaseResult)
    ensures |r.kept| + r.collisions == |items|
    ensures forall i :: 0 <= i < |r.kept| ==> r.kept[i] in items
    decreases |items|
  {
    if |items| == 0 then PhaseResult([], 0)
    else
      var prefix := items[..|items| - 1];
      assert forall x :: x in prefix ==> x in items;
      Absorb(RunPhase(prefix, kind), items[|items| - 1], kind)
  }

  lemma KeysAppend(s: seq<Item>, x: Item, kind: KeyKind)
    ensures Keys(s + [x], kind) == Keys(s, kind) + [Key(kind, x)]
  {
  }

  lemma KeysSnoc(items: seq<Item>, kind: KeyKind)
    requires |items| > 0
    ensures Keys(items, kind) == Keys(items[..|items| - 1], kind) + [Key(kind, items[|items| - 1])]
  {
    assert items == items[..|items| - 1] + [items[|items| - 1]];
    KeysAppend(items[..|items| - 1], items[|items| - 1], kind);
  }

  lemma KeysUpdate(s: seq<Item>, i: nat, x: Item, kind: KeyKind)
    requires i < |s| && Key(kind, x) == Key(kind, s[i])
    ensures Keys(s[i := x], kind) == Keys(s, kind)
  {
  }

  /** One step adds the incoming key at the end when it is new and otherwise leaves the keys alone. */
  lemma AbsorbKeys(acc: PhaseResult, item: Item, kind: KeyKind)
    ensures var ks := Keys(acc.kept, kind);
      Keys(Absorb(acc, item, kind).kept, kind)
      == if Key(kind, item) in ks then ks else ks + [Key(kind, item)]
  {
    var k := Key(kind, item);
    var slot := FindKey(acc.kept, kind, k);
    if slot < 0 {
      KeysAppend(acc.kept, item, kind);
    } else {
      assert k in Keys(acc.kept, kind) by {
        assert Keys(acc.kept, kind)[slot] == k;
      }
      if Outranks(item, acc.kept[slot]) {
        KeysUpdate(acc.kept, slot, item, kind);
      }
    }
  }

  /** A pass keeps one item per key, in order of each key's first occurrence. */
  lemma {:induction false} PhaseOrder(items: seq<Item>, kind: KeyKind)
    ensures Keys(RunPhase(items, kind).kept, kind) == Distinct(Keys(items, kind))
    decreases |items|
  {
    if |items| > 0 {
      var prefix := items[..|items| - 1];
      var last := items[|items| - 1];
      var k := Key(kind, last);
      PhaseOrder(prefix, kind);
      var acc := RunPhase(prefix, kind);
      KeysSnoc(items, kind);
      assert RunPhase(items, kind) == Absorb(acc, last, kind);
      PhaseOrderStep(acc, Keys(prefix, kind), last, kind);
    }
  }

  /** The inductive step of `PhaseOrder`: absorbing an item extends the first-occurrence order by its key. */
  lemma PhaseOrderStep(acc: PhaseResult, ks: seq<string>, last: Item, kind: KeyKind)
    requires Keys(acc.kept, kind) == Distinct(ks)
    ensures Keys(Absorb(acc, last, kind).kept, kind) == Distinct(ks + [Key(kind, last)])
  {
    var k := Key(kind, last);
    DistinctSnoc(ks, k);
    AbsorbKeys(acc, last, kind);
    assert k in Distinct(ks) <==> k in ks;
  }

  /** The survivors of a pass have pairwise distinct keys, and every input's key is among them. */
  lemma PhaseKeys(items: seq<Item>, kind: KeyKind)
    ensures var kept := RunPhase(items, kind).kept;
      && DistinctKeys(kept, kind)
      && (forall j :: 0 <= j < |items| ==> Key(kind, items[j]) in Keys(kept, kind))
  {
    PhaseOrder(items, kind);
    var kept := RunPhase(items, kind).kept;
    var fo := Distinct(Keys(items, kind));
    forall i, j | 0 <= i < j < |kept|
      ensures Key(kind, kept[i]) != Key(kind, kept[j])
    {
      assert fo[i] == Key(kind, kept[i]) && fo[j] == Key(kind, kept[j]);
    }
    forall j | 0 <= j < |items|
      ensures Key(kind, items[j]) in Keys(kept, kind)
    {
      assert Key(kind, items[j]) in Keys(items, kind);
    }
  }

  /** Ranks are totally ordered: of two items, neither beating the other means they tie. */
  lemma OutranksTransitive(a: Item, b: Item, c: Item)
    requires !Outranks(a, b) && Outranks(c, b)
    ensures Outranks(c, a)
  {
  }

  /**
   * `x`, kept at the end of a pass over `items`, holds its ground against the
   * input at position `j`: that input does not outrank it, and if the two
   * rank equally then `x` occurs at or before position `j`.
   */
  ghost predicate HoldsAgainst(x: Item, items: seq<Item>, j: int)
    requires 0 <= j < |items|
  {
    && !Outranks(items[j], x)
    && (Outranks(x, items[j]) || x in items[..j + 1])
  }

  ghost predicate AllHold(kept: seq<Item>, items: seq<Item>, kind: KeyKind) {
    forall i, j :: 0 <= i < |kept| && 0 <= j < |items| && Key(kind, items[j]) == Key(kind, kept[i]) ==>
      HoldsAgainst(kept[i], items, j)
  }

  ghost predicate DistinctKeys(kept: seq<Item>, kind: KeyKind) {
    forall i, j :: 0 <= i < j < |kept| ==> Key(kind, kept[i]) != Key(kind, kept[j])
  }

  /**
   * Each survivor is a best item of its key, and among equally ranked items
   * with its key it is the first one seen: every other item with its key
   * ranks no higher, and one that ranks equally comes no earlier.
   */
  lemma {:induction false} PhaseWinner(items: seq<Item>, kind: KeyKind)
    ensures var kept := RunPhase(items, kind).kept;
      forall i, j :: 0 <= i < |kept| && 0 <= j < |items| && Key(kind, items[j]) == Key(kind, kept[i]) ==>
        && !Outranks(items[j], kept[i])
        && (Outranks(kept[i], items[j]) || kept[i] in items[..j + 1])
    decreases |items|
  {
    PhaseHolds(items, kind);
  }

  lemma {:induction false} PhaseHolds(items: seq<Item>, kind: KeyKind)
    ensures AllHold(RunPhase(items, kind).kept, items, kind)
    decreases |items|
  {
    if |items| > 0 {
      var prefix := items[..|items| - 1];
      var last := items[|items| - 1];
      assert items == prefix + [last];
      PhaseHolds(prefix, kind);
      PhaseKeys(prefix, kind);
      var acc := RunPhase(prefix, kind);
      assert RunPhase(items, kind) == Absorb(acc, last, kind);
      HoldsStep(acc, prefix, last, kind);
    }
  }

  /** The inductive step of `PhaseHolds`: absorbing one more input keeps every survivor holding. */
  lemma HoldsStep(acc: PhaseResult, prefix: seq<Item>, last: Item, kind: KeyKind)
    requires AllHold(acc.kept, prefix, kind)
    requires DistinctKeys(acc.kept, kind)
    requires forall j :: 0 <= j < |prefix| ==> Key(kind, prefix[j]) in Keys(acc.kept, kind)
    requires forall i :: 0 <= i < |acc.kept| ==> acc.kept[i] in prefix
    ensures AllHold(Absorb(acc, last, kind).kept, prefix + [last], kind)
  {
    var items := prefix + [last];
    var kept := Absorb(acc, last, kind).kept;
    forall i, j | 0 <= i < |kept| && 0 <= j < |items| && Key(kind, items[j]) == Key(kind, kept[i])
      ensures HoldsAgainst(kept[i], items, j)
    {
      HoldsAt(acc, prefix, last, kind, i, j);
    }
  }

  lemma HoldsAt(acc: PhaseResult, prefix: seq<Item>, last: Item, kind: KeyKind, i: nat, j: nat)
    requires AllHold(acc.kept, prefix, kind)
    requires DistinctKeys(acc.kept, kind)
    requires forall j :: 0 <= j < |prefix| ==> Key(kind, prefix[j]) in Keys(acc.kept, kind)
    requires forall i :: 0 <= i < |acc.kept| ==> acc.kept[i] in prefix
    requires i < |Absorb(acc, last, kind).kept| && j <= |prefix|
    requires Key(kind, (prefix + [last])[j]) == Key(kind, Absorb(acc, last, kind).kept[i])
    ensures HoldsAgainst(Absorb(acc, last, kind).kept[i], prefix + [last], j)
  {
    if j < |prefix| {
      assert (prefix + [last])[j] == prefix[j];
      HoldsOld(acc, prefix, last, kind, i, j);
    } else {
      assert (prefix + [last])[j] == last;
      HoldsNew(acc, prefix, last, kind, i);
    }
  }

  /** The inductive step of `PhaseHolds` for an input seen before the last one. */
  lemma HoldsOld(acc: PhaseResult, prefix: seq<Item>, last: Item, kind: KeyKind, i: nat, j: nat)
    requires AllHold(acc.kept, prefix, kind)
    requires forall j :: 0 <= j < |prefix| ==> Key(kind, prefix[j]) in Keys(acc.kept, kind)
    requires i < |Absorb(acc, last, kind).kept| && j < |prefix|
    requires Key(kind, prefix[j]) == Key(kind, Absorb(acc, last, kind).kept[i])
    ensures HoldsAgainst(Absorb(acc, last, kind).kept[i], prefix + [last], j)
  {
    var items := prefix + [last];
    var kept := Absorb(acc, last, kind).kept;
    var slot := FindKey(acc.kept, kind, Key(kind, last));
    assert items[j] == prefix[j];
    assert items[..j + 1] == prefix[..j + 1];
    if slot < 0 {
      if i == |acc.kept| {
        assert false;
      }
      assert HoldsAgainst(acc.kept[i], prefix, j);
    } else if Outranks(last, acc.kept[slot]) {
      if i == slot {
        assert HoldsAgainst(acc.kept[slot], prefix, j);
        OutranksTransitive(prefix[j], acc.kept[slot], last);
      } else {
        assert HoldsAgainst(acc.kept[i], prefix, j);
      }
    } else {
      assert HoldsAgainst(acc.kept[i], prefix, j);
    }
  }

  /** The inductive step of `PhaseHolds` for the last input. */
  lemma HoldsNew(acc: PhaseResult, prefix: seq<Item>, last: Item, kind: KeyKind, i: nat)
    requires DistinctKeys(acc.kept, kind)
    requires forall i :: 0 <= i < |acc.kept| ==> acc.kept[i] in prefix
    requires i < |Absorb(acc, last, kind).kept|
    requires Key(kind, last) == Key(kind, Absorb(acc, last, kind).kept[i])
    ensures HoldsAgainst(Absorb(acc, last, kind).kept[i], prefix + [last], |prefix|)
  {
    var items := prefix + [last];
    var slot := FindKey(acc.kept, kind, Key(kind, last));
    assert items[|prefix|] == last;
    assert items[..|prefix| + 1] == items;
    if slot < 0 {
      if i < |acc.kept| {
        assert false;
      }
    } else {
      if i != slot {
        assert false;
      }
      assert acc.kept[slot] in prefix;
    }
  }

  /** A pass over items with pairwise distinct keys returns them unchanged and counts no collision. */
  lemma {:induction false} PhaseIdentity(items: seq<Item>, kind: KeyKind)
    requires forall i, j :: 0 <= i < j < |items| ==> Key(kind, items[i]) != Key(kind, items[j])
    ensures RunPhase(items, kind) == PhaseResult(items, 0)
    decreases |items|
  {
    if |items| > 0 {
      var prefix := items[..|items| - 1];
      var last := items[|items| - 1];
      PhaseIdentity(prefix, kind);
      assert Key(kind, last) !in Keys(prefix, kind) by {
        forall i | 0 <= i < |prefix|
          ensures Keys(prefix, kind)[i] != Key(kind, last)
        {
          assert prefix[i] == items[i];
        }
      }
      AbsorbFresh(PhaseResult(prefix, 0), last, kind);
      assert prefix + [last] == items;
    }
  }

  /** An item with a key not seen yet is appended and counts no collision. */
  lemma AbsorbFresh(acc: PhaseResult, item: Item, kind: KeyKind)
    requires Key(kind, item) !in Keys(acc.kept, kind)
    ensures Absorb(acc, item, kind) == PhaseResult(acc.kept + [item], acc.collisions)
  {
  }

  /** A pass counts exactly one collision per item beyond the first of its key. */
  lemma PhaseCollisions(items: seq<Item>, kind: KeyKind)
    ensures |RunPhase(items, kind).kept| == |Elements(Keys(items, kind))|
    ensures RunPhase(items, kind).collisions == |items| - |Elements(Keys(items, kind))|
  {
    PhaseOrder(items, kind);
    DistinctCardinality(Keys(items, kind));
  }

  const UrlThenHash: string := "url_then_hash"

  datatype DedupStats = DedupStats(
    originalCount: nat,
    duplicatesByUrl: nat,
    duplicatesByHash: nat,
    finalCount: nat)

  datatype DedupOutput = DedupOutput(items: seq<Item>, stats: DedupStats)

  /**
   * `deduplicate_items`. Only the `url_then_hash` strategy exists; any other
   * name is an error. Survivors are unmodified inputs with pairwise distinct
   * URLs and hashes, and the counters account for every removed item.
   */
  function Deduplicate(items: seq<Item>, strategy: string): (r: Result<DedupOutput>)
    ensures r.Failure? <==> strategy != UrlThenHash
    ensures r.Success? ==>
      var out := r.value.items;
      var st := r.value.stats;
      && st.originalCount == |items|
      && st.finalCount == |out|
      && st.finalCount == st.originalCount - st.duplicatesByUrl - st.duplicatesByHash
      && st.duplicatesByUrl == |items| - |Elements(Keys(items, ByUrl))|
      && |out| <= |Elements(Keys(items, ByUrl))|
      && (forall i :: 0 <= i < |out| ==> out[i] in items)
      && DistinctKeys(out, ByUrl)
      && DistinctKeys(out, ByHash)
  {
    if strategy != UrlThenHash then Failure("Unsupported dedupe strategy: " + strategy)
    else
      var byUrl := RunPhase(items, ByUrl);
      var byHash := RunPhase(byUrl.kept, ByHash);
      PhaseCollisions(items, ByUrl);
      PhaseKeys(items, ByUrl);
      PhaseKeys(byUrl.kept, ByHash);
      SubsequenceKeepsDistinct(byUrl.kept, byHash.kept, ByUrl, ByHash);
      Success(DedupOutput(byHash.kept, DedupStats(|items|, byUrl.collisions, byHash.collisions, |byHash.kept|)))
  }

  /**
   * Items drawn from a sequence with distinct `outer` keys, themselves
   * distinct in their `inner` keys, are distinct in their `outer` keys too.
   */
  lemma SubsequenceKeepsDistinct(s: seq<Item>, t: seq<Item>, outer: KeyKind, inner: KeyKind)
    requires DistinctKeys(s, outer)
    requires DistinctKeys(t, inner)
    requires forall i :: 0 <= i < |t| ==> t[i] in s
    ensures DistinctKeys(t, outer)
  {
    forall i, j | 0 <= i < j < |t|
      ensures Key(outer, t[i]) != Key(outer, t[j])
    {
      var a :| 0 <= a < |s| && s[a] == t[i];
      var b :| 0 <= b < |s| && s[b] == t[j];
      assert a != b;
      if a > b {
        assert Key(outer, s[b]) != Key(outer, s[a]);
      }
    }
  }

  /** Input whose URLs and hashes are all distinct comes back unchanged, with both counters zero. */
  lemma DeduplicateDistinct(items: seq<Item>)
    requires forall i, j :: 0 <= i < j < |items| ==>
      items[i].canonicalUrl != items[j].canonicalUrl && items[i].contentHash != items[j].contentHash
    ensures Deduplicate(items, UrlThenHash)
         == Success(DedupOutput(items, DedupStats(|items|, 0, 0, |items|)))
  {
    PhaseIdentity(items, ByUrl);
    PhaseIdentity(items, ByHash);
  }

  /** A pass over one item keeps it. */
  lemma RunPhaseSingle(a: Item, kind: KeyKind)
    ensures RunPhase([a], kind) == PhaseResult([a], 0)
  {
    assert [a][..0] == [];
  }

  /** A pass over two items is the first one kept and the second absorbed. */
  lemma RunPhasePair(a: Item, b: Item, kind: KeyKind)
    ensures RunPhase([a, b], kind) == Absorb(PhaseResult([a], 0), b, kind)
  {
    assert [a, b][..1] == [a];
    RunPhaseSingle(a, kind);
  }

  /** Two items with different keys both survive a pass. */
  lemma PairDistinct(a: Item, b: Item, kind: KeyKind)
    requires Key(kind, a) != Key(kind, b)
    ensures RunPhase([a, b], kind) == PhaseResult([a, b], 0)
  {
    RunPhasePair(a, b, kind);
    assert FindKey([a], kind, Key(kind, b)) == -1;
    assert [a] + [b] == [a, b];
  }

  /** Of two items with one key, the second survives only if it ranks strictly higher. */
  lemma PairCollides(a: Item, b: Item, kind: KeyKind)
    requires Key(kind, a) == Key(kind, b)
    ensures RunPhase([a, b], kind) == PhaseResult([if Outranks(b, a) then b else a], 1)
  {
    RunPhasePair(a, b, kind);
    assert FindKey([a], kind, Key(kind, b)) == 0;
  }

  /** `Deduplicate` is the hash pass run over the survivors of the URL pass. */
  lemma DeduplicateOfPhases(items: seq<Item>, byUrl: PhaseResult, byHash: PhaseResult)
    requires RunPhase(items, ByUrl) == byUrl && RunPhase(byUrl.kept, ByHash) == byHash
    ensures Deduplicate(items, UrlThenHash)
         == Success(DedupOutput(byHash.kept, DedupStats(|items|, byUrl.collisions, byHash.collisions, |byHash.kept|)))
  {
  }

  /** The scenarios of tests/test_dedupe.py, for any values of the fields they leave alone. */
  lemma HeavierUrlDuplicateWins(base: Item)
    ensures var a := base.(canonicalUrl := "u1", contentHash := "h1", sourceWeight := 0.8);
      var b := base.(canonicalUrl := "u1", contentHash := "h2", sourceWeight := 0.9);
      Deduplicate([a, b], UrlThenHash) == Success(DedupOutput([b], DedupStats(2, 1, 0, 1)))
  {
    var a := base.(canonicalUrl := "u1", contentHash := "h1", sourceWeight := 0.8);
    var b := base.(canonicalUrl := "u1", contentHash := "h2", sourceWeight := 0.9);
    PairCollides(a, b, ByUrl);
    RunPhaseSingle(b, ByHash);
    DeduplicateOfPhases([a, b], PhaseResult([b], 1), PhaseResult([b], 0));
  }

  lemma HeavierHashDuplicateWins(base: Item)
    ensures var a := base.(canonicalUrl := "u1", contentHash := "h", sourceWeight := 0.8);
      var b := base.(canonicalUrl := "u2", contentHash := "h", sourceWeight := 0.9);
      Deduplicate([a, b], UrlThenHash) == Success(DedupOutput([b], DedupStats(2, 0, 1, 1)))
  {
    var a := base.(canonicalUrl := "u1", contentHash := "h", sourceWeight := 0.8);
    var b := base.(canonicalUrl := "u2", contentHash := "h", sourceWeight := 0.9);
    PairDistinct(a, b, ByUrl);
    PairCollides(a, b, ByHash);
    DeduplicateOfPhases([a, b], PhaseResult([a, b], 0), PhaseResult([b], 1));
  }

  lemma NewerDuplicateWinsOnEqualWeight(base: Item, older: Timestamp, newer: Timestamp)
    requires older < newer
    ensures var a := base.(canonicalUrl := "u1", contentHash := "h1", publishedAt := older);
      var b := base.(canonicalUrl := "u1", contentHash := "h2", publishedAt := newer);
      Deduplicate([a, b], UrlThenHash) == Success(DedupOutput([b], DedupStats(2, 1, 0, 1)))
  {
    var a := base.(canonicalUrl := "u1", contentHash := "h1", publishedAt := older);
    var b := base.(canonicalUrl := "u1", contentHash := "h2", publishedAt := newer);
    PairCollides(a, b, ByUrl);
    RunPhaseSingle(b, ByHash);
    DeduplicateOfPhases([a, b], PhaseResult([b], 1), PhaseResult([b], 0));
  }

  /** An exact tie in weight and time keeps the item seen first. */
  lemma ExactTieKeepsFirst(base: Item)
    ensures var a := base.(canonicalUrl := "u1", contentHash := "h1");
      var b := base.(canonicalUrl := "u1", contentHash := "h2");
      Deduplicate([a, b], UrlThenHash) == Success(DedupOutput([a], DedupStats(2, 1, 0, 1)))
  {
    var a := base.(canonicalUrl := "u1", contentHash := "h1");
    var b := base.(canonicalUrl := "u1", contentHash := "h2");
    PairCollides(a, b, ByUrl);
    RunPhaseSingle(a, ByHash);
    DeduplicateOfPhases([a, b], PhaseResult([a], 1), PhaseResult([a], 0));
  }
}
