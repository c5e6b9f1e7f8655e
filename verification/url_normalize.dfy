/**
 * URL canonicalisation (`normalize_url` in
 * trend_miner/processing/url_normalize.py), on a URL already split into its
 * six `urlparse` components.
 *
 * Query strings are read the way `parse_qs(query, keep_blank_values=True)`
 * reads them: split at `&`, empty fields skipped, each field split at its
 * first `=`, `+` read as a space and the rest percent-decoded. The
 * percent-decoding (`unquote`) is a parameter.
 *
 * The source writes the decoded names and values back without encoding
 * them again, so a value holding an encoded `&` comes back as two
 * parameters. `CleanQueryAsWritten` models that rebuild, and
 * `NormalizeParts` uses it; `CleanQuery` is the corrected rebuild, which
 * encodes the fields again with an encoder given as a parameter.
 */
module UrlNormalize {
  import opened Text
  import opened Collections
  import opened Sorting

  /** `urlparse`'s components: scheme, network location, path, params, query, fragment. */
  datatype UrlParts = UrlParts(
    scheme: string,
    netloc: string,
    path: string,
    params: string,
    query: string,
    fragment: string)

  /**
   * The library functions the canonicalisation relies on: splitting a URL
   * into components and joining them back (`urlparse`, `urlunparse`) and
   * the percent-decoding inside `parse_qs` (`unquote`).
   */
  datatype UrlLib = UrlLib(
    split: string -> UrlParts,
    join: UrlParts -> string,
    unquote: string -> string)

  /** Query parameters dropped from canonical URLs, compared after lower-casing the name. */
  const TrackingParams: set<string> := {
    "utm_source", "utm_medium", "utm_campaign", "utm_term", "utm_content",
    "fbclid", "gclid", "msclkid", "_ga", "mc_cid", "mc_eid",
    "ref", "source", "campaign_id", "ad_id"
  }

  /** A query parameter: name and value, both decoded. */
  type Param = (string, string)

  function PlusToSpace(s: string): (r: string)
    ensures |r| == |s|
    ensures forall i :: 0 <= i < |s| ==> r[i] == if s[i] == '+' then ' ' else s[i]
  {
    seq(|s|, i requires 0 <= i < |s| => if s[i] == '+' then ' ' else s[i])
  }

  lemma PlusToSpaceFixes(s: string)
    requires '+' !in s
    ensures PlusToSpace(s) == s
  {
  }

  function Decode(unquote: string -> string, s: string): string {
    unquote(PlusToSpace(s))
  }

  /** One non-empty `name=value` field, split at its first `=`; without `=` the value is empty. */
  function ParseField(unquote: string -> string, field: string): (r: Param)
    ensures '=' in field ==>
      var i := FirstIndex(field, '=');
      r == (Decode(unquote, field[..i]), Decode(unquote, field[i + 1..]))
    ensures '=' !in field ==> r == (Decode(unquote, field), Decode(unquote, ""))
  {
    if '=' in field then
      var i := FirstIndex(field, '=');
      (Decode(unquote, field[..i]), Decode(unquote, field[i + 1..]))
    else (Decode(unquote, field), Decode(unquote, ""))
  }

  /** The parameters of the non-empty fields, in order. */
  function ParseFields(unquote: string -> string, fields: seq<string>): (r: seq<Param>)
    ensures |r| <= |fields|
    ensures (forall k :: 0 <= k < |fields| ==> fields[k] != "") ==> |r| == |fields|
    decreases |fields|
  {
    if |fields| == 0 then []
    else if fields[0] == "" then ParseFields(unquote, fields[1..])
    else [ParseField(unquote, fields[0])] + ParseFields(unquote, fields[1..])
  }

  /** `parse_qsl(query, keep_blank_values=True)`. */
  function ParseQsl(unquote: string -> string, query: string): seq<Param> {
    ParseFields(unquote, SplitOn(query, '&'))
  }

  /**
   * `parse_qs` read through `v[0]`: each name once, in the order of its first
   * occurrence, with the value of that first occurrence.
   */
  function FirstValues(ps: seq<Param>): (r: seq<Param>)
    ensures Firsts(r) == Distinct(Firsts(ps))
    ensures forall k :: 0 <= k < |r| ==> r[k] == ps[FirstIndex(Firsts(ps), Firsts(r)[k])]
    decreases |ps|
  {
    if |ps| == 0 then []
    else
      var prefix := ps[..|ps| - 1];
      var last := ps[|ps| - 1];
      var prev := FirstValues(prefix);
      assert ps == prefix + [last];
      FirstValuesNames(prefix, last, prev);
      FirstValuesValues(prefix, last, prev);
      if last.0 in Firsts(prev) then prev else prev + [last]
  }

  lemma FirstValuesNames(prefix: seq<Param>, last: Param, prev: seq<Param>)
    requires Firsts(prev) == Distinct(Firsts(prefix))
    ensures Firsts(prefix + [last]) == Firsts(prefix) + [last.0]
    ensures last.0 in Firsts(prev) ==> Firsts(prev) == Distinct(Firsts(prefix + [last]))
    ensures last.0 !in Firsts(prev) ==> Firsts(prev + [last]) == Distinct(Firsts(prefix + [last]))
  {
    assert Firsts(prefix + [last]) == Firsts(prefix) + [last.0];
    DistinctSnoc(Firsts(prefix), last.0);
    assert Firsts(prev + [last]) == Firsts(prev) + [last.0];
  }

  lemma FirstValuesValues(prefix: seq<Param>, last: Param, prev: seq<Param>)
    requires Firsts(prev) == Distinct(Firsts(prefix))
    requires forall k :: 0 <= k < |prev| ==> prev[k] == prefix[FirstIndex(Firsts(prefix), Firsts(prev)[k])]
    ensures Firsts(prefix + [last]) == Firsts(prefix) + [last.0]
    ensures var ps := prefix + [last];
      forall k :: 0 <= k < |prev| ==> prev[k] == ps[FirstIndex(Firsts(ps), Firsts(prev)[k])]
    ensures var ps := prefix + [last];
      last.0 !in Firsts(prev) ==> last == ps[FirstIndex(Firsts(ps), last.0)]
  {
    var ps := prefix + [last];
    var names := Firsts(prefix);
    assert Firsts(ps) == names + [last.0];
    forall k | 0 <= k < |prev|
      ensures prev[k] == ps[FirstIndex(Firsts(ps), Firsts(prev)[k])]
    {
      var name := Firsts(prev)[k];
      assert name in Distinct(names);
      FirstIndexPrefix(names, [last.0], name);
    }
    if last.0 !in Firsts(prev) {
      assert last.0 !in names;
      assert FirstIndex(Firsts(ps), last.0) == |prefix|;
    }
  }

  /** A parameter that survives tracking removal. */
  predicate Kept(p: Param) {
    Lower(p.0) !in TrackingParams
  }

  /** `sorted(clean_params.items())`: the names are distinct, so the name alone decides. */
  function NameBefore(a: Param, b: Param): bool {
    LexLess(a.0, b.0)
  }

  lemma NameBeforeOrders()
    ensures StrictOrder(NameBefore)
  {
    forall a: Param
      ensures !NameBefore(a, a)
    {
      LexLessIrreflexive(a.0);
    }
    forall a: Param, b: Param, c: Param | NameBefore(a, b) && NameBefore(b, c)
      ensures NameBefore(a, c)
    {
      LexLessTransitive(a.0, b.0, c.0);
    }
  }

  /** Parameters named at most once can be ordered by name. */
  lemma NameBeforeComparable(ps: seq<Param>)
    requires NoDuplicates(Firsts(ps))
    ensures Comparable(NameBefore, ps)
  {
    forall i, j | 0 <= i < |ps| && 0 <= j < |ps| && i != j
      ensures NameBefore(ps[i], ps[j]) || NameBefore(ps[j], ps[i])
    {
      assert Firsts(ps)[i] != Firsts(ps)[j];
      LexLessTotal(ps[i].0, ps[j].0);
    }
  }

  lemma {:induction false} FilterKeepsNamesDistinct(ps: seq<Param>, keep: Param -> bool)
    requires NoDuplicates(Firsts(ps))
    ensures NoDuplicates(Firsts(Filter(ps, keep)))
    decreases |ps|
  {
    if |ps| > 0 {
      var tail := ps[1..];
      var rest := Filter(tail, keep);
      assert Firsts(tail) == Firsts(ps)[1..];
      FilterKeepsNamesDistinct(tail, keep);
      if keep(ps[0]) {
        assert Filter(ps, keep) == [ps[0]] + rest;
        NamesCons(ps[0], rest);
        FirstNameNotKeptLater(ps, keep);
        NoDuplicatesCons(ps[0].0, Firsts(rest));
      } else {
        assert Filter(ps, keep) == rest;
      }
    }
  }

  lemma NamesCons(p: Param, ps: seq<Param>)
    ensures Firsts([p] + ps) == [p.0] + Firsts(ps)
  {
  }

  /** The first name of a list without repeated names does not recur among the kept later ones. */
  lemma FirstNameNotKeptLater(ps: seq<Param>, keep: Param -> bool)
    requires |ps| > 0 && NoDuplicates(Firsts(ps))
    ensures ps[0].0 !in Firsts(Filter(ps[1..], keep))
  {
    var rest := Filter(ps[1..], keep);
    forall k | 0 <= k < |rest|
      ensures Firsts(rest)[k] != ps[0].0
    {
      assert rest[k] in ps[1..];
      var j :| 0 <= j < |ps[1..]| && ps[1..][j] == rest[k];
      assert Firsts(ps)[j + 1] == rest[k].0;
      assert Firsts(ps)[0] == ps[0].0;
    }
  }

  /**
   * The parameters a rebuilt query holds: the first value of each
   * non-tracking name, sorted by name.
   */
  function CleanParams(unquote: string -> string, query: string): (r: seq<Param>)
    ensures Sorted(NameBefore, r)
    ensures forall k :: 0 <= k < |r| ==> Kept(r[k])
  {
    var parsed := ParseQsl(unquote, query);
    var first := FirstValues(parsed);
    var kept := Filter(first, Kept);
    FilterKeepsNamesDistinct(first, Kept);
    NameBeforeOrders();
    NameBeforeComparable(kept);
    SortBySorted(kept, NameBefore);
    var r := SortBy(kept, NameBefore);
    assert forall k :: 0 <= k < |r| ==> r[k] in multiset(kept);
    r
  }

  /**
   * Exactly the non-tracking names of the query survive, each once and with
   * the value of its first occurrence.
   */
  lemma CleanParamsContents(unquote: string -> string, query: string)
    ensures var parsed := ParseQsl(unquote, query); var r := CleanParams(unquote, query);
      && NoDuplicates(Firsts(r))
      && (forall name :: name in Firsts(r) <==> name in Firsts(parsed) && Lower(name) !in TrackingParams)
      && (forall k :: 0 <= k < |r| ==> r[k] == parsed[FirstIndex(Firsts(parsed), r[k].0)])
  {
    var parsed := ParseQsl(unquote, query);
    var r := CleanParams(unquote, query);
    assert r == SortBy(Filter(FirstValues(parsed), Kept), NameBefore);
    KeptFirstValues(parsed, r);
  }

  /** A sorted rearrangement of the kept first values holds each non-tracking name once, with its first value. */
  lemma KeptFirstValues(parsed: seq<Param>, r: seq<Param>)
    requires Sorted(NameBefore, r)
    requires multiset(r) == multiset(Filter(FirstValues(parsed), Kept))
    ensures NoDuplicates(Firsts(r))
    ensures forall name :: name in Firsts(r) <==> name in Firsts(parsed) && Lower(name) !in TrackingParams
    ensures forall k :: 0 <= k < |r| ==> r[k] == parsed[FirstIndex(Firsts(parsed), r[k].0)]
  {
    SortedNamesDistinct(r);
    PermutedFilterMembers(FirstValues(parsed), Kept, r);
    KeptNamesPresent(parsed, r);
    KeptEntriesFirst(parsed, r);
    forall name | name in Firsts(r)
      ensures name in Firsts(parsed) && Lower(name) !in TrackingParams
    {
      var j := NameIndex(r, name);
    }
  }

  lemma KeptNamesPresent(parsed: seq<Param>, r: seq<Param>)
    requires forall p :: p in r <==> p in FirstValues(parsed) && Kept(p)
    ensures forall name :: name in Firsts(parsed) && Lower(name) !in TrackingParams ==> name in Firsts(r)
  {
    forall name | name in Firsts(parsed) && Lower(name) !in TrackingParams
      ensures name in Firsts(r)
    {
      var j := KeptNameAt(parsed, r, name);
      assert Firsts(r)[j] == name;
    }
  }

  lemma KeptEntriesFirst(parsed: seq<Param>, r: seq<Param>)
    requires forall p :: p in r <==> p in FirstValues(parsed) && Kept(p)
    ensures forall k :: 0 <= k < |r| ==> r[k].0 in Firsts(parsed) && Lower(r[k].0) !in TrackingParams
    ensures forall k :: 0 <= k < |r| ==> r[k] == parsed[FirstIndex(Firsts(parsed), r[k].0)]
  {
    forall k | 0 <= k < |r|
      ensures r[k].0 in Firsts(parsed) && Lower(r[k].0) !in TrackingParams
      ensures r[k] == parsed[FirstIndex(Firsts(parsed), r[k].0)]
    {
      assert r[k] in r;
      FirstValueAt(parsed, r[k]);
    }
  }

  /** Where a non-tracking name of the query sits among the kept first values. */
  lemma KeptNameAt(parsed: seq<Param>, r: seq<Param>, name: string) returns (j: nat)
    requires forall p :: p in r <==> p in FirstValues(parsed) && Kept(p)
    requires name in Firsts(parsed) && Lower(name) !in TrackingParams
    ensures j < |r| && r[j].0 == name
  {
    var p := FirstValueOf(parsed, name);
    assert p in r;
    j := MemberIndex(r, p);
  }

  lemma NameIndex(ps: seq<Param>, name: string) returns (j: nat)
    requires name in Firsts(ps)
    ensures j < |ps| && ps[j].0 == name
  {
    j :| 0 <= j < |ps| && Firsts(ps)[j] == name;
  }

  lemma MemberIndex(r: seq<Param>, p: Param) returns (j: nat)
    requires p in r
    ensures j < |r| && r[j] == p
  {
    j :| 0 <= j < |r| && r[j] == p;
  }

  lemma SortedNamesDistinct(r: seq<Param>)
    requires Sorted(NameBefore, r)
    ensures NoDuplicates(Firsts(r))
  {
    forall i, j | 0 <= i < j < |r|
      ensures Firsts(r)[i] != Firsts(r)[j]
    {
      assert NameBefore(r[i], r[j]);
      LexLessIrreflexive(r[i].0);
    }
  }

  /** A rearrangement of a filtered list holds exactly the kept elements. */
  lemma PermutedFilterMembers(ps: seq<Param>, keep: Param -> bool, r: seq<Param>)
    requires multiset(r) == multiset(Filter(ps, keep))
    ensures forall p :: p in r <==> p in ps && keep(p)
  {
    forall p
      ensures p in r <==> p in ps && keep(p)
    {
      assert p in r <==> p in multiset(r);
      assert p in Filter(ps, keep) <==> p in multiset(Filter(ps, keep));
    }
  }

  /** Every first value belongs to its name's first occurrence. */
  lemma FirstValueAt(ps: seq<Param>, p: Param)
    requires p in FirstValues(ps)
    ensures p.0 in Firsts(ps) && p == ps[FirstIndex(Firsts(ps), p.0)]
  {
    var first := FirstValues(ps);
    var k :| 0 <= k < |first| && first[k] == p;
    assert Firsts(first)[k] == p.0;
    assert p.0 in Distinct(Firsts(ps));
  }

  /** Every name has a first value. */
  lemma FirstValueOf(ps: seq<Param>, name: string) returns (p: Param)
    requires name in Firsts(ps)
    ensures p in FirstValues(ps) && p.0 == name
  {
    var first := FirstValues(ps);
    assert name in Distinct(Firsts(ps));
    var k :| 0 <= k < |first| && Firsts(first)[k] == name;
    p := first[k];
  }

  /** `enc(k) + "=" + enc(v)` for each parameter. */
  function Fields(enc: string -> string, ps: seq<Param>): (r: seq<string>)
    ensures |r| == |ps|
    ensures forall k :: 0 <= k < |ps| ==> r[k] == enc(ps[k].0) + "=" + enc(ps[k].1)
  {
    seq(|ps|, k requires 0 <= k < |ps| => enc(ps[k].0) + "=" + enc(ps[k].1))
  }

  /** Writing a decoded string back as it is. */
  function AsIs(s: string): string {
    s
  }

  /** `f"{k}={v}"` for each parameter: the decoded name and value, not encoded again. */
  function FieldsAsWritten(ps: seq<Param>): (r: seq<string>)
    ensures |r| == |ps|
    ensures forall k :: 0 <= k < |ps| ==> r[k] == ps[k].0 + "=" + ps[k].1
  {
    Fields(AsIs, ps)
  }

  /**
   * The query rebuild as the source writes it: decoded names and values go
   * back unencoded. No parameters give the empty query.
   */
  function CleanQueryAsWritten(unquote: string -> string, query: string): (r: string)
    ensures CleanParams(unquote, query) == [] ==> r == ""
  {
    Join("&", FieldsAsWritten(CleanParams(unquote, query)))
  }

  /** A name or raw value that splits no field and holds no `+`. */
  predicate Plain(s: string) {
    '&' !in s && '=' !in s && '+' !in s
  }

  /**
   * A single parameter whose raw value decodes to a string holding `&`
   * (for instance `q=a%26b`, whose value decodes to `a&b`) is written back
   * with a bare `&`: the rebuilt query reads back as two parameters where
   * the original held one, so the canonical URL names a different query.
   */
  lemma AsWrittenSplitsEncodedAmpersand(unquote: string -> string, name: string, raw: string,
                                        before: string, after: string)
    requires Plain(name) && Plain(raw) && Lower(name) !in TrackingParams
    requires unquote(name) == name
    requires unquote(raw) == before + "&" + after
    requires '&' !in before && '&' !in after && after != ""
    ensures CleanParams(unquote, name + "=" + raw) == [(name, before + "&" + after)]
    ensures CleanQueryAsWritten(unquote, name + "=" + raw) == name + "=" + before + "&" + after
    ensures |ParseQsl(unquote, CleanQueryAsWritten(unquote, name + "=" + raw))| == 2
  {
    var p := (name, before + "&" + after);
    ParseSingle(unquote, name, raw);
    CleanSingle(unquote, name + "=" + raw, p);
    var fields := FieldsAsWritten([p]);
    assert fields == [name + "=" + (before + "&" + after)];
    assert Join("&", fields) == name + "=" + before + "&" + after;
    ReadBackTwo(unquote, name + "=" + before, after);
    assert name + "=" + before + "&" + after == (name + "=" + before) + "&" + after;
  }

  /** A query of one plain `name=raw` field parses to that one parameter. */
  lemma ParseSingle(unquote: string -> string, name: string, raw: string)
    requires Plain(name) && Plain(raw)
    ensures ParseQsl(unquote, name + "=" + raw) == [(unquote(name), unquote(raw))]
  {
    var q := name + "=" + raw;
    assert '&' !in q by {
      forall i | 0 <= i < |q|
        ensures q[i] != '&'
      {
        if i < |name| {
          assert q[i] == name[i];
        } else if i > |name| {
          assert q[i] == raw[i - |name| - 1];
        }
      }
    }
    SplitOnJoin([q], '&');
    var fields: seq<string> := [q];
    assert ParseFields(unquote, fields) == [ParseField(unquote, q)] by {
      assert fields[1..] == [];
    }
    assert q[|name|] == '=';
    assert FirstIndex(q, '=') == |name| by {
      assert forall k :: 0 <= k < |name| ==> q[k] == name[k];
    }
    assert q[..|name|] == name && q[|name| + 1..] == raw;
    PlusToSpaceFixes(name);
    PlusToSpaceFixes(raw);
  }

  /** Two non-empty `&`-free fields read back as two parameters. */
  lemma ReadBackTwo(unquote: string -> string, first: string, second: string)
    requires first != "" && second != ""
    requires '&' !in first && '&' !in second
    ensures |ParseQsl(unquote, first + "&" + second)| == 2
  {
    var fields := [first, second];
    assert Join(['&'], fields) == first + "&" + second by {
      assert fields[1..] == [second];
    }
    SplitOnJoin(fields, '&');
  }

  lemma CleanSingle(unquote: string -> string, query: string, p: Param)
    requires ParseQsl(unquote, query) == [p]
    requires Kept(p)
    ensures CleanParams(unquote, query) == [p]
  {
    assert FirstValues([p]) == [p] by {
      assert [p][..0] == [];
    }
    assert Filter([p], Kept) == [p] by {
      assert [p][1..] == [];
    }
  }

  /**
   * Whether `s`, written into a field through `enc`, reads back as `s`: the
   * written text holds no `&` (and no `=` when it is a name), and decoding
   * it (`+` as a space, then `unquote`) gives `s` again.
   */
  predicate Carries(enc: string -> string, unquote: string -> string, s: string, isName: bool) {
    && '&' !in enc(s)
    && (isName ==> '=' !in enc(s))
    && unquote(PlusToSpace(enc(s))) == s
  }

  /** Every name and value of `ps` reads back after being written through `enc`. */
  predicate FieldsReadBack(enc: string -> string, unquote: string -> string, ps: seq<Param>) {
    forall k :: 0 <= k < |ps| ==> Carries(enc, unquote, ps[k].0, true) && Carries(enc, unquote, ps[k].1, false)
  }

  /** A query rebuilt from parameters that survive their encoding reads back as exactly those parameters. */
  lemma ParseFieldsRoundTrip(enc: string -> string, unquote: string -> string, ps: seq<Param>)
    requires FieldsReadBack(enc, unquote, ps)
    ensures ParseQsl(unquote, Join("&", Fields(enc, ps))) == ps
  {
    var fields := Fields(enc, ps);
    if |ps| == 0 {
      assert SplitOn("", '&') == [""];
    } else {
      forall k | 0 <= k < |fields|
        ensures '&' !in fields[k]
      {
        assert Carries(enc, unquote, ps[k].0, true) && Carries(enc, unquote, ps[k].1, false);
      }
      SplitOnJoin(fields, '&');
      assert Join("&", fields) == Join(['&'], fields);
      ParseEncodedFields(enc, unquote, ps);
    }
  }

  lemma {:induction false} ParseEncodedFields(enc: string -> string, unquote: string -> string, ps: seq<Param>)
    requires FieldsReadBack(enc, unquote, ps)
    ensures ParseFields(unquote, Fields(enc, ps)) == ps
    decreases |ps|
  {
    if |ps| > 0 {
      var fields := Fields(enc, ps);
      var name := enc(ps[0].0);
      var value := enc(ps[0].1);
      var f := fields[0];
      assert Carries(enc, unquote, ps[0].0, true) && Carries(enc, unquote, ps[0].1, false);
      assert f == name + "=" + value;
      assert f[|name|] == '=';
      assert FirstIndex(f, '=') == |name| by {
        assert forall k :: 0 <= k < |name| ==> f[k] == name[k];
      }
      assert f[..|name|] == name && f[|name| + 1..] == value;
      assert ParseField(unquote, f) == ps[0];
      assert fields[1..] == Fields(enc, ps[1..]);
      assert FieldsReadBack(enc, unquote, ps[1..]) by {
        forall k | 0 <= k < |ps[1..]|
          ensures Carries(enc, unquote, ps[1..][k].0, true) && Carries(enc, unquote, ps[1..][k].1, false)
        {
          assert ps[1..][k] == ps[k + 1];
        }
      }
      ParseEncodedFields(enc, unquote, ps[1..]);
    }
  }

  /** The survivors of cleaning are parameters of the query, so they read back whenever the query's do. */
  lemma SurvivorsReadBack(enc: string -> string, unquote: string -> string, query: string)
    requires FieldsReadBack(enc, unquote, ParseQsl(unquote, query))
    ensures FieldsReadBack(enc, unquote, CleanParams(unquote, query))
  {
    var parsed := ParseQsl(unquote, query);
    var r := CleanParams(unquote, query);
    CleanParamsContents(unquote, query);
    forall k | 0 <= k < |r|
      ensures Carries(enc, unquote, r[k].0, true) && Carries(enc, unquote, r[k].1, false)
    {
      var j := FirstIndex(Firsts(parsed), r[k].0);
      assert r[k] == parsed[j];
    }
  }

  /**
   * A query that reads back as the cleaned parameters of another cleans to
   * those same parameters: they are already distinct, kept and sorted.
   */
  lemma CleanParamsFixed(unquote: string -> string, query: string, rebuilt: string)
    requires ParseQsl(unquote, rebuilt) == CleanParams(unquote, query)
    ensures CleanParams(unquote, rebuilt) == CleanParams(unquote, query)
  {
    var ps := CleanParams(unquote, query);
    CleanParamsContents(unquote, query);
    FirstValuesOfDistinct(ps);
    FilterAllKept(ps);
    SortByFixesSorted(ps);
  }

  /** Parameters with distinct names are their own first values. */
  lemma FirstValuesOfDistinct(ps: seq<Param>)
    requires NoDuplicates(Firsts(ps))
    ensures FirstValues(ps) == ps
  {
    DistinctOfNoDuplicates(Firsts(ps));
    var first := FirstValues(ps);
    assert Firsts(first) == Firsts(ps);
    forall k | 0 <= k < |ps|
      ensures first[k] == ps[k]
    {
      assert FirstIndex(Firsts(ps), first[k].0) == k;
    }
  }

  /** Sorting parameters already sorted by their distinct names changes nothing. */
  lemma SortByFixesSorted(ps: seq<Param>)
    requires Sorted(NameBefore, ps) && NoDuplicates(Firsts(ps))
    ensures SortBy(ps, NameBefore) == ps
  {
    NameBeforeOrders();
    NameBeforeComparable(ps);
    SortBySorted(ps, NameBefore);
    SortedUnique(SortBy(ps, NameBefore), ps, NameBefore);
  }

  lemma {:induction false} FilterAllKept(ps: seq<Param>)
    requires forall k :: 0 <= k < |ps| ==> Kept(ps[k])
    ensures Filter(ps, Kept) == ps
    decreases |ps|
  {
    if |ps| > 0 {
      FilterAllKept(ps[1..]);
      assert ps == [ps[0]] + ps[1..];
    }
  }

  /**
   * The source's rebuild reads back as the cleaned parameters, and cleaning
   * it again changes nothing, when every parameter of the query reads back
   * after being written unencoded: no `&` in a name or value, no `=` in a
   * name, nothing `unquote` would change. `AsWrittenSplitsEncodedAmpersand`
   * shows a query outside this case.
   */
  lemma CleanQueryAsWrittenIdempotent(unquote: string -> string, query: string)
    requires FieldsReadBack(AsIs, unquote, ParseQsl(unquote, query))
    ensures ParseQsl(unquote, CleanQueryAsWritten(unquote, query)) == CleanParams(unquote, query)
    ensures CleanQueryAsWritten(unquote, CleanQueryAsWritten(unquote, query)) == CleanQueryAsWritten(unquote, query)
  {
    SurvivorsReadBack(AsIs, unquote, query);
    ParseFieldsRoundTrip(AsIs, unquote, CleanParams(unquote, query));
    CleanParamsFixed(unquote, query, CleanQueryAsWritten(unquote, query));
  }

  /**
   * What the corrected rebuild needs of its encoder: every encoded string
   * holds neither separator and decodes back to the original.
   */
  ghost predicate SoundCodec(quote: string -> string, unquote: string -> string) {
    forall s :: Carries(quote, unquote, s, true)
  }

  /** The corrected query rebuild: each name and value encoded again. */
  function CleanQuery(quote: string -> string, unquote: string -> string, query: string): (r: string)
    ensures CleanParams(unquote, query) == [] ==> r == ""
  {
    Join("&", Fields(quote, CleanParams(unquote, query)))
  }

  /** With a sound encoder, the corrected rebuild reads back as the cleaned parameters of any query. */
  lemma CleanQueryReadsBack(quote: string -> string, unquote: string -> string, query: string)
    requires SoundCodec(quote, unquote)
    ensures ParseQsl(unquote, CleanQuery(quote, unquote, query)) == CleanParams(unquote, query)
  {
    var ps := CleanParams(unquote, query);
    forall k | 0 <= k < |ps|
      ensures Carries(quote, unquote, ps[k].0, true) && Carries(quote, unquote, ps[k].1, false)
    {
      assert Carries(quote, unquote, ps[k].1, true);
    }
    ParseFieldsRoundTrip(quote, unquote, ps);
  }

  /** With a sound encoder, cleaning a query the corrected way is idempotent for every query. */
  lemma CleanQueryIdempotent(quote: string -> string, unquote: string -> string, query: string)
    requires SoundCodec(quote, unquote)
    ensures CleanQuery(quote, unquote, CleanQuery(quote, unquote, query)) == CleanQuery(quote, unquote, query)
  {
    CleanQueryReadsBack(quote, unquote, query);
    CleanParamsFixed(unquote, query, CleanQuery(quote, unquote, query));
  }

  /**
   * `normalize_url` on the split URL: scheme and network location
   * lower-cased, tracking parameters removed (with the source's unencoded
   * rebuild) when `removeParams` is set and there is a query, and no
   * fragment.
   */
  function NormalizeParts(lib: UrlLib, parts: UrlParts, removeParams: bool): (r: UrlParts)
    ensures r.scheme == Lower(parts.scheme) && r.netloc == Lower(parts.netloc)
    ensures r.path == parts.path && r.params == parts.params
    ensures r.fragment == ""
    ensures !removeParams || parts.query == "" ==> r.query == parts.query
    ensures removeParams && parts.query != "" ==> r.query == CleanQueryAsWritten(lib.unquote, parts.query)
  {
    var query := if removeParams && parts.query != "" then CleanQueryAsWritten(lib.unquote, parts.query) else parts.query;
    UrlParts(Lower(parts.scheme), Lower(parts.netloc), parts.path, parts.params, query, "")
  }

  /**
   * With parameter removal on, and a query whose parameters the unencoded
   * rebuild carries through, the normalised query reads back as the first
   * value of each non-tracking name of the original query, sorted by name,
   * each name once.
   */
  lemma NormalizedQueryParams(lib: UrlLib, parts: UrlParts)
    requires parts.query != ""
    requires FieldsReadBack(AsIs, lib.unquote, ParseQsl(lib.unquote, parts.query))
    ensures var parsed := ParseQsl(lib.unquote, parts.query);
      var after := ParseQsl(lib.unquote, NormalizeParts(lib, parts, true).query);
      && Sorted(NameBefore, after)
      && (forall name :: name in Firsts(after) <==> name in Firsts(parsed) && Lower(name) !in TrackingParams)
      && (forall k :: 0 <= k < |after| ==> after[k] == parsed[FirstIndex(Firsts(parsed), after[k].0)])
  {
    CleanQueryAsWrittenIdempotent(lib.unquote, parts.query);
    CleanParamsContents(lib.unquote, parts.query);
  }

  /**
   * Normalising a normalised URL changes nothing, provided that, when
   * parameters are removed, the query's parameters are carried through the
   * unencoded rebuild (see `CleanQueryAsWrittenIdempotent`).
   */
  lemma NormalizePartsIdempotent(lib: UrlLib, parts: UrlParts, removeParams: bool)
    requires removeParams && parts.query != "" ==> FieldsReadBack(AsIs, lib.unquote, ParseQsl(lib.unquote, parts.query))
    ensures NormalizeParts(lib, NormalizeParts(lib, parts, removeParams), removeParams)
         == NormalizeParts(lib, parts, removeParams)
  {
    var once := NormalizeParts(lib, parts, removeParams);
    LowerFixes(once.scheme);
    LowerFixes(once.netloc);
    if removeParams && parts.query != "" {
      CleanQueryAsWrittenIdempotent(lib.unquote, parts.query);
    }
  }

  /** `normalize_url(url)`: split, normalise and join again. */
  function NormalizeUrl(lib: UrlLib, url: string, removeParams: bool): string {
    lib.join(NormalizeParts(lib, lib.split(url), removeParams))
  }
}
