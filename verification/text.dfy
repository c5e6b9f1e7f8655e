/**
 * The handful of Python `str` operations the pipeline relies on: whitespace
 * classification, `lower()`, `strip()`, `split()` with no separator,
 * `sep.join(...)`, slicing `s[:n]`, substring containment and the built-in
 * code-point ordering of strings.
 */
module Text {

  /** Python's `str.isspace()`: the Unicode characters `split()` and `strip()` treat as whitespace. */
  predicate IsSpace(c: char) {
    var n := c as int;
    || 0x09 <= n <= 0x0D
    || 0x1C <= n <= 0x20
    || n == 0x85 || n == 0xA0 || n == 0x1680
    || 0x2000 <= n <= 0x200A
    || n == 0x2028 || n == 0x2029 || n == 0x202F || n == 0x205F || n == 0x3000
  }

  predicate IsUpperAscii(c: char) {
    'A' <= c <= 'Z'
  }

  /** `lower()` restricted to the ASCII letters; every other character is kept. */
  function LowerChar(c: char): (r: char)
    ensures IsSpace(r) <==> IsSpace(c)
    ensures !IsUpperAscii(r)
  {
    if IsUpperAscii(c) then (c as int + 32) as char else c
  }

  /** No ASCII capital letter. */
  predicate NoUpper(s: string) {
    forall i :: 0 <= i < |s| ==> !IsUpperAscii(s[i])
  }

  function Lower(s: string): (r: string)
    ensures NoUpper(r)
    ensures |r| == |s|
    ensures forall i :: 0 <= i < |s| ==> r[i] == LowerChar(s[i])
  {
    seq(|s|, i requires 0 <= i < |s| => LowerChar(s[i]))
  }

  /** Lower-casing changes exactly the strings that hold a capital letter. */
  lemma LowerFixes(s: string)
    ensures Lower(s) == s <==> NoUpper(s)
  {
    if NoUpper(s) {
      assert forall i :: 0 <= i < |s| ==> Lower(s)[i] == s[i];
    }
  }

  /** Every word `split()` returns from a string without capitals has none either. */
  lemma {:induction false} SplitKeepsNoUpper(s: string)
    requires NoUpper(s)
    ensures forall k :: 0 <= k < |Split(s)| ==> NoUpper(Split(s)[k])
    decreases |s|
  {
    if |s| > 0 {
      if IsSpace(s[0]) {
        SplitKeepsNoUpper(s[1..]);
      } else {
        var n := WordLen(s);
        SplitKeepsNoUpper(s[n..]);
        assert Split(s) == [s[..n]] + Split(s[n..]);
      }
    }
  }

  /** Python's slice `s[:n]` for a non-negative `n`. */
  function Take<T>(s: seq<T>, n: nat): (r: seq<T>)
    ensures |r| == if n < |s| then n else |s|
    ensures r <= s
  {
    if n < |s| then s[..n] else s
  }

  /** Taking a prefix twice is the same as taking the shorter one. */
  lemma TakeTake<T>(s: seq<T>, n: nat, m: nat)
    requires m <= n
    ensures Take(Take(s, n), m) == Take(s, m)
  {
  }

  /** `s.lstrip()`: drops leading whitespace. */
  function LStrip(s: string): (r: string)
    ensures |r| <= |s| && r == s[|s| - |r|..]
    ensures |r| > 0 ==> !IsSpace(r[0])
    decreases |s|
  {
    if |s| > 0 && IsSpace(s[0]) then LStrip(s[1..]) else s
  }

  /** `s.rstrip()`: drops trailing whitespace. */
  function RStrip(s: string): (r: string)
    ensures r <= s
    ensures |r| > 0 ==> !IsSpace(r[|r| - 1])
    decreases |s|
  {
    if |s| > 0 && IsSpace(s[|s| - 1]) then RStrip(s[..|s| - 1]) else s
  }

  /** `s.strip()`: no leading and no trailing whitespace. */
  function Strip(s: string): (r: string)
    ensures |r| > 0 ==> !IsSpace(r[0]) && !IsSpace(r[|r| - 1])
  {
    var l := LStrip(s);
    var r := RStrip(l);
    assert |r| > 0 ==> r[0] == l[0];
    r
  }

  /** A word as `split()` returns it: non-empty and free of whitespace. */
  predicate IsWord(w: string) {
    |w| > 0 && forall i :: 0 <= i < |w| ==> !IsSpace(w[i])
  }

  /** Length of the longest whitespace-free prefix. */
  function WordLen(s: string): (n: nat)
    ensures n <= |s|
    ensures forall i :: 0 <= i < n ==> !IsSpace(s[i])
    ensures n < |s| ==> IsSpace(s[n])
  {
    if |s| == 0 || IsSpace(s[0]) then 0 else 1 + WordLen(s[1..])
  }

  /** Python's `s.split()`: the maximal runs of non-whitespace, in order. */
  function Split(s: string): (ws: seq<string>)
    ensures forall k :: 0 <= k < |ws| ==> IsWord(ws[k])
    decreases |s|
  {
    if |s| == 0 then []
    else if IsSpace(s[0]) then Split(s[1..])
    else
      var n := WordLen(s);
      [s[..n]] + Split(s[n..])
  }

  /** Python's `sep.join(parts)`. */
  function Join(sep: string, parts: seq<string>): string
  {
    if |parts| == 0 then ""
    else if |parts| == 1 then parts[0]
    else parts[0] + sep + Join(sep, parts[1..])
  }

  /** `" ".join(s.split())`: every whitespace run becomes one space, ends trimmed. */
  function Collapse(s: string): string {
    Join(" ", Split(s))
  }

  /** No whitespace at either end, and whitespace only as single isolated spaces. */
  predicate Collapsed(s: string) {
    && (|s| > 0 ==> !IsSpace(s[0]) && !IsSpace(s[|s| - 1]))
    && (forall i :: 0 <= i < |s| && IsSpace(s[i]) ==> s[i] == ' ')
    && (forall i :: 0 <= i < |s| - 1 && IsSpace(s[i]) ==> !IsSpace(s[i + 1]))
  }

  lemma {:induction false} WordLenAppend(a: string, b: string)
    requires WordLen(a) < |a| || (|b| > 0 && IsSpace(b[0]))
    ensures WordLen(a + b) == WordLen(a)
    decreases |a|
  {
    if |a| == 0 {
      assert a + b == b;
    } else if IsSpace(a[0]) {
      assert (a + b)[0] == a[0];
    } else {
      assert (a + b)[0] == a[0];
      assert (a + b)[1..] == a[1..] + b;
      assert WordLen(a) == 1 + WordLen(a[1..]);
      WordLenAppend(a[1..], b);
    }
  }

  lemma WordLenOfWord(w: string)
    requires IsWord(w)
    ensures WordLen(w) == |w|
    decreases |w|
  {
    if |w| > 1 {
      WordLenOfWord(w[1..]);
    }
  }

  /** Splitting at a whitespace character splits the two sides independently. */
  lemma {:induction false} SplitAround(a: string, c: char, b: string)
    requires IsSpace(c)
    ensures Split(a + [c] + b) == Split(a) + Split(b)
    decreases |a|
  {
    if |a| == 0 {
      SplitAroundSpace([c], b);
      assert a + [c] + b == [c] + b;
    } else if IsSpace(a[0]) {
      SplitAroundSpace(a, [c] + b);
      assert a + [c] + b == a + ([c] + b);
      assert a[1..] + ([c] + b) == a[1..] + [c] + b;
      SplitAround(a[1..], c, b);
    } else {
      SplitAround(a[WordLen(a)..], c, b);
      SplitAroundWordStep(a, c, b);
    }
  }

  lemma {:induction false} SplitAroundWordStep(a: string, c: char, b: string)
    requires IsSpace(c) && |a| > 0 && !IsSpace(a[0])
    requires Split(a[WordLen(a)..] + [c] + b) == Split(a[WordLen(a)..]) + Split(b)
    ensures Split(a + [c] + b) == Split(a) + Split(b)
  {
    var n := WordLen(a);
    SplitAroundWord(a, c, b);
    assert [a[..n]] + (Split(a[n..]) + Split(b)) == ([a[..n]] + Split(a[n..])) + Split(b);
  }

  /** Leading whitespace contributes no word. */
  lemma SplitAroundSpace(a: string, b: string)
    requires |a| > 0 && IsSpace(a[0])
    ensures Split(a + b) == Split(a[1..] + b)
    ensures Split(a) == Split(a[1..])
  {
    assert (a + b)[0] == a[0];
    assert (a + b)[1..] == a[1..] + b;
  }

  /** When `a` starts with a word, so does `a + [c] + b`, the same word. */
  lemma SplitAroundWord(a: string, c: char, b: string)
    requires IsSpace(c) && |a| > 0 && !IsSpace(a[0])
    ensures var n := WordLen(a);
      && Split(a) == [a[..n]] + Split(a[n..])
      && Split(a + [c] + b) == [a[..n]] + Split(a[n..] + [c] + b)
  {
    var s := a + [c] + b;
    var n := WordLen(a);
    WordLenAppend(a, [c] + b);
    assert s == a + ([c] + b);
    assert s[0] == a[0];
    assert s[..n] == a[..n];
    assert s[n..] == a[n..] + [c] + b;
  }

  /** A string of whitespace only has no words. */
  lemma {:induction false} SplitBlank(s: string)
    requires forall i :: 0 <= i < |s| ==> IsSpace(s[i])
    ensures Split(s) == []
    decreases |s|
  {
    if |s| > 0 {
      SplitBlank(s[1..]);
    }
  }

  lemma {:induction false} SplitLStrip(s: string)
    ensures Split(LStrip(s)) == Split(s)
    decreases |s|
  {
    if |s| > 0 && IsSpace(s[0]) {
      SplitLStrip(s[1..]);
    }
  }

  lemma {:induction false} SplitRStrip(s: string)
    ensures Split(RStrip(s)) == Split(s)
    decreases |s|
  {
    if |s| > 0 && IsSpace(s[|s| - 1]) {
      var p := s[..|s| - 1];
      var c := s[|s| - 1];
      assert RStrip(s) == RStrip(p);
      SplitRStrip(p);
      assert s == p + [c] + [];
      SplitAround(p, c, []);
      SplitBlank([]);
      assert Split(p) + Split([]) == Split(p);
    }
  }

  /** `strip()` never changes the words of a string. */
  lemma SplitStrip(s: string)
    ensures Split(Strip(s)) == Split(s)
  {
    SplitLStrip(s);
    SplitRStrip(LStrip(s));
  }

  /** Joining words with single spaces and splitting again gives the words back. */
  lemma {:induction false} SplitJoin(ws: seq<string>)
    requires forall k :: 0 <= k < |ws| ==> IsWord(ws[k])
    ensures Split(Join(" ", ws)) == ws
    decreases |ws|
  {
    if |ws| == 0 {
    } else if |ws| == 1 {
      SplitWord(ws[0]);
    } else {
      var rest := Join(" ", ws[1..]);
      assert Join(" ", ws) == ws[0] + [' '] + rest;
      SplitAround(ws[0], ' ', rest);
      SplitWord(ws[0]);
      SplitJoin(ws[1..]);
      assert ws == [ws[0]] + ws[1..];
    }
  }

  lemma SplitWord(w: string)
    requires IsWord(w)
    ensures Split(w) == [w]
  {
    WordLenOfWord(w);
    assert w[..|w|] == w;
    assert w[|w|..] == [];
  }

  lemma {:induction false} JoinEnds(ws: seq<string>)
    requires |ws| > 0
    requires forall k :: 0 <= k < |ws| ==> IsWord(ws[k])
    ensures var j := Join(" ", ws); |j| > 0 && !IsSpace(j[0]) && !IsSpace(j[|j| - 1])
    decreases |ws|
  {
    assert IsWord(ws[0]);
    if |ws| > 1 {
      JoinEnds(ws[1..]);
    }
  }

  /** Words joined by single spaces form a collapsed string. */
  lemma {:induction false} JoinCollapsed(ws: seq<string>)
    requires forall k :: 0 <= k < |ws| ==> IsWord(ws[k])
    ensures Collapsed(Join(" ", ws))
    decreases |ws|
  {
    if |ws| == 1 {
      assert Join(" ", ws) == ws[0];
      assert IsWord(ws[0]);
    } else if |ws| > 1 {
      var w := ws[0];
      assert IsWord(w);
      var rest := Join(" ", ws[1..]);
      JoinCollapsed(ws[1..]);
      JoinEnds(ws[1..]);
      JoinEnds(ws);
      var s := Join(" ", ws);
      assert s == w + " " + rest;
      assert forall i :: 0 <= i < |w| ==> s[i] == w[i];
      assert forall i :: |w| < i < |s| ==> s[i] == rest[i - |w| - 1];
      assert s[|w|] == ' ';
    }
  }

  /** The normal form `Collapse` produces is collapsed, and collapsing it again changes nothing. */
  lemma CollapseNormalForm(s: string)
    ensures Collapsed(Collapse(s))
    ensures Collapse(Collapse(s)) == Collapse(s)
  {
    JoinCollapsed(Split(s));
    SplitJoin(Split(s));
  }

  /** Python's `s.split(sep)` for a one-character separator: the pieces between separators, at least one. */
  function SplitOn(s: string, sep: char): (r: seq<string>)
    ensures |r| >= 1
    ensures forall k :: 0 <= k < |r| ==> sep !in r[k]
    ensures Join([sep], r) == s
    decreases |s|
  {
    if |s| == 0 then [""]
    else
      var rest := SplitOn(s[1..], sep);
      if s[0] == sep then
        assert Join([sep], [""] + rest) == [sep] + Join([sep], rest) by {
          assert ([""] + rest)[1..] == rest;
        }
        assert s == [s[0]] + s[1..];
        [""] + rest
      else
        var r := [[s[0]] + rest[0]] + rest[1..];
        assert Join([sep], r) == [s[0]] + Join([sep], rest) by {
          assert r[1..] == rest[1..];
          if |rest| > 1 {
            assert Join([sep], rest) == rest[0] + [sep] + Join([sep], rest[1..]);
          }
        }
        assert s == [s[0]] + s[1..];
        assert forall k :: 1 <= k < |r| ==> r[k] == rest[k];
        r
  }

  lemma {:induction false} SplitOnSeparatorFirst(u: string, sep: char)
    ensures SplitOn([sep] + u, sep) == [""] + SplitOn(u, sep)
  {
    assert ([sep] + u)[1..] == u;
  }

  /** A separator-free prefix lands in the first piece. */
  lemma {:induction false} SplitOnFreePrefix(w: string, t: string, sep: char)
    requires sep !in w
    ensures var p := SplitOn(t, sep); SplitOn(w + t, sep) == [w + p[0]] + p[1..]
    decreases |w|
  {
    if |w| > 0 {
      assert (w + t)[1..] == w[1..] + t;
      SplitOnFreePrefix(w[1..], t, sep);
      var p := SplitOn(t, sep);
      assert [w[0]] + (w[1..] + p[0]) == w + p[0];
    } else {
      var p := SplitOn(t, sep);
      assert w + t == t;
      assert w + p[0] == p[0];
      assert p == [p[0]] + p[1..];
    }
  }

  /** Joining separator-free pieces and splitting again gives the pieces back. */
  lemma {:induction false} SplitOnJoin(parts: seq<string>, sep: char)
    requires |parts| >= 1
    requires forall k :: 0 <= k < |parts| ==> sep !in parts[k]
    ensures SplitOn(Join([sep], parts), sep) == parts
    decreases |parts|
  {
    var w := parts[0];
    if |parts| == 1 {
      SplitOnFreePrefix(w, "", sep);
      assert w + "" == w;
    } else {
      var rest := Join([sep], parts[1..]);
      assert Join([sep], parts) == w + ([sep] + rest);
      SplitOnFreePrefix(w, [sep] + rest, sep);
      SplitOnSeparatorFirst(rest, sep);
      SplitOnJoin(parts[1..], sep);
      assert w + "" == w;
      assert parts == [w] + parts[1..];
    }
  }

  /** Python's `<` on strings: lexicographic by code point, a proper prefix first. */
  predicate LexLess(a: string, b: string)
    decreases |a|
  {
    if |a| == 0 then |b| > 0
    else if |b| == 0 then false
    else if a[0] != b[0] then a[0] < b[0]
    else LexLess(a[1..], b[1..])
  }

  lemma {:induction false} LexLessIrreflexive(a: string)
    ensures !LexLess(a, a)
    decreases |a|
  {
    if |a| > 0 {
      LexLessIrreflexive(a[1..]);
    }
  }

  lemma {:induction false} LexLessTransitive(a: string, b: string, c: string)
    requires LexLess(a, b) && LexLess(b, c)
    ensures LexLess(a, c)
    decreases |a|
  {
    if |a| > 0 && |b| > 0 && |c| > 0 && a[0] == b[0] && b[0] == c[0] {
      LexLessTransitive(a[1..], b[1..], c[1..]);
    }
  }

  lemma {:induction false} LexLessTotal(a: string, b: string)
    requires a != b
    ensures LexLess(a, b) || LexLess(b, a)
    decreases |a|
  {
    if |a| > 0 && |b| > 0 && a[0] == b[0] {
      assert a == [a[0]] + a[1..];
      assert b == [b[0]] + b[1..];
      LexLessTotal(a[1..], b[1..]);
    }
  }

  /** Python's `needle in haystack` for strings. */
  predicate Contains(haystack: string, needle: string) {
    exists i :: 0 <= i <= |haystack| - |needle| && OccursAt(haystack, needle, i)
  }

  predicate OccursAt(haystack: string, needle: string, i: int) {
    0 <= i && i + |needle| <= |haystack| && haystack[i..i + |needle|] == needle
  }
}
