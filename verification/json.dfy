/**
 * The small part of `json.dumps(obj, sort_keys=True, ensure_ascii=False)`
 * the topic signature needs: strings, lists of strings and the two-field
 * object `{"kw": [...], "pub": [...]}`, written with Python's default
 * separators `", "` and `": "`.
 *
 * The decoder below is not part of the system; it is the inverse that shows
 * the encoding loses nothing, so two signature inputs serialise to the same
 * text only when their lists are equal.
 */
module Json {
  import opened Wrappers
  import Text

  /** Lower-case hexadecimal digit for `0 <= n < 16`, as `format(n, "x")` writes it. */
  function HexDigit(n: nat): (c: char)
    requires n < 16
  {
    if n < 10 then ('0' as int + n) as char else ('a' as int + n - 10) as char
  }

  /** Value of a hexadecimal digit of either case. */
  function HexValue(c: char): (r: Option<nat>)
    ensures r.Some? ==> r.value < 16
  {
    if '0' <= c <= '9' then Some(c as int - '0' as int)
    else if 'a' <= c <= 'f' then Some(c as int - 'a' as int + 10)
    else if 'A' <= c <= 'F' then Some(c as int - 'A' as int + 10)
    else None
  }

  lemma HexRoundTrip(n: nat)
    requires n < 16
    ensures HexValue(HexDigit(n)) == Some(n)
  {
  }

  /** What the encoder writes for one character of a string. */
  function EscapeChar(c: char): string {
    if c == '"' then "\\\""
    else if c == '\\' then "\\\\"
    else if c == '\n' then "\\n"
    else if c == '\r' then "\\r"
    else if c == '\t' then "\\t"
    else if c as int == 0x08 then "\\b"
    else if c as int == 0x0C then "\\f"
    else if c as int < 0x20 then "\\u00" + [HexDigit(c as int / 16), HexDigit(c as int % 16)]
    else [c]
  }

  function Escape(s: string): string {
    if |s| == 0 then "" else EscapeChar(s[0]) + Escape(s[1..])
  }

  /** A JSON string literal. */
  function Quote(s: string): string {
    "\"" + Escape(s) + "\""
  }

  function QuoteAll(xs: seq<string>): (r: seq<string>)
    ensures |r| == |xs|
    ensures forall i :: 0 <= i < |xs| ==> r[i] == Quote(xs[i])
  {
    seq(|xs|, i requires 0 <= i < |xs| => Quote(xs[i]))
  }

  /** A JSON array of strings. */
  function EncodeList(xs: seq<string>): string {
    "[" + Text.Join(", ", QuoteAll(xs)) + "]"
  }

  const KwHeader: string := "{\"kw\": "
  const PubHeader: string := ", \"pub\": "

  /**
   * `json.dumps({"kw": kw, "pub": pub}, sort_keys=True, ensure_ascii=False)`.
   * Sorting the keys puts `"kw"` first; the lists keep their order.
   */
  function EncodeSignatureInput(kw: seq<string>, pub: seq<string>): (r: string)
    ensures KwHeader <= r
  {
    KwHeader + EncodeList(kw) + PubHeader + EncodeList(pub) + "}"
  }

  // ----- decoding -------------------------------------------------------

  function Prepend(c: char, r: Option<(string, string)>): Option<(string, string)> {
    match r
    case None => None
    case Some((x, rest)) => Some(([c] + x, rest))
  }

  /** Decodes the escape sequence at the start of `s`: the character and the length consumed. */
  function Unescape(s: string): (r: Option<(char, nat)>)
    requires |s| >= 1 && s[0] == '\\'
    ensures r.Some? ==> 2 <= r.value.1 <= |s|
  {
    if |s| < 2 then None
    else if s[1] == '"' then Some(('"', 2))
    else if s[1] == '\\' then Some(('\\', 2))
    else if s[1] == '/' then Some(('/', 2))
    else if s[1] == 'n' then Some(('\n', 2))
    else if s[1] == 'r' then Some(('\r', 2))
    else if s[1] == 't' then Some(('\t', 2))
    else if s[1] == 'b' then Some((0x08 as char, 2))
    else if s[1] == 'f' then Some((0x0C as char, 2))
    else if s[1] == 'u' && |s| >= 6 then
      match (HexValue(s[2]), HexValue(s[3]), HexValue(s[4]), HexValue(s[5]))
      case (Some(a), Some(b), Some(c), Some(d)) =>
        var v := ((a * 16 + b) * 16 + c) * 16 + d;
        if 0xD800 <= v < 0xE000 then None else Some((v as char, 6))
      case _ => None
    else None
  }

  /** Reads the body of a string literal up to its closing quote; returns the text and what follows. */
  function DecodeBody(s: string): (r: Option<(string, string)>)
    ensures r.Some? ==> |r.value.1| < |s|
    decreases |s|
  {
    if |s| == 0 then None
    else if s[0] == '"' then Some(("", s[1..]))
    else if s[0] == '\\' then
      match Unescape(s)
      case None => None
      case Some((c, n)) => Prepend(c, DecodeBody(s[n..]))
    else Prepend(s[0], DecodeBody(s[1..]))
  }

  /** Reads `"a", "b", ...]` (the elements of a non-empty array and its closing bracket). */
  function DecodeItems(s: string): (r: Option<(seq<string>, string)>)
    ensures r.Some? ==> |r.value.1| < |s|
    decreases |s|
  {
    if |s| == 0 || s[0] != '"' then None
    else
      match DecodeBody(s[1..])
      case None => None
      case Some((x, rest)) =>
        if |rest| >= 2 && rest[..2] == ", " then
          match DecodeItems(rest[2..])
          case None => None
          case Some((xs, rest')) => Some(([x] + xs, rest'))
        else if |rest| >= 1 && rest[0] == ']' then Some(([x], rest[1..]))
        else None
  }

  /** Reads one array of strings from the front of `s`. */
  function DecodeList(s: string): (r: Option<(seq<string>, string)>)
    ensures r.Some? ==> |r.value.1| < |s|
  {
    if |s| >= 2 && s[..2] == "[]" then Some(([], s[2..]))
    else if |s| >= 1 && s[0] == '[' then DecodeItems(s[1..])
    else None
  }

  /** Reads a whole signature object back into its two lists. */
  function DecodeSignatureInput(s: string): Option<(seq<string>, seq<string>)> {
    if !(|s| >= |KwHeader| && s[..|KwHeader|] == KwHeader) then None
    else
      match DecodeList(s[|KwHeader|..])
      case None => None
      case Some((kw, r1)) =>
        if !(|r1| >= |PubHeader| && r1[..|PubHeader|] == PubHeader) then None
        else
          match DecodeList(r1[|PubHeader|..])
          case None => None
          case Some((pub, r2)) => if r2 == "}" then Some((kw, pub)) else None
  }

  // ----- round trip -----------------------------------------------------

  /** The characters `json.dumps` writes with a two-character escape. */
  predicate ShortEscaped(c: char) {
    c == '"' || c == '\\' || c == '\n' || c == '\r' || c == '\t' || c as int == 0x08 || c as int == 0x0C
  }

  lemma EscapeCharDecodes(c: char, t: string)
    ensures DecodeBody(EscapeChar(c) + t) == Prepend(c, DecodeBody(t))
  {
    if ShortEscaped(c) {
      ShortEscapeDecodes(c, t);
    } else if c as int < 0x20 {
      UnicodeEscapeDecodes(c, t);
    } else {
      assert (EscapeChar(c) + t)[1..] == t;
    }
  }

  lemma ShortEscapeDecodes(c: char, t: string)
    requires ShortEscaped(c)
    ensures DecodeBody(EscapeChar(c) + t) == Prepend(c, DecodeBody(t))
  {
    var s := EscapeChar(c) + t;
    assert |EscapeChar(c)| == 2 && s[0] == '\\';
    assert Unescape(s) == Some((c, 2));
    assert s[2..] == t;
  }

  lemma UnicodeEscapeDecodes(c: char, t: string)
    requires !ShortEscaped(c) && c as int < 0x20
    ensures DecodeBody(EscapeChar(c) + t) == Prepend(c, DecodeBody(t))
  {
    var s := EscapeChar(c) + t;
    var v := c as int;
    HexRoundTrip(v / 16);
    HexRoundTrip(v % 16);
    assert s[0] == '\\' && s[1] == 'u' && s[2] == '0' && s[3] == '0';
    assert s[4] == HexDigit(v / 16) && s[5] == HexDigit(v % 16);
    assert Unescape(s) == Some((c, 6));
    assert s[6..] == t;
  }

  /** The body decoder undoes `Escape` and stops at the closing quote. */
  lemma {:induction false} EscapeDecodes(x: string, rest: string)
    ensures DecodeBody(Escape(x) + "\"" + rest) == Some((x, rest))
    decreases |x|
  {
    if |x| == 0 {
      assert Escape(x) + "\"" + rest == "\"" + rest;
    } else {
      var t := Escape(x[1..]) + "\"" + rest;
      assert Escape(x) + "\"" + rest == EscapeChar(x[0]) + t;
      EscapeCharDecodes(x[0], t);
      EscapeDecodes(x[1..], rest);
      assert [x[0]] + x[1..] == x;
    }
  }

  /** The last element of an array, followed by its closing bracket. */
  lemma ItemLast(x: string, rest: string)
    ensures DecodeItems(Quote(x) + "]" + rest) == Some(([x], rest))
  {
    var s := Quote(x) + "]" + rest;
    assert s == "\"" + (Escape(x) + "\"" + ("]" + rest));
    assert s[1..] == Escape(x) + "\"" + ("]" + rest);
    EscapeDecodes(x, "]" + rest);
    var r := "]" + rest;
    assert r[0] == ']' && r[1..] == rest;
    assert !(|r| >= 2 && r[..2] == ", ") by {
      if |r| >= 2 {
        assert r[..2][0] == ']';
      }
    }
  }

  /** An element followed by a separator: decoding continues after the separator. */
  lemma ItemMore(x: string, tail: string)
    ensures DecodeItems(Quote(x) + ", " + tail) ==
      match DecodeItems(tail)
      case None => None
      case Some((xs, rest')) => Some(([x] + xs, rest'))
  {
    var s := Quote(x) + ", " + tail;
    assert s == "\"" + (Escape(x) + "\"" + (", " + tail));
    assert s[1..] == Escape(x) + "\"" + (", " + tail);
    EscapeDecodes(x, ", " + tail);
    var r := ", " + tail;
    assert r[..2] == ", " && r[2..] == tail;
  }

  lemma {:induction false} ItemsDecode(xs: seq<string>, rest: string)
    requires |xs| > 0
    ensures DecodeItems(Text.Join(", ", QuoteAll(xs)) + "]" + rest) == Some((xs, rest))
    decreases |xs|
  {
    var qs := QuoteAll(xs);
    if |xs| == 1 {
      assert Text.Join(", ", qs) == Quote(xs[0]);
      ItemLast(xs[0], rest);
      assert xs == [xs[0]];
    } else {
      var tail := Text.Join(", ", QuoteAll(xs[1..])) + "]" + rest;
      assert qs[1..] == QuoteAll(xs[1..]);
      assert Text.Join(", ", qs) + "]" + rest == Quote(xs[0]) + ", " + tail;
      ItemMore(xs[0], tail);
      ItemsDecode(xs[1..], rest);
      assert [xs[0]] + xs[1..] == xs;
    }
  }

  lemma ListDecodes(xs: seq<string>, rest: string)
    ensures DecodeList(EncodeList(xs) + rest) == Some((xs, rest))
  {
    if |xs| == 0 {
      assert EncodeList(xs) + rest == "[]" + rest;
    } else {
      NonEmptyListDecodes(xs, rest);
    }
  }

  lemma NonEmptyListDecodes(xs: seq<string>, rest: string)
    requires |xs| > 0
    ensures DecodeList(EncodeList(xs) + rest) == Some((xs, rest))
  {
    var body := Text.Join(", ", QuoteAll(xs));
    var s := EncodeList(xs) + rest;
    BracketLayout(body, rest);
    assert QuoteAll(xs)[0][0] == '"';
    JoinHead(QuoteAll(xs));
    DecodeListOpen(s);
    ItemsDecode(xs, rest);
  }

  /** An array that does not close at once is read item by item. */
  lemma DecodeListOpen(s: string)
    requires |s| >= 2 && s[0] == '[' && s[1] == '"'
    ensures DecodeList(s) == DecodeItems(s[1..])
  {
    assert s[..2][1] != "[]"[1];
  }

  /** Where the parts of `"[" + body + "]" + rest` sit. */
  lemma BracketLayout(body: string, rest: string)
    ensures var s := "[" + body + "]" + rest;
      && |s| >= 1 && s[0] == '[' && s[1..] == body + "]" + rest
      && (|body| > 0 ==> s[1] == body[0])
  {
    var s := "[" + body + "]" + rest;
    assert s == "[" + (body + "]" + rest);
  }

  lemma JoinHead(qs: seq<string>)
    requires |qs| > 0 && |qs[0]| > 0
    ensures |Text.Join(", ", qs)| > 0 && Text.Join(", ", qs)[0] == qs[0][0]
  {
  }

  /** Decoding the serialised signature object gives back exactly the two lists, in order. */
  lemma SignatureInputRoundTrip(kw: seq<string>, pub: seq<string>)
    ensures DecodeSignatureInput(EncodeSignatureInput(kw, pub)) == Some((kw, pub))
  {
    var s := EncodeSignatureInput(kw, pub);
    var tail := PubHeader + EncodeList(pub) + "}";
    SignatureLayout(kw, pub);
    ListDecodes(kw, tail);
    ListDecodes(pub, "}");
    DecodeSignatureSteps(s, kw, tail, pub);
  }

  lemma SignatureLayout(kw: seq<string>, pub: seq<string>)
    ensures var s := EncodeSignatureInput(kw, pub);
      var tail := PubHeader + EncodeList(pub) + "}";
      && |s| >= |KwHeader| && s[..|KwHeader|] == KwHeader
      && s[|KwHeader|..] == EncodeList(kw) + tail
      && |tail| >= |PubHeader| && tail[..|PubHeader|] == PubHeader
      && tail[|PubHeader|..] == EncodeList(pub) + "}"
  {
    ConcatLayout(KwHeader, EncodeList(kw), PubHeader, EncodeList(pub), "}");
  }

  /** Where the parts of `h1 + x + h2 + y + c` sit. */
  lemma ConcatLayout(h1: string, x: string, h2: string, y: string, c: string)
    ensures var s := h1 + x + h2 + y + c;
      var tail := h2 + y + c;
      && |s| >= |h1| && s[..|h1|] == h1 && s[|h1|..] == x + tail
      && |tail| >= |h2| && tail[..|h2|] == h2 && tail[|h2|..] == y + c
  {
    var s := h1 + x + h2 + y + c;
    var tail := h2 + y + c;
    assert s == h1 + (x + tail);
    assert tail == h2 + (y + c);
  }

  lemma DecodeSignatureSteps(s: string, kw: seq<string>, r1: string, pub: seq<string>)
    requires |s| >= |KwHeader| && s[..|KwHeader|] == KwHeader
    requires DecodeList(s[|KwHeader|..]) == Some((kw, r1))
    requires |r1| >= |PubHeader| && r1[..|PubHeader|] == PubHeader
    requires DecodeList(r1[|PubHeader|..]) == Some((pub, "}"))
    ensures DecodeSignatureInput(s) == Some((kw, pub))
  {
  }

  /** Equal serialisations come only from equal lists. */
  lemma SignatureInputInjective(kw1: seq<string>, pub1: seq<string>, kw2: seq<string>, pub2: seq<string>)
    ensures EncodeSignatureInput(kw1, pub1) == EncodeSignatureInput(kw2, pub2) <==> kw1 == kw2 && pub1 == pub2
  {
    SignatureInputRoundTrip(kw1, pub1);
    SignatureInputRoundTrip(kw2, pub2);
  }
}
