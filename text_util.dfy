/**
 * The site's text utilities (app.js, section 2): the hexadecimal colour
 * converter, HTML escaping and search-term highlighting.
 */
module TextUtil {
  import opened Wrappers
  import opened Strings

  // ------------------------------------------------------------------
  // Case folding
  // ------------------------------------------------------------------

  /**
   * The lower-case form of one character, as both `toLowerCase` and the
   * regular-expression `i` flag treat it: ASCII `A`-`Z` and the Latin-1
   * capitals U+00C0..U+00DE (except the sign U+00D7) map to the letter 32
   * code points higher; every other character is its own fold.
   */
  function Fold(c: char): char
  {
    if 'A' <= c <= 'Z' || ('À' <= c <= 'Þ' && c != '×') then (c as int + 32) as char else c
  }

  /** `s.toLowerCase()`. */
  function Lower(s: string): (r: string)
    ensures |r| == |s| && forall i :: 0 <= i < |s| ==> r[i] == Fold(s[i])
  {
    seq(|s|, i requires 0 <= i < |s| => Fold(s[i]))
  }

  /** A folded character folds to itself. */
  lemma FoldIdempotent(c: char)
    ensures Fold(Fold(c)) == Fold(c)
  {
    if 'A' <= c <= 'Z' {
      assert 'a' <= Fold(c) <= 'z';
    } else if 'À' <= c <= 'Þ' && c != '×' {
      assert 'à' <= Fold(c) <= 'þ';
    }
  }

  /** Lower-casing a text twice is lower-casing it once. */
  lemma LowerIdempotent(s: string)
    ensures Lower(Lower(s)) == Lower(s)
  {
    forall i | 0 <= i < |s|
      ensures Lower(Lower(s))[i] == Lower(s)[i]
    {
      FoldIdempotent(s[i]);
    }
  }

  /** Lower-casing works piece by piece: a concatenation lower-cases to the concatenation of the lowered pieces. */
  lemma LowerAppend(a: string, b: string)
    ensures Lower(a + b) == Lower(a) + Lower(b)
  {
    forall i | 0 <= i < |a + b|
      ensures Lower(a + b)[i] == (Lower(a) + Lower(b))[i]
    {
      if i >= |a| {
        assert (a + b)[i] == b[i - |a|];
      }
    }
  }

  // ------------------------------------------------------------------
  // hexToRgb
  // ------------------------------------------------------------------

  const FALLBACK_RGB: string := "100,100,100"

  predicate IsHexDigit(c: char)
  {
    '0' <= c <= '9' || 'a' <= c <= 'f' || 'A' <= c <= 'F'
  }

  predicate AllHex(s: string)
  {
    forall i :: 0 <= i < |s| ==> IsHexDigit(s[i])
  }

  function HexDigitValue(c: char): (v: nat)
    requires IsHexDigit(c)
    ensures v < 16
  {
    if '0' <= c <= '9' then c as int - '0' as int
    else if 'a' <= c <= 'f' then c as int - 'a' as int + 10
    else c as int - 'A' as int + 10
  }

  /** `parseInt(pair, 16)` on two hexadecimal digits. */
  function ParseHexPair(pair: string): nat
    requires |pair| == 2 && AllHex(pair)
  {
    16 * HexDigitValue(pair[0]) + HexDigitValue(pair[1])
  }

  /**
   * The three capture groups of `/^#?([a-f\d]{2})([a-f\d]{2})([a-f\d]{2})$/i`
   * applied to `s`, or `None` when the expression does not match.
   */
  function MatchHexColor(s: string): (m: Option<seq<string>>)
    ensures m.Some? ==> |m.value| == 3 && forall k :: 0 <= k < 3 ==> |m.value[k]| == 2 && AllHex(m.value[k])
  {
    var digits := if |s| == 7 && s[0] == '#' then s[1..] else s;
    if |digits| == 6 && AllHex(digits) then
      Some([digits[0..2], digits[2..4], digits[4..6]])
    else
      None
  }

  function DigitChar(d: nat): char
    requires d < 10
  {
    ('0' as int + d) as char
  }

  predicate IsDecimal(s: string)
  {
    |s| >= 1 && forall i :: 0 <= i < |s| ==> '0' <= s[i] <= '9'
  }

  /** The template-literal text `${n}` of a natural number: its decimal digits. */
  function DecimalString(n: nat): (s: string)
    ensures IsDecimal(s)
    ensures s[0] == '0' <==> n == 0
    decreases n
  {
    if n < 10 then [DigitChar(n)] else DecimalString(n / 10) + [DigitChar(n % 10)]
  }

  /** The number a string of decimal digits denotes. */
  function DecimalValue(s: string): nat
    requires forall i :: 0 <= i < |s| ==> '0' <= s[i] <= '9'
  {
    if s == [] then 0 else 10 * DecimalValue(s[..|s| - 1]) + (s[|s| - 1] as int - '0' as int)
  }

  lemma {:induction false} DecimalRoundTrip(n: nat)
    ensures DecimalValue(DecimalString(n)) == n
    decreases n
  {
    if n >= 10 {
      var s := DecimalString(n);
      DecimalRoundTrip(n / 10);
      assert s[..|s| - 1] == DecimalString(n / 10);
    }
  }

  /** `hexToRgb(hex)`: the "r,g,b" text of a hexadecimal colour, or the neutral grey. */
  function HexToRgb(hex: string): string
  {
    match MatchHexColor(hex)
    case None => FALLBACK_RGB
    case Some(m) =>
      DecimalString(ParseHexPair(m[0])) + "," + DecimalString(ParseHexPair(m[1])) + "," + DecimalString(ParseHexPair(m[2]))
  }

  /** An optional `#` followed by exactly six hexadecimal digits of either case. */
  ghost predicate IsHexColor(s: string)
  {
    (|s| == 6 && AllHex(s)) || (|s| == 7 && s[0] == '#' && AllHex(s[1..]))
  }

  /** Channel `k` (0 red, 1 green, 2 blue) of a hexadecimal colour: its `k`-th digit pair read in base 16. */
  ghost function Channel(s: string, k: nat): nat
    requires IsHexColor(s) && k < 3
  {
    var d := if |s| == 7 then s[1..] else s;
    16 * HexDigitValue(d[2 * k]) + HexDigitValue(d[2 * k + 1])
  }

  /** The colour expression matches exactly the well-formed colours, and its groups read as their channels. */
  lemma MatchHexColorSpec(hex: string)
    ensures MatchHexColor(hex).Some? <==> IsHexColor(hex)
    ensures MatchHexColor(hex).Some? ==>
              forall k :: 0 <= k < 3 ==> ParseHexPair(MatchHexColor(hex).value[k]) == Channel(hex, k) <= 255
  {
    var d := if |hex| == 7 && hex[0] == '#' then hex[1..] else hex;
    if IsHexColor(hex) {
      assert |d| == 6 && AllHex(d);
      var m := [d[0..2], d[2..4], d[4..6]];
      assert MatchHexColor(hex) == Some(m);
      forall k | 0 <= k < 3
        ensures ParseHexPair(m[k]) == Channel(hex, k) <= 255
      {
        assert m[k][0] == d[2 * k] && m[k][1] == d[2 * k + 1];
      }
    }
  }

  /** How a consumer of the triplet reads it: three comma-separated decimal numbers. */
  function ParseRgb(t: string): Option<(nat, nat, nat)>
  {
    var parts := Split(t, ',');
    if |parts| == 3 && IsDecimal(parts[0]) && IsDecimal(parts[1]) && IsDecimal(parts[2]) then
      Some((DecimalValue(parts[0]), DecimalValue(parts[1]), DecimalValue(parts[2])))
    else
      None
  }

  /** What `hexToRgb` returns for well-formed and malformed colours. */
  lemma HexToRgbSpec(hex: string)
    ensures IsHexColor(hex) ==>
              Channel(hex, 0) <= 255 && Channel(hex, 1) <= 255 && Channel(hex, 2) <= 255 &&
              HexToRgb(hex) == DecimalString(Channel(hex, 0)) + "," + DecimalString(Channel(hex, 1)) + "," +
                               DecimalString(Channel(hex, 2))
    ensures !IsHexColor(hex) ==> HexToRgb(hex) == "100,100,100"
  {
    MatchHexColorSpec(hex);
  }

  /** Three numbers written with commas between them read back as those numbers. */
  lemma ParseTriplet(a: nat, b: nat, c: nat)
    ensures ParseRgb(DecimalString(a) + "," + DecimalString(b) + "," + DecimalString(c)) == Some((a, b, c))
  {
    var parts := [DecimalString(a), DecimalString(b), DecimalString(c)];
    assert parts[1..] == [DecimalString(b), DecimalString(c)];
    assert parts[1..][1..] == [DecimalString(c)];
    assert Join(parts[1..][1..], ',') == DecimalString(c);
    assert Join(parts[1..], ',') == DecimalString(b) + [','] + DecimalString(c);
    assert Join(parts, ',') == DecimalString(a) + [','] + (DecimalString(b) + [','] + DecimalString(c));
    assert Join(parts, ',') == DecimalString(a) + "," + DecimalString(b) + "," + DecimalString(c);
    SplitJoin(parts, ',');
    DecimalRoundTrip(a);
    DecimalRoundTrip(b);
    DecimalRoundTrip(c);
  }

  /** The triplet reads back as the three channels of a well-formed colour, and as 100,100,100 otherwise. */
  lemma HexToRgbRoundTrip(hex: string)
    ensures ParseRgb(HexToRgb(hex)) ==
              if IsHexColor(hex) then Some((Channel(hex, 0), Channel(hex, 1), Channel(hex, 2)))
              else Some((100, 100, 100))
  {
    HexToRgbSpec(hex);
    if IsHexColor(hex) {
      ParseTriplet(Channel(hex, 0), Channel(hex, 1), Channel(hex, 2));
    } else {
      assert DecimalString(100) == "100" by {
        assert DecimalString(10) == "10";
      }
      assert DecimalString(100) + "," + DecimalString(100) + "," + DecimalString(100) == "100,100,100";
      ParseTriplet(100, 100, 100);
    }
  }

  // ------------------------------------------------------------------
  // esc
  // ------------------------------------------------------------------

  /** `s.replace(/c/g, t)`: every occurrence of `c` replaced by `t`. */
  function ReplaceAll(s: string, c: char, t: string): string
  {
    if s == [] then [] else (if s[0] == c then t else [s[0]]) + ReplaceAll(s[1..], c, t)
  }

  lemma {:induction false} ReplaceAllAppend(a: string, b: string, c: char, t: string)
    ensures ReplaceAll(a + b, c, t) == ReplaceAll(a, c, t) + ReplaceAll(b, c, t)
  {
    if a == [] {
      assert a + b == b;
    } else {
      var ab := a + b;
      assert ab[0] == a[0] && ab[1..] == a[1..] + b;
      ReplaceAllAppend(a[1..], b, c, t);
      var h := if a[0] == c then t else [a[0]];
      assert ReplaceAll(ab, c, t) == h + ReplaceAll(ab[1..], c, t);
      assert ReplaceAll(a, c, t) == h + ReplaceAll(a[1..], c, t);
    }
  }

  lemma {:induction false} ReplaceAllAbsent(s: string, c: char, t: string)
    requires c !in s
    ensures ReplaceAll(s, c, t) == s
  {
    if s != [] {
      ReplaceAllAbsent(s[1..], c, t);
    }
  }

  /** The five chained replacements of `esc`, in the order the source applies them. */
  function EscapeText(s: string): string
  {
    ReplaceAll(ReplaceAll(ReplaceAll(ReplaceAll(ReplaceAll(
      s, '&', "&amp;"), '<', "&lt;"), '>', "&gt;"), '"', "&quot;"), '\'', "&#x27;")
  }

  /** `esc(v)`: a value that is not a string escapes to the empty string. */
  function Esc(v: Option<string>): string
  {
    match v
    case None => ""
    case Some(s) => EscapeText(s)
  }

  /** The entity that stands for one character in escaped text. */
  function EscapeChar(c: char): string
  {
    if c == '&' then "&amp;"
    else if c == '<' then "&lt;"
    else if c == '>' then "&gt;"
    else if c == '"' then "&quot;"
    else if c == '\'' then "&#x27;"
    else [c]
  }

  /** Escaping character by character: each character replaced by its entity. */
  function EscapeChars(s: string): string
  {
    if s == [] then [] else EscapeChar(s[0]) + EscapeChars(s[1..])
  }

  lemma ReplaceAllOne(x: char, c: char, t: string)
    ensures ReplaceAll([x], c, t) == if x == c then t else [x]
  {
    assert [x][1..] == [];
  }

  lemma EscapeAmp()
    ensures EscapeText("&") == "&amp;"
  {
    assert ReplaceAll("&", '&', "&amp;") == "&amp;";
    assert ReplaceAll("&amp;", '<', "&lt;") == "&amp;";
    assert ReplaceAll("&amp;", '>', "&gt;") == "&amp;";
    assert ReplaceAll("&amp;", '"', "&quot;") == "&amp;";
    assert ReplaceAll("&amp;", '\'', "&#x27;") == "&amp;";
  }

  lemma EscapeLt()
    ensures EscapeText("<") == "&lt;"
  {
    assert ReplaceAll("<", '&', "&amp;") == "<";
    assert ReplaceAll("<", '<', "&lt;") == "&lt;";
    assert ReplaceAll("&lt;", '>', "&gt;") == "&lt;";
    assert ReplaceAll("&lt;", '"', "&quot;") == "&lt;";
    assert ReplaceAll("&lt;", '\'', "&#x27;") == "&lt;";
  }

  lemma EscapeGt()
    ensures EscapeText(">") == "&gt;"
  {
    assert ReplaceAll(">", '&', "&amp;") == ">";
    assert ReplaceAll(">", '<', "&lt;") == ">";
    assert ReplaceAll(">", '>', "&gt;") == "&gt;";
    assert ReplaceAll("&gt;", '"', "&quot;") == "&gt;";
    assert ReplaceAll("&gt;", '\'', "&#x27;") == "&gt;";
  }

  lemma EscapeQuot()
    ensures EscapeText("\"") == "&quot;"
  {
    assert ReplaceAll("\"", '&', "&amp;") == "\"";
    assert ReplaceAll("\"", '<', "&lt;") == "\"";
    assert ReplaceAll("\"", '>', "&gt;") == "\"";
    assert ReplaceAll("\"", '"', "&quot;") == "&quot;";
    assert ReplaceAll("&quot;", '\'', "&#x27;") == "&quot;";
  }

  lemma EscapeApos()
    ensures EscapeText("'") == "&#x27;"
  {
    assert ReplaceAll("'", '&', "&amp;") == "'";
    assert ReplaceAll("'", '<', "&lt;") == "'";
    assert ReplaceAll("'", '>', "&gt;") == "'";
    assert ReplaceAll("'", '"', "&quot;") == "'";
    assert ReplaceAll("'", '\'', "&#x27;") == "&#x27;";
  }

  lemma EscapePlain(x: char)
    requires x !in "&<>\"'"
    ensures EscapeText([x]) == [x]
  {
    ReplaceAllOne(x, '&', "&amp;");
    ReplaceAllOne(x, '<', "&lt;");
    ReplaceAllOne(x, '>', "&gt;");
    ReplaceAllOne(x, '"', "&quot;");
    ReplaceAllOne(x, '\'', "&#x27;");
  }

  lemma EscapeTextOne(x: char)
    ensures EscapeText([x]) == EscapeChar(x)
  {
    if x == '&' {
      EscapeAmp();
    } else if x == '<' {
      EscapeLt();
    } else if x == '>' {
      EscapeGt();
    } else if x == '"' {
      EscapeQuot();
    } else if x == '\'' {
      EscapeApos();
    } else {
      EscapePlain(x);
    }
  }

  lemma EscapeTextAppend(a: string, b: string)
    ensures EscapeText(a + b) == EscapeText(a) + EscapeText(b)
  {
    ReplaceAllAppend(a, b, '&', "&amp;");
    var a1, b1 := ReplaceAll(a, '&', "&amp;"), ReplaceAll(b, '&', "&amp;");
    ReplaceAllAppend(a1, b1, '<', "&lt;");
    var a2, b2 := ReplaceAll(a1, '<', "&lt;"), ReplaceAll(b1, '<', "&lt;");
    ReplaceAllAppend(a2, b2, '>', "&gt;");
    var a3, b3 := ReplaceAll(a2, '>', "&gt;"), ReplaceAll(b2, '>', "&gt;");
    ReplaceAllAppend(a3, b3, '"', "&quot;");
    var a4, b4 := ReplaceAll(a3, '"', "&quot;"), ReplaceAll(b3, '"', "&quot;");
    ReplaceAllAppend(a4, b4, '\'', "&#x27;");
  }

  /** The chain of replacements is the character-by-character escaping: the `&` pass
      runs first, so no entity written by a later pass is escaped again. */
  lemma {:induction false} EscapeTextIsCharMap(s: string)
    ensures EscapeText(s) == EscapeChars(s)
  {
    if s == [] {
      assert EscapeText(s) == [];
    } else {
      assert s == [s[0]] + s[1..];
      EscapeTextAppend([s[0]], s[1..]);
      EscapeTextOne(s[0]);
      EscapeTextIsCharMap(s[1..]);
    }
  }

  /** `r` holds no raw `<`, `>`, `"` or `'`: the reserved characters other than `&`. */
  predicate NoMarkup(r: string)
  {
    '<' !in r && '>' !in r && '"' !in r && '\'' !in r
  }

  lemma EscapeCharNoMarkup(c: char)
    ensures NoMarkup(EscapeChar(c))
  {
  }

  lemma {:induction false} EscapeCharsNoMarkup(s: string)
    ensures NoMarkup(EscapeChars(s))
  {
    if s != [] {
      EscapeCharsNoMarkup(s[1..]);
      EscapeCharNoMarkup(s[0]);
      var e, r := EscapeChar(s[0]), EscapeChars(s[1..]);
      assert EscapeChars(s) == e + r;
      forall x | x in e + r
        ensures x in e || x in r
      {
        var i :| 0 <= i < |e + r| && (e + r)[i] == x;
        if i >= |e| {
          assert r[i - |e|] == x;
        }
      }
    }
  }

  /**
   * `esc` replaces `&`, `<`, `>`, `"` and `'` by their entities and copies
   * every other character in order, so its output holds none of `<`, `>`, `"`, `'`.
   */
  lemma EscSpec(v: Option<string>)
    ensures v.None? ==> Esc(v) == ""
    ensures v.Some? ==> Esc(v) == EscapeChars(v.value)
    ensures NoMarkup(Esc(v))
  {
    if v.Some? {
      EscapeTextIsCharMap(v.value);
      EscapeCharsNoMarkup(v.value);
    }
  }

  /** `s` holds none of the five characters `esc` replaces. */
  predicate NoReserved(s: string)
  {
    '&' !in s && '<' !in s && '>' !in s && '"' !in s && '\'' !in s
  }

  /** Text without any of the five reserved characters is left as it is. */
  lemma EscapeTextPlain(s: string)
    requires NoReserved(s)
    ensures EscapeText(s) == s
  {
    ReplaceAllAbsent(s, '&', "&amp;");
    ReplaceAllAbsent(s, '<', "&lt;");
    ReplaceAllAbsent(s, '>', "&gt;");
    ReplaceAllAbsent(s, '"', "&quot;");
    ReplaceAllAbsent(s, '\'', "&#x27;");
  }

  /** Decoding of the five entities `esc` writes, left to right. */
  function Unescape(t: string): string
    decreases |t|
  {
    if t == [] then []
    else if "&amp;" <= t then "&" + Unescape(t[5..])
    else if "&lt;" <= t then "<" + Unescape(t[4..])
    else if "&gt;" <= t then ">" + Unescape(t[4..])
    else if "&quot;" <= t then "\"" + Unescape(t[6..])
    else if "&#x27;" <= t then "'" + Unescape(t[6..])
    else [t[0]] + Unescape(t[1..])
  }

  lemma UnescapeChar(c: char, rest: string)
    ensures Unescape(EscapeChar(c) + rest) == [c] + Unescape(rest)
  {
    var t := EscapeChar(c) + rest;
    if c == '&' {
      assert "&amp;" <= t && t[5..] == rest;
    } else if c == '<' {
      PrefixDiffers("&amp;", t, 1);
      assert "&lt;" <= t && t[4..] == rest;
    } else if c == '>' {
      PrefixDiffers("&amp;", t, 1);
      PrefixDiffers("&lt;", t, 1);
      assert "&gt;" <= t && t[4..] == rest;
    } else if c == '"' {
      PrefixDiffers("&amp;", t, 1);
      PrefixDiffers("&lt;", t, 1);
      PrefixDiffers("&gt;", t, 1);
      assert "&quot;" <= t && t[6..] == rest;
    } else if c == '\'' {
      PrefixDiffers("&amp;", t, 1);
      PrefixDiffers("&lt;", t, 1);
      PrefixDiffers("&gt;", t, 1);
      PrefixDiffers("&quot;", t, 1);
      assert "&#x27;" <= t && t[6..] == rest;
    } else {
      PrefixDiffers("&amp;", t, 0);
      PrefixDiffers("&lt;", t, 0);
      PrefixDiffers("&gt;", t, 0);
      PrefixDiffers("&quot;", t, 0);
      PrefixDiffers("&#x27;", t, 0);
      assert t[0] == c && t[1..] == rest;
    }
  }

  /** Escaping loses nothing: decoding the entities gives the text back. */
  lemma {:induction false} EscRoundTrip(s: string)
    ensures Unescape(Esc(Some(s))) == s
  {
    EscapeTextIsCharMap(s);
    UnescapeEscapeChars(s);
  }

  lemma {:induction false} UnescapeEscapeChars(s: string)
    ensures Unescape(EscapeChars(s)) == s
  {
    if s != [] {
      UnescapeChar(s[0], EscapeChars(s[1..]));
      UnescapeEscapeChars(s[1..]);
    }
  }

  // ------------------------------------------------------------------
  // highlight
  // ------------------------------------------------------------------

  /** The query, taken literally, occurs case-insensitively in `t` at offset `k`. */
  predicate MatchAt(t: string, q: string, k: nat)
  {
    k + |q| <= |t| && Lower(t[k..k + |q|]) == Lower(q)
  }

  /**
   * `parts` is how `t.split(/(q)/gi)` cuts `t` when `q` is taken literally:
   * a non-match piece in which no occurrence of `q` starts, then, if the text
   * goes on, the occurrence found at its end followed by the split of the rest.
   * So the pieces alternate non-match, match, ..., non-match.
   */
  ghost predicate IsLeftmostSplit(t: string, q: string, parts: seq<string>)
    decreases |parts|
  {
    |parts| >= 1 && |parts[0]| <= |t| && parts[0] == t[..|parts[0]|] &&
    (forall j :: 0 <= j < |parts[0]| ==> !MatchAt(t, q, j)) &&
    if |parts| == 1 then
      parts[0] == t
    else
      var k := |parts[0]|;
      MatchAt(t, q, k) && parts[1] == t[k..k + |q|] && IsLeftmostSplit(t[k + |q|..], q, parts[2..])
  }

  /**
   * The split's scan: `t` is the text from the end of the last occurrence,
   * `k` the offset at which the next occurrence is tried.
   */
  function Scan(t: string, q: string, k: nat): (parts: seq<string>)
    requires |q| > 0 && k <= |t|
    requires forall j :: 0 <= j < k ==> !MatchAt(t, q, j)
    ensures IsLeftmostSplit(t, q, parts)
    decreases |t| - k
  {
    if k == |t| then
      [t]
    else if MatchAt(t, q, k) then
      [t[..k], t[k..k + |q|]] + Scan(t[k + |q|..], q, 0)
    else
      Scan(t, q, k + 1)
  }

  /** `text.split(new RegExp('(' + safeQ + ')', 'gi'))` for a non-empty query. */
  function SplitOnQuery(text: string, q: string): (parts: seq<string>)
    requires |q| > 0
    ensures IsLeftmostSplit(text, q, parts)
  {
    Scan(text, q, 0)
  }

  /** The pieces of a leftmost split concatenate back to the text, odd in number, every odd piece an occurrence. */
  lemma {:induction false} LeftmostSplitPieces(t: string, q: string, parts: seq<string>)
    requires IsLeftmostSplit(t, q, parts)
    ensures Concat(parts) == t
    ensures |parts| % 2 == 1
    ensures forall i :: 0 <= i < |parts| && i % 2 == 1 ==> |parts[i]| == |q| && Lower(parts[i]) == Lower(q)
    decreases |parts|
  {
    if |parts| > 1 {
      var k := |parts[0]|;
      LeftmostSplitPieces(t[k + |q|..], q, parts[2..]);
      assert parts == [parts[0], parts[1]] + parts[2..];
      assert Concat(parts) == parts[0] + (parts[1] + Concat(parts[2..]));
      assert t == t[..k] + t[k..k + |q|] + t[k + |q|..];
      forall i | 0 <= i < |parts| && i % 2 == 1
        ensures |parts[i]| == |q| && Lower(parts[i]) == Lower(q)
      {
        if i > 1 {
          assert parts[i] == parts[2..][i - 2];
        }
      }
    }
  }

  /** There is only one leftmost split of a text. */
  lemma {:induction false} LeftmostSplitUnique(t: string, q: string, a: seq<string>, b: seq<string>)
    requires |q| > 0
    requires IsLeftmostSplit(t, q, a) && IsLeftmostSplit(t, q, b)
    ensures a == b
    decreases |a|
  {
    var ka, kb := |a[0]|, |b[0]|;
    if ka < kb {
      assert false;
    } else if kb < ka {
      assert false;
    }
    assert a[0] == b[0];
    if |a| == 1 || |b| == 1 {
      assert |a| == 1 && |b| == 1;
    } else {
      LeftmostSplitUnique(t[ka + |q|..], q, a[2..], b[2..]);
      assert a == [a[0], a[1]] + a[2..];
      assert b == [b[0], b[1]] + b[2..];
    }
  }

  function Mark(s: string): string
  {
    "<mark>" + s + "</mark>"
  }

  /** `parts.map((p, i) => i % 2 === 1 ? `<mark>${esc(p)}</mark>` : esc(p)).join('')`, from index `i` on. */
  function RenderParts(parts: seq<string>, i: nat): string
  {
    if parts == [] then []
    else (if i % 2 == 1 then Mark(EscapeText(parts[0])) else EscapeText(parts[0])) + RenderParts(parts[1..], i + 1)
  }

  /** `highlight(text, query)`; an absent or empty text, or an empty query, is only escaped. */
  function Highlight(text: Option<string>, query: string): string
  {
    if text.None? || text.value == [] || query == [] then Esc(text)
    else RenderParts(SplitOnQuery(text.value, query), 0)
  }

  /** Text with every `<mark>` and `</mark>` tag deleted. */
  function StripMarks(t: string): string
    decreases |t|
  {
    if t == [] then []
    else if "<mark>" <= t then StripMarks(t[6..])
    else if "</mark>" <= t then StripMarks(t[7..])
    else [t[0]] + StripMarks(t[1..])
  }

  lemma {:induction false} StripMarksPlain(x: string, rest: string)
    requires '<' !in x
    ensures StripMarks(x + rest) == x + StripMarks(rest)
  {
    if x == [] {
      assert x + rest == rest;
    } else {
      var t := x + rest;
      assert t[0] == x[0] && t[1..] == x[1..] + rest;
      PrefixDiffers("<mark>", t, 0);
      PrefixDiffers("</mark>", t, 0);
      StripMarksPlain(x[1..], rest);
    }
  }

  lemma StripMarksMarked(x: string, rest: string)
    requires '<' !in x
    ensures StripMarks(Mark(x) + rest) == x + StripMarks(rest)
  {
    var t := Mark(x) + rest;
    assert "<mark>" <= t && t[6..] == x + ("</mark>" + rest);
    StripMarksPlain(x, "</mark>" + rest);
    var u := "</mark>" + rest;
    PrefixDiffers("<mark>", u, 1);
    assert "</mark>" <= u && u[7..] == rest;
  }

  lemma NoLtInEscapeText(s: string)
    ensures '<' !in EscapeText(s)
  {
    EscSpec(Some(s));
  }

  lemma {:induction false} StripRenderParts(parts: seq<string>, i: nat)
    ensures StripMarks(RenderParts(parts, i)) == EscapeText(Concat(parts))
  {
    if parts == [] {
      assert EscapeText([]) == [];
    } else {
      var e := EscapeText(parts[0]);
      NoLtInEscapeText(parts[0]);
      StripRenderParts(parts[1..], i + 1);
      if i % 2 == 1 {
        StripMarksMarked(e, RenderParts(parts[1..], i + 1));
      } else {
        StripMarksPlain(e, RenderParts(parts[1..], i + 1));
      }
      EscapeTextAppend(parts[0], Concat(parts[1..]));
    }
  }

  /** Deleting the mark tags from highlighted text gives exactly the escaped text. */
  lemma HighlightStripMarks(text: Option<string>, query: string)
    ensures StripMarks(Highlight(text, query)) == Esc(text)
  {
    if text.None? || text.value == [] || query == [] {
      EscSpec(text);
      StripMarksPlain(Esc(text), []);
      assert Esc(text) + [] == Esc(text);
    } else {
      var parts := SplitOnQuery(text.value, query);
      StripRenderParts(parts, 0);
      LeftmostSplitPieces(text.value, query, parts);
    }
  }

}
