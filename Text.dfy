/**
 * String operations of Python that the converters rely on: "".join and sep.join,
 * str.split with a separator, str.replace of one character, str.strip,
 * str.lower, str.endswith, xml.sax.saxutils.escape and decimal numerals.
 */
module Text {
  import opened Wrappers

  /** `"".join(parts)`. */
  function Concat(parts: seq<string>): string
  {
    if |parts| == 0 then "" else Concat(parts[..|parts| - 1]) + parts[|parts| - 1]
  }

  lemma ConcatSnoc(parts: seq<string>, x: string)
    ensures Concat(parts + [x]) == Concat(parts) + x
  {
    assert (parts + [x])[..|parts|] == parts;
  }

  /** Text grown by one more part after a fixed prefix. */
  lemma ConcatSnocAfter(prefix: string, parts: seq<string>, x: string)
    ensures prefix + Concat(parts) + x == prefix + Concat(parts + [x])
  {
    ConcatSnoc(parts, x);
  }

  /** `sep.join(parts)` for a one-character separator. */
  function Join(parts: seq<string>, sep: char): string
  {
    if |parts| == 0 then ""
    else if |parts| == 1 then parts[0]
    else parts[0] + [sep] + Join(parts[1..], sep)
  }

  /** The first position of `c` in `s`, if any (`str.find`). */
  function IndexOf(s: string, c: char): (r: Option<nat>)
    ensures r.Some? ==> r.value < |s| && s[r.value] == c && c !in s[..r.value]
    ensures r.None? ==> c !in s
  {
    if |s| == 0 then None
    else if s[0] == c then Some(0)
    else match IndexOf(s[1..], c)
      case None => None
      case Some(k) =>
        assert s[..k + 1] == [s[0]] + s[1..][..k];
        Some(k + 1)
  }

  /** The last position of `c` in `s`, if any (`str.rfind`). */
  function LastIndexOf(s: string, c: char): (r: Option<nat>)
    ensures r.Some? ==> r.value < |s| && s[r.value] == c && c !in s[r.value + 1..]
    ensures r.None? ==> c !in s
  {
    if |s| == 0 then None
    else if s[|s| - 1] == c then Some(|s| - 1)
    else
      var r := LastIndexOf(s[..|s| - 1], c);
      assert s == s[..|s| - 1] + [s[|s| - 1]];
      if r.Some? then
        assert s[r.value + 1..] == s[..|s| - 1][r.value + 1..] + [s[|s| - 1]];
        r
      else r
  }

  /** `s.split(sep)`: the pieces between the separators; `"".split(sep)` is `[""]`. */
  function Split(s: string, sep: char): (r: seq<string>)
    ensures |r| > 0
    decreases |s|
  {
    match IndexOf(s, sep)
    case None => [s]
    case Some(k) => [s[..k]] + Split(s[k + 1..], sep)
  }

  lemma IndexOfAfter(a: string, c: char, b: string)
    requires c !in a
    ensures IndexOf(a + [c] + b, c) == Some(|a|)
  {
    var s := a + [c] + b;
    assert s[|a|] == c;
    assert s[..|a|] == a;
    assert forall k :: 0 <= k < |a| ==> s[k] == a[k];
    assert forall k :: |a| < k <= |s| ==> s[..k][|a|] == c;
  }

  /** Splitting the joined pieces gives the pieces back, when none of them holds the separator. */
  lemma {:induction false} SplitJoin(parts: seq<string>, sep: char)
    requires |parts| > 0
    requires forall k :: 0 <= k < |parts| ==> sep !in parts[k]
    ensures Split(Join(parts, sep), sep) == parts
    decreases |parts|
  {
    if |parts| > 1 {
      var a, b := parts[0], Join(parts[1..], sep);
      var s := a + [sep] + b;
      IndexOfAfter(a, sep, b);
      assert s[..|a|] == a;
      assert s[|a| + 1..] == b;
      SplitJoin(parts[1..], sep);
      assert parts == [a] + parts[1..];
    }
  }

  /** `s.replace(c, t)` for a single character `c`. */
  function ReplaceChar(s: string, c: char, t: string): (r: string)
    ensures |t| == 1 ==> |r| == |s|
    ensures |t| == 1 ==> forall k :: 0 <= k < |s| ==> r[k] == (if s[k] == c then t[0] else s[k])
  {
    if |s| == 0 then "" else (if s[0] == c then t else [s[0]]) + ReplaceChar(s[1..], c, t)
  }

  lemma {:induction false} ReplaceCharConcat(a: string, b: string, c: char, t: string)
    ensures ReplaceChar(a + b, c, t) == ReplaceChar(a, c, t) + ReplaceChar(b, c, t)
    decreases |a|
  {
    if |a| == 0 {
      assert a + b == b;
    } else {
      assert (a + b)[0] == a[0];
      assert (a + b)[1..] == a[1..] + b;
      ReplaceCharConcat(a[1..], b, c, t);
    }
  }

  lemma {:induction false} ReplaceCharAbsent(s: string, c: char, t: string)
    requires c !in s
    ensures ReplaceChar(s, c, t) == s
    decreases |s|
  {
    if |s| > 0 {
      assert s[1..] == s[1..];
      assert c !in s[1..] by {
        forall k | 0 <= k < |s| - 1 ensures s[1..][k] != c { assert s[1..][k] == s[k + 1]; }
      }
      ReplaceCharAbsent(s[1..], c, t);
      assert s == [s[0]] + s[1..];
    }
  }

  /**
   * `xml.sax.saxutils.escape(s)` with no extra entities: `&` is replaced first,
   * then `>`, then `<`.
   */
  function Escape(s: string): string
  {
    ReplaceChar(ReplaceChar(ReplaceChar(s, '&', "&amp;"), '>', "&gt;"), '<', "&lt;")
  }

  /** The entity one character turns into. */
  function EscapeChar(c: char): string
  {
    if c == '&' then "&amp;" else if c == '<' then "&lt;" else if c == '>' then "&gt;" else [c]
  }

  /** Escaping character by character: the reference form of `Escape`. */
  function EscapeEach(s: string): string
  {
    if |s| == 0 then "" else EscapeChar(s[0]) + EscapeEach(s[1..])
  }

  lemma EscapeConcat(a: string, b: string)
    ensures Escape(a + b) == Escape(a) + Escape(b)
  {
    ReplaceCharConcat(a, b, '&', "&amp;");
    ReplaceCharConcat(ReplaceChar(a, '&', "&amp;"), ReplaceChar(b, '&', "&amp;"), '>', "&gt;");
    ReplaceCharConcat(ReplaceChar(ReplaceChar(a, '&', "&amp;"), '>', "&gt;"),
                      ReplaceChar(ReplaceChar(b, '&', "&amp;"), '>', "&gt;"), '<', "&lt;");
  }

  lemma EscapeOne(c: char)
    ensures Escape([c]) == EscapeChar(c)
  {
    var amp, lt, gt := "&amp;", "&lt;", "&gt;";
    ReplaceCharSingle(c, '&', amp);
    if c == '&' {
      assert '<' !in amp && '>' !in amp;
      ReplaceCharAbsent(amp, '>', gt);
      ReplaceCharAbsent(amp, '<', lt);
    } else {
      ReplaceCharSingle(c, '>', gt);
      if c == '>' {
        assert '<' !in gt;
        ReplaceCharAbsent(gt, '<', lt);
      } else {
        ReplaceCharSingle(c, '<', lt);
      }
    }
  }

  lemma ReplaceCharSingle(c: char, x: char, t: string)
    ensures ReplaceChar([c], x, t) == if c == x then t else [c]
  {
    assert [c][1..] == "";
  }

  /** The three successive replacements escape each character independently. */
  lemma {:induction false} EscapeIsPerCharacter(s: string)
    ensures Escape(s) == EscapeEach(s)
    decreases |s|
  {
    if |s| == 0 {
    } else {
      assert s == [s[0]] + s[1..];
      EscapeConcat([s[0]], s[1..]);
      EscapeOne(s[0]);
      EscapeIsPerCharacter(s[1..]);
    }
  }

  /** Escaped text holds no angle brackets, so it cannot open or close a markup tag. */
  lemma {:induction false} EscapedHasNoTags(s: string)
    ensures '<' !in Escape(s) && '>' !in Escape(s)
  {
    EscapeIsPerCharacter(s);
    EscapeEachHasNoTags(s);
  }

  lemma {:induction false} EscapeEachHasNoTags(s: string)
    ensures '<' !in EscapeEach(s) && '>' !in EscapeEach(s)
    decreases |s|
  {
    if |s| > 0 {
      EscapeEachHasNoTags(s[1..]);
      var h := EscapeChar(s[0]);
      assert '<' !in h && '>' !in h;
      assert EscapeEach(s) == h + EscapeEach(s[1..]);
    }
  }

  /** Decoding of the three entities `Escape` produces: the inverse of `Escape`. */
  function Unescape(s: string): string
    decreases |s|
  {
    if |s| == 0 then ""
    else if |s| >= 5 && s[..5] == "&amp;" then "&" + Unescape(s[5..])
    else if |s| >= 4 && s[..4] == "&lt;" then "<" + Unescape(s[4..])
    else if |s| >= 4 && s[..4] == "&gt;" then ">" + Unescape(s[4..])
    else [s[0]] + Unescape(s[1..])
  }

  lemma {:induction false} UnescapeEach(s: string)
    ensures Unescape(EscapeEach(s)) == s
    decreases |s|
  {
    if |s| > 0 {
      var c := s[0];
      assert EscapeEach(s) == EscapeChar(c) + EscapeEach(s[1..]);
      UnescapeStep(c, EscapeEach(s[1..]));
      UnescapeEach(s[1..]);
      assert s == [c] + s[1..];
    }
  }

  /** Decoding one escaped character in front of any text gives the character back. */
  lemma UnescapeStep(c: char, rest: string)
    ensures Unescape(EscapeChar(c) + rest) == [c] + Unescape(rest)
  {
    if c == '&' {
      UnescapeEntity("&amp;", rest);
    } else if c == '<' {
      UnescapeEntity("&lt;", rest);
    } else if c == '>' {
      UnescapeEntity("&gt;", rest);
    } else {
      UnescapePlain(c, rest);
    }
  }

  lemma UnescapeEntity(entity: string, rest: string)
    requires entity == "&amp;" || entity == "&lt;" || entity == "&gt;"
    ensures Unescape(entity + rest) == Unescape(entity) + Unescape(rest)
  {
    var e := entity + rest;
    assert e[..|entity|] == entity && e[|entity|..] == rest;
    assert e[1] == entity[1];
  }

  lemma UnescapePlain(c: char, rest: string)
    requires c != '&'
    ensures Unescape([c] + rest) == [c] + Unescape(rest)
  {
    var e := [c] + rest;
    assert e[0] == c && e[1..] == rest;
  }

  /** Escaping loses nothing: the original text can be recovered. */
  lemma {:induction false} UnescapeEscape(s: string)
    ensures Unescape(Escape(s)) == s
  {
    EscapeIsPerCharacter(s);
    UnescapeEach(s);
  }

  /** The characters Python's `str.isspace` accepts, which `str.strip()` removes. */
  predicate IsPySpace(c: char)
  {
    var n := c as int;
    (9 <= n <= 13) || (28 <= n <= 32) || n == 0x85 || n == 0xA0 || n == 0x1680
    || (0x2000 <= n <= 0x200A) || n == 0x2028 || n == 0x2029 || n == 0x202F
    || n == 0x205F || n == 0x3000
  }

  /** The number of leading characters `drop` accepts. */
  function LeadingCount(s: string, drop: char -> bool): (k: nat)
    ensures k <= |s|
    ensures forall j :: 0 <= j < k ==> drop(s[j])
    ensures k < |s| ==> !drop(s[k])
  {
    if |s| > 0 && drop(s[0]) then 1 + LeadingCount(s[1..], drop) else 0
  }

  /** The number of trailing characters `drop` accepts. */
  function TrailingCount(s: string, drop: char -> bool): (k: nat)
    ensures k <= |s|
    ensures forall j :: |s| - k <= j < |s| ==> drop(s[j])
    ensures k < |s| ==> !drop(s[|s| - 1 - k])
  {
    if |s| > 0 && drop(s[|s| - 1]) then 1 + TrailingCount(s[..|s| - 1], drop) else 0
  }

  /**
   * `s.strip(chars)`: the longest run of `s` that neither begins nor ends with a
   * character `drop` accepts, found by cutting such characters from both ends.
   */
  function Strip(s: string, drop: char -> bool): (r: string)
    ensures LeadingCount(s, drop) + |r| <= |s|
    ensures r == s[LeadingCount(s, drop)..LeadingCount(s, drop) + |r|]
    ensures forall k :: 0 <= k < |s| && !(LeadingCount(s, drop) <= k < LeadingCount(s, drop) + |r|) ==> drop(s[k])
    ensures r != "" ==> !drop(r[0]) && !drop(r[|r| - 1])
  {
    var i := LeadingCount(s, drop);
    var k := TrailingCount(s[i..], drop);
    TrailingOfSuffix(s, i, drop);
    StripParts(s, drop, i, k);
    s[i..|s| - k]
  }

  /** The trailing run of a suffix `s[i..]`, in positions of `s`. */
  lemma TrailingOfSuffix(s: string, i: nat, drop: char -> bool)
    requires i <= |s|
    ensures TrailingCount(s[i..], drop) <= |s| - i
    ensures forall j :: |s| - TrailingCount(s[i..], drop) <= j < |s| ==> drop(s[j])
    ensures i + TrailingCount(s[i..], drop) < |s| ==> !drop(s[|s| - 1 - TrailingCount(s[i..], drop)])
  {
    var t := s[i..];
    var k := TrailingCount(t, drop);
    forall j | |s| - k <= j < |s|
      ensures drop(s[j])
    {
      assert t[j - i] == s[j];
    }
    if i + k < |s| {
      assert t[|t| - 1 - k] == s[|s| - 1 - k];
    }
  }

  /** Cutting a leading run of `i` and a trailing run of `k` dropped characters. */
  lemma StripParts(s: string, drop: char -> bool, i: nat, k: nat)
    requires i + k <= |s|
    requires forall j :: 0 <= j < i ==> drop(s[j])
    requires i < |s| ==> !drop(s[i])
    requires forall j :: |s| - k <= j < |s| ==> drop(s[j])
    requires i + k < |s| ==> !drop(s[|s| - 1 - k])
    ensures s[i..|s| - k] == s[i..i + |s[i..|s| - k]|]
    ensures forall j :: 0 <= j < |s| && !(i <= j < i + |s[i..|s| - k]|) ==> drop(s[j])
    ensures s[i..|s| - k] != "" ==> !drop(s[i..|s| - k][0]) && !drop(s[i..|s| - k][|s[i..|s| - k]| - 1])
  {
    var r := s[i..|s| - k];
    if r != "" {
      assert r[0] == s[i] && r[|r| - 1] == s[|s| - 1 - k];
    }
  }

  /** `s.strip()` with no argument. */
  function StripSpace(s: string): string
  {
    Strip(s, IsPySpace)
  }

  function LowerChar(c: char): char
  {
    if 'A' <= c <= 'Z' then (c as int + 32) as char else c
  }

  predicate IsUpper(c: char)
  {
    'A' <= c <= 'Z'
  }

  /** `c` is `e`, or `e` is a lower-case ASCII letter and `c` its capital. */
  predicate SameUpToCase(c: char, e: char)
  {
    c == e || ('a' <= e <= 'z' && c as int == e as int - 32)
  }

  /**
   * `s.lower()` for the ASCII letters: no capital is left, exactly the capitals change,
   * and each character is its own letter up to case.
   */
  function Lower(s: string): (r: string)
    ensures |r| == |s|
    ensures forall k :: 0 <= k < |r| ==> !IsUpper(r[k])
    ensures forall k :: 0 <= k < |s| ==> (r[k] != s[k] <==> IsUpper(s[k]))
    ensures forall k :: 0 <= k < |s| ==> SameUpToCase(s[k], r[k])
  {
    seq(|s|, k requires 0 <= k < |s| => LowerChar(s[k]))
  }

  /** `s.endswith(suffix)`. */
  predicate EndsWith(s: string, suffix: string)
  {
    |suffix| <= |s| && s[|s| - |suffix|..] == suffix
  }

  predicate IsDigit(c: char)
  {
    '0' <= c <= '9'
  }

  predicate IsDigits(s: string)
  {
    forall k :: 0 <= k < |s| ==> IsDigit(s[k])
  }

  function DigitChar(d: nat): (c: char)
    requires d < 10
    ensures IsDigit(c)
  {
    ('0' as int + d) as char
  }

  function Pow10(w: nat): (p: nat)
    ensures p >= 1
  {
    if w == 0 then 1 else 10 * Pow10(w - 1)
  }

  /** The last `w` decimal digits of `n`, zero-padded on the left. */
  function FixedDigits(n: nat, w: nat): (r: string)
    ensures |r| == w && IsDigits(r)
  {
    if w == 0 then "" else FixedDigits(n / 10, w - 1) + [DigitChar(n % 10)]
  }

  /** The number a string of decimal digits denotes. */
  function DigitsValue(ds: string): nat
    requires IsDigits(ds)
  {
    if |ds| == 0 then 0
    else DigitsValue(ds[..|ds| - 1]) * 10 + (ds[|ds| - 1] as int - '0' as int)
  }

  /** Reading a digit string and printing it back at the same width gives the same string. */
  lemma {:induction false} DigitsRoundTrip(ds: string)
    requires IsDigits(ds)
    ensures DigitsValue(ds) < Pow10(|ds|)
    ensures FixedDigits(DigitsValue(ds), |ds|) == ds
    decreases |ds|
  {
    if |ds| > 0 {
      var p := ds[..|ds| - 1];
      var d := ds[|ds| - 1] as int - '0' as int;
      DigitsRoundTrip(p);
      var v := DigitsValue(ds);
      assert v == DigitsValue(p) * 10 + d;
      assert v / 10 == DigitsValue(p) && v % 10 == d;
      assert DigitChar(d) == ds[|ds| - 1];
      assert ds == p + [ds[|ds| - 1]];
    }
  }

  /** The number of decimal digits Python prints for `n`. */
  function NumDigits(n: nat): (w: nat)
    ensures w >= 1
  {
    if n < 10 then 1 else 1 + NumDigits(n / 10)
  }

  lemma {:induction false} NumDigitsBound(n: nat, w: nat)
    requires w >= 1 && n < Pow10(w)
    ensures NumDigits(n) <= w
    decreases w
  {
    if n >= 10 {
      assert w >= 2;
      NumDigitsBound(n / 10, w - 1);
    }
  }

  /** `str(n)` for a natural number. */
  function NatText(n: nat): string
  {
    FixedDigits(n, NumDigits(n))
  }

  /** `str(n)` reads back as `n`, so different numbers print differently. */
  lemma {:induction false} NatTextValue(n: nat)
    ensures IsDigits(NatText(n)) && DigitsValue(NatText(n)) == n
    decreases n
  {
    var t := NatText(n);
    if n >= 10 {
      NatTextValue(n / 10);
      var p := NatText(n / 10);
      assert NumDigits(n) == NumDigits(n / 10) + 1;
      assert t == p + [DigitChar(n % 10)];
      assert t[..|t| - 1] == p;
      assert t[|t| - 1] as int - '0' as int == n % 10;
      assert DigitsValue(t) == DigitsValue(p) * 10 + n % 10;
    } else {
      assert t == FixedDigits(n / 10, 0) + [DigitChar(n % 10)];
      assert t[..|t| - 1] == "";
    }
  }

  /** `str(i)` for an integer. */
  function IntText(i: int): string
  {
    if i < 0 then "-" + NatText(-i) else NatText(i)
  }

  /** `n` printed with at least `w` digits, zero-padded on the left. */
  function Padded(n: nat, w: nat): (r: string)
    ensures |r| >= w && IsDigits(r)
  {
    FixedDigits(n, if NumDigits(n) > w then NumDigits(n) else w)
  }

  lemma PaddedFixed(n: nat, w: nat)
    requires w >= 1 && n < Pow10(w)
    ensures Padded(n, w) == FixedDigits(n, w)
  {
    NumDigitsBound(n, w);
  }
}
