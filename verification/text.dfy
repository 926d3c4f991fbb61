/** The JavaScript string and number primitives the application's validators and
    converters are built from: white space and `trim`, UTF-16 `length`, `split` on
    one character and `join`, ASCII `toLowerCase`, `includes`, `Number(text)`,
    `String(number)` and `padStart(2, '0')`. */
module Text {

  // ---------------------------------------------------------------------------
  // White space and trimming
  // ---------------------------------------------------------------------------

  /** The characters ECMAScript counts as WhiteSpace or LineTerminator: the ones
      `String.prototype.trim` strips and the regular-expression class `\s` matches. */
  predicate IsWhitespace(c: char)
  {
    || c == ' ' || c == '\t' || c == '\n' || c == '\r' || c == '\U{000B}' || c == '\U{000C}'
    || c == '\U{00A0}' || c == '\U{1680}' || ('\U{2000}' <= c <= '\U{200A}')
    || c == '\U{2028}' || c == '\U{2029}' || c == '\U{202F}' || c == '\U{205F}'
    || c == '\U{3000}' || c == '\U{FEFF}'
  }

  /** Every character is white space (the empty string included). */
  predicate IsBlank(s: string)
  {
    forall i :: 0 <= i < |s| ==> IsWhitespace(s[i])
  }

  /** No character is white space. */
  predicate HasNoWhitespace(s: string)
  {
    forall i :: 0 <= i < |s| ==> !IsWhitespace(s[i])
  }

  /** Number of white-space characters `s` starts with. */
  function LeadingBlanks(s: string): (k: nat)
    ensures k <= |s| && IsBlank(s[..k])
    ensures k < |s| ==> !IsWhitespace(s[k])
  {
    if |s| > 0 && IsWhitespace(s[0]) then
      var k := LeadingBlanks(s[1..]);
      assert s[..k + 1] == [s[0]] + s[1..][..k];
      k + 1
    else 0
  }

  /** Number of white-space characters `s` ends with. */
  function TrailingBlanks(s: string): (k: nat)
    ensures k <= |s| && IsBlank(s[|s| - k..])
    ensures k < |s| ==> !IsWhitespace(s[|s| - 1 - k])
  {
    if |s| > 0 && IsWhitespace(s[|s| - 1]) then
      var p := s[..|s| - 1];
      var k := TrailingBlanks(p);
      assert IsBlank(s[|s| - (k + 1)..]) by {
        assert s[|s| - (k + 1)..] == p[|p| - k..] + [s[|s| - 1]];
      }
      assert k + 1 < |s| ==> s[|s| - 1 - (k + 1)] == p[|p| - 1 - k];
      k + 1
    else 0
  }

  /** JavaScript's `s.trim()`: `s` with its leading and trailing white space cut off. */
  function Trim(s: string): (r: string)
    ensures r == "" <==> IsBlank(s)
    ensures |r| > 0 ==> !IsWhitespace(r[0]) && !IsWhitespace(r[|r| - 1])
    ensures LeadingBlanks(s) + |r| <= |s| && r == s[LeadingBlanks(s)..LeadingBlanks(s) + |r|]
    ensures IsBlank(s[LeadingBlanks(s) + |r|..])
  {
    var i := LeadingBlanks(s);
    if i == |s| then
      assert s[..i] == s;
      ""
    else
      var k := TrailingBlanks(s);
      s[i..|s| - k]
  }

  /** Trimming is idempotent. */
  lemma TrimIdempotent(s: string)
    ensures Trim(Trim(s)) == Trim(s)
  {
    var t := Trim(s);
    TrimUnchangedWithoutEdges(t);
  }

  /** A string that neither starts nor ends with white space is its own trim. */
  lemma TrimUnchangedWithoutEdges(s: string)
    requires |s| > 0 ==> !IsWhitespace(s[0]) && !IsWhitespace(s[|s| - 1])
    ensures Trim(s) == s
  {
  }

  /** A string without white space is its own trim. */
  lemma TrimNoWhitespace(s: string)
    requires HasNoWhitespace(s)
    ensures Trim(s) == s
  {
    TrimUnchangedWithoutEdges(s);
  }

  // ---------------------------------------------------------------------------
  // Length, case, search
  // ---------------------------------------------------------------------------

  /** JavaScript's `s.length`: the number of UTF-16 code units, so a character
      outside the Basic Multilingual Plane counts twice. */
  function JsLength(s: string): (n: nat)
    ensures |s| <= n <= 2 * |s|
    ensures (forall i :: 0 <= i < |s| ==> s[i] as int <= 0xFFFF) ==> n == |s|
  {
    if |s| == 0 then 0
    else JsLength(s[..|s| - 1]) + (if s[|s| - 1] as int > 0xFFFF then 2 else 1)
  }

  /** ASCII lower-casing of one character. */
  function LowerChar(c: char): char
  {
    if 'A' <= c <= 'Z' then (c as int + 32) as char else c
  }

  /** `s.toLowerCase()` restricted to ASCII letters. */
  function ToLower(s: string): (r: string)
    ensures |r| == |s|
    ensures forall i :: 0 <= i < |s| ==> r[i] == LowerChar(s[i])
  {
    seq(|s|, i requires 0 <= i < |s| => LowerChar(s[i]))
  }

  /** `needle` occurs in `hay` starting at index `i`. */
  predicate OccursAt(hay: string, needle: string, i: int)
  {
    0 <= i && i + |needle| <= |hay| && hay[i..i + |needle|] == needle
  }

  /** `hay.includes(needle)`. */
  function Includes(hay: string, needle: string): (b: bool)
    ensures b <==> exists i :: OccursAt(hay, needle, i)
    decreases |hay|
  {
    if needle <= hay then
      assert OccursAt(hay, needle, 0);
      true
    else if |hay| == 0 then
      assert forall i :: !OccursAt(hay, needle, i);
      false
    else
      var b := Includes(hay[1..], needle);
      if b then
        var i :| OccursAt(hay[1..], needle, i);
        assert OccursAt(hay, needle, i + 1);
        true
      else
        assert forall i :: OccursAt(hay, needle, i) ==> OccursAt(hay[1..], needle, i - 1) by {
          forall i | OccursAt(hay, needle, i) ensures OccursAt(hay[1..], needle, i - 1) {
            assert i != 0;
          }
        }
        false
  }

  // ---------------------------------------------------------------------------
  // split / join
  // ---------------------------------------------------------------------------

  /** Number of occurrences of `c` in `s`. */
  function Occurrences(s: string, c: char): nat
  {
    if |s| == 0 then 0 else (if s[0] == c then 1 else 0) + Occurrences(s[1..], c)
  }

  lemma {:induction false} OccurrencesAppend(a: string, b: string, c: char)
    ensures Occurrences(a + b, c) == Occurrences(a, c) + Occurrences(b, c)
  {
    if |a| == 0 {
      assert a + b == b;
    } else {
      assert (a + b)[1..] == a[1..] + b;
      OccurrencesAppend(a[1..], b, c);
    }
  }

  /** `s.split(sep)` for a one-character separator: the maximal separator-free
      pieces between occurrences of `sep`, one more piece than there are separators. */
  function Split(s: string, sep: char): (parts: seq<string>)
    ensures |parts| == Occurrences(s, sep) + 1
    ensures forall i :: 0 <= i < |parts| ==> sep !in parts[i]
  {
    if |s| == 0 then [""]
    else
      var rest := Split(s[1..], sep);
      if s[0] == sep then [""] + rest
      else
        assert sep !in [s[0]] + rest[0];
        [[s[0]] + rest[0]] + rest[1..]
  }

  /** `parts.join(sep)`. */
  function Join(parts: seq<string>, sep: string): string
  {
    if |parts| == 0 then ""
    else if |parts| == 1 then parts[0]
    else parts[0] + sep + Join(parts[1..], sep)
  }

  /** Joining the pieces of a split restores the string. */
  lemma {:induction false} JoinSplit(s: string, sep: char)
    ensures Join(Split(s, sep), [sep]) == s
  {
    if |s| > 0 {
      JoinSplit(s[1..], sep);
      var rest := Split(s[1..], sep);
      if s[0] != sep {
        var parts := [[s[0]] + rest[0]] + rest[1..];
        if |rest| == 1 {
          assert Join(parts, [sep]) == [s[0]] + rest[0];
        } else {
          assert parts[1..] == rest[1..];
          assert Join(rest, [sep]) == rest[0] + [sep] + Join(rest[1..], [sep]);
        }
      }
    }
  }

  /** Splitting a separator-free string gives the string itself. */
  lemma {:induction false} SplitWithoutSeparator(s: string, sep: char)
    requires sep !in s
    ensures Split(s, sep) == [s]
  {
    if |s| > 0 {
      SplitWithoutSeparator(s[1..], sep);
      assert [s[0]] + s[1..] == s;
    }
  }

  /** The first piece of a split ends at the first separator. */
  lemma {:induction false} SplitAtFirst(a: string, sep: char, b: string)
    requires sep !in a
    ensures Split(a + [sep] + b, sep) == [a] + Split(b, sep)
  {
    if |a| == 0 {
      assert a + [sep] + b == [sep] + b;
      assert ([sep] + b)[1..] == b;
    } else {
      assert (a + [sep] + b)[1..] == a[1..] + [sep] + b;
      SplitAtFirst(a[1..], sep, b);
      assert [a[0]] + a[1..] == a;
    }
  }

  /** Three separator-free pieces joined by the separator split back into themselves. */
  lemma SplitThree(a: string, b: string, c: string, sep: char)
    requires sep !in a && sep !in b && sep !in c
    ensures Split(a + [sep] + b + [sep] + c, sep) == [a, b, c]
  {
    SplitWithoutSeparator(c, sep);
    SplitAtFirst(b, sep, c);
    assert Split(b + [sep] + c, sep) == [b, c];
    SplitAtFirst(a, sep, b + [sep] + c);
    assert a + [sep] + b + [sep] + c == a + [sep] + (b + [sep] + c);
  }

  /** A run of digits holds no separator other than a digit. */
  lemma DigitsHaveNo(s: string, c: char)
    requires AllDigits(s) && !IsDigit(c)
    ensures c !in s
  {
  }

  /** Splitting a join of separator-free pieces gives the pieces back. */
  lemma {:induction false} SplitJoin(parts: seq<string>, sep: char)
    requires |parts| > 0
    requires forall i :: 0 <= i < |parts| ==> sep !in parts[i]
    ensures Split(Join(parts, [sep]), sep) == parts
  {
    if |parts| == 1 {
      SplitWithoutSeparator(parts[0], sep);
    } else {
      SplitJoin(parts[1..], sep);
      SplitAtFirst(parts[0], sep, Join(parts[1..], [sep]));
      assert [parts[0]] + parts[1..] == parts;
    }
  }

  // ---------------------------------------------------------------------------
  // Decimal numerals, Number(...), String(...), padStart
  // ---------------------------------------------------------------------------

  predicate IsDigit(c: char)
  {
    '0' <= c <= '9'
  }

  predicate AllDigits(s: string)
  {
    forall i :: 0 <= i < |s| ==> IsDigit(s[i])
  }

  /** A decimal numeral with no superfluous leading zero. */
  predicate IsCanonicalNumeral(s: string)
  {
    |s| > 0 && AllDigits(s) && (s[0] != '0' || |s| == 1)
  }

  function DigitValue(c: char): nat
    requires IsDigit(c)
  {
    c as int - '0' as int
  }

  function DigitChar(d: nat): char
    requires d < 10
  {
    ('0' as int + d) as char
  }

  /** The value of a decimal numeral (0 for the empty one). */
  function DigitsValue(s: string): nat
    requires AllDigits(s)
  {
    if |s| == 0 then 0 else DigitsValue(s[..|s| - 1]) * 10 + DigitValue(s[|s| - 1])
  }

  /** Decimal rendering of a natural number. */
  function NatToString(n: nat): (s: string)
    ensures IsCanonicalNumeral(s)
  {
    if n < 10 then [DigitChar(n)]
    else
      var p := NatToString(n / 10);
      var s := p + [DigitChar(n % 10)];
      assert AllDigits(s) by {
        forall i | 0 <= i < |s| ensures IsDigit(s[i]) { if i < |p| { assert s[i] == p[i]; } }
      }
      s
  }

  /** Reading back a rendered number gives the number. */
  lemma {:induction false} NatToStringValue(n: nat)
    ensures DigitsValue(NatToString(n)) == n
  {
    if n >= 10 {
      NatToStringValue(n / 10);
      var s := NatToString(n);
      assert s[..|s| - 1] == NatToString(n / 10);
    }
  }

  /** A numeral that does not start with zero has a positive value. */
  lemma {:induction false} LeadingNonZeroPositive(s: string)
    requires |s| > 0 && AllDigits(s) && s[0] != '0'
    ensures DigitsValue(s) > 0
  {
    if |s| > 1 {
      LeadingNonZeroPositive(s[..|s| - 1]);
    }
  }

  /** Rendering the value of a canonical numeral gives the numeral back. */
  lemma {:induction false} ValueNatToString(s: string)
    requires IsCanonicalNumeral(s)
    ensures NatToString(DigitsValue(s)) == s
  {
    var n := DigitsValue(s);
    if |s| > 1 {
      var p := s[..|s| - 1];
      LeadingNonZeroPositive(p);
      ValueNatToString(p);
      assert n / 10 == DigitsValue(p) && n % 10 == DigitValue(s[|s| - 1]);
      assert s == p + [s[|s| - 1]];
    }
  }

  /** A JavaScript number as the application produces them: an integer or NaN.
      Fractions, infinities and negative zero are not modelled. */
  datatype Num = NaN | Int(value: int)
  {
    /** `this - k` */
    function Minus(k: int): Num
    {
      match this
      case NaN => NaN
      case Int(v) => Int(v - k)
    }
  }

  /** `Number(s)` for the numerals the application meets: blank text is 0, an
      optional sign followed by decimal digits is that integer, anything else is NaN. */
  function ToNumber(s: string): (n: Num)
    ensures HasNoWhitespace(s) && IsCanonicalNumeral(s) ==> n == Int(DigitsValue(s))
  {
    var t := Trim(s);
    assert HasNoWhitespace(s) ==> t == s by { if HasNoWhitespace(s) { TrimNoWhitespace(s); } }
    if t == "" then Int(0)
    else if |t| > 1 && (t[0] == '-' || t[0] == '+') && AllDigits(t[1..]) then
      (if t[0] == '-' then Int(-(DigitsValue(t[1..]) as int)) else Int(DigitsValue(t[1..])))
    else if AllDigits(t) then Int(DigitsValue(t))
    else NaN
  }

  /** A non-empty run of decimal digits reads as its value, leading zeros included. */
  lemma DigitsToNumber(s: string)
    requires |s| > 0 && AllDigits(s)
    ensures ToNumber(s) == Int(DigitsValue(s))
  {
    assert HasNoWhitespace(s) by {
      forall i | 0 <= i < |s| ensures !IsWhitespace(s[i]) { assert IsDigit(s[i]); }
    }
    TrimNoWhitespace(s);
    assert IsDigit(s[0]);
  }

  /** `String(n)`. */
  function NumToString(n: Num): (s: string)
    ensures n.Int? && n.value >= 0 ==> IsCanonicalNumeral(s)
  {
    match n
    case NaN => "NaN"
    case Int(v) => if v < 0 then "-" + NatToString(-v) else NatToString(v)
  }

  /** `Number(String(n))` gives `n` back. */
  lemma NumberRoundTrip(n: Num)
    requires n.Int?
    ensures ToNumber(NumToString(n)) == n
  {
    var v := n.value;
    var d := NatToString(if v < 0 then -v else v);
    NatToStringValue(if v < 0 then -v else v);
    var s := NumToString(n);
    assert HasNoWhitespace(d) by {
      forall i | 0 <= i < |d| ensures !IsWhitespace(d[i]) { assert IsDigit(d[i]); }
    }
    assert HasNoWhitespace(s) by {
      forall i | 0 <= i < |s| ensures !IsWhitespace(s[i]) { if v < 0 && i > 0 { assert s[i] == d[i - 1]; } }
    }
    TrimNoWhitespace(s);
    if v < 0 {
      assert s[1..] == d;
    }
  }

  /** `s.padStart(2, '0')`; it is only ever applied to `String(n)`, which is ASCII,
      so code units and characters coincide. */
  function PadStart2(s: string): (r: string)
    ensures |s| >= 2 ==> r == s
    ensures |s| < 2 ==> |r| == 2 && r[2 - |s|..] == s && IsBlankOrZeros(r[..2 - |s|])
  {
    if |s| >= 2 then s else if |s| == 1 then "0" + s else "00"
  }

  predicate IsBlankOrZeros(s: string)
  {
    forall i :: 0 <= i < |s| ==> s[i] == '0'
  }

  /** Two decimal digits survive `String(Number(s)).padStart(2, '0')` unchanged. */
  lemma TwoDigitsRoundTrip(s: string)
    requires |s| == 2 && AllDigits(s)
    ensures PadStart2(NumToString(ToNumber(s))) == s
  {
    assert HasNoWhitespace(s) by {
      forall i | 0 <= i < |s| ensures !IsWhitespace(s[i]) { assert IsDigit(s[i]); }
    }
    TrimNoWhitespace(s);
    if s[0] == '0' {
      var t := s[1..];
      assert DigitsValue(s) == DigitsValue(t) by {
        assert s[..1] == "0";
        assert t[..0] == "";
      }
      ValueNatToString(t);
    } else {
      ValueNatToString(s);
    }
  }
}
