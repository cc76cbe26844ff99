/** The JavaScript string operations the application relies on, stated over
    `string` (a sequence of characters): number rendering and `padStart`,
    `parseInt` with radix 10 and with no radix (which also reads "0x"
    hexadecimal), `split` and `join` on one separator character, `trim`,
    `toLowerCase`, `includes`, `startsWith`, `endsWith` and `replace`. Each
    is given the contract the JavaScript library promises, and the round trips the application depends on are proved here. */
module Text {
  import opened Wrappers

  // ---------------------------------------------------------------------
  // Digits and number rendering
  // ---------------------------------------------------------------------

  predicate IsDigit(c: char) {
    '0' <= c <= '9'
  }

  predicate AllDigits(s: string) {
    forall k :: 0 <= k < |s| ==> IsDigit(s[k])
  }

  function DigitChar(d: nat): (c: char)
    requires d < 10
    ensures IsDigit(c)
  {
    ('0' as int + d) as char
  }

  function DigitValue(c: char): (d: nat)
    requires IsDigit(c)
    ensures d < 10 && DigitChar(d) == c
  {
    c as int - '0' as int
  }

  /** The value of a string of decimal digits, read left to right. */
  function DigitsValue(s: string): nat
    requires AllDigits(s)
  {
    if |s| == 0 then 0 else DigitsValue(s[..|s| - 1]) * 10 + DigitValue(s[|s| - 1])
  }

  /** `n.toString()` for a non-negative integer: decimal, no leading zero. */
  function NatToString(n: nat): (r: string)
    ensures |r| >= 1 && AllDigits(r)
    ensures |r| > 1 ==> r[0] != '0'
    ensures DigitsValue(r) == n
  {
    if n < 10 then
      [DigitChar(n)]
    else
      var prefix := NatToString(n / 10);
      var r := prefix + [DigitChar(n % 10)];
      assert r[..|r| - 1] == prefix;
      r
  }

  /** `i.toString()` for an integer: a minus sign before the magnitude. */
  function IntToString(i: int): (r: string)
    ensures |r| >= 1
    ensures i >= 0 <==> AllDigits(r)
    ensures i < 0 <==> r[0] == '-'
    ensures i < 0 ==> AllDigits(r[1..]) && |r| >= 2
  {
    if i < 0 then
      var r := "-" + NatToString(-i);
      assert !IsDigit(r[0]);
      r
    else
      NatToString(i)
  }

  function Repeat(c: char, n: nat): (r: string)
    ensures |r| == n
    ensures forall k :: 0 <= k < n ==> r[k] == c
  {
    if n == 0 then "" else [c] + Repeat(c, n - 1)
  }

  /** `s.padStart(len, c)`: prefix copies of `c` up to length `len`. */
  function PadStart(s: string, len: nat, c: char): (r: string)
    ensures |s| >= len ==> r == s
    ensures |s| < len ==> |r| == len && r[len - |s|..] == s
    ensures forall k :: 0 <= k < |r| - |s| ==> r[k] == c
  {
    if |s| >= len then s else Repeat(c, len - |s|) + s
  }

  lemma {:induction false} LeadingZerosKeepValue(zeros: nat, s: string)
    requires AllDigits(s)
    ensures AllDigits(Repeat('0', zeros) + s)
    ensures DigitsValue(Repeat('0', zeros) + s) == DigitsValue(s)
    decreases zeros, |s|
  {
    var t := Repeat('0', zeros) + s;
    if zeros == 0 {
      assert t == s;
    } else if |s| == 0 {
      assert t == Repeat('0', zeros);
      var shorter := Repeat('0', zeros - 1);
      assert t[..|t| - 1] == shorter + "" by {
        assert t == [ '0' ] + shorter;
        assert t == shorter + ['0'];
      }
      LeadingZerosKeepValue(zeros - 1, "");
    } else {
      var init := s[..|s| - 1];
      assert t[..|t| - 1] == Repeat('0', zeros) + init;
      assert t[|t| - 1] == s[|s| - 1];
      LeadingZerosKeepValue(zeros, init);
    }
  }

  // ---------------------------------------------------------------------
  // Whitespace, trim
  // ---------------------------------------------------------------------

  /** The characters `String.prototype.trim` and `parseInt` skip: the
      ECMAScript WhiteSpace and LineTerminator code points. */
  predicate IsWhitespace(c: char) {
    || c == '\t' || c == '\n' || c == '\U{000B}' || c == '\U{000C}' || c == '\r'
    || c == ' ' || c == '\U{00A0}' || c == '\U{1680}'
    || ('\U{2000}' <= c <= '\U{200A}')
    || c == '\U{2028}' || c == '\U{2029}' || c == '\U{202F}' || c == '\U{205F}'
    || c == '\U{3000}' || c == '\U{FEFF}'
  }

  function TrimStart(s: string): (r: string)
    ensures |r| <= |s| && r == s[|s| - |r|..]
    ensures forall k :: 0 <= k < |s| - |r| ==> IsWhitespace(s[k])
    ensures |r| > 0 ==> !IsWhitespace(r[0])
  {
    if |s| > 0 && IsWhitespace(s[0]) then
      var r := TrimStart(s[1..]);
      assert forall k :: 1 <= k < |s| ==> s[k] == s[1..][k - 1];
      r
    else s
  }

  function TrimEnd(s: string): (r: string)
    ensures |r| <= |s| && r == s[..|r|]
    ensures forall k :: |r| <= k < |s| ==> IsWhitespace(s[k])
    ensures |r| > 0 ==> !IsWhitespace(r[|r| - 1])
  {
    if |s| > 0 && IsWhitespace(s[|s| - 1]) then
      var r := TrimEnd(s[..|s| - 1]);
      assert forall k :: 0 <= k < |s| - 1 ==> s[k] == s[..|s| - 1][k];
      r
    else s
  }

  /** A string with no whitespace at either end. */
  predicate IsTrimmed(s: string) {
    |s| == 0 || (!IsWhitespace(s[0]) && !IsWhitespace(s[|s| - 1]))
  }

  /** `s.trim()`: the infix `s[i..j]` left after dropping whitespace at both ends. */
  function Trim(s: string): (r: string)
    ensures IsTrimmed(r)
    ensures |r| <= |s|
    ensures IsTrimmed(s) ==> r == s
  {
    TrimEnd(TrimStart(s))
  }

  // ---------------------------------------------------------------------
  // parseInt(s, 10)
  // ---------------------------------------------------------------------

  /** The longest prefix of `s` made of decimal digits. */
  function DigitPrefix(s: string): (r: string)
    ensures AllDigits(r) && |r| <= |s| && r == s[..|r|]
    ensures |r| < |s| ==> !IsDigit(s[|r|])
  {
    if |s| == 0 || !IsDigit(s[0]) then "" else [s[0]] + DigitPrefix(s[1..])
  }

  /** `parseInt(s, 10)`: leading whitespace skipped, an optional sign, then
      the longest run of digits; `None` stands for NaN (no digit found). */
  function ParseInt(s: string): (r: Option<int>)
  {
    ParseSigned(TrimStart(s))
  }

  function ParseSigned(t: string): (r: Option<int>)
  {
    if |t| > 0 && t[0] == '-' then
      var u := ParseUnsigned(t[1..]);
      if u.None? then None else Some(0 - u.value)
    else if |t| > 0 && t[0] == '+' then ParseUnsigned(t[1..])
    else ParseUnsigned(t)
  }

  function ParseUnsigned(body: string): (r: Option<int>)
    ensures r.Some? ==> r.value >= 0
  {
    var digits := DigitPrefix(body);
    if |digits| == 0 then None else Some(DigitsValue(digits) as int)
  }

  // ---------------------------------------------------------------------
  // parseInt(s) without a radix
  // ---------------------------------------------------------------------

  predicate IsHexDigit(c: char) {
    IsDigit(c) || 'a' <= c <= 'f' || 'A' <= c <= 'F'
  }

  predicate AllHexDigits(s: string) {
    forall i :: 0 <= i < |s| ==> IsHexDigit(s[i])
  }

  function HexValue(c: char): (v: nat)
    requires IsHexDigit(c)
    ensures v < 16
  {
    if IsDigit(c) then DigitValue(c)
    else if 'a' <= c <= 'f' then c as int - 'a' as int + 10
    else c as int - 'A' as int + 10
  }

  /** The value of a string of hexadecimal digits, read left to right. */
  function HexDigitsValue(s: string): nat
    requires AllHexDigits(s)
  {
    if |s| == 0 then 0 else HexDigitsValue(s[..|s| - 1]) * 16 + HexValue(s[|s| - 1])
  }

  /** The longest prefix of `s` made of hexadecimal digits. */
  function HexPrefix(s: string): (r: string)
    ensures AllHexDigits(r) && |r| <= |s| && r == s[..|r|]
    ensures |r| < |s| ==> !IsHexDigit(s[|r|])
  {
    if |s| == 0 || !IsHexDigit(s[0]) then "" else [s[0]] + HexPrefix(s[1..])
  }

  /** The text after an optional leading sign. */
  function Unsigned(t: string): (r: string)
    ensures |t| > 0 && (t[0] == '-' || t[0] == '+') ==> r == t[1..]
    ensures |t| == 0 || (t[0] != '-' && t[0] != '+') ==> r == t
  {
    if |t| > 0 && (t[0] == '-' || t[0] == '+') then t[1..] else t
  }

  /** Text that, after the sign, switches `parseInt` to base 16. */
  predicate HasHexPrefix(body: string) {
    |body| >= 2 && body[0] == '0' && (body[1] == 'x' || body[1] == 'X')
  }

  /** `parseInt(s)` with no radix: leading whitespace skipped, an optional
      sign, then "0x" or "0X" followed by the longest run of hexadecimal
      digits, or otherwise the longest run of decimal digits. `None` stands
      for NaN: no digit where one was needed. */
  function ParseIntAuto(s: string): (r: Option<int>)
    ensures var body := Unsigned(TrimStart(s));
      r.Some? <==> if HasHexPrefix(body) then |HexPrefix(body[2..])| > 0 else |DigitPrefix(body)| > 0
  {
    ParseSignedAuto(TrimStart(s))
  }

  function ParseSignedAuto(t: string): (r: Option<int>)
    ensures r.Some? <==> ParseMagnitude(Unsigned(t)).Some?
  {
    if |t| > 0 && t[0] == '-' then
      var u := ParseMagnitude(t[1..]);
      if u.None? then None else Some(0 - u.value)
    else if |t| > 0 && t[0] == '+' then ParseMagnitude(t[1..])
    else ParseMagnitude(t)
  }

  /** The unsigned part: hexadecimal after "0x" or "0X", decimal otherwise. */
  function ParseMagnitude(body: string): (r: Option<int>)
    ensures r.Some? <==> if HasHexPrefix(body) then |HexPrefix(body[2..])| > 0 else |DigitPrefix(body)| > 0
    ensures !HasHexPrefix(body) ==> r == ParseUnsigned(body)
  {
    if HasHexPrefix(body) then
      var hex := HexPrefix(body[2..]);
      if |hex| == 0 then None else Some(HexDigitsValue(hex) as int)
    else ParseUnsigned(body)
  }

  /** `parseInt(formData.get(k) as string)`: an absent field reads as
      "null", which is NaN. */
  function ParseIntField(field: Option<string>): (r: Option<int>)
    ensures field.None? ==> r.None?
    ensures field.Some? ==> r == ParseIntAuto(field.value)
  {
    match field
    case None => None
    case Some(s) => ParseIntAuto(s)
  }

  /** Without a hexadecimal prefix the radix-less reading is the decimal one. */
  lemma ParseIntAutoDecimal(s: string)
    requires !HasHexPrefix(Unsigned(TrimStart(s)))
    ensures ParseIntAuto(s) == ParseInt(s)
  {
    ParseSignedAutoDecimal(TrimStart(s));
  }

  lemma ParseSignedAutoDecimal(t: string)
    requires !HasHexPrefix(Unsigned(t))
    ensures ParseSignedAuto(t) == ParseSigned(t)
  {
    if |t| > 0 && (t[0] == '-' || t[0] == '+') {
      assert ParseMagnitude(t[1..]) == ParseUnsigned(t[1..]);
    } else {
      assert ParseMagnitude(t) == ParseUnsigned(t);
    }
  }

  lemma {:induction false} HexPrefixOfHexDigits(s: string)
    requires AllHexDigits(s)
    ensures HexPrefix(s) == s
  {
    if |s| > 0 {
      HexPrefixOfHexDigits(s[1..]);
    }
  }

  /** "0x" followed by hexadecimal digits is read in base 16. */
  lemma ParseIntAutoOfHex(h: string)
    requires |h| > 0 && AllHexDigits(h)
    ensures ParseIntAuto("0x" + h) == Some(HexDigitsValue(h) as int)
    ensures ParseIntAuto("0X" + h) == Some(HexDigitsValue(h) as int)
  {
    assert "0x" + h == ['0', 'x'] + h;
    assert "0X" + h == ['0', 'X'] + h;
    ParseIntAutoOfPrefixedHex('x', h);
    ParseIntAutoOfPrefixedHex('X', h);
  }

  lemma ParseIntAutoOfPrefixedHex(x: char, h: string)
    requires x == 'x' || x == 'X'
    requires |h| > 0 && AllHexDigits(h)
    ensures ParseIntAuto(['0', x] + h) == Some(HexDigitsValue(h) as int)
  {
    var s := ['0', x] + h;
    TrimStartKeeps(s);
    assert Unsigned(s) == s;
    assert HasHexPrefix(s);
    assert s[2..] == h;
    HexPrefixOfHexDigits(h);
  }

  /** The radix-less reading also reads back what `toString` renders. */
  lemma ParseIntAutoRoundTrip(i: int)
    ensures ParseIntAuto(IntToString(i)) == Some(i)
  {
    var s := IntToString(i);
    var digits := NatToString(if i >= 0 then i else -i);
    assert s == (if i >= 0 then digits else "-" + digits);
    TrimStartKeeps(s);
    assert Unsigned(s) == digits;
    assert |digits| >= 2 ==> IsDigit(digits[1]);
    ParseIntAutoDecimal(s);
    IntToStringRoundTrip(i);
  }

  lemma {:induction false} DigitPrefixOfDigits(s: string)
    requires AllDigits(s)
    ensures DigitPrefix(s) == s
  {
    if |s| > 0 {
      DigitPrefixOfDigits(s[1..]);
    }
  }

  lemma TrimStartKeeps(t: string)
    requires |t| > 0 && (t[0] == '-' || IsDigit(t[0]))
    ensures TrimStart(t) == t
  {
    var c := t[0];
    assert '-' <= c <= '9';
    assert !IsWhitespace(c);
  }

  lemma ParseUnsignedOfDigits(s: string)
    requires |s| > 0 && AllDigits(s)
    ensures ParseUnsigned(s) == Some(DigitsValue(s) as int)
  {
    DigitPrefixOfDigits(s);
  }

  lemma ParseIntOfDigits(s: string)
    requires |s| > 0 && IsDigit(s[0])
    ensures ParseInt(s) == ParseUnsigned(s)
  {
    TrimStartKeeps(s);
  }

  lemma ParseIntOfNegated(s: string)
    ensures ParseInt("-" + s) == (var u := ParseUnsigned(s); if u.None? then None else Some(0 - u.value))
  {
    var t := "-" + s;
    assert t[0] == '-' && t[1..] == s;
    TrimStartKeeps(t);
    assert ParseInt(t) == ParseSigned(t);
  }

  /** `parseInt` reads back what `toString` renders. */
  lemma IntToStringRoundTrip(i: int)
    ensures ParseInt(IntToString(i)) == Some(i)
  {
    var s := IntToString(i);
    if i >= 0 {
      var n: nat := i;
      assert s == NatToString(n);
      ParseUnsignedOfDigits(s);
      ParseIntOfDigits(s);
    } else {
      var digits := NatToString(-i);
      assert s == "-" + digits;
      ParseUnsignedOfDigits(digits);
      ParseIntOfNegated(digits);
    }
  }

  lemma IntToStringInjective(i: int, j: int)
    requires IntToString(i) == IntToString(j)
    ensures i == j
  {
    IntToStringRoundTrip(i);
    IntToStringRoundTrip(j);
  }

  /** The rendering of an integer, padded or not, holds only digits and a
      leading minus sign, never a colon. */
  lemma IntTextHasNoColon(i: int)
    ensures ':' !in IntToString(i)
    ensures ':' !in PadStart(IntToString(i), 2, '0')
  {
    var s := IntToString(i);
    assert !IsDigit(':');
    forall k | 0 <= k < |s|
      ensures s[k] != ':'
    {
      if i >= 0 {
        assert IsDigit(s[k]);
      } else if k > 0 {
        assert s[k] == s[1..][k - 1] && IsDigit(s[1..][k - 1]);
      }
    }
    var p := PadStart(s, 2, '0');
    if |s| < 2 {
      forall k | 0 <= k < |p|
        ensures p[k] != ':'
      {
        if k >= |p| - |s| {
          assert p[k] == p[|p| - |s|..][k - (|p| - |s|)];
        }
      }
    }
  }

  /** Formatting an integer with `toString().padStart(2, '0')` and reading it
      back with `parseInt` gives the integer back, for every integer. */
  lemma IntPadParseRoundTrip(i: int)
    ensures ParseInt(PadStart(IntToString(i), 2, '0')) == Some(i)
  {
    if i >= 0 {
      assert IntToString(i) == NatToString(i);
      NatPadParseRoundTrip(i);
    } else {
      NegativePadParseRoundTrip(i);
    }
  }

  lemma NegativePadParseRoundTrip(i: int)
    requires i < 0
    ensures ParseInt(PadStart(IntToString(i), 2, '0')) == Some(i)
  {
    var s := IntToString(i);
    assert |s| >= 2;
    assert PadStart(s, 2, '0') == s;
    IntToStringRoundTrip(i);
  }

  lemma NatPadParseRoundTrip(n: nat)
    ensures ParseInt(PadStart(NatToString(n), 2, '0')) == Some(n)
  {
    var s := NatToString(n);
    var p := PadStart(s, 2, '0');
    var zeros: nat := if |s| >= 2 then 0 else 2 - |s|;
    assert p == Repeat('0', zeros) + s;
    LeadingZerosKeepValue(zeros, s);
    ParseUnsignedOfDigits(p);
    ParseIntOfDigits(p);
  }

  // ---------------------------------------------------------------------
  // split / join on one separator character
  // ---------------------------------------------------------------------

  /** `s.split(c)`: the maximal `c`-free pieces between separators; an empty
      string splits into one empty piece. */
  function Split(s: string, c: char): (r: seq<string>)
    ensures |r| >= 1
    ensures forall k :: 0 <= k < |r| ==> c !in r[k]
  {
    if |s| == 0 then
      [""]
    else
      var rest := Split(s[1..], c);
      if s[0] == c then [""] + rest else [[s[0]] + rest[0]] + rest[1..]
  }

  /** `xs.join(c)`. */
  function Join(xs: seq<string>, c: char): string
  {
    if |xs| == 0 then "" else if |xs| == 1 then xs[0] else xs[0] + [c] + Join(xs[1..], c)
  }

  /** The text before the first `c` (all of `s` when there is none). */
  function BeforeFirst(s: string, c: char): (r: string)
    ensures c !in r
    ensures |r| <= |s| && r == s[..|r|]
    ensures |r| < |s| ==> s[|r|] == c
  {
    if |s| == 0 || s[0] == c then "" else [s[0]] + BeforeFirst(s[1..], c)
  }

  /** The text before the first `c` of `p + rest` is `p` when `p` has no `c`
      and `rest` starts with one. */
  lemma {:induction false} BeforeFirstOfConcat(p: string, rest: string, c: char)
    requires c !in p && |rest| > 0 && rest[0] == c
    ensures BeforeFirst(p + rest, c) == p
  {
    if |p| > 0 {
      assert (p + rest)[1..] == p[1..] + rest;
      BeforeFirstOfConcat(p[1..], rest, c);
      assert [p[0]] + p[1..] == p;
    }
  }

  /** The text after the last `c` (all of `s` when there is none). */
  function AfterLast(s: string, c: char): (r: string)
    ensures c !in r
    ensures |r| <= |s| && r == s[|s| - |r|..]
    ensures |r| < |s| ==> s[|s| - |r| - 1] == c
  {
    if |s| == 0 || s[|s| - 1] == c then "" else AfterLast(s[..|s| - 1], c) + [s[|s| - 1]]
  }

  /** `s.split(c)[0]` is the text before the first `c`. */
  lemma {:induction false} SplitFirstPiece(s: string, c: char)
    ensures Split(s, c)[0] == BeforeFirst(s, c)
  {
    if |s| > 0 && s[0] != c {
      SplitFirstPiece(s[1..], c);
    }
  }

  /** Re-joining the pieces of a split gives the original string back. */
  lemma {:induction false} JoinSplit(s: string, c: char)
    ensures Join(Split(s, c), c) == s
  {
    if |s| > 0 {
      var rest := Split(s[1..], c);
      JoinSplit(s[1..], c);
      if s[0] == c {
        assert Join([""] + rest, c) == "" + [c] + Join(rest, c) by {
          assert ([""] + rest)[1..] == rest;
        }
      } else {
        var parts := [[s[0]] + rest[0]] + rest[1..];
        if |rest| == 1 {
          assert parts == [[s[0]] + rest[0]];
        } else {
          assert parts[1..] == rest[1..];
          assert Join(rest, c) == rest[0] + [c] + Join(rest[1..], c);
        }
      }
    }
  }

  lemma {:induction false} SplitWithoutSeparator(a: string, c: char)
    requires c !in a
    ensures Split(a, c) == [a]
  {
    if |a| > 0 {
      SplitWithoutSeparator(a[1..], c);
      assert [a[0]] + a[1..] == a;
    }
  }

  lemma {:induction false} SplitAfterPiece(a: string, b: string, c: char)
    requires c !in a
    ensures Split(a + [c] + b, c) == [a] + Split(b, c)
  {
    var s := a + [c] + b;
    if |a| == 0 {
      assert s[1..] == b;
    } else {
      assert s[1..] == a[1..] + [c] + b;
      SplitAfterPiece(a[1..], b, c);
      assert [a[0]] + a[1..] == a;
    }
  }

  /** Splitting at one separator splits each side on its own: the pieces
      of `a` come first, in order, then those of `b`. */
  lemma {:induction false} SplitAtSeparator(a: string, b: string, c: char)
    ensures Split(a + [c] + b, c) == Split(a, c) + Split(b, c)
    decreases |a|
  {
    if c !in a {
      SplitWithoutSeparator(a, c);
      SplitAfterPiece(a, b, c);
    } else {
      var first := BeforeFirst(a, c);
      assert |first| < |a|;
      var rest := a[|first| + 1..];
      assert a == first + [c] + rest;
      assert a + [c] + b == first + [c] + (rest + [c] + b);
      SplitAfterPiece(first, rest + [c] + b, c);
      SplitAfterPiece(first, rest, c);
      SplitAtSeparator(rest, b, c);
    }
  }

  /** How `Split(s + [x], c)` relates to `Split(s, c)`. */
  predicate SnocLaw(s: string, x: char, c: char) {
    var p := Split(s, c);
    Split(s + [x], c) == if x == c then p + [""] else p[..|p| - 1] + [p[|p| - 1] + [x]]
  }

  /** Appending one character to a string extends its last piece, or opens
      a new empty piece when the character is the separator. */
  lemma {:induction false} SplitSnoc(s: string, x: char, c: char)
    ensures SnocLaw(s, x, c)
  {
    if |s| == 0 {
      SplitSnocEmpty(x, c);
    } else {
      SplitSnoc(s[1..], x, c);
      if s[0] == c {
        SplitSnocAfterSeparator(s, x, c);
      } else {
        SplitSnocInPiece(s, x, c);
      }
    }
  }

  lemma SplitSnocEmpty(x: char, c: char)
    ensures SnocLaw("", x, c)
  {
    assert "" + [x] == [x];
    var rest := Split([x][1..], c);
    assert rest == [""];
    assert [x] + rest[0] == [x] && rest[1..] == [];
  }

  lemma SplitSnocAfterSeparator(s: string, x: char, c: char)
    requires |s| > 0 && s[0] == c && SnocLaw(s[1..], x, c)
    ensures SnocLaw(s, x, c)
  {
    var t := s[1..];
    assert (s + [x])[1..] == t + [x];
    var p, q := Split(s, c), Split(t, c);
    assert p == [""] + q;
    if x != c {
      assert p[..|p| - 1] == [""] + q[..|q| - 1];
    }
  }

  lemma SplitSnocInPiece(s: string, x: char, c: char)
    requires |s| > 0 && s[0] != c && SnocLaw(s[1..], x, c)
    ensures SnocLaw(s, x, c)
  {
    assert (s + [x])[1..] == s[1..] + [x];
    if x == c {
      SplitSnocNewPiece(s, x, c);
    } else {
      SplitSnocLongerPiece(s, x, c);
    }
  }

  lemma SplitSnocNewPiece(s: string, x: char, c: char)
    requires |s| > 0 && s[0] != c && x == c && SnocLaw(s[1..], x, c)
    requires (s + [x])[1..] == s[1..] + [x]
    ensures SnocLaw(s, x, c)
  {
    var t := s[1..];
    var p, q, r := Split(s, c), Split(t, c), Split(t + [x], c);
    assert p == [[s[0]] + q[0]] + q[1..];
    assert Split(s + [x], c) == [[s[0]] + r[0]] + r[1..];
    assert r[0] == q[0] && r[1..] == q[1..] + [""];
  }

  lemma SplitSnocLongerPiece(s: string, x: char, c: char)
    requires |s| > 0 && s[0] != c && x != c && SnocLaw(s[1..], x, c)
    requires (s + [x])[1..] == s[1..] + [x]
    ensures SnocLaw(s, x, c)
  {
    var t := s[1..];
    var p, q, r := Split(s, c), Split(t, c), Split(t + [x], c);
    assert p == [[s[0]] + q[0]] + q[1..];
    assert Split(s + [x], c) == [[s[0]] + r[0]] + r[1..];
    var m := q[..|q| - 1];
    assert r == m + [q[|q| - 1] + [x]];
    if |q| == 1 {
      assert [s[0]] + (q[0] + [x]) == ([s[0]] + q[0]) + [x];
    } else {
      SnocSlices(q, q[|q| - 1] + [x], [s[0]] + q[0]);
    }
  }

  lemma SnocSlices<T>(q: seq<T>, y: T, h: T)
    requires |q| >= 2
    ensures var m := q[..|q| - 1];
            (m + [y])[0] == q[0] && (m + [y])[1..] == q[1..|q| - 1] + [y]
    ensures var p := [h] + q[1..];
            p[..|p| - 1] == [h] + q[1..|q| - 1]
  {
  }

  /** `s.split(c).pop()` is the text after the last `c`. */
  lemma {:induction false} SplitLastPiece(s: string, c: char)
    ensures Split(s, c)[|Split(s, c)| - 1] == AfterLast(s, c)
    decreases |s|
  {
    if |s| > 0 {
      var init, x := s[..|s| - 1], s[|s| - 1];
      assert s == init + [x];
      var p, q := Split(init, c), Split(s, c);
      SplitSnoc(init, x, c);
      assert q == if x == c then p + [""] else p[..|p| - 1] + [p[|p| - 1] + [x]];
      LastAfterSnoc(p, q, x, c);
      SplitLastPiece(init, c);
      AfterLastSnoc(init, x, c);
      assert AfterLast(s, c) == if x == c then "" else AfterLast(init, c) + [x];
    }
  }

  lemma AfterLastSnoc(s: string, x: char, c: char)
    ensures AfterLast(s + [x], c) == if x == c then "" else AfterLast(s, c) + [x]
  {
    assert (s + [x])[..|s|] == s;
  }

  /** The last piece after a character is appended, in terms of the last
      piece before. */
  lemma LastAfterSnoc<T>(p: seq<seq<T>>, q: seq<seq<T>>, x: T, c: T)
    requires |p| >= 1
    requires q == if x == c then p + [[]] else p[..|p| - 1] + [p[|p| - 1] + [x]]
    ensures q[|q| - 1] == if x == c then [] else p[|p| - 1] + [x]
  {
  }

  /** Splitting a join of separator-free pieces gives the pieces back. */
  lemma {:induction false} SplitJoin(xs: seq<string>, c: char)
    requires |xs| >= 1
    requires forall k :: 0 <= k < |xs| ==> c !in xs[k]
    ensures Split(Join(xs, c), c) == xs
  {
    if |xs| == 1 {
      SplitWithoutSeparator(xs[0], c);
    } else {
      SplitJoin(xs[1..], c);
      SplitAfterPiece(xs[0], Join(xs[1..], c), c);
      assert [xs[0]] + xs[1..] == xs;
    }
  }

  // ---------------------------------------------------------------------
  // Case, search, replace
  // ---------------------------------------------------------------------

  function LowerChar(c: char): (r: char)
    ensures !('A' <= r <= 'Z')
    ensures !('A' <= c <= 'Z') ==> r == c
  {
    if 'A' <= c <= 'Z' then (c as int + 32) as char else c
  }

  function UpperChar(c: char): (r: char)
    ensures !('a' <= r <= 'z')
    ensures !('a' <= c <= 'z') ==> r == c
  {
    if 'a' <= c <= 'z' then (c as int - 32) as char else c
  }

  /** `s.toLowerCase()` on the ASCII letters. */
  function ToLower(s: string): (r: string)
    ensures |r| == |s|
    ensures forall k :: 0 <= k < |s| ==> r[k] == LowerChar(s[k])
  {
    if |s| == 0 then "" else [LowerChar(s[0])] + ToLower(s[1..])
  }

  predicate StartsWith(s: string, prefix: string) {
    |prefix| <= |s| && s[..|prefix|] == prefix
  }

  predicate EndsWith(s: string, suffix: string) {
    |suffix| <= |s| && s[|s| - |suffix|..] == suffix
  }

  predicate OccursAt(s: string, sub: string, k: nat) {
    k + |sub| <= |s| && s[k..k + |sub|] == sub
  }

  /** `sub` holds no upper-case ASCII letter, so lowercasing leaves it alone. */
  predicate NoUpper(sub: string) {
    forall j :: 0 <= j < |sub| ==> !('A' <= sub[j] <= 'Z')
  }

  /** Lowercasing leaves a string without upper-case letters as it is. */
  lemma LowerOfNoUpper(s: string)
    ensures NoUpper(s) ==> ToLower(s) == s
  {
    if NoUpper(s) {
      var u := ToLower(s);
      assert forall k :: 0 <= k < |s| ==> u[k] == s[k];
    }
  }

  /** Lowercasing keeps every occurrence of a lower-case pattern. */
  lemma LowerKeepsOccurrence(s: string, sub: string, k: nat)
    requires OccursAt(s, sub, k) && NoUpper(sub)
    ensures OccursAt(ToLower(s), sub, k)
  {
    var u := ToLower(s);
    forall j | 0 <= j < |sub|
      ensures u[k + j] == sub[j]
    {
      assert s[k + j] == s[k..k + |sub|][j] == sub[j];
    }
    assert u[k..k + |sub|] == sub;
  }

  lemma ContainsLowered(s: string, sub: string)
    requires Contains(s, sub) && NoUpper(sub)
    ensures Contains(ToLower(s), sub)
  {
    var k :| 0 <= k <= |s| - |sub| && OccursAt(s, sub, k);
    LowerKeepsOccurrence(s, sub, k);
  }

  /** `s.includes(sub)`. */
  predicate Contains(s: string, sub: string) {
    exists k :: 0 <= k <= |s| - |sub| && OccursAt(s, sub, k)
  }

  /** A string cannot contain `sub` when it lacks one of `sub`'s characters. */
  lemma NotContainedWithout(s: string, sub: string, j: nat)
    requires j < |sub| && sub[j] !in s
    ensures !Contains(s, sub)
  {
    forall k | 0 <= k <= |s| - |sub|
      ensures !OccursAt(s, sub, k)
    {
      assert s[k..k + |sub|][j] == s[k + j] && s[k + j] in s;
    }
  }

  /** `s.indexOf(sub)` searched from position `from`; `None` stands for -1. */
  function IndexOfFrom(s: string, sub: string, from: nat): (r: Option<nat>)
    ensures r.Some? ==> from <= r.value && OccursAt(s, sub, r.value)
    ensures r.Some? ==> forall k :: from <= k < r.value ==> !OccursAt(s, sub, k)
    ensures r.None? ==> forall k :: from <= k ==> !OccursAt(s, sub, k)
    decreases |s| - from
  {
    if from + |sub| > |s| then None
    else if s[from..from + |sub|] == sub then Some(from)
    else IndexOfFrom(s, sub, from + 1)
  }

  function IndexOf(s: string, sub: string): (r: Option<nat>)
    ensures r.Some? <==> Contains(s, sub)
    ensures r.Some? ==> OccursAt(s, sub, r.value)
    ensures r.Some? ==> forall k :: 0 <= k < r.value ==> !OccursAt(s, sub, k)
  {
    IndexOfFrom(s, sub, 0)
  }

  /** `s.replace(pattern, rep)` with a string pattern: the first occurrence only. */
  function ReplaceFirst(s: string, pattern: string, rep: string): (r: string)
    ensures !Contains(s, pattern) ==> r == s
    ensures Contains(s, pattern) ==>
      var k := IndexOf(s, pattern).value;
      r == s[..k] + rep + s[k + |pattern|..]
  {
    match IndexOf(s, pattern)
    case None => s
    case Some(k) => s[..k] + rep + s[k + |pattern|..]
  }

  /** `s.replace(/x/g, y)` for a single character `x`. */
  function ReplaceAllChar(s: string, from: char, to: char): (r: string)
    ensures |r| == |s|
    ensures forall k :: 0 <= k < |s| ==> r[k] == (if s[k] == from then to else s[k])
  {
    if |s| == 0 then "" else [if s[0] == from then to else s[0]] + ReplaceAllChar(s[1..], from, to)
  }

  // ---------------------------------------------------------------------
  // Ordering
  // ---------------------------------------------------------------------

  /** Code-unit lexicographic order, the order of `<=` on strings and of the
      store's text and ISO-date columns. */
  predicate StrLe(a: string, b: string)
    decreases |a|
  {
    |a| == 0 || (|b| > 0 && (a[0] < b[0] || (a[0] == b[0] && StrLe(a[1..], b[1..]))))
  }

  lemma {:induction false} StrLeTotal(a: string, b: string)
    ensures StrLe(a, b) || StrLe(b, a)
    decreases |a|
  {
    if |a| > 0 && |b| > 0 && a[0] == b[0] {
      StrLeTotal(a[1..], b[1..]);
    }
  }

  lemma {:induction false} StrLeTransitive(a: string, b: string, c: string)
    requires StrLe(a, b) && StrLe(b, c)
    ensures StrLe(a, c)
    decreases |a|
  {
    if |a| > 0 && a[0] == b[0] && b[0] == c[0] {
      StrLeTransitive(a[1..], b[1..], c[1..]);
    }
  }

  lemma {:induction false} StrLeAntisymmetric(a: string, b: string)
    requires StrLe(a, b) && StrLe(b, a)
    ensures a == b
    decreases |a|
  {
    if |a| > 0 {
      StrLeAntisymmetric(a[1..], b[1..]);
      assert a == [a[0]] + a[1..] && b == [b[0]] + b[1..];
    }
  }
}
