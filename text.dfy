/** The Python string operations the catalogue relies on, written out:
    `str.lower()`, the `in` operator on strings, `str(int)` and `int(str)`. */
module Text {
  import opened Wrappers

  // ---------------------------------------------------------------------------
  // str.lower()
  // ---------------------------------------------------------------------------

  /** Upper-case letters this model folds: ASCII A-Z and the Cyrillic capitals
      U+0400..U+042F (the alphabet the catalogue's own labels are written in). */
  predicate IsUpper(c: char) {
    var k := c as int;
    0x41 <= k <= 0x5A || 0x400 <= k <= 0x42F
  }

  /** Lower-case mapping of one character: A-Z and U+0410..U+042F move up by
      0x20, U+0400..U+040F (Ѐ..Џ) move up by 0x50, everything else is kept. */
  function ToLowerChar(c: char): (l: char)
    ensures IsUpper(c) <==> l != c
    ensures !IsUpper(l)
  {
    var k := c as int;
    if 0x41 <= k <= 0x5A || 0x410 <= k <= 0x42F then (k + 0x20) as char
    else if 0x400 <= k <= 0x40F then (k + 0x50) as char
    else c
  }

  /** `s.lower()`: the character-wise lower-case mapping. */
  function Lower(s: string): (r: string)
    ensures |r| == |s|
    ensures forall i :: 0 <= i < |s| ==> r[i] == ToLowerChar(s[i])
  {
    if s == [] then [] else [ToLowerChar(s[0])] + Lower(s[1..])
  }

  /** Lowering is idempotent, so comparing lowered strings is a
      case-insensitive comparison that lowering again does not change. */
  lemma LowerIdempotent(s: string)
    ensures Lower(Lower(s)) == Lower(s)
  {
    var once := Lower(s);
    var twice := Lower(once);
    forall i | 0 <= i < |s| ensures twice[i] == once[i] {
      assert !IsUpper(once[i]);
    }
  }

  // ---------------------------------------------------------------------------
  // `needle in hay` for strings
  // ---------------------------------------------------------------------------

  predicate IsPrefix(p: string, s: string) {
    |p| <= |s| && s[..|p|] == p
  }

  /** Python's substring test: the needle starts at the first position of the
      haystack or somewhere further on. The empty needle is contained in
      every string, the empty one included. */
  predicate Contains(hay: string, needle: string)
    ensures needle == [] ==> Contains(hay, needle)
    ensures Contains(hay, needle) ==> |needle| <= |hay|
    decreases |hay|
  {
    IsPrefix(needle, hay) || (hay != [] && Contains(hay[1..], needle))
  }

  /** Independent description of `Contains`: some window of the haystack with
      the needle's length equals the needle. */
  ghost predicate OccursAt(hay: string, needle: string, i: int) {
    0 <= i && i + |needle| <= |hay| && hay[i..i + |needle|] == needle
  }

  lemma {:induction false} ContainsIffOccurs(hay: string, needle: string)
    ensures Contains(hay, needle) <==> exists i :: OccursAt(hay, needle, i)
    decreases |hay|
  {
    if IsPrefix(needle, hay) {
      assert OccursAt(hay, needle, 0);
    } else if hay != [] {
      ContainsIffOccurs(hay[1..], needle);
      if exists i :: OccursAt(hay[1..], needle, i) {
        var i :| OccursAt(hay[1..], needle, i);
        assert hay[1..][i..i + |needle|] == hay[i + 1..i + 1 + |needle|];
        assert OccursAt(hay, needle, i + 1);
      }
      if exists i :: OccursAt(hay, needle, i) {
        var i :| OccursAt(hay, needle, i);
        assert i != 0;
        assert hay[1..][i - 1..i - 1 + |needle|] == hay[i..i + |needle|];
        assert OccursAt(hay[1..], needle, i - 1);
      }
    }
  }

  /** Between strings of equal length, containment is equality. */
  lemma ContainsSameLength(hay: string, needle: string)
    requires |hay| == |needle|
    ensures Contains(hay, needle) <==> hay == needle
  {
    if hay != [] {
      assert !Contains(hay[1..], needle);
    }
  }

  // ---------------------------------------------------------------------------
  // str(n) for an int
  // ---------------------------------------------------------------------------

  predicate IsDigit(c: char) {
    '0' <= c <= '9'
  }

  function DigitChar(d: nat): (c: char)
    requires d < 10
    ensures IsDigit(c)
  {
    ('0' as int + d) as char
  }

  function DigitValue(c: char): nat {
    if IsDigit(c) then c as int - '0' as int else 0
  }

  /** Decimal rendering of a natural number, most significant digit first,
      without leading zeros. */
  function NatToString(n: nat): (s: string)
    ensures |s| > 0
    ensures forall i :: 0 <= i < |s| ==> IsDigit(s[i])
    ensures s[0] == '0' ==> s == "0"
    decreases n
  {
    if n < 10 then [DigitChar(n)] else NatToString(n / 10) + [DigitChar(n % 10)]
  }

  /** `str(n)`: a minus sign in front of the magnitude for negative numbers. */
  function IntToString(n: int): (s: string)
    ensures |s| > (if n < 0 then 1 else 0)
    ensures s[0] == '-' <==> n < 0
    ensures forall i :: (if n < 0 then 1 else 0) <= i < |s| ==> IsDigit(s[i])
    ensures s[if n < 0 then 1 else 0] == '0' ==> s == "0"
  {
    if n < 0 then "-" + NatToString(-n) else NatToString(n)
  }

  // ---------------------------------------------------------------------------
  // int(s) for a string, base 10
  // ---------------------------------------------------------------------------

  /** The ASCII characters `int` skips around a number: tab, line feed,
      vertical tab, form feed, carriage return and the space. The separators
      0x1C..0x1F, which `str.strip` would remove, are not among them. */
  predicate IsSpace(c: char) {
    var k := c as int;
    0x09 <= k <= 0x0D || k == 0x20
  }

  function StripLeft(s: string): (r: string)
    ensures r == [] || !IsSpace(r[0])
    ensures |r| <= |s|
  {
    if s != [] && IsSpace(s[0]) then StripLeft(s[1..]) else s
  }

  function StripRight(s: string): (r: string)
    ensures r == [] || !IsSpace(r[|r| - 1])
    ensures |r| <= |s|
  {
    if s != [] && IsSpace(s[|s| - 1]) then StripRight(s[..|s| - 1]) else s
  }

  /** Stripping on the left leaves a suffix of the text. */
  lemma {:induction false} StripLeftIsSuffix(s: string)
    ensures StripLeft(s) == s[|s| - |StripLeft(s)|..]
    decreases |s|
  {
    if s != [] && IsSpace(s[0]) {
      StripLeftIsSuffix(s[1..]);
    }
  }

  /** Stripping on the right leaves a prefix of the text. */
  lemma {:induction false} StripRightIsPrefix(s: string)
    ensures StripRight(s) == s[..|StripRight(s)|]
    decreases |s|
  {
    if s != [] && IsSpace(s[|s| - 1]) {
      StripRightIsPrefix(s[..|s| - 1]);
    }
  }

  /** Text made of white space only. */
  predicate AllSpace(t: string) {
    forall i :: 0 <= i < |t| ==> IsSpace(t[i])
  }

  /** `r` is `s` without some white space at its start and some at its end:
      the middle is kept as it is. */
  ghost predicate Trims(s: string, r: string) {
    exists a, b :: 0 <= a <= b <= |s| && r == s[a..b] && AllSpace(s[..a]) && AllSpace(s[b..])
  }

  /** What stripping on the left removes is white space. */
  lemma {:induction false} StripLeftSkips(s: string)
    ensures AllSpace(s[..|s| - |StripLeft(s)|])
    decreases |s|
  {
    if s != [] && IsSpace(s[0]) {
      StripLeftSkips(s[1..]);
      var k := |s| - |StripLeft(s)|;
      forall i | 0 < i < k ensures IsSpace(s[i]) {
        assert s[i] == s[1..][..k - 1][i - 1];
      }
    }
  }

  /** What stripping on the right removes is white space. */
  lemma {:induction false} StripRightSkips(s: string)
    ensures AllSpace(s[|StripRight(s)|..])
    decreases |s|
  {
    if s != [] && IsSpace(s[|s| - 1]) {
      var init := s[..|s| - 1];
      StripRightSkips(init);
      var k := |StripRight(s)|;
      forall i | k <= i < |s| - 1 ensures IsSpace(s[i]) {
        assert s[i] == init[k..][i - k];
      }
    }
  }

  /** Stripping both ends removes white space only and keeps the middle. */
  lemma StripTrims(s: string)
    ensures Trims(s, StripRight(StripLeft(s)))
  {
    var left := StripLeft(s);
    var right := StripRight(left);
    StripLeftIsSuffix(s);
    StripLeftSkips(s);
    StripRightIsPrefix(left);
    StripRightSkips(left);
    var a := |s| - |left|;
    var b := a + |right|;
    assert right == s[a..b];
    assert s[b..] == left[|right|..];
  }

  /** Text whose first `a` characters are white space and whose next one is
      not loses exactly those `a` characters on the left. */
  lemma {:induction false} StripLeftOfPadded(s: string, a: nat)
    requires a < |s| && AllSpace(s[..a]) && !IsSpace(s[a])
    ensures StripLeft(s) == s[a..]
    decreases a
  {
    if a > 0 {
      assert IsSpace(s[..a][0]);
      var rest := s[1..];
      var pad := rest[..a - 1];
      forall i | 0 <= i < |pad| ensures IsSpace(pad[i]) {
        assert pad[i] == s[..a][i + 1];
      }
      assert rest[a - 1] == s[a];
      StripLeftOfPadded(rest, a - 1);
      assert rest[a - 1..] == s[a..];
    }
  }

  /** Text that is white space from `b` on and not just before loses
      exactly that tail on the right. */
  lemma {:induction false} StripRightOfPadded(t: string, b: nat)
    requires 0 < b <= |t| && AllSpace(t[b..]) && !IsSpace(t[b - 1])
    ensures StripRight(t) == t[..b]
    decreases |t|
  {
    if b < |t| {
      var init := t[..|t| - 1];
      assert IsSpace(t[b..][|t| - 1 - b]);
      forall i | 0 <= i < |init| - b ensures IsSpace(init[b..][i]) {
        assert init[b..][i] == t[b..][i];
      }
      StripRightOfPadded(init, b);
      assert init[..b] == t[..b];
    }
  }

  /** Every character left by `Strip` comes from the text. */
  lemma StripKeepsCharacters(s: string)
    ensures forall i :: 0 <= i < |Strip(s)| ==> Strip(s)[i] in s
  {
    var left := StripLeft(s);
    StripLeftIsSuffix(s);
    StripRightIsPrefix(left);
    forall i | 0 <= i < |Strip(s)| ensures Strip(s)[i] in s {
      assert Strip(s)[i] == left[i] == s[|s| - |left| + i];
    }
  }

  /** The white space `int` skips, removed from both ends. */
  function Strip(s: string): (r: string)
    ensures r == [] || (!IsSpace(r[0]) && !IsSpace(r[|r| - 1]))
    ensures |r| <= |s|
    ensures Trims(s, r)
  {
    StripRightIsPrefix(StripLeft(s));
    StripTrims(s);
    StripRight(StripLeft(s))
  }

  /** Python's base-10 digit string: digits, where a single underscore may
      stand between two digits (`digit ("_"? digit)*`). */
  predicate IsDigitString(s: string)
    decreases |s|
  {
    |s| > 0 && IsDigit(s[|s| - 1]) &&
    var init := s[..|s| - 1];
    init == [] || IsDigitString(init) ||
    (init[|init| - 1] == '_' && IsDigitString(init[..|init| - 1]))
  }

  /** The value of a digit string, underscores skipped. */
  function DigitsValue(s: string): nat
    decreases |s|
  {
    if s == [] then 0
    else if s[|s| - 1] == '_' then DigitsValue(s[..|s| - 1])
    else DigitsValue(s[..|s| - 1]) * 10 + DigitValue(s[|s| - 1])
  }

  /** The text `int` accepts once the padding is gone, denoting `n`: a digit
      string, or a plus or minus sign followed by one. */
  predicate IsNumeral(t: string, n: int) {
    (IsDigitString(t) && n == DigitsValue(t)) ||
    (|t| > 0 && t[0] == '+' && IsDigitString(t[1..]) && n == DigitsValue(t[1..])) ||
    (|t| > 0 && t[0] == '-' && IsDigitString(t[1..]) && n == -(DigitsValue(t[1..]) as int))
  }

  /** `s` is white space, then a numeral denoting `n`, then white space. */
  ghost predicate PaddedNumeral(s: string, n: int) {
    exists a, b :: 0 <= a <= b <= |s| && AllSpace(s[..a]) && AllSpace(s[b..]) && IsNumeral(s[a..b], n)
  }

  /** A digit string starts with a digit, never with an underscore. */
  lemma {:induction false} DigitStringStartsWithDigit(s: string)
    ensures IsDigitString(s) ==> IsDigit(s[0])
    decreases |s|
  {
    if IsDigitString(s) {
      var init := s[..|s| - 1];
      if init == [] {
        assert |s| == 1;
      } else if IsDigitString(init) {
        DigitStringStartsWithDigit(init);
        assert s[0] == init[0];
      } else {
        assert init[|init| - 1] == '_' && IsDigitString(init[..|init| - 1]);
        var front := init[..|init| - 1];
        DigitStringStartsWithDigit(front);
        assert s[0] == front[0];
      }
    }
  }

  /** A numeral starts with a sign or a digit and ends with a digit, so it
      has no white space at either end. */
  lemma NumeralIsUnpadded(t: string, n: int)
    requires IsNumeral(t, n)
    ensures |t| > 0 && !IsSpace(t[0]) && !IsSpace(t[|t| - 1])
  {
    DigitStringStartsWithDigit(t);
    if !IsDigitString(t) {
      assert t[|t| - 1] == t[1..][|t| - 2];
    }
  }

  /** `int(s)`: surrounding white space is stripped, an optional sign is
      followed by a digit string; anything else is a `ValueError` (`None`).
      It gives `n` exactly when `s` is a padded numeral for `n`. */
  function ParseInt(s: string): (r: Option<int>)
    ensures forall n :: r == Some(n) <==> PaddedNumeral(s, n)
    ensures r.Some? ==> exists i :: 0 <= i < |s| && IsDigit(s[i])
  {
    StripThenParseIffAll(s);
    StripKeepsCharacters(s);
    ParseStripped(Strip(s))
  }

  /** `int` on text whose white space is already stripped. */
  function ParseStripped(t: string): (r: Option<int>)
    ensures r.Some? ==> |t| > 0 && IsDigit(t[|t| - 1])
    ensures r.Some? ==> IsNumeral(t, r.value)
    ensures r.None? ==> forall n :: !IsNumeral(t, n)
  {
    DigitStringStartsWithDigit(t);
    if |t| > 0 && (t[0] == '+' || t[0] == '-') then
      if IsDigitString(t[1..]) then
        var magnitude: int := DigitsValue(t[1..]);
        Some(if t[0] == '-' then -magnitude else magnitude)
      else None
    else if IsDigitString(t) then Some(DigitsValue(t))
    else None
  }

  lemma {:induction false} NatToStringParses(n: nat)
    ensures IsDigitString(NatToString(n))
    ensures DigitsValue(NatToString(n)) == n
    decreases n
  {
    var s := NatToString(n);
    if n >= 10 {
      NatToStringParses(n / 10);
      var init := NatToString(n / 10);
      assert s[..|s| - 1] == init;
      assert DigitValue(DigitChar(n % 10)) == n % 10;
    } else {
      assert DigitValue(DigitChar(n)) == n;
    }
  }

  /** Text that neither starts nor ends with white space is left as it is. */
  lemma StripUnpadded(s: string)
    requires s != [] && !IsSpace(s[0]) && !IsSpace(s[|s| - 1])
    ensures Strip(s) == s
  {
    assert StripLeft(s) == s;
  }

  /** `int(str(n)) == n`: rendering an int and parsing it back is the identity. */
  lemma ParseIntRoundTrip(n: int)
    ensures ParseInt(IntToString(n)) == Some(n)
  {
    if n < 0 {
      NegativeRenderingParses(-n);
      assert IntToString(n) == "-" + NatToString(-n);
    } else {
      NaturalRenderingParses(n);
    }
  }

  lemma NegativeRenderingParses(m: nat)
    ensures ParseInt("-" + NatToString(m)) == Some(-(m as int))
  {
    var digits := NatToString(m);
    NatToStringParses(m);
    ParseNegatedDigits(digits);
    assert DigitsValue(digits) == m;
  }

  lemma NaturalRenderingParses(m: nat)
    ensures ParseInt(NatToString(m)) == Some(m)
  {
    NatToStringParses(m);
    ParseIntUnsigned(NatToString(m));
  }


  lemma StripPadded2000()
    ensures Strip(" 2000\n") == "2000"
  {
    assert StripLeft(" 2000\n") == "2000\n";
    assert "2000\n"[..4] == "2000";
  }

  lemma Digits2000()
    ensures IsDigitString("2000") && DigitsValue("2000") == 2000
  {
    assert "2000"[..3] == "200" && "200"[..2] == "20" && "20"[..1] == "2" && "2"[..0] == "";
  }

  lemma Digits1965()
    ensures IsDigitString("1_965") && DigitsValue("1_965") == 1965
  {
    assert "1_965"[..4] == "1_96" && "1_96"[..3] == "1_9" && "1_9"[..2] == "1_";
    assert "1_"[..1] == "1" && "1"[..0] == "";
  }

  /** `int` accepts surrounding white space. */
  lemma ParseIntAcceptsPadding()
    ensures ParseInt(" 2000\n") == Some(2000)
  {
    StripPadded2000();
    Digits2000();
  }

  lemma ParseStrippedNegated(digits: string)
    requires IsDigitString(digits)
    ensures ParseStripped("-" + digits) == Some(-(DigitsValue(digits) as int))
  {
    assert ("-" + digits)[1..] == digits;
  }

  lemma ParseStrippedPlus(digits: string)
    requires IsDigitString(digits)
    ensures ParseStripped("+" + digits) == Some(DigitsValue(digits))
  {
    assert ("+" + digits)[1..] == digits;
  }

  /** A minus sign before a digit string negates its value. */
  lemma ParseNegatedDigits(digits: string)
    requires IsDigitString(digits)
    ensures ParseInt("-" + digits) == Some(-(DigitsValue(digits) as int))
  {
    var t := "-" + digits;
    assert t[|t| - 1] == digits[|digits| - 1];
    StripUnpadded(t);
    ParseStrippedNegated(digits);
  }

  /** A plus sign before a digit string keeps its value. */
  lemma ParsePlusDigits(digits: string)
    requires IsDigitString(digits)
    ensures ParseInt("+" + digits) == Some(DigitsValue(digits))
  {
    var t := "+" + digits;
    assert t[|t| - 1] == digits[|digits| - 1];
    StripUnpadded(t);
    ParseStrippedPlus(digits);
  }

  /** A digit string without padding or sign parses to its value. */
  lemma ParseIntUnsigned(s: string)
    requires IsDigitString(s) && IsDigit(s[0])
    ensures ParseInt(s) == Some(DigitsValue(s))
  {
    StripUnpadded(s);
  }

  /** Text that starts and ends with a digit but is no digit string does not
      convert. */
  lemma ParseIntRejectsMalformed(s: string)
    requires |s| > 0 && IsDigit(s[0]) && IsDigit(s[|s| - 1]) && !IsDigitString(s)
    ensures ParseInt(s) == None
  {
    StripUnpadded(s);
  }

  /** Padding on both sides of a text that neither starts nor ends with
      white space is exactly what `Strip` removes. */
  lemma StripOfPadded(s: string, a: nat, b: nat)
    requires a < b <= |s| && AllSpace(s[..a]) && AllSpace(s[b..])
    requires !IsSpace(s[a]) && !IsSpace(s[b - 1])
    ensures Strip(s) == s[a..b]
  {
    StripLeftOfPadded(s, a);
    var rest := s[a..];
    assert rest[b - a..] == s[b..];
    assert rest[b - a - 1] == s[b - 1];
    StripRightOfPadded(rest, b - a);
    assert rest[..b - a] == s[a..b];
  }

  /** A numeral denotes one value only. */
  lemma NumeralUnique(t: string, n: int, m: int)
    requires IsNumeral(t, n) && IsNumeral(t, m)
    ensures n == m
  {
    DigitStringStartsWithDigit(t);
  }

  /** A successful conversion came from a padded numeral. */
  lemma StripThenParseSound(s: string, n: int)
    requires ParseStripped(Strip(s)) == Some(n)
    ensures PaddedNumeral(s, n)
  {
    var t := Strip(s);
    assert Trims(s, t);
    var a, b :| 0 <= a <= b <= |s| && t == s[a..b] && AllSpace(s[..a]) && AllSpace(s[b..]);
    assert IsNumeral(s[a..b], n);
  }

  /** Stripping a padded numeral leaves the numeral. */
  lemma NumeralStrips(s: string, a: nat, b: nat, n: int)
    requires a <= b <= |s| && AllSpace(s[..a]) && AllSpace(s[b..]) && IsNumeral(s[a..b], n)
    ensures Strip(s) == s[a..b]
  {
    var middle := s[a..b];
    NumeralIsUnpadded(middle, n);
    assert s[a] == middle[0] && s[b - 1] == middle[|middle| - 1];
    StripOfPadded(s, a, b);
  }

  /** A padded numeral converts to the value it denotes. */
  lemma StripThenParseComplete(s: string, n: int)
    requires PaddedNumeral(s, n)
    ensures ParseStripped(Strip(s)) == Some(n)
  {
    var a, b :| 0 <= a <= b <= |s| && AllSpace(s[..a]) && AllSpace(s[b..]) && IsNumeral(s[a..b], n);
    var middle := s[a..b];
    NumeralStrips(s, a, b, n);
    var m :| ParseStripped(middle) == Some(m);
    NumeralUnique(middle, n, m);
  }

  lemma StripThenParseIffAll(s: string)
    ensures forall n :: ParseStripped(Strip(s)) == Some(n) <==> PaddedNumeral(s, n)
  {
    forall n ensures ParseStripped(Strip(s)) == Some(n) <==> PaddedNumeral(s, n) {
      if ParseStripped(Strip(s)) == Some(n) {
        StripThenParseSound(s, n);
      }
      if PaddedNumeral(s, n) {
        StripThenParseComplete(s, n);
      }
    }
  }

  /** `int` refuses text whose first character after the padding is neither
      a sign nor a digit, and a sign followed by an underscore. */
  lemma ParseIntRefusesLeadingJunk()
    ensures ParseInt("x1") == None
    ensures ParseInt("-_1") == None
  {
    StripUnpadded("x1");
    DigitStringStartsWithDigit("x1");
    StripUnpadded("-_1");
    assert "-_1"[1..] == "_1";
    DigitStringStartsWithDigit("_1");
  }

  /** `int` accepts a minus sign and a single underscore between digits. */
  lemma ParseIntAcceptsSignAndUnderscore()
    ensures ParseInt("-1_965") == Some(-1965)
  {
    assert "-1_965" == "-" + "1_965";
    Digits1965();
    ParseNegatedDigits("1_965");
  }

  /** `int` accepts a plus sign. */
  lemma ParseIntAcceptsPlus()
    ensures ParseInt("+7") == Some(7)
  {
    assert "+7" == "+" + "7";
    assert IsDigitString("7") && DigitsValue("7") == 7;
    ParsePlusDigits("7");
  }

  /** A digit string holds nothing but digits and underscores. */
  lemma {:induction false} DigitStringCharacters(s: string)
    requires IsDigitString(s)
    ensures forall i :: 0 <= i < |s| ==> IsDigit(s[i]) || s[i] == '_'
    decreases |s|
  {
    var init := s[..|s| - 1];
    if init != [] {
      if IsDigitString(init) {
        DigitStringCharacters(init);
      } else {
        DigitStringCharacters(init[..|init| - 1]);
        assert forall i :: 0 <= i < |init| - 1 ==> init[i] == init[..|init| - 1][i];
      }
      assert forall i :: 0 <= i < |init| ==> s[i] == init[i];
    }
  }

  /** An information separator is not white space to `int`: the text does
      not convert, although `str.strip` would remove the separator. */
  lemma ParseIntRejectsSeparator()
    ensures ParseInt("\U{1C}2000") == None
  {
    var s := "\U{1C}2000";
    StripUnpadded(s);
    if IsDigitString(s) {
      DigitStringCharacters(s);
    }
  }

  lemma DoubledUnderscoreIsNoDigitString()
    ensures !IsDigitString("1__965")
  {
    assert "1__965"[..5] == "1__96" && "1__96"[..4] == "1__9" && "1__9"[..3] == "1__";
    assert "1__"[..2] == "1_" && "1_"[..1] == "1";
  }

  lemma InnerBlankIsNoDigitString()
    ensures !IsDigitString("19 65")
  {
    assert "19 65"[..4] == "19 6" && "19 6"[..3] == "19 ";
  }

  /** `int` refuses doubled underscores, inner blanks and the empty string. */
  lemma ParseIntRefusals()
    ensures ParseInt("1__965") == None
    ensures ParseInt("19 65") == None
    ensures ParseInt("") == None
  {
    DoubledUnderscoreIsNoDigitString();
    ParseIntRejectsMalformed("1__965");
    InnerBlankIsNoDigitString();
    ParseIntRejectsMalformed("19 65");
  }
}
