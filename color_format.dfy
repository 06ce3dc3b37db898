/**
 The colour-format conversions of the colour picker: hex text to an RGB
 triple and back, the `0x` rendering of hex text, and the validity test for
 typed text. Hex digits are those of the hex colour notation of CSS Color
 Module Level 4, section 5.2; the three-digit shorthand stands for the
 six-digit form with every digit doubled.
 */
module ColorFormat {
  import opened JsString

  datatype Option<T> = None | Some(value: T)

  /** The `{ r, g, b }` object the conversions pass around. */
  datatype Rgb = Rgb(r: int, g: int, b: int)

  predicate IsByte(n: int) { 0 <= n <= 255 }

  predicate InRange(c: Rgb) { IsByte(c.r) && IsByte(c.g) && IsByte(c.b) }

  predicate IsHexChar(c: char) { '0' <= c <= '9' || 'a' <= c <= 'f' || 'A' <= c <= 'F' }

  predicate IsLowerHexChar(c: char) { '0' <= c <= '9' || 'a' <= c <= 'f' }

  predicate AllHex(s: string) { forall i :: 0 <= i < |s| ==> IsHexChar(s[i]) }

  predicate AllLowerHex(s: string) { forall i :: 0 <= i < |s| ==> IsLowerHexChar(s[i]) }

  /** The value of one hexadecimal digit, in either case. */
  function DigitValue(c: char): (v: nat)
    requires IsHexChar(c)
    ensures v < 16
  {
    if c <= '9' then c as int - '0' as int
    else if 'a' <= c then c as int - 'a' as int + 10
    else c as int - 'A' as int + 10
  }

  /** The digit `Number.prototype.toString(16)` writes for `d`: always lower case. */
  function HexDigit(d: nat): (c: char)
    requires d < 16
    ensures IsLowerHexChar(c) && DigitValue(c) == d
  {
    if d < 10 then ('0' as int + d) as char else ('a' as int + d - 10) as char
  }

  /** A hex digit in lower case. */
  function LowerHex(c: char): (l: char)
    requires IsHexChar(c)
    ensures IsLowerHexChar(l) && DigitValue(l) == DigitValue(c)
  {
    if 'A' <= c <= 'F' then (c as int - 'A' as int + 'a' as int) as char else c
  }

  /** Every digit of `s` in lower case. */
  function LowerAll(s: string): (l: string)
    requires AllHex(s)
    ensures |l| == |s| && forall i :: 0 <= i < |s| ==> l[i] == LowerHex(s[i])
  {
    if s == [] then [] else [LowerHex(s[0])] + LowerAll(s[1..])
  }

  /** The lower-case digit of a value is the lower-case form of any digit
      that has that value. */
  lemma HexDigitOfValue(c: char)
    requires IsHexChar(c)
    ensures HexDigit(DigitValue(c)) == LowerHex(c)
  {
  }

  function Pow16(n: nat): (p: nat)
    ensures p >= 1
  {
    if n == 0 then 1 else 16 * Pow16(n - 1)
  }

  /** `parseInt(s, 16)` on a string of hex digits: the digits read most
      significant first. */
  function HexValue(s: string): (v: nat)
    requires AllHex(s)
    ensures v < Pow16(|s|)
  {
    if s == [] then 0 else 16 * HexValue(s[..|s| - 1]) + DigitValue(s[|s| - 1])
  }

  /** `n.toString(16)` for a non-negative integer: lower-case digits, most
      significant first, with no leading zero. */
  function Base16(n: nat): (s: string)
    ensures 1 <= |s| && AllLowerHex(s)
    ensures |s| == 1 <==> n < 16
    ensures s[0] == '0' <==> n == 0
  {
    if n < 16 then [HexDigit(n)] else Base16(n / 16) + [HexDigit(n % 16)]
  }

  /** Reading back the digits `toString(16)` writes gives the number again. */
  lemma {:induction false} Base16RoundTrip(n: nat)
    ensures AllHex(Base16(n)) && HexValue(Base16(n)) == n
  {
    var s := Base16(n);
    if n >= 16 {
      Base16RoundTrip(n / 16);
      assert s[..|s| - 1] == Base16(n / 16);
    }
  }

  /** `n.toString(16)` for any integer: a minus sign before the digits of a
      negative number. */
  function ToString16(n: int): (s: string)
    ensures 1 <= |s| && (s[0] == '-' <==> n < 0)
    ensures |s| == 1 <==> 0 <= n < 16
  {
    if n < 0 then "-" + Base16(-n) else Base16(n)
  }

  /** The `toHex` helper of `rgbToHex`: pads a one-character result with a
      leading `0`, and leaves longer results alone. */
  function ToHex(n: int): (s: string)
    ensures |s| >= 2
    ensures 0 <= n < 16 ==> s[0] == '0'
  {
    var h := ToString16(n);
    if |h| == 1 then "0" + h else h
  }

  /** For a channel in [0, 255], `toHex` writes exactly two lower-case
      digits: the high and the low nibble, so a value below 16 gets a
      leading `0`, and they read back as the value. */
  lemma ToHexByte(n: int)
    requires IsByte(n)
    ensures ToHex(n) == [HexDigit(n / 16), HexDigit(n % 16)]
    ensures n < 16 ==> ToHex(n)[0] == '0'
    ensures AllLowerHex(ToHex(n))
    ensures AllHex(ToHex(n)) && HexValue(ToHex(n)) == n
  {
    var s := [HexDigit(n / 16), HexDigit(n % 16)];
    if n < 16 {
      assert ToString16(n) == [HexDigit(n)];
      assert HexDigit(0) == '0';
      assert ToHex(n) == s;
    } else {
      assert Base16(n / 16) == [HexDigit(n / 16)];
      assert ToString16(n) == s;
    }
    HexValuePair(s[0], s[1]);
  }

  /** `rgbToHex`: `#` followed by the `toHex` rendering of each channel. */
  function RgbToHex(r: int, g: int, b: int): (h: string)
    ensures |h| >= 7 && h[0] == '#'
  {
    "#" + ToHex(r) + ToHex(g) + ToHex(b)
  }

  /** `#` and three two-character pieces, laid out one after the other. */
  lemma HashAndPairs(x: string, y: string, z: string)
    requires |x| == 2 && |y| == 2 && |z| == 2
    ensures var h := "#" + x + y + z;
      && |h| == 7 && h[0] == '#' && h[1..] == x + y + z
      && h[1..3] == x && h[3..5] == y && h[5..7] == z
  {
    var h := "#" + x + y + z;
    assert h[1..] == x + y + z;
  }

  lemma AllLowerHexJoin(x: string, y: string, z: string)
    requires AllLowerHex(x) && AllLowerHex(y) && AllLowerHex(z)
    ensures AllLowerHex(x + y + z)
  {
    var s := x + y + z;
    forall i | 0 <= i < |s|
      ensures IsLowerHexChar(s[i])
    {
      if i < |x| { assert s[i] == x[i]; }
      else if i < |x| + |y| { assert s[i] == y[i - |x|]; }
      else { assert s[i] == z[i - |x| - |y|]; }
    }
  }

  /** For channels in [0, 255], `rgbToHex` gives seven characters: `#` and
      two zero-padded lower-case digits per channel, red then green then blue. */
  lemma RgbToHexShape(r: int, g: int, b: int)
    requires IsByte(r) && IsByte(g) && IsByte(b)
    ensures var h := RgbToHex(r, g, b);
      && |h| == 7 && h[0] == '#' && AllLowerHex(h[1..])
      && h[1..3] == ToHex(r) && h[3..5] == ToHex(g) && h[5..7] == ToHex(b)
      && h[1..3] == [HexDigit(r / 16), HexDigit(r % 16)]
      && h[3..5] == [HexDigit(g / 16), HexDigit(g % 16)]
      && h[5..7] == [HexDigit(b / 16), HexDigit(b % 16)]
  {
    ToHexByte(r);
    ToHexByte(g);
    ToHexByte(b);
    HashAndPairs(ToHex(r), ToHex(g), ToHex(b));
    AllLowerHexJoin(ToHex(r), ToHex(g), ToHex(b));
  }

  /** `hex.replace('#', '')`: the text with its first `#` removed. */
  function StripHash(hex: string): (t: string)
    ensures |hex| - 1 <= |t| <= |hex|
    ensures hex != [] && hex[0] == '#' ==> t == hex[1..]
  {
    RemoveFirstCases(hex, '#');
    RemoveFirst(hex, '#')
  }

  /** Text without `#` has nothing to remove. */
  lemma StripHashNoHash(s: string)
    requires forall j :: 0 <= j < |s| ==> s[j] != '#'
    ensures StripHash(s) == s
  {
    RemoveFirstCases(s, '#');
  }

  /** `s.split('').map(char => char + char).join('')`: every character
      written twice. */
  function Doubled(s: string): (d: string)
    ensures |d| == 2 * |s|
    ensures forall j :: 0 <= j < |d| ==> d[j] == s[j / 2]
  {
    if s == [] then [] else [s[0], s[0]] + Doubled(s[1..])
  }

  lemma DoubledHex(t: string)
    requires AllHex(t)
    ensures AllHex(Doubled(t))
  {
    var d := Doubled(t);
    assert forall j :: 0 <= j < |d| ==> d[j] == t[j / 2];
  }

  /** The inputs on which `hexToRgb` is modelled: once the first `#` is
      gone, a text of the two decoded lengths consists of hex digits. Text of
      any other length is decoded (to `null`) whatever its characters. */
  predicate Decodable(hex: string)
  {
    var t := StripHash(hex);
    (|t| == 3 || |t| == 6) ==> AllHex(t)
  }

  /** The six digits `hexToRgb` decodes: the text without its first `#`,
      with the three-digit shorthand doubled out. */
  function Expanded(hex: string): (six: string)
    ensures |six| == 6 <==> |StripHash(hex)| == 3 || |StripHash(hex)| == 6
  {
    var t := StripHash(hex);
    if |t| == 3 then Doubled(t) else t
  }

  /** `hexToRgb`: `null` (here `None`) exactly when the text, once its first
      `#` is removed, is neither three nor six characters long; otherwise
      three channels in [0, 255] read from the six-digit form. */
  function HexToRgb(hex: string): (res: Option<Rgb>)
    requires Decodable(hex)
    ensures res.None? <==> |StripHash(hex)| != 3 && |StripHash(hex)| != 6
    ensures res.Some? ==> InRange(res.value)
  {
    var six := Expanded(hex);
    if |six| != 6 then None
    else
      assert AllHex(six);
      Some(Rgb(HexValue(six[0..2]), HexValue(six[2..4]), HexValue(six[4..6])))
  }

  lemma HexValuePair(a: char, b: char)
    requires IsHexChar(a) && IsHexChar(b)
    ensures HexValue([a, b]) == 16 * DigitValue(a) + DigitValue(b)
  {
    assert [a, b][..1] == [a];
  }

  /** A decoded channel is the value of its two digits. */
  lemma DecodedChannels(hex: string)
    requires Decodable(hex) && HexToRgb(hex).Some?
    ensures var six := Expanded(hex); var c := HexToRgb(hex).value;
      && |six| == 6 && AllHex(six)
      && c.r == 16 * DigitValue(six[0]) + DigitValue(six[1])
      && c.g == 16 * DigitValue(six[2]) + DigitValue(six[3])
      && c.b == 16 * DigitValue(six[4]) + DigitValue(six[5])
  {
    ExpandedHex(hex);
    PairValues(Expanded(hex));
  }

  lemma ExpandedHex(hex: string)
    requires Decodable(hex) && (|StripHash(hex)| == 3 || |StripHash(hex)| == 6)
    ensures |Expanded(hex)| == 6 && AllHex(Expanded(hex))
  {
    var t := StripHash(hex);
    if |t| == 3 {
      DoubledHex(t);
    }
  }

  /** Six digits read as three two-digit numbers. */
  lemma PairValues(six: string)
    requires |six| == 6 && AllHex(six)
    ensures HexValue(six[0..2]) == 16 * DigitValue(six[0]) + DigitValue(six[1])
    ensures HexValue(six[2..4]) == 16 * DigitValue(six[2]) + DigitValue(six[3])
    ensures HexValue(six[4..6]) == 16 * DigitValue(six[4]) + DigitValue(six[5])
  {
    assert six[0..2] == [six[0], six[1]];
    assert six[2..4] == [six[2], six[3]];
    assert six[4..6] == [six[4], six[5]];
    HexValuePair(six[0], six[1]);
    HexValuePair(six[2], six[3]);
    HexValuePair(six[4], six[5]);
  }

  /** The three-digit shorthand decodes as its digit-doubled six-digit form
      does: each channel is 17 times its digit. */
  lemma ShorthandExpansion(hex: string)
    requires Decodable(hex) && |StripHash(hex)| == 3
    ensures var t := StripHash(hex);
      && Decodable(Doubled(t))
      && HexToRgb(hex) == HexToRgb(Doubled(t))
      && HexToRgb(hex) == Some(Rgb(17 * DigitValue(t[0]), 17 * DigitValue(t[1]), 17 * DigitValue(t[2])))
  {
    var t := StripHash(hex);
    var d := Doubled(t);
    DoubledDigits(t);
    assert Expanded(hex) == d;
    assert Expanded(d) == d;
    PairValues(d);
  }

  /** The doubled form of three digits is six digits, each digit twice, and
      has no `#` to remove. */
  lemma DoubledDigits(t: string)
    requires |t| == 3 && AllHex(t)
    ensures var d := Doubled(t);
      && |d| == 6 && AllHex(d) && StripHash(d) == d
      && d[0] == d[1] == t[0] && d[2] == d[3] == t[1] && d[4] == d[5] == t[2]
  {
    var d := Doubled(t);
    DoubledHex(t);
    assert forall j :: 0 <= j < |d| ==> IsHexChar(d[j]);
    StripHashNoHash(d);
  }

  /** Text whose digits, once the first `#` is gone, are `abc` decodes to
      170, 187, 204. */
  lemma AbcDecodes(hex: string)
    requires StripHash(hex) == "abc"
    ensures Decodable(hex) && HexToRgb(hex) == Some(Rgb(170, 187, 204))
  {
    assert AllHex("abc");
    ShorthandExpansion(hex);
    assert DigitValue('a') == 10 && DigitValue('b') == 11 && DigitValue('c') == 12;
  }

  /** `abc`, `#abc` and `aabbcc` all decode to 170, 187, 204. */
  lemma ShorthandExample(short: string, hashed: string, long: string)
    requires short == "abc" && hashed == "#abc" && long == "aabbcc"
    ensures Decodable(short) && Decodable(hashed) && Decodable(long)
    ensures HexToRgb(short) == HexToRgb(hashed) == HexToRgb(long) == Some(Rgb(170, 187, 204))
  {
    assert AllHex(short);
    StripHashNoHash(short);
    AbcDecodes(short);
    assert StripHash(hashed) == hashed[1..] == short;
    AbcDecodes(hashed);
    DoubledAbc();
    ShorthandExpansion(short);
  }

  lemma DoubledAbc()
    ensures Doubled("abc") == "aabbcc"
  {
    assert Doubled("c") == "cc";
    assert Doubled("bc") == "bbcc";
  }

  /** Six digits split into three pairs. */
  lemma SixPieces(x: string, y: string, z: string)
    requires |x| == 2 && |y| == 2 && |z| == 2
    ensures var s := x + y + z; |s| == 6 && s[0..2] == x && s[2..4] == y && s[4..6] == z
  {
  }

  lemma LowerIsHex(s: string)
    requires AllLowerHex(s)
    ensures AllHex(s)
  {
  }

  /** `#` and six hex digits decode pair by pair. */
  lemma DecodeHashSix(h: string, six: string)
    requires |six| == 6 && AllHex(six) && h == "#" + six
    ensures Decodable(h) && Expanded(h) == six
    ensures HexToRgb(h) == Some(Rgb(HexValue(six[0..2]), HexValue(six[2..4]), HexValue(six[4..6])))
  {
    RemoveFirstCases(h, '#');
    assert h[1..] == six;
  }

  /** Decoding the output of `rgbToHex` gives back the channels it was given. */
  lemma RoundTrip(r: int, g: int, b: int)
    requires IsByte(r) && IsByte(g) && IsByte(b)
    ensures Decodable(RgbToHex(r, g, b))
    ensures HexToRgb(RgbToHex(r, g, b)) == Some(Rgb(r, g, b))
  {
    RgbToHexDigits(r, g, b);
    DecodeHashSix(RgbToHex(r, g, b), ToHex(r) + ToHex(g) + ToHex(b));
  }

  /** The six digits after the `#` of `rgbToHex`, pair by pair, read back
      as the channels. */
  lemma RgbToHexDigits(r: int, g: int, b: int)
    requires IsByte(r) && IsByte(g) && IsByte(b)
    ensures var six := ToHex(r) + ToHex(g) + ToHex(b);
      && RgbToHex(r, g, b) == "#" + six && |six| == 6 && AllHex(six)
      && HexValue(six[0..2]) == r && HexValue(six[2..4]) == g && HexValue(six[4..6]) == b
  {
    var x, y, z := ToHex(r), ToHex(g), ToHex(b);
    ToHexByte(r);
    ToHexByte(g);
    ToHexByte(b);
    SixPieces(x, y, z);
    AllLowerHexJoin(x, y, z);
    LowerIsHex(x + y + z);
    assert "#" + x + y + z == "#" + (x + y + z);
  }

  /** The anchored regular expression `^[0-9A-Fa-f]{n}$`: `s` is exactly `n`
      characters of the hex class. */
  predicate MatchesHexRun(s: string, n: nat)
  {
    if n == 0 then s == [] else s != [] && IsHexChar(s[0]) && MatchesHexRun(s[1..], n - 1)
  }

  lemma {:induction false} MatchesHexRunIff(s: string, n: nat)
    ensures MatchesHexRun(s, n) <==> |s| == n && AllHex(s)
  {
    if n > 0 && s != [] {
      MatchesHexRunIff(s[1..], n - 1);
      if AllHex(s) { assert AllHex(s[1..]); }
      if |s| == n && AllHex(s[1..]) && IsHexChar(s[0]) {
        assert forall i :: 1 <= i < |s| ==> s[i] == s[1..][i - 1];
      }
    }
  }

  /** `isValidHex`: once the first `#` is removed, the text matches
      `^[0-9A-Fa-f]{3}$|^[0-9A-Fa-f]{6}$`, that is, it is exactly three or
      exactly six hex digits of either case. Valid text always decodes. */
  function IsValidHex(hex: string): (valid: bool)
    ensures valid <==> (|StripHash(hex)| == 3 || |StripHash(hex)| == 6) && AllHex(StripHash(hex))
    ensures valid ==> Decodable(hex) && HexToRgb(hex).Some? && InRange(HexToRgb(hex).value)
  {
    var t := StripHash(hex);
    MatchesHexRunIff(t, 3);
    MatchesHexRunIff(t, 6);
    MatchesHexRun(t, 3) || MatchesHexRun(t, 6)
  }

  /** On text it can decode, `hexToRgb` succeeds exactly on the text
      `isValidHex` accepts. */
  lemma ValidIffDecodes(hex: string)
    requires Decodable(hex)
    ensures IsValidHex(hex) <==> HexToRgb(hex).Some?
  {
  }

  /** A channel read from two digits is written back as those two digits
      in lower case. */
  lemma ToHexOfDigits(v: int, a: char, b: char)
    requires IsHexChar(a) && IsHexChar(b) && v == 16 * DigitValue(a) + DigitValue(b)
    ensures ToHex(v) == [LowerHex(a), LowerHex(b)]
  {
    ToHexByte(v);
    assert v / 16 == DigitValue(a) && v % 16 == DigitValue(b);
    HexDigitOfValue(a);
    HexDigitOfValue(b);
  }

  lemma JoinPairs(l: string, x: string, y: string, z: string)
    requires |l| == 6 && x == [l[0], l[1]] && y == [l[2], l[3]] && z == [l[4], l[5]]
    ensures "#" + x + y + z == "#" + l
  {
  }

  /** Channels read from six digits are written back as those six digits
      in lower case. */
  lemma RgbToHexOfDigits(six: string, c: Rgb)
    requires |six| == 6 && AllHex(six)
    requires c.r == 16 * DigitValue(six[0]) + DigitValue(six[1])
    requires c.g == 16 * DigitValue(six[2]) + DigitValue(six[3])
    requires c.b == 16 * DigitValue(six[4]) + DigitValue(six[5])
    ensures RgbToHex(c.r, c.g, c.b) == "#" + LowerAll(six)
  {
    ToHexOfDigits(c.r, six[0], six[1]);
    ToHexOfDigits(c.g, six[2], six[3]);
    ToHexOfDigits(c.b, six[4], six[5]);
    var l := LowerAll(six);
    JoinPairs(l, ToHex(c.r), ToHex(c.g), ToHex(c.b));
  }

  /** The colour `rgbToHex` writes for decoded text is the lower-case
      six-digit expansion of that text: the canonical form of what was typed. */
  lemma CanonicalForm(hex: string)
    requires IsValidHex(hex)
    ensures var c := HexToRgb(hex).value;
      RgbToHex(c.r, c.g, c.b) == "#" + LowerAll(Expanded(hex))
  {
    DecodedChannels(hex);
    RgbToHexOfDigits(Expanded(hex), HexToRgb(hex).value);
  }

  /** `hexToOx`: the text without its first `#`, after `0x`. */
  function HexToOx(hex: string): (ox: string)
    ensures |ox| == |StripHash(hex)| + 2 && ox[..2] == "0x"
  {
    "0x" + StripHash(hex)
  }

  /** `0x` stands in place of a leading `#`; text without any `#` simply
      gets `0x` in front; the result is one character longer than the text
      when it holds a `#`, two when it does not. */
  lemma HexToOxForm(hex: string)
    ensures (forall j :: 0 <= j < |hex| ==> hex[j] != '#') ==> HexToOx(hex) == "0x" + hex
    ensures hex != [] && hex[0] == '#' ==> HexToOx(hex) == "0x" + hex[1..]
    ensures |HexToOx(hex)| == if IndexOf(hex, '#') == -1 then |hex| + 2 else |hex| + 1
  {
    var i := IndexOf(hex, '#');
    if i == -1 {
      assert StripHash(hex) == hex;
    } else {
      assert hex[i] == '#';
      assert |StripHash(hex)| == |hex| - 1;
      if hex[0] == '#' {
        assert i == 0;
        assert StripHash(hex) == hex[1..];
      }
    }
  }

  /** `#` and some text: the `0x` form is `0x` and that text, and putting
      `#` back in place of `0x` gives the original. */
  lemma OxOfHashText(h: string, t: string)
    requires h == "#" + t
    ensures HexToOx(h) == "0x" + t && h[1..] == t
    ensures "#" + HexToOx(h)[2..] == h
  {
    assert h[1..] == t;
    HexToOxForm(h);
    var ox := HexToOx(h);
    assert ox[2..] == t;
  }

  /** The `0x` form of an `rgbToHex` result is `0x` and its six digits,
      eight characters in all, and it decodes (with `#` in place of `0x`) to
      the same channels. */
  lemma OxOfRgbToHex(r: int, g: int, b: int)
    requires IsByte(r) && IsByte(g) && IsByte(b)
    ensures var h := RgbToHex(r, g, b); var ox := HexToOx(h);
      && ox == "0x" + h[1..] && |ox| == 8
      && Decodable("#" + ox[2..]) && HexToRgb("#" + ox[2..]) == Some(Rgb(r, g, b))
  {
    RgbToHexDigits(r, g, b);
    OxOfHashText(RgbToHex(r, g, b), ToHex(r) + ToHex(g) + ToHex(b));
    RoundTrip(r, g, b);
  }

  /** Five digits are refused; six are taken. */
  lemma ValidLengthExamples(five: string, six: string)
    requires five == "12345" && six == "123456"
    ensures !IsValidHex(five) && IsValidHex(six)
  {
    assert |StripHash(five)| != 3 && |StripHash(five)| != 6;
    SixDigitsTaken(six);
  }

  lemma SixDigitsTaken(s: string)
    requires s == "123456"
    ensures IsValidHex(s)
  {
    assert |s| == 6;
    assert IsHexChar(s[0]) && IsHexChar(s[1]) && IsHexChar(s[2]);
    assert IsHexChar(s[3]) && IsHexChar(s[4]) && IsHexChar(s[5]);
    DigitsMatchAsWritten(s);
  }

  lemma DigitsMatchAsWritten(s: string)
    requires |s| == 6 && forall j :: 0 <= j < 6 ==> IsHexChar(s[j])
    ensures IsValidHex(s)
  {
    StripHashNoHash(s);
  }

  /** A non-hex character is refused; a leading `#` is dropped before the
      test. */
  lemma ValidCharExamples(bad: string, good: string)
    requires bad == "gg0000" && good == "#fff"
    ensures !IsValidHex(bad) && IsValidHex(good)
  {
    MatchedAsWritten(bad);
    assert !IsHexChar(bad[0]);
    LeadingHashDropped(good);
  }

  /** Text without `#` is tested as it stands. */
  lemma MatchedAsWritten(s: string)
    requires forall j :: 0 <= j < |s| ==> s[j] != '#'
    ensures IsValidHex(s) <==> (|s| == 3 || |s| == 6) && AllHex(s)
  {
    StripHashNoHash(s);
  }

  /** `#fff` is tested as `fff`. */
  lemma LeadingHashDropped(s: string)
    requires s == "#fff"
    ensures IsValidHex(s)
  {
    assert StripHash(s) == s[1..];
    assert IsHexChar(s[1]) && IsHexChar(s[2]) && IsHexChar(s[3]);
  }

  /** Sliders at 0, 0, 0 and at 255, 165, 0 give `#000000` and `#ffa500`. */
  lemma SliderExamples(black: string, orange: string)
    requires black == "#000000" && orange == "#ffa500"
    ensures RgbToHex(0, 0, 0) == black && RgbToHex(255, 165, 0) == orange
  {
    ToHexByte(0);
    ToHexByte(255);
    ToHexByte(165);
    assert HexDigit(0) == '0' && HexDigit(15) == 'f';
    assert HexDigit(10) == 'a' && HexDigit(5) == '5';
  }
}
