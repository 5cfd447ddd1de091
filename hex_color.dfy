/** The `hexToRgb` helper, which exists twice in script.js: once for the particle
    tint (falls back to white) and once for the background (falls back to black).
    Both copies run the same pattern match and the same channel arithmetic; they
    differ only in their fallback, which is a parameter here. */
module HexColor {

  datatype Option<T> = None | Some(value: T)

  /** A colour with three channels. */
  datatype Rgb = Rgb(r: real, g: real, b: real)

  const White := Rgb(1.0, 1.0, 1.0)
  const Black := Rgb(0.0, 0.0, 0.0)

  predicate InUnitRange(c: Rgb) {
    0.0 <= c.r <= 1.0 && 0.0 <= c.g <= 1.0 && 0.0 <= c.b <= 1.0
  }

  /** One character of the class `[a-f\d]` under the case-insensitive flag. */
  predicate IsHexDigit(c: char) {
    '0' <= c <= '9' || 'a' <= c <= 'f' || 'A' <= c <= 'F'
  }

  /** The value `parseInt` gives a single hexadecimal digit. */
  function DigitValue(c: char): (v: nat)
    requires IsHexDigit(c)
    ensures v < 16
  {
    if c <= '9' then c as int - '0' as int
    else if c <= 'F' then c as int - 'A' as int + 10
    else c as int - 'a' as int + 10
  }

  /** Writes a digit value back as a character, in upper or lower case. */
  function HexDigit(v: nat, upper: bool): (c: char)
    requires v < 16
    ensures IsHexDigit(c) && DigitValue(c) == v
  {
    if v < 10 then ('0' as int + v) as char
    else if upper then ('A' as int + v - 10) as char
    else ('a' as int + v - 10) as char
  }

  function LowerAscii(c: char): char {
    if 'A' <= c <= 'Z' then (c as int + 32) as char else c
  }

  function LowerCase(s: string): (t: string)
    ensures |t| == |s|
  {
    seq(|s|, k requires 0 <= k < |s| => LowerAscii(s[k]))
  }

  /** The whole-string pattern `^#?([a-f\d]{2})([a-f\d]{2})([a-f\d]{2})$` with the
      `i` flag: an optional `#`, then exactly six hexadecimal digits of either
      case, and nothing else. */
  predicate MatchesHexColor(s: string) {
    || (|s| == 6 && forall k :: 0 <= k < 6 ==> IsHexDigit(s[k]))
    || (|s| == 7 && s[0] == '#' && forall k :: 1 <= k < 7 ==> IsHexDigit(s[k]))
  }

  predicate AllHexDigits(s: string) {
    |s| == 0 || (IsHexDigit(s[0]) && AllHexDigits(s[1..]))
  }

  lemma {:induction false} AllHexDigitsEach(s: string)
    ensures AllHexDigits(s) <==> forall k :: 0 <= k < |s| ==> IsHexDigit(s[k])
  {
    if |s| > 0 {
      AllHexDigitsEach(s[1..]);
      assert forall k :: 1 <= k < |s| ==> s[k] == s[1..][k - 1];
    }
  }

  /** One channel: the digit pair read as a base-16 number, divided by 255. */
  function Channel(hi: char, lo: char): (v: real)
    requires IsHexDigit(hi) && IsHexDigit(lo)
    ensures 0.0 <= v <= 1.0
  {
    (16 * DigitValue(hi) + DigitValue(lo)) as real / 255.0
  }

  /** The pattern match and the three `parseInt(…, 16) / 255` conversions;
      `None` is the failed match. */
  function ParseHexColor(hex: string): (r: Option<Rgb>)
    ensures r.Some? <==> MatchesHexColor(hex)
    ensures r.Some? ==> InUnitRange(r.value)
  {
    var digits := if |hex| > 0 && hex[0] == '#' then hex[1..] else hex;
    AllHexDigitsEach(digits);
    assert |hex| == 7 && hex[0] == '#' ==> forall k :: 1 <= k < 7 ==> hex[k] == digits[k - 1];
    if |digits| == 6 && AllHexDigits(digits) then
      Some(Rgb(Channel(digits[0], digits[1]), Channel(digits[2], digits[3]), Channel(digits[4], digits[5])))
    else
      None
  }

  /** `hexToRgb` with the given fallback colour. */
  function HexToRgb(hex: string, fallback: Rgb): (c: Rgb)
    ensures MatchesHexColor(hex) ==> ParseHexColor(hex) == Some(c) && InUnitRange(c)
    ensures !MatchesHexColor(hex) ==> c == fallback
  {
    match ParseHexColor(hex)
    case Some(parsed) => parsed
    case None => fallback
  }

  /** The copy inside `createParticles`: an unparseable tint means white. */
  function SamplerTint(hex: string): (c: Rgb)
    ensures InUnitRange(c)
    ensures MatchesHexColor(hex) ==> ParseHexColor(hex) == Some(c)
    ensures !MatchesHexColor(hex) ==> c == White
  {
    HexToRgb(hex, White)
  }

  /** The copy inside `render`: an unparseable background means black. */
  function BackgroundColor(hex: string): (c: Rgb)
    ensures InUnitRange(c)
    ensures MatchesHexColor(hex) ==> ParseHexColor(hex) == Some(c)
    ensures !MatchesHexColor(hex) ==> c == Black
  {
    HexToRgb(hex, Black)
  }

  /** Three byte values written as six hexadecimal digits, with or without `#`. */
  function FormatHex(r: nat, g: nat, b: nat, upper: bool, hash: bool): (s: string)
    requires r < 256 && g < 256 && b < 256
  {
    (if hash then "#" else "")
      + [HexDigit(r / 16, upper), HexDigit(r % 16, upper),
         HexDigit(g / 16, upper), HexDigit(g % 16, upper),
         HexDigit(b / 16, upper), HexDigit(b % 16, upper)]
  }

  /** Parsing a formatted colour gives back each byte divided by 255, whatever
      the case of the digits and whether or not the `#` is present. */
  lemma ParseFormatted(r: nat, g: nat, b: nat, upper: bool, hash: bool)
    requires r < 256 && g < 256 && b < 256
    ensures ParseHexColor(FormatHex(r, g, b, upper, hash))
            == Some(Rgb(r as real / 255.0, g as real / 255.0, b as real / 255.0))
  {
    var s := FormatHex(r, g, b, upper, hash);
    var digits := if hash then s[1..] else s;
    assert digits == [HexDigit(r / 16, upper), HexDigit(r % 16, upper),
                      HexDigit(g / 16, upper), HexDigit(g % 16, upper),
                      HexDigit(b / 16, upper), HexDigit(b % 16, upper)];
    assert MatchesHexColor(s);
    assert Channel(digits[0], digits[1]) == r as real / 255.0;
    assert Channel(digits[2], digits[3]) == g as real / 255.0;
    assert Channel(digits[4], digits[5]) == b as real / 255.0;
  }

  /** Upper- and lower-case digits parse to the same colour, and a string
      matches exactly when its lower-case form matches. */
  lemma CaseInsensitive(s: string)
    ensures MatchesHexColor(LowerCase(s)) <==> MatchesHexColor(s)
    ensures ParseHexColor(LowerCase(s)) == ParseHexColor(s)
  {
    var t := LowerCase(s);
    forall k | 0 <= k < |s|
      ensures IsHexDigit(t[k]) <==> IsHexDigit(s[k])
      ensures IsHexDigit(s[k]) ==> DigitValue(t[k]) == DigitValue(s[k])
    {
      assert t[k] == LowerAscii(s[k]);
    }
    if |s| > 0 {
      assert t[0] == '#' <==> s[0] == '#';
    }
    if MatchesHexColor(s) {
      var o := if s[0] == '#' then 1 else 0;
      var ds := s[o..];
      var dt := t[o..];
      assert forall k :: 0 <= k < 6 ==> ds[k] == s[o + k] && dt[k] == t[o + k];
      assert Channel(dt[0], dt[1]) == Channel(ds[0], ds[1]);
      assert Channel(dt[2], dt[3]) == Channel(ds[2], ds[3]);
      assert Channel(dt[4], dt[5]) == Channel(ds[4], ds[5]);
    }
  }

  /** The two configured colours and the fallback cases: `#404040` is the tint
      (64/255 per channel), `#141414` the background (20/255 per channel),
      `#ffffff` is white and `notacolor` falls back to white as a tint and to
      black as a background. */
  lemma ConfiguredColours()
    ensures SamplerTint("#404040") == Rgb(64.0 / 255.0, 64.0 / 255.0, 64.0 / 255.0)
    ensures BackgroundColor("#141414") == Rgb(20.0 / 255.0, 20.0 / 255.0, 20.0 / 255.0)
    ensures SamplerTint("#ffffff") == White
    ensures SamplerTint("notacolor") == White && BackgroundColor("notacolor") == Black
  {
    ParseFormatted(64, 64, 64, false, true);
    assert FormatHex(64, 64, 64, false, true) == "#404040";
    ParseFormatted(20, 20, 20, false, true);
    assert FormatHex(20, 20, 20, false, true) == "#141414";
    ParseFormatted(255, 255, 255, false, true);
    assert FormatHex(255, 255, 255, false, true) == "#ffffff";
    assert !MatchesHexColor("notacolor");
  }
}
