/**
 The colour translation the configuration script applies before sending
 the settings to the watch. The configuration page reports each colour as
 a "0x"-prefixed sunlight-adjusted hex code; every setting whose key
 contains "_COLOR" is turned back into the original palette colour, as a
 number, through the inverted sunlight palette.
 */
module ColorConfig {
  import opened Wrappers
  import opened JsObject

  /** The JSON values a configuration setting can hold. */
  datatype JsValue = JsString(s: string) | JsNumber(n: int) | JsNaN | JsOther

  /** The marker that makes a setting a colour setting. */
  const ColorMarker: string := "_COLOR"

  /** `pat` occurs in `s` starting at index `i`. */
  predicate OccursAt(s: string, pat: string, i: int) {
    0 <= i && i + |pat| <= |s| && s[i..i + |pat|] == pat
  }

  /**
   String.prototype.indexOf: the first index at or after `from` where
   `pat` occurs, or -1 when it does not occur there.
   */
  function IndexOfFrom(s: string, pat: string, from: nat): (r: int)
    ensures r == -1 || (from <= r && OccursAt(s, pat, r))
    ensures r == -1 <==> forall i :: from <= i <= |s| ==> !OccursAt(s, pat, i)
    ensures r != -1 ==> forall i :: from <= i < r ==> !OccursAt(s, pat, i)
    decreases |s| - from
  {
    if from + |pat| > |s| then -1
    else if s[from..from + |pat|] == pat then from
    else IndexOfFrom(s, pat, from + 1)
  }

  function IndexOf(s: string, pat: string): int {
    IndexOfFrom(s, pat, 0)
  }

  /** `k.indexOf("_COLOR") != -1`: the key names a colour setting. */
  predicate IsColorKey(k: string) {
    IndexOf(k, ColorMarker) != -1
  }

  /** A colour key is exactly one containing the marker somewhere. */
  lemma ColorKeyIffContainsMarker(k: string)
    ensures IsColorKey(k) <==> exists i :: OccursAt(k, ColorMarker, i)
  {}

  /** `s.substring(2)`: drops the first two characters, or everything when there are fewer. */
  function DropPrefix2(s: string): (r: string)
    ensures |s| >= 2 ==> s == s[..2] + r
    ensures |s| < 2 ==> r == []
  {
    if |s| >= 2 then s[2..] else []
  }

  predicate IsHexDigit(c: char) {
    ('0' <= c <= '9') || ('a' <= c <= 'f') || ('A' <= c <= 'F')
  }

  /** The value of one hex digit, either case. */
  function HexDigitValue(c: char): (d: nat)
    requires IsHexDigit(c)
    ensures d < 16
  {
    if '0' <= c <= '9' then (c - '0') as nat
    else if 'a' <= c <= 'f' then (c - 'a') as nat + 10
    else (c - 'A') as nat + 10
  }

  /** The lower-case hex digit of a value below 16. */
  function HexDigitChar(d: nat): (c: char)
    requires d < 16
    ensures IsHexDigit(c) && HexDigitValue(c) == d
  {
    if d < 10 then ('0' as int + d) as char else ('a' as int + d - 10) as char
  }

  function Pow16(n: nat): (p: nat)
    ensures p >= 1
  {
    if n == 0 then 1 else 16 * Pow16(n - 1)
  }

  predicate AllHex(s: string) {
    forall i :: 0 <= i < |s| ==> IsHexDigit(s[i])
  }

  /** The number a string of hex digits denotes, most significant digit first. */
  function HexValue(s: string): (v: nat)
    requires AllHex(s)
    ensures v < Pow16(|s|)
  {
    if |s| == 0 then 0
    else HexValue(s[..|s| - 1]) * 16 + HexDigitValue(s[|s| - 1])
  }

  /** The length of the longest prefix of `s` made of hex digits. */
  function HexRun(s: string): (n: nat)
    ensures n <= |s| && AllHex(s[..n])
    ensures n < |s| ==> !IsHexDigit(s[n])
  {
    if |s| == 0 || !IsHexDigit(s[0]) then 0
    else
      var rest := HexRun(s[1..]);
      assert s[..1 + rest] == [s[0]] + s[1..][..rest];
      1 + rest
  }

  /** The sign a parse starts with, and what follows it. */
  function SplitSign(s: string): (int, string) {
    if |s| > 0 && s[0] == '-' then (-1, s[1..])
    else if |s| > 0 && s[0] == '+' then (1, s[1..])
    else (1, s)
  }

  /** What follows an optional "0x" or "0X" prefix. */
  function DropHexPrefix(s: string): string {
    if |s| >= 2 && s[0] == '0' && (s[1] == 'x' || s[1] == 'X') then s[2..] else s
  }

  /**
   `parseInt(s, 16)`: an optional sign, an optional "0x" prefix, then the
   longest run of hex digits; None (NaN) when that run is empty.
   */
  function ParseInt16(s: string): (r: Option<int>)
    ensures r.None? <==> HexRun(DropHexPrefix(SplitSign(s).1)) == 0
  {
    var (sign, unsigned) := SplitSign(s);
    var digits := DropHexPrefix(unsigned);
    var n := HexRun(digits);
    if n == 0 then None else Some(sign * HexValue(digits[..n]))
  }

  /** The `width` low hex digits of `n`, lower case, most significant first. */
  function HexDigits(n: nat, width: nat): (s: string)
    ensures |s| == width && AllHex(s)
  {
    if width == 0 then [] else HexDigits(n / 16, width - 1) + [HexDigitChar(n % 16)]
  }

  /** Reading back the hex digits of a number that fits in them gives the number. */
  lemma {:induction false} HexDigitsValue(n: nat, width: nat)
    requires n < Pow16(width)
    ensures HexValue(HexDigits(n, width)) == n
  {
    if width > 0 {
      var s := HexDigits(n, width);
      assert s[..|s| - 1] == HexDigits(n / 16, width - 1);
      assert n / 16 < Pow16(width - 1);
      HexDigitsValue(n / 16, width - 1);
    }
  }

  /** Round trip: `parseInt("0x" + six hex digits of n, 16)` gives `n` back for every 24-bit colour. */
  lemma ParseHexColorRoundTrip(n: nat)
    requires n < 0x100_0000
    ensures ParseInt16("0x" + HexDigits(n, 6)) == Some(n)
  {
    var hex := HexDigits(n, 6);
    ParseHexColor(hex);
    HexDigitsValue(n, 6);
    assert Pow16(6) == 0x100_0000;
  }

  /** A string of hex digits is read in full. */
  lemma HexRunAllHex(s: string)
    requires AllHex(s)
    ensures HexRun(s) == |s|
  {}

  /** A hex colour code: exactly six hex digits. */
  predicate IsHexColor(s: string) {
    |s| == 6 && AllHex(s)
  }

  /** `parseInt("0x" + code, 16)` of a six-digit code is the number it denotes, below 0x1000000. */
  lemma ParseHexColor(code: string)
    requires IsHexColor(code)
    ensures ParseInt16("0x" + code) == Some(HexValue(code))
    ensures HexValue(code) < 0x100_0000
  {
    assert SplitSign("0x" + code).1 == "0x" + code;
    assert DropHexPrefix("0x" + code) == code;
    HexRunAllHex(code);
    assert code[..6] == code;
    assert Pow16(6) == 0x100_0000;
  }

  /**
   The new value of a colour setting that held the string `s`: strip the
   first two characters, look the rest up in the inverted palette and
   parse the palette key found as hex. A code the palette does not know
   reads as NaN.
   */
  function TranslateColor(inverted: map<string, string>, s: string): (v: JsValue)
    ensures DropPrefix2(s) !in inverted ==> v == JsNaN
    ensures DropPrefix2(s) in inverted && IsHexColor(inverted[DropPrefix2(s)]) ==>
              v == JsNumber(HexValue(inverted[DropPrefix2(s)])) && 0 <= v.n < 0x100_0000
  {
    var code := DropPrefix2(s);
    if code !in inverted then JsNaN
    else
      assert IsHexColor(inverted[code]) ==> ParseInt16("0x" + inverted[code]) == Some(HexValue(inverted[code])) by {
        if IsHexColor(inverted[code]) {
          ParseHexColor(inverted[code]);
        }
      }
      match ParseInt16("0x" + inverted[code])
      case Some(n) => JsNumber(n)
      case None => JsNaN
  }

  /** Every key of the palette is a six-digit hex colour code. */
  predicate HexColorKeys(palette: seq<(string, string)>) {
    forall i :: 0 <= i < |palette| ==> IsHexColor(palette[i].0)
  }

  /**
   The colour translation undoes the sunlight palette: a setting reporting
   "0x" followed by the sunlight code of palette colour `c` becomes the
   number `c` denotes, provided no two palette colours share a sunlight code.
   */
  lemma TranslateUndoesPalette(palette: seq<(string, string)>, color: string, prefix: string)
    requires DistinctKeys(palette) && DistinctValues(palette) && HexColorKeys(palette)
    requires color in KeySet(palette) && |prefix| == 2
    ensures Get(palette, color).Some?
    ensures TranslateColor(Invert(palette), prefix + Get(palette, color).value) == JsNumber(HexValue(color))
  {
    var sunny := Get(palette, color).value;
    InvertOfValueIsKey(palette, color);
    assert DropPrefix2(prefix + sunny) == sunny;
    var i :| 0 <= i < |palette| && palette[i] == (color, sunny);
    assert IsHexColor(palette[i].0);
  }

  /** `parseInt("0x" + undefined, 16)`, the JS reading of a palette miss, is NaN too. */
  lemma MissingCodeIsNaN()
    ensures ParseInt16("0x" + "undefined") == None
  {}

  /**
   One step of the rewrite loop: a setting whose key is not a colour key
   is kept; a colour key holding a string is translated; a colour key
   holding anything else makes `.substring` throw, which is None.
   */
  function RewriteEntry(inverted: map<string, string>, k: string, v: JsValue): (r: Option<JsValue>)
    ensures r.None? <==> IsColorKey(k) && !v.JsString?
    ensures !IsColorKey(k) ==> r == Some(v)
    ensures IsColorKey(k) && v.JsString? && DropPrefix2(v.s) !in inverted ==> r == Some(JsNaN)
    ensures IsColorKey(k) && v.JsString? && DropPrefix2(v.s) in inverted && IsHexColor(inverted[DropPrefix2(v.s)]) ==>
              r == Some(JsNumber(HexValue(inverted[DropPrefix2(v.s)])))
  {
    if !IsColorKey(k) then Some(v)
    else if v.JsString? then Some(TranslateColor(inverted, v.s))
    else None
  }

  /** A colour setting holds a string, so the loop does not throw on it. */
  predicate RewritesCleanly(dict: seq<(string, JsValue)>) {
    forall i :: 0 <= i < |dict| && IsColorKey(dict[i].0) ==> dict[i].1.JsString?
  }

  /**
   The loop over the settings: rewrites every colour setting through the
   inverted palette and leaves every other setting, and the keys and their
   order, untouched. None when some colour setting is not a string.
   */
  function RewriteColors(inverted: map<string, string>, dict: seq<(string, JsValue)>): (r: Option<seq<(string, JsValue)>>)
    ensures r.Some? <==> RewritesCleanly(dict)
    ensures r.Some? ==> |r.value| == |dict|
    ensures r.Some? ==> forall i :: 0 <= i < |dict| ==> r.value[i].0 == dict[i].0
    ensures r.Some? ==> forall i :: 0 <= i < |dict| && !IsColorKey(dict[i].0) ==> r.value[i].1 == dict[i].1
    ensures r.Some? ==> forall i :: 0 <= i < |dict| && IsColorKey(dict[i].0) ==> r.value[i].1 == TranslateColor(inverted, dict[i].1.s)
    decreases |dict|
  {
    if |dict| == 0 then Some([])
    else
      var (k, v) := dict[0];
      match RewriteEntry(inverted, k, v)
      case None => None
      case Some(v') =>
        match RewriteColors(inverted, dict[1..])
        case None =>
          assert !RewritesCleanly(dict[1..]);
          None
        case Some(rest) => Some([(k, v')] + rest)
  }

  /** The rewrite keeps the key set, so the message still carries every setting. */
  lemma RewriteKeepsKeys(inverted: map<string, string>, dict: seq<(string, JsValue)>)
    requires RewritesCleanly(dict)
    ensures RewriteColors(inverted, dict).Some?
    ensures KeySet(RewriteColors(inverted, dict).value) == KeySet(dict)
  {}
}
