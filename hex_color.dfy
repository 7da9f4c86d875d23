/** RickNMorty's `UIColor(hexString:)` and the app palette built on it: the string is
    trimmed of non-alphanumeric characters at both ends, anything but six characters is
    rejected, the six characters are scanned as a hexadecimal `UInt64`, and the three
    channels are masked out of that value. The scanned value is never negative, so the
    mask-and-shift `(v & 0xFF0000) >> 16` is written as the quotient and remainder it
    computes, `(v / 0x10000) % 0x100`. Channels are kept as the 8-bit integers the masks
    produce; their scaling to `CGFloat` is not part of this model. */
module HexColor {
  import opened Seqs

  /** Letters and digits (ASCII only). */
  predicate IsAlphanumeric(c: char) {
    ('a' <= c <= 'z') || ('A' <= c <= 'Z') || ('0' <= c <= '9')
  }

  predicate IsHexDigit(c: char) {
    ('0' <= c <= '9') || ('a' <= c <= 'f') || ('A' <= c <= 'F')
  }

  /** The value of a hexadecimal digit. */
  function HexDigitValue(c: char): (n: nat)
    requires IsHexDigit(c)
    ensures n < 16
  {
    if '0' <= c <= '9' then c as int - '0' as int
    else if 'a' <= c <= 'f' then c as int - 'a' as int + 10
    else c as int - 'A' as int + 10
  }

  predicate AllHexDigits(s: string) {
    forall i :: 0 <= i < |s| ==> IsHexDigit(s[i])
  }

  /** The number of non-alphanumeric characters at the end of `s`. */
  function TrailingJunk(s: string): (n: nat)
    ensures n <= |s|
    ensures forall k :: |s| - n <= k < |s| ==> !IsAlphanumeric(s[k])
    ensures n < |s| ==> IsAlphanumeric(s[|s| - 1 - n])
  {
    if s == [] || IsAlphanumeric(s[|s| - 1]) then 0
    else 1 + TrailingJunk(s[..|s| - 1])
  }

  /** Where the trimmed text starts and ends in the original string. */
  function TrimBounds(s: string): (r: (nat, nat))
    ensures r.0 <= r.1 <= |s|
    ensures forall k :: 0 <= k < r.0 ==> !IsAlphanumeric(s[k])
    ensures forall k :: r.1 <= k < |s| ==> !IsAlphanumeric(s[k])
    ensures r.0 < r.1 ==> IsAlphanumeric(s[r.0]) && IsAlphanumeric(s[r.1 - 1])
    ensures r.0 == r.1 ==> forall k :: 0 <= k < |s| ==> !IsAlphanumeric(s[k])
  {
    var lo := FirstIndex(s, IsAlphanumeric);
    if lo == |s| then (lo, lo)
    else
      var n := TrailingJunk(s[lo..]);
      assert IsAlphanumeric(s[lo..][0]);
      (lo, |s| - n)
  }

  /** `trimmingCharacters(in: CharacterSet.alphanumerics.inverted)`: only the ends are
      trimmed; what lies between them is kept, junk included. */
  function Trim(s: string): (r: string)
    ensures |r| <= |s|
    ensures r == s[TrimBounds(s).0..TrimBounds(s).1]
    ensures r != [] ==> IsAlphanumeric(r[0]) && IsAlphanumeric(r[|r| - 1])
    ensures r == [] <==> forall k :: 0 <= k < |s| ==> !IsAlphanumeric(s[k])
  {
    var b := TrimBounds(s);
    s[b.0..b.1]
  }

  /** The value `scanHexInt64` accumulates from a run of hexadecimal digits: each digit
      shifts the value up by four bits and fills the low four. Six digits stay far below
      the 64 bits of `rgbValue`, so no overflow is modelled. */
  function DigitsValue(s: string): nat
    requires AllHexDigits(s)
  {
    if s == [] then 0
    else DigitsValue(s[..|s| - 1]) * 16 + HexDigitValue(s[|s| - 1])
  }

  /** The scan, digit by digit, of a string of hexadecimal digits. */
  method ScanHexDigits(hex: string) returns (rgbValue: nat)
    requires AllHexDigits(hex)
    ensures rgbValue == DigitsValue(hex)
  {
    rgbValue := 0;
    var i := 0;
    while i < |hex|
      invariant 0 <= i <= |hex|
      invariant rgbValue == DigitsValue(hex[..i])
    {
      assert hex[..i + 1][..i] == hex[..i];
      rgbValue := rgbValue * 16 + HexDigitValue(hex[i]);
      i := i + 1;
    }
    assert hex[..i] == hex;
  }

  /** `(rgbValue & 0xFF0000) >> 16`. */
  function Red(v: nat): (r: nat)
    ensures r <= 0xFF
  {
    (v / 0x10000) % 0x100
  }

  /** `(rgbValue & 0x00FF00) >> 8`. */
  function Green(v: nat): (r: nat)
    ensures r <= 0xFF
  {
    (v / 0x100) % 0x100
  }

  /** `rgbValue & 0x0000FF`. */
  function Blue(v: nat): (r: nat)
    ensures r <= 0xFF
  {
    v % 0x100
  }

  /** Any value of at most 24 bits is exactly its three channels put back together, so
      no bit of a six-digit colour is lost. */
  lemma ChannelsReconstruct(v: nat)
    requires v <= 0xFFFFFF
    ensures Red(v) * 0x10000 + Green(v) * 0x100 + Blue(v) == v
  {
  }

  /** One more digit shifts the value up by four bits and fills the low four. */
  lemma DigitsValuePrefix(s: string, k: nat)
    requires AllHexDigits(s) && 0 < k <= |s|
    ensures DigitsValue(s[..k]) == DigitsValue(s[..k - 1]) * 16 + HexDigitValue(s[k - 1])
  {
    assert s[..k][..k - 1] == s[..k - 1];
  }

  /** A two-digit string is worth sixteen times its first digit plus its second. */
  lemma PairValue(s: string)
    requires AllHexDigits(s) && |s| == 2
    ensures DigitsValue(s) == HexDigitValue(s[0]) * 16 + HexDigitValue(s[1])
  {
    assert s[..0] == [];
    DigitsValuePrefix(s, 1);
    DigitsValuePrefix(s, 2);
    assert s[..2] == s;
  }

  /** Six hexadecimal digits scan to a value of at most 24 bits whose channels are the
      digit pairs, most significant first. */
  lemma {:induction false} SixDigitChannels(hex: string)
    requires |hex| == 6 && AllHexDigits(hex)
    ensures DigitsValue(hex) <= 0xFFFFFF
    ensures Red(DigitsValue(hex)) == DigitsValue(hex[0..2])
    ensures Green(DigitsValue(hex)) == DigitsValue(hex[2..4])
    ensures Blue(DigitsValue(hex)) == DigitsValue(hex[4..6])
  {
    var d0, d1, d2 := HexDigitValue(hex[0]), HexDigitValue(hex[1]), HexDigitValue(hex[2]);
    var d3, d4, d5 := HexDigitValue(hex[3]), HexDigitValue(hex[4]), HexDigitValue(hex[5]);
    assert hex[..0] == [];
    DigitsValuePrefix(hex, 1);
    DigitsValuePrefix(hex, 2);
    DigitsValuePrefix(hex, 3);
    DigitsValuePrefix(hex, 4);
    DigitsValuePrefix(hex, 5);
    DigitsValuePrefix(hex, 6);
    assert hex[..6] == hex;
    var hi, mid, lo := d0 * 16 + d1, d2 * 16 + d3, d4 * 16 + d5;
    assert DigitsValue(hex) == hi * 0x10000 + mid * 0x100 + lo;
    PairValue(hex[0..2]);
    PairValue(hex[2..4]);
    PairValue(hex[4..6]);
    ChannelsOfBytes(hi, mid, lo);
  }

  /** Three bytes laid out most significant first come back out of the three channels. */
  lemma ChannelsOfBytes(hi: nat, mid: nat, lo: nat)
    requires hi < 0x100 && mid < 0x100 && lo < 0x100
    ensures var v := hi * 0x10000 + mid * 0x100 + lo;
      v <= 0xFFFFFF && Red(v) == hi && Green(v) == mid && Blue(v) == lo
  {
    var v := hi * 0x10000 + mid * 0x100 + lo;
    assert v / 0x100 == hi * 0x100 + mid;
    assert v / 0x10000 == hi;
  }

  /** What `init?(hexString:)` yields. Six alphanumeric characters that are not all
      hexadecimal digits are scanned by Foundation's `Scanner` in ways this model does not
      follow; that case is kept apart. */
  datatype ColorResult = Invalid | Channels(red: nat, green: nat, blue: nat) | ScannerDependent

  /** `init?(hexString:)` as a value. */
  function FromHexString(hexString: string): (r: ColorResult)
    ensures r == Invalid <==> |Trim(hexString)| != 6
    ensures r.ScannerDependent? <==> |Trim(hexString)| == 6 && !AllHexDigits(Trim(hexString))
    ensures r.Channels? ==> r.red <= 0xFF && r.green <= 0xFF && r.blue <= 0xFF
  {
    var hex := Trim(hexString);
    if |hex| != 6 then Invalid
    else if !AllHexDigits(hex) then ScannerDependent
    else
      var rgbValue := DigitsValue(hex);
      Channels(Red(rgbValue), Green(rgbValue), Blue(rgbValue))
  }

  /** A valid colour string's channels are its three digit pairs, wherever the junk around
      them was. */
  lemma FromHexStringChannels(hexString: string)
    requires |Trim(hexString)| == 6 && AllHexDigits(Trim(hexString))
    ensures var hex := Trim(hexString);
      FromHexString(hexString) == Channels(DigitsValue(hex[0..2]), DigitsValue(hex[2..4]), DigitsValue(hex[4..6]))
  {
    SixDigitChannels(Trim(hexString));
  }

  /** The initialiser, step by step. */
  method InitHexString(hexString: string) returns (r: ColorResult)
    ensures r == FromHexString(hexString)
  {
    var hex := Trim(hexString);
    if |hex| != 6 {
      return Invalid;
    }
    if !AllHexDigits(hex) {
      return ScannerDependent;
    }
    var rgbValue := ScanHexDigits(hex);
    r := Channels(Red(rgbValue), Green(rgbValue), Blue(rgbValue));
  }

  /** A palette colour: the parsed channels, or the named system colour after `??`. */
  datatype AppColor = FromHex(red: nat, green: nat, blue: nat) | System(name: string)

  function OrFallback(r: ColorResult, fallback: string): (c: AppColor)
    requires !r.ScannerDependent?
    ensures c.System? <==> r == Invalid
    ensures c.FromHex? ==> c == FromHex(r.red, r.green, r.blue)
  {
    match r
    case Invalid => System(fallback)
    case Channels(red, green, blue) => FromHex(red, green, blue)
  }

  function PaletteColor(literal: string, fallback: string): AppColor
    requires !FromHexString(literal).ScannerDependent?
  {
    OrFallback(FromHexString(literal), fallback)
  }

  /** A '#' followed by six hexadecimal digits parses, so it never falls back, and its
      channels are its three digit pairs. */
  lemma PaletteEntry(literal: string, fallback: string)
    requires |literal| == 7 && literal[0] == '#' && AllHexDigits(literal[1..])
    ensures Trim(literal) == literal[1..]
    ensures !FromHexString(literal).ScannerDependent?
    ensures PaletteColor(literal, fallback) == FromHex(
      HexDigitValue(literal[1]) * 16 + HexDigitValue(literal[2]),
      HexDigitValue(literal[3]) * 16 + HexDigitValue(literal[4]),
      HexDigitValue(literal[5]) * 16 + HexDigitValue(literal[6]))
  {
    assert IsAlphanumeric(literal[1]);
    assert IsAlphanumeric(literal[6]);
    var hex := literal[1..];
    FromHexStringChannels(literal);
    PairValue(hex[0..2]);
    PairValue(hex[2..4]);
    PairValue(hex[4..6]);
  }

  /** `appLightGrey`: parsed from "#EDEDED", never the system grey. */
  function AppLightGrey(): (c: AppColor)
    ensures c == FromHex(237, 237, 237)
  {
    PaletteEntry("#EDEDED", "systemGray");
    PaletteColor("#EDEDED", "systemGray")
  }

  /** `appGrey`: parsed from "#BEBEBE", never the system grey. */
  function AppGrey(): (c: AppColor)
    ensures c == FromHex(190, 190, 190)
  {
    PaletteEntry("#BEBEBE", "systemGray");
    PaletteColor("#BEBEBE", "systemGray")
  }

  /** `appNeonGreen`: parsed from "#D3FF22", never the system green. */
  function AppNeonGreen(): (c: AppColor)
    ensures c == FromHex(211, 255, 34)
  {
    PaletteEntry("#D3FF22", "systemGreen");
    PaletteColor("#D3FF22", "systemGreen")
  }

  /** `appPrimaryDark`: parsed from "#1E1F1D", never black. */
  function AppPrimaryDark(): (c: AppColor)
    ensures c == FromHex(30, 31, 29)
  {
    PaletteEntry("#1E1F1D", "black");
    PaletteColor("#1E1F1D", "black")
  }

  /** `appSecondaryDark`: parsed from "#373737", never dark grey. */
  function AppSecondaryDark(): (c: AppColor)
    ensures c == FromHex(55, 55, 55)
  {
    PaletteEntry("#373737", "darkGray");
    PaletteColor("#373737", "darkGray")
  }

  /** `appAccent`: parsed from "#DD49AB", never the system pink. */
  function AppAccent(): (c: AppColor)
    ensures c == FromHex(221, 73, 171)
  {
    PaletteEntry("#DD49AB", "systemPink");
    PaletteColor("#DD49AB", "systemPink")
  }

  /** `appLightBackground`: parsed from "#F0F0F0", never light grey. */
  function AppLightBackground(): (c: AppColor)
    ensures c == FromHex(240, 240, 240)
  {
    PaletteEntry("#F0F0F0", "lightGray");
    PaletteColor("#F0F0F0", "lightGray")
  }
}
