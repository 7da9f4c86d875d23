/** String operations the app relies on: `lowercased()`, `contains(_:)`, the
    case-insensitive name search and Swift's decimal rendering of an `Int`.
    `lowercased()` is modelled as the ASCII case map. */
module Text {

  function LowerChar(c: char): (r: char)
    ensures 'A' <= c <= 'Z' ==> r as int == c as int + 32
    ensures !('A' <= c <= 'Z') ==> r == c
  {
    if 'A' <= c <= 'Z' then (c as int + 32) as char else c
  }

  /** `String.lowercased()` over the ASCII letters. */
  function Lower(s: string): (r: string)
    ensures |r| == |s|
    ensures forall i :: 0 <= i < |s| ==> r[i] == LowerChar(s[i])
  {
    if s == [] then [] else [LowerChar(s[0])] + Lower(s[1..])
  }

  lemma {:induction false} LowerIdempotent(s: string)
    ensures Lower(Lower(s)) == Lower(s)
  {
    if s != [] {
      LowerIdempotent(s[1..]);
      assert Lower(s)[1..] == Lower(s[1..]);
    }
  }

  predicate IsPrefix(t: string, s: string) {
    |t| <= |s| && s[..|t|] == t
  }

  /** `s.contains(t)`: `t` occurs as a contiguous piece of `s`. */
  predicate Contains(s: string, t: string)
    decreases |s|
  {
    IsPrefix(t, s) || (s != [] && Contains(s[1..], t))
  }

  /** `t` starts at position `i` of `s`. */
  predicate OccursAt(s: string, t: string, i: int) {
    0 <= i <= |s| - |t| && s[i..i + |t|] == t
  }

  /** The occurrence reading of `Contains`: some position of `s` starts a copy of `t`. */
  lemma {:induction false} ContainsIffOccurs(s: string, t: string)
    ensures Contains(s, t) <==> exists i :: OccursAt(s, t, i)
    decreases |s|
  {
    if IsPrefix(t, s) {
      assert OccursAt(s, t, 0);
    }
    if s != [] {
      ContainsIffOccurs(s[1..], t);
      if Contains(s[1..], t) {
        var i :| OccursAt(s[1..], t, i);
        assert OccursAt(s, t, i + 1);
      }
      if i :| OccursAt(s, t, i) {
        if i > 0 {
          assert OccursAt(s[1..], t, i - 1);
        }
      }
    }
  }

  /** The name search of every list screen: `name.lowercased().contains(term.lowercased())`. */
  predicate SearchHit(name: string, term: string) {
    Contains(Lower(name), Lower(term))
  }

  /** Search is case-insensitive: lower-casing either side first does not change the answer. */
  lemma SearchIgnoresCase(name: string, term: string)
    ensures SearchHit(Lower(name), term) == SearchHit(name, term)
    ensures SearchHit(name, Lower(term)) == SearchHit(name, term)
  {
    LowerIdempotent(name);
    LowerIdempotent(term);
  }

  function DigitChar(d: nat): (c: char)
    requires d < 10
    ensures '0' <= c <= '9'
  {
    ('0' as int + d) as char
  }

  /** Decimal digits of a natural number, most significant first, no leading zeros. */
  function DigitString(n: nat): (r: string)
    ensures |r| >= 1
    ensures forall i :: 0 <= i < |r| ==> '0' <= r[i] <= '9'
  {
    if n < 10 then [DigitChar(n)] else DigitString(n / 10) + [DigitChar(n % 10)]
  }

  /** Reads a string of decimal digits back as a number. */
  function ParseDigits(s: string): nat
    requires forall i :: 0 <= i < |s| ==> '0' <= s[i] <= '9'
  {
    if s == [] then 0 else ParseDigits(s[..|s| - 1]) * 10 + (s[|s| - 1] as int - '0' as int)
  }

  lemma {:induction false} DigitStringRoundTrip(n: nat)
    ensures ParseDigits(DigitString(n)) == n
  {
    if n >= 10 {
      var d := DigitString(n / 10) + [DigitChar(n % 10)];
      assert d[..|d| - 1] == DigitString(n / 10);
      DigitStringRoundTrip(n / 10);
    }
  }

  /** The rendering of an `Int` by string interpolation: a leading '-' for negatives. */
  function IntToString(i: int): (r: string)
    ensures i >= 0 ==> r == DigitString(i)
    ensures i < 0 ==> r == "-" + DigitString(-i)
  {
    if i < 0 then "-" + DigitString(-i) else DigitString(i)
  }

  /** Different numbers render differently. */
  lemma IntToStringInjective(i: int, j: int)
    requires IntToString(i) == IntToString(j)
    ensures i == j
  {
    var a, b := IntToString(i), IntToString(j);
    if i >= 0 {
      assert '0' <= a[0] <= '9';
    } else {
      assert a[0] == '-' && a[1..] == DigitString(-i);
    }
    if j >= 0 {
      assert '0' <= b[0] <= '9';
    } else {
      assert b[0] == '-' && b[1..] == DigitString(-j);
    }
    if i >= 0 && j >= 0 {
      DigitStringRoundTrip(i);
      DigitStringRoundTrip(j);
    } else if i < 0 && j < 0 {
      DigitStringRoundTrip(-i);
      DigitStringRoundTrip(-j);
    }
  }
}
