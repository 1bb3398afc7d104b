/**
 * The string operations of Python that the scraper relies on:
 * `" ".join(...)`, the substring test `w in s`, and `str(n)` on integers.
 */
module Text {

  /** Python's `" ".join(parts)`. */
  function Join(parts: seq<string>): string
  {
    if parts == [] then ""
    else if |parts| == 1 then parts[0]
    else parts[0] + " " + Join(parts[1..])
  }

  /** `w` occurs in `s` starting at index `i`. */
  predicate OccursAt(s: string, w: string, i: int)
  {
    0 <= i && i + |w| <= |s| && s[i..i + |w|] == w
  }

  /** Python's substring test `w in s`, scanning `s` from the left. */
  function Contains(s: string, w: string): bool
  {
    w <= s || (s != [] && Contains(s[1..], w))
  }

  lemma DropFirstSlice(s: string, i: int, n: nat)
    requires 1 <= i && i + n <= |s|
    ensures s[1..][i - 1..i - 1 + n] == s[i..i + n]
  {
  }

  /** The scan finds `w` exactly when `w` occurs somewhere in `s`. */
  lemma {:induction false} ContainsIffOccurs(s: string, w: string)
    ensures Contains(s, w) <==> exists i :: OccursAt(s, w, i)
  {
    if w <= s {
      assert OccursAt(s, w, 0);
    } else if s == [] {
      forall i ensures !OccursAt(s, w, i) {
      }
    } else {
      ContainsIffOccurs(s[1..], w);
      forall i | OccursAt(s[1..], w, i) ensures OccursAt(s, w, i + 1) {
        assert s[i + 1..i + 1 + |w|] == s[1..][i..i + |w|];
      }
      forall i | OccursAt(s, w, i) ensures OccursAt(s[1..], w, i - 1) {
        assert i != 0 by {
          assert !(w <= s);
        }
        DropFirstSlice(s, i, |w|);
      }
    }
  }

  lemma OccurrenceCovers(s: string, w: string, i: int, p: int)
    requires OccursAt(s, w, i) && i <= p < i + |w|
    ensures w[p - i] == s[p]
  {
    assert w[p - i] == s[i..i + |w|][p - i];
  }

  /** An occurrence of a word without spaces in `a + " " + b` lies wholly in `a` or wholly in `b`. */
  lemma OccursAroundSpace(a: string, b: string, w: string)
    requires ' ' !in w
    ensures (exists i :: OccursAt(a + " " + b, w, i))
        <==> (exists i :: OccursAt(a, w, i)) || (exists i :: OccursAt(b, w, i))
  {
    var c := a + " " + b;
    forall i | OccursAt(a, w, i) ensures OccursAt(c, w, i) {
      assert c[i..i + |w|] == a[i..i + |w|];
    }
    forall i | OccursAt(b, w, i) ensures OccursAt(c, w, |a| + 1 + i) {
      assert c[|a| + 1 + i..|a| + 1 + i + |w|] == b[i..i + |w|];
    }
    forall i | OccursAt(c, w, i)
      ensures OccursAt(a, w, i) || OccursAt(b, w, i - |a| - 1)
    {
      if i + |w| <= |a| {
        assert a[i..i + |w|] == c[i..i + |w|];
      } else if i >= |a| + 1 {
        assert b[i - |a| - 1..i - |a| - 1 + |w|] == c[i..i + |w|];
      } else {
        OccurrenceCovers(c, w, i, |a|);
      }
    }
  }

  /**
   * For a non-empty word without spaces, searching the space-joined string finds it
   * exactly when one of the parts contains it: no match straddles two parts.
   */
  lemma {:induction false} JoinContains(parts: seq<string>, w: string)
    requires w != [] && ' ' !in w
    ensures Contains(Join(parts), w) <==> exists k :: 0 <= k < |parts| && Contains(parts[k], w)
  {
    ContainsIffOccurs(Join(parts), w);
    if parts == [] {
      assert !OccursAt("", w, 0);
    } else if |parts| == 1 {
    } else {
      var rest := parts[1..];
      JoinContains(rest, w);
      ContainsIffOccurs(parts[0], w);
      ContainsIffOccurs(Join(rest), w);
      OccursAroundSpace(parts[0], Join(rest), w);
      if exists k :: 0 <= k < |parts| && Contains(parts[k], w) {
        var k :| 0 <= k < |parts| && Contains(parts[k], w);
        if k > 0 {
          assert rest[k - 1] == parts[k];
        }
      }
      if exists k :: 0 <= k < |rest| && Contains(rest[k], w) {
        var k :| 0 <= k < |rest| && Contains(rest[k], w);
        assert parts[k + 1] == rest[k];
      }
    }
  }

  predicate IsDigit(c: char)
  {
    '0' <= c <= '9'
  }

  predicate AllDigits(s: string)
  {
    forall i :: 0 <= i < |s| ==> IsDigit(s[i])
  }

  function DigitChar(d: nat): (c: char)
    requires d < 10
    ensures IsDigit(c) && c as int - '0' as int == d
  {
    ('0' as int + d) as char
  }

  /** Decimal digits of a natural number, without leading zeros ("0" for zero). */
  function Digits(n: nat): (s: string)
    ensures s != [] && AllDigits(s)
  {
    if n < 10 then [DigitChar(n)] else Digits(n / 10) + [DigitChar(n % 10)]
  }

  /** Python's `str(n)` on an integer, as used in the URL f-strings. */
  function Decimal(n: int): (s: string)
    ensures IsNumeral(s)
  {
    if n < 0 then "-" + Digits(-n) else Digits(n)
  }

  /** The value of a string of decimal digits, read most significant first. */
  function DigitsValue(s: string): nat
    requires AllDigits(s)
  {
    if s == [] then 0 else DigitsValue(s[..|s| - 1]) * 10 + (s[|s| - 1] as int - '0' as int)
  }

  /** A non-empty string of decimal digits, possibly after a leading minus sign. */
  predicate IsNumeral(s: string)
  {
    s != [] && forall i :: 0 <= i < |s| ==> IsDigit(s[i]) || (i == 0 && s[i] == '-')
  }

  /** Reads back an optionally signed decimal numeral. */
  function ParseDecimal(s: string): int
    requires IsNumeral(s)
  {
    if s[0] == '-' then -(DigitsValue(s[1..]) as int) else DigitsValue(s)
  }

  lemma {:induction false} DigitsRoundTrip(n: nat)
    ensures DigitsValue(Digits(n)) == n
  {
    if n >= 10 {
      DigitsRoundTrip(n / 10);
      var s := Digits(n);
      assert s[..|s| - 1] == Digits(n / 10);
    }
  }

  /** `str(n)` loses nothing: the numeral reads back as `n`. */
  lemma DecimalRoundTrip(n: int)
    ensures ParseDecimal(Decimal(n)) == n
  {
    if n < 0 {
      DigitsRoundTrip(-n);
      assert Decimal(n)[1..] == Digits(-n);
    } else {
      DigitsRoundTrip(n);
    }
  }

  lemma DecimalInjective(a: int, b: int)
    ensures Decimal(a) == Decimal(b) <==> a == b
  {
    DecimalRoundTrip(a);
    DecimalRoundTrip(b);
  }
}
