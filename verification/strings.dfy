/** Decimal rendering and parsing of natural numbers, zero padding, and
    PHP's `explode` on a single separator character together with its
    inverse `implode`. */
module Strings {

  predicate IsDigit(c: char) {
    '0' <= c <= '9'
  }

  predicate AllDigits(s: string) {
    forall i :: 0 <= i < |s| ==> IsDigit(s[i])
  }

  function DigitChar(d: nat): (c: char)
    requires d < 10
    ensures IsDigit(c)
  {
    ('0' as int + d) as char
  }

  function DigitValue(c: char): (d: nat)
    requires IsDigit(c)
    ensures d < 10
  {
    c as int - '0' as int
  }

  function Pow10(k: nat): (p: nat)
    ensures p >= 1
  {
    if k == 0 then 1 else 10 * Pow10(k - 1)
  }

  /** The decimal text of `n` as PHP converts an integer to a string:
      digits only, no sign, no leading zero. */
  function NatToString(n: nat): (s: string)
    ensures |s| > 0
    ensures AllDigits(s)
    ensures |s| > 1 ==> s[0] != '0'
  {
    if n < 10 then [DigitChar(n)] else NatToString(n / 10) + [DigitChar(n % 10)]
  }

  /** The value of a string of decimal digits (leading zeros allowed). */
  function ValueOf(s: string): nat
    requires AllDigits(s)
  {
    if |s| == 0 then 0 else 10 * ValueOf(s[..|s| - 1]) + DigitValue(s[|s| - 1])
  }

  lemma {:induction false} ValueOfNatToString(n: nat)
    ensures ValueOf(NatToString(n)) == n
  {
    if n >= 10 {
      var s := NatToString(n);
      assert s[..|s| - 1] == NatToString(n / 10);
      ValueOfNatToString(n / 10);
    }
  }

  /** Decimal rendering is injective: the text determines the number. */
  lemma NatToStringInjective(a: nat, b: nat)
    ensures NatToString(a) == NatToString(b) <==> a == b
  {
    ValueOfNatToString(a);
    ValueOfNatToString(b);
  }

  /** `n` has at most `k` decimal digits exactly when it is below 10^k. */
  lemma {:induction false} NatToStringLength(n: nat, k: nat)
    requires k >= 1
    ensures |NatToString(n)| <= k <==> n < Pow10(k)
  {
    if n >= 10 {
      if k == 1 {
        assert |NatToString(n / 10)| >= 1;
      } else {
        NatToStringLength(n / 10, k - 1);
      }
    } else if k > 1 {
      assert Pow10(k) == 10 * Pow10(k - 1);
    }
  }

  /** How many digits `s` starts with. */
  function DigitPrefixLength(s: string): (k: nat)
    ensures k <= |s|
    ensures AllDigits(s[..k])
  {
    if |s| == 0 || !IsDigit(s[0]) then 0
    else
      var k := 1 + DigitPrefixLength(s[1..]);
      assert s[..k] == [s[0]] + s[1..][..k - 1];
      k
  }

  /** Digits followed by a non-digit: the digit prefix ends exactly there. */
  lemma {:induction false} DigitPrefixOf(a: string, rest: string)
    requires AllDigits(a)
    requires |rest| == 0 || !IsDigit(rest[0])
    ensures DigitPrefixLength(a + rest) == |a|
  {
    if |a| > 0 {
      assert (a + rest)[1..] == a[1..] + rest;
      DigitPrefixOf(a[1..], rest);
    }
  }

  /** Left-pads `s` with '0' up to `width` characters, as printf's `%0Nd`. */
  function PadZero(s: string, width: nat): (r: string)
    ensures |r| == if |s| >= width then |s| else width
    ensures r[|r| - |s|..] == s
    ensures forall i :: 0 <= i < |r| - |s| ==> r[i] == '0'
  {
    if |s| >= width then s else seq(width - |s|, _ => '0') + s
  }

  lemma {:induction false} ValueOfZeroPrefix(s: string)
    requires AllDigits(s)
    ensures AllDigits("0" + s) && ValueOf("0" + s) == ValueOf(s)
  {
    if |s| > 0 {
      assert ("0" + s)[..|s|] == "0" + s[..|s| - 1];
      ValueOfZeroPrefix(s[..|s| - 1]);
    }
  }

  /** Leading zeros added by padding do not change the value. */
  lemma {:induction false} ValueOfPadZero(s: string, width: nat)
    requires AllDigits(s)
    ensures AllDigits(PadZero(s, width))
    ensures ValueOf(PadZero(s, width)) == ValueOf(s)
    decreases width - |s|
  {
    if |s| < width {
      ValueOfZeroPrefix(s);
      ValueOfPadZero("0" + s, width);
      assert PadZero(s, width) == PadZero("0" + s, width);
    }
  }

  /** PHP's `explode(sep, s)`: the pieces between separators, in order;
      an empty string gives one empty piece. */
  function Split(s: string, sep: char): (parts: seq<string>)
    ensures |parts| >= 1
    ensures forall i :: 0 <= i < |parts| ==> sep !in parts[i]
  {
    if |s| == 0 then [""]
    else
      var rest := Split(s[1..], sep);
      if s[0] == sep then [""] + rest
      else [[s[0]] + rest[0]] + rest[1..]
  }

  /** PHP's `implode(sep, parts)`. */
  function Join(parts: seq<string>, sep: char): string
    requires |parts| >= 1
  {
    if |parts| == 1 then parts[0] else parts[0] + [sep] + Join(parts[1..], sep)
  }

  /** Splitting loses nothing: joining the pieces gives back the input. */
  lemma {:induction false} JoinSplit(s: string, sep: char)
    ensures Join(Split(s, sep), sep) == s
  {
    if |s| > 0 {
      var rest := Split(s[1..], sep);
      JoinSplit(s[1..], sep);
      if s[0] == sep {
        assert Split(s, sep)[1..] == rest;
      } else {
        var parts := Split(s, sep);
        if |rest| == 1 {
          assert parts == [[s[0]] + rest[0]];
        } else {
          assert parts[1..] == rest[1..];
          assert Join(rest, sep) == rest[0] + [sep] + Join(rest[1..], sep);
        }
      }
    }
  }

  /** Pieces that contain no separator are recovered exactly by splitting
      their join. */
  lemma {:induction false} SplitJoin(parts: seq<string>, sep: char)
    requires |parts| >= 1
    requires forall i :: 0 <= i < |parts| ==> sep !in parts[i]
    ensures Split(Join(parts, sep), sep) == parts
    decreases |parts|, |parts[0]|
  {
    if |parts| == 1 {
      SplitNoSeparator(parts[0], sep);
    } else if |parts[0]| == 0 {
      var tail := Join(parts[1..], sep);
      assert Join(parts, sep) == [sep] + tail;
      assert ([sep] + tail)[1..] == tail;
      SplitJoin(parts[1..], sep);
      assert [""] + parts[1..] == parts;
    } else {
      var p0 := parts[0];
      var shorter := parts[0 := p0[1..]];
      assert shorter[1..] == parts[1..];
      assert forall i :: 0 <= i < |shorter| ==> sep !in shorter[i] by {
        forall i | 0 <= i < |shorter|
          ensures sep !in shorter[i]
        {
          if i == 0 {
            assert forall c :: c in p0[1..] ==> c in p0;
          }
        }
      }
      SplitJoin(shorter, sep);
      var s := Join(parts, sep);
      assert s == [p0[0]] + Join(shorter, sep);
      assert s[1..] == Join(shorter, sep);
      assert p0[0] != sep by { assert p0[0] in p0; }
      assert [p0[0]] + p0[1..] == p0;
      assert Split(s, sep) == [p0] + parts[1..];
      assert [p0] + parts[1..] == parts;
    }
  }

  lemma {:induction false} SplitNoSeparator(s: string, sep: char)
    requires sep !in s
    ensures Split(s, sep) == [s]
  {
    if |s| > 0 {
      assert s[0] in s;
      assert forall c :: c in s[1..] ==> c in s;
      SplitNoSeparator(s[1..], sep);
      assert [s[0]] + s[1..] == s;
    }
  }
}
