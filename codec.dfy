/**
 * Digit strings in the three bases the engine accepts (2, 10 and 16,
 * lower-case hexadecimal), their numeric values and their canonical
 * spellings. Validation patterns are written as character classes:
 * `^[0-1]+$`, `^[0-9]+$` and `^[a-f0-9]+$`.
 */
module Codec {

  import Bits

  predicate IsAllowedBase(base: int)
  {
    base == 2 || base == 10 || base == 16
  }

  /** The character class of a base's validation pattern. */
  predicate IsDigitOf(ch: char, base: int)
  {
    if base == 2 then ch == '0' || ch == '1'
    else if base == 10 then '0' <= ch <= '9'
    else base == 16 && ('0' <= ch <= '9' || 'a' <= ch <= 'f')
  }

  /** The input matches the whole-string pattern of its base: one or more digits of that base. */
  predicate MatchesPattern(s: string, base: int)
  {
    |s| >= 1 && forall i :: 0 <= i < |s| ==> IsDigitOf(s[i], base)
  }

  /** A digit string in its natural form: no leading zero unless it is "0" itself. */
  predicate Canonical(s: string, base: int)
  {
    MatchesPattern(s, base) && (s[0] == '0' ==> |s| == 1)
  }

  function DigitValue(ch: char): (d: nat)
    ensures d < 16
  {
    if '0' <= ch <= '9' then ch as int - '0' as int
    else if 'a' <= ch <= 'f' then ch as int - 'a' as int + 10
    else 0
  }

  function DigitChar(d: nat): (ch: char)
    requires d < 16
    ensures DigitValue(ch) == d
    ensures forall base :: IsAllowedBase(base) && d < base ==> IsDigitOf(ch, base)
  {
    if d < 10 then ('0' as int + d) as char else ('a' as int + d - 10) as char
  }

  lemma DigitRoundTrip(ch: char, base: int)
    requires IsDigitOf(ch, base)
    ensures DigitValue(ch) < base && DigitChar(DigitValue(ch)) == ch
  {
  }

  /** The value of a digit string in `base` (gmp_init($s, $base)), most significant digit first. */
  function Parse(s: string, base: nat): nat
  {
    if s == [] then 0 else Parse(s[..|s| - 1], base) * base + DigitValue(s[|s| - 1])
  }

  lemma ParseSnoc(s: string, ch: char, base: nat)
    ensures Parse(s + [ch], base) == Parse(s, base) * base + DigitValue(ch)
  {
    assert (s + [ch])[..|s|] == s;
  }

  /** The natural spelling of `n` in `base` (gmp_strval($n, $base)). */
  function Format(n: nat, base: int): string
    requires IsAllowedBase(base)
    decreases n
  {
    if n < base then [DigitChar(n)] else Format(n / base, base) + [DigitChar(n % base)]
  }

  /** `Format` spells `n` canonically, and the spelling reads back as `n`. */
  lemma {:induction false} FormatSpec(n: nat, base: int)
    requires IsAllowedBase(base)
    ensures Canonical(Format(n, base), base) && Parse(Format(n, base), base) == n
    decreases n
  {
    var r := Format(n, base);
    if n < base {
      assert r == [DigitChar(n)];
    } else {
      var init, last := Format(n / base, base), DigitChar(n % base);
      assert r == init + [last];
      FormatSpec(n / base, base);
      assert IsDigitOf(last, base);
      assert MatchesPattern(r, base) by {
        forall i | 0 <= i < |r|
          ensures IsDigitOf(r[i], base)
        {
          if i < |init| {
            assert r[i] == init[i];
          }
        }
      }
      assert r[0] == init[0];
      assert init[0] == '0' ==> init == "0";
      ParseSnoc(init, last, base);
    }
  }

  /** A digit string that starts with a non-zero digit denotes a positive number. */
  lemma {:induction false} ParsePositive(s: string, base: int)
    requires IsAllowedBase(base) && MatchesPattern(s, base) && s[0] != '0'
    ensures Parse(s, base) >= 1
    decreases |s|
  {
    if |s| > 1 {
      ParsePositive(s[..|s| - 1], base);
    }
  }

  /** Canonical digit strings are exactly what `Format` spells: parsing then formatting gives the string back. */
  lemma {:induction false} FormatParse(s: string, base: int)
    requires IsAllowedBase(base) && Canonical(s, base)
    ensures Format(Parse(s, base), base) == s
    decreases |s|
  {
    var init, last := s[..|s| - 1], s[|s| - 1];
    DigitRoundTrip(last, base);
    if |s| > 1 {
      assert Canonical(init, base);
      FormatParse(init, base);
      ParsePositive(init, base);
      var n := Parse(s, base);
      assert n == Parse(init, base) * base + DigitValue(last);
      assert n / base == Parse(init, base) && n % base == DigitValue(last) by {
        ModDigit(Parse(init, base), base, DigitValue(last));
      }
      assert s == init + [last];
    }
  }

  lemma ModDigit(q: nat, base: int, d: nat)
    requires base >= 2 && d < base
    ensures (q * base + d) / base == q && (q * base + d) % base == d
  {
    Bits.ModUnique(q * base + d, base, q, d);
  }

  function ZeroChars(k: nat): (r: string)
    ensures |r| == k && forall i :: 0 <= i < k ==> r[i] == '0'
  {
    seq(k, _ => '0')
  }

  /** str_pad($s, $w, '0', STR_PAD_LEFT) on a digit string. */
  function PadLeft(s: string, w: nat): (r: string)
    ensures |r| == if |s| >= w then |s| else w
    ensures r[|r| - |s|..] == s
    ensures forall i :: 0 <= i < |r| - |s| ==> r[i] == '0'
  {
    if |s| >= w then s else ZeroChars(w - |s|) + s
  }

  lemma {:induction false} ParseLeadingZeros(k: nat, s: string, base: nat)
    ensures Parse(ZeroChars(k) + s, base) == Parse(s, base)
    decreases |s|
  {
    if s == [] {
      assert ZeroChars(k) + s == ZeroChars(k);
      ParseZeros(k, base);
    } else {
      var init, last := s[..|s| - 1], s[|s| - 1];
      ParseLeadingZeros(k, init, base);
      assert ZeroChars(k) + s == (ZeroChars(k) + init) + [last];
      ParseSnoc(ZeroChars(k) + init, last, base);
      ParseSnoc(init, last, base);
      assert s == init + [last];
    }
  }

  lemma {:induction false} ParseZeros(k: nat, base: nat)
    ensures Parse(ZeroChars(k), base) == 0
  {
    if k > 0 {
      ParseZeros(k - 1, base);
      assert ZeroChars(k) == ZeroChars(k - 1) + ['0'];
      ParseSnoc(ZeroChars(k - 1), '0', base);
    }
  }

  /** Zero padding keeps the value and the pattern of a digit string. */
  lemma PadLeftKeepsValue(s: string, w: nat, base: int)
    requires IsAllowedBase(base) && MatchesPattern(s, base)
    ensures Parse(PadLeft(s, w), base) == Parse(s, base)
    ensures MatchesPattern(PadLeft(s, w), base)
  {
    if |s| < w {
      ParseLeadingZeros(w - |s|, s, base);
      var r := PadLeft(s, w);
      forall i | 0 <= i < |r|
        ensures IsDigitOf(r[i], base)
      {
        if i >= |r| - |s| {
          assert r[i] == s[i - (|r| - |s|)];
        }
      }
    }
  }
}
