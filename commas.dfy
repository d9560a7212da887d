/**
 * Thousands separators for the console listing: `format_number_with_commas`
 * writes a `u64` in decimal and puts a ',' in front of every digit that has
 * a multiple of three digits after it, except the first one.
 *
 * `Grouped` is the reference definition (split off the last three digits,
 * group the rest); the method is the loop of the program and is proved equal
 * to it.  The lemmas then say what a grouped string looks like.
 */
module Commas {
  import opened Wrappers

  predicate IsDigit(c: char) { '0' <= c <= '9' }

  predicate AllDigits(s: string) { forall i | 0 <= i < |s| :: IsDigit(s[i]) }

  function DigitChar(d: nat): (c: char)
    requires d < 10
    ensures IsDigit(c) && c as int - '0' as int == d
  {
    ('0' as int + d) as char
  }

  /** `n.to_string()`: the decimal digits of `n`, most significant first. */
  function DecimalString(n: nat): (s: string)
    ensures |s| >= 1 && AllDigits(s)
    ensures |s| == 1 || s[0] != '0'
  {
    if n < 10 then [DigitChar(n)] else DecimalString(n / 10) + [DigitChar(n % 10)]
  }

  /** The number a string of decimal digits denotes. */
  function DecimalValue(s: string): (v: nat)
    requires AllDigits(s)
  {
    if s == [] then 0
    else DecimalValue(s[..|s| - 1]) * 10 + (s[|s| - 1] as int - '0' as int)
  }

  /** `DecimalString` writes `n` and nothing else. */
  lemma {:induction false} DecimalValueOfString(n: nat)
    ensures DecimalValue(DecimalString(n)) == n
  {
    var s := DecimalString(n);
    if n >= 10 {
      DecimalValueOfString(n / 10);
      assert s[..|s| - 1] == DecimalString(n / 10);
    }
  }

  /** Reference definition: the last three digits form a group, the rest is grouped in front of them. */
  function Grouped(s: string): (g: string)
    decreases |s|
  {
    if |s| <= 3 then s else Grouped(s[..|s| - 3]) + [','] + s[|s| - 3..]
  }

  /** The string with every ',' deleted. */
  function WithoutCommas(s: string): (r: string)
  {
    if s == [] then []
    else WithoutCommas(s[..|s| - 1]) + (if s[|s| - 1] == ',' then [] else [s[|s| - 1]])
  }

  /**
   * What the loop has built after reading the first `k` characters of `s`:
   * before character i it writes a ',' when `i > 0 && (|s| - i) % 3 == 0`.
   */
  ghost function Punctuated(s: string, k: nat): (r: string)
    requires k <= |s|
    ensures k <= |r| <= 2 * k
  {
    if k == 0 then []
    else Punctuated(s, k - 1) + (if CommaBefore(|s|, k - 1) then [','] else []) + [s[k - 1]]
  }

  method FormatNumberWithCommas(n: u64) returns (r: string)
    ensures r == Grouped(DecimalString(n as nat))
  {
    var chars := DecimalString(n as nat);
    r := [];
    for i := 0 to |chars|
      invariant r == Punctuated(chars, i)
    {
      if i > 0 && (|chars| - i) % 3 == 0 {
        r := r + [','];
      }
      r := r + [chars[i]];
    }
    PunctuatedIsGrouped(chars);
  }

  /** Whether the loop writes a ',' before index i of a string of length len. */
  predicate CommaBefore(len: nat, i: nat)
  {
    i > 0 && (len - i) % 3 == 0
  }

  /** Three more characters at the end do not move the commas in front of them. */
  lemma CommaBeforeShift(len: nat, i: nat)
    requires i <= len
    ensures CommaBefore(len + 3, i) == CommaBefore(len, i)
  {
    assert (len + 3 - i) % 3 == (len - i) % 3;
  }

  /** `Punctuated` of a prefix is the same for a string three characters longer. */
  lemma {:induction false} PunctuatedPrefix(s: string, t: string, k: nat)
    requires k <= |t| && |s| == |t| + 3
    requires s[..k] == t[..k]
    ensures Punctuated(s, k) == Punctuated(t, k)
  {
    if k > 0 {
      assert s[..k - 1] == t[..k - 1];
      assert s[k - 1] == s[..k][k - 1] == t[k - 1];
      PunctuatedPrefix(s, t, k - 1);
      CommaBeforeShift(|t|, k - 1);
    }
  }

  /** With three or fewer characters no ',' is written. */
  lemma {:induction false} PunctuatedShort(s: string, k: nat)
    requires k <= |s| <= 3
    ensures Punctuated(s, k) == s[..k]
  {
    if k > 0 {
      PunctuatedShort(s, k - 1);
      assert 0 < |s| - (k - 1) <= 3;
      assert k - 1 > 0 ==> |s| - (k - 1) < 3;
      assert !CommaBefore(|s|, k - 1);
      assert s[..k] == s[..k - 1] + [s[k - 1]];
    }
  }

  /** The loop of the program computes the reference grouping. */
  lemma {:induction false} PunctuatedIsGrouped(s: string)
    ensures Punctuated(s, |s|) == Grouped(s)
    decreases |s|
  {
    if |s| <= 3 {
      PunctuatedShort(s, |s|);
    } else {
      var p := s[..|s| - 3];
      assert s[..|p|] == p[..|p|];
      PunctuatedLastGroup(s);
      PunctuatedPrefix(s, p, |p|);
      PunctuatedIsGrouped(p);
      assert Punctuated(s, |s|) == Grouped(p) + [','] + s[|s| - 3..];
    }
  }

  /** The last three characters get a ',' before the first of them only. */
  lemma PunctuatedLastGroup(s: string)
    requires |s| > 3
    ensures Punctuated(s, |s|) == Punctuated(s, |s| - 3) + [','] + s[|s| - 3..]
  {
    var m := |s| - 3;
    LastGroupCommas(|s|);
    var g0 := Punctuated(s, m);
    PunctuatedComma(s, m);
    PunctuatedNoComma(s, m + 1);
    PunctuatedNoComma(s, m + 2);
    assert Punctuated(s, m + 3) == g0 + [','] + [s[m]] + [s[m + 1]] + [s[m + 2]];
    LastThree(s);
    AppendThree(g0 + [','], s[m], s[m + 1], s[m + 2]);
  }

  lemma PunctuatedComma(s: string, k: nat)
    requires k < |s| && CommaBefore(|s|, k)
    ensures Punctuated(s, k + 1) == Punctuated(s, k) + [','] + [s[k]]
  {
  }

  lemma PunctuatedNoComma(s: string, k: nat)
    requires k < |s| && !CommaBefore(|s|, k)
    ensures Punctuated(s, k + 1) == Punctuated(s, k) + [s[k]]
  {
  }

  lemma LastThree(s: string)
    requires |s| >= 3
    ensures s[|s| - 3..] == [s[|s| - 3], s[|s| - 2], s[|s| - 1]]
  {
  }

  lemma LastGroupCommas(len: nat)
    requires len > 3
    ensures CommaBefore(len, len - 3) && !CommaBefore(len, len - 2) && !CommaBefore(len, len - 1)
  {
  }

  lemma AppendThree(x: string, a: char, b: char, c: char)
    ensures x + [a] + [b] + [c] == x + [a, b, c]
  {
  }

  lemma {:induction false} WithoutCommasAppend(a: string, b: string)
    ensures WithoutCommas(a + b) == WithoutCommas(a) + WithoutCommas(b)
    decreases |b|
  {
    if b == [] {
      assert a + b == a;
    } else {
      var b' := b[..|b| - 1];
      assert (a + b)[..|a + b| - 1] == a + b';
      WithoutCommasAppend(a, b');
    }
  }

  lemma {:induction false} WithoutCommasOfDigits(s: string)
    requires AllDigits(s)
    ensures WithoutCommas(s) == s
  {
    if s != [] {
      WithoutCommasOfDigits(s[..|s| - 1]);
    }
  }

  /** Deleting the commas gives back the digits. */
  lemma {:induction false} GroupedWithoutCommas(s: string)
    requires AllDigits(s)
    ensures WithoutCommas(Grouped(s)) == s
    decreases |s|
  {
    if |s| <= 3 {
      WithoutCommasOfDigits(s);
    } else {
      var p, q := s[..|s| - 3], s[|s| - 3..];
      GroupedWithoutCommas(p);
      WithoutCommasOfDigits(q);
      WithoutCommasAppend(Grouped(p) + [','], q);
      WithoutCommasComma(Grouped(p));
      assert p + q == s;
    }
  }

  /** A trailing ',' is deleted. */
  lemma WithoutCommasComma(a: string)
    ensures WithoutCommas(a + [',']) == WithoutCommas(a)
  {
    assert (a + [','])[..|a|] == a;
  }

  /** One ',' for every full group of three after the first group. */
  lemma {:induction false} GroupedLength(s: string)
    requires |s| >= 1
    ensures |Grouped(s)| == |s| + (|s| - 1) / 3
    decreases |s|
  {
    if |s| > 3 {
      GroupedLength(s[..|s| - 3]);
    }
  }

  /** The first character is written unchanged, so the result never starts with ','. */
  lemma {:induction false} GroupedFirst(s: string)
    requires |s| >= 1
    ensures Grouped(s)[0] == s[0]
    decreases |s|
  {
    if |s| > 3 {
      GroupedFirst(s[..|s| - 3]);
    }
  }

  /**
   * In a grouped string of digits the commas sit exactly at the positions
   * with a multiple of four characters from the end; so the first character
   * is a digit, no two commas are adjacent, and after the first group every
   * group holds three digits.
   */
  lemma {:induction false} GroupedCommaPositions(s: string)
    requires AllDigits(s)
    ensures forall j | 0 <= j < |Grouped(s)| :: Grouped(s)[j] == ',' <==> (|Grouped(s)| - j) % 4 == 0
    decreases |s|
  {
    var g := Grouped(s);
    if |s| > 3 {
      var p := s[..|s| - 3];
      GroupedCommaPositions(p);
      var gp := Grouped(p);
      forall j | 0 <= j < |g|
        ensures g[j] == ',' <==> (|g| - j) % 4 == 0
      {
        if j < |gp| {
          assert g[j] == gp[j];
          assert |g| - j == (|gp| - j) + 4;
        } else if j > |gp| {
          assert g[j] == s[|s| - 3 + (j - |gp| - 1)];
        }
      }
    }
  }

  /** The formatted number reads back as `n` once the commas are deleted. */
  lemma FormatReadsBack(n: nat)
    ensures WithoutCommas(Grouped(DecimalString(n))) == DecimalString(n)
    ensures DecimalValue(WithoutCommas(Grouped(DecimalString(n)))) == n
  {
    GroupedWithoutCommas(DecimalString(n));
    DecimalValueOfString(n);
  }
}
