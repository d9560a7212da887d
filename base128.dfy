/**
  The positional part of the codec: a natural number as its base-128 digits,
  most significant first, and the left fold `num * 128 + digit` that reads
  them back.
*/
module Base128 {
  import opened Wrappers

  /** The radix of the positional code, and so the number of symbols of the table. */
  const BASE: nat := 128

  /** BASE raised to the power e. */
  function Pow(e: nat): (p: nat)
    ensures p >= 1
  {
    if e == 0 then 1 else BASE * Pow(e - 1)
  }

  /**
    The base-128 digits of n, most significant first, with no leading zero:
    the empty sequence for 0.  This is what the `while temp > 0` loop of
    `encode_with_seed`, followed by the reversal, produces.
  */
  function Digits(n: nat): (ds: seq<nat>)
    ensures forall i | 0 <= i < |ds| :: ds[i] < BASE
    ensures |ds| > 0 <==> n > 0
    ensures n > 0 ==> ds[0] != 0
  {
    if n == 0 then [] else Digits(n / BASE) + [n % BASE]
  }

  /** The last digit of a positive n is n % 128; the others are the digits of n / 128. */
  lemma DigitsLast(n: nat)
    requires n > 0
    ensures Digits(n) == Digits(n / BASE) + [n % BASE]
  {
  }

  /** The data digits of the encoding: a single 0 digit for 0, else Digits(n). */
  function ToDigits(n: nat): (ds: seq<nat>)
    ensures |ds| >= 1
    ensures forall i | 0 <= i < |ds| :: ds[i] < BASE
    ensures |ds| == 1 || ds[0] != 0
  {
    if n == 0 then [0] else Digits(n)
  }

  /** The fold `num = num * 128 + digit` of `decode`, over the digits from left to right. */
  function FromDigits(ds: seq<nat>): (v: nat)
    ensures (forall i | 0 <= i < |ds| :: ds[i] == 0) ==> v == 0
  {
    if ds == [] then 0 else FromDigits(ds[..|ds| - 1]) * BASE + ds[|ds| - 1]
  }

  /** One more digit: the fold multiplies by 128 and adds it. */
  lemma FromDigitsSnoc(ds: seq<nat>, d: nat)
    ensures FromDigits(ds + [d]) == FromDigits(ds) * BASE + d
  {
    assert (ds + [d])[..|ds|] == ds;
  }

  /** The fold never decreases: every intermediate value of `num` is at most the final one. */
  lemma {:induction false} FromDigitsPrefix(ds: seq<nat>, k: nat)
    requires k <= |ds|
    ensures FromDigits(ds[..k]) <= FromDigits(ds)
    decreases |ds|
  {
    if k < |ds| {
      var init := ds[..|ds| - 1];
      assert init[..k] == ds[..k];
      FromDigitsPrefix(init, k);
    } else {
      assert ds[..k] == ds;
    }
  }

  /** A digit sequence as the encoder writes it: digits below 128, no leading zero digit. */
  predicate Canonical(ds: seq<nat>)
  {
    (forall i | 0 <= i < |ds| :: ds[i] < BASE) && (|ds| == 0 || ds[0] != 0)
  }

  /** Reading the digits of n back gives n. */
  lemma {:induction false} FromDigitsOfDigits(n: nat)
    ensures FromDigits(Digits(n)) == n
  {
    if n > 0 {
      var ds := Digits(n);
      assert ds[..|ds| - 1] == Digits(n / BASE);
      FromDigitsOfDigits(n / BASE);
    }
  }

  /** The round trip of the positional code, including the single 0 digit of 0. */
  lemma FromToDigits(n: nat)
    ensures FromDigits(ToDigits(n)) == n
  {
    FromDigitsOfDigits(n);
  }

  /** The other direction: a canonical digit sequence is the digit sequence of its value. */
  lemma {:induction false} DigitsOfFromDigits(ds: seq<nat>)
    requires Canonical(ds)
    ensures Digits(FromDigits(ds)) == ds
  {
    if ds != [] {
      var prefix := ds[..|ds| - 1];
      var last := ds[|ds| - 1];
      assert Canonical(prefix);
      DigitsOfFromDigits(prefix);
      var n := FromDigits(ds);
      assert n == FromDigits(prefix) * BASE + last;
      if prefix == [] {
        assert n == last && last != 0;
        assert Digits(n) == Digits(0) + [last];
      } else {
        assert FromDigits(prefix) != 0;
        assert n / BASE == FromDigits(prefix) && n % BASE == last;
        assert Digits(n) == Digits(FromDigits(prefix)) + [last];
      }
    }
  }

  /** The digit sequence of the encoding determines it: a 0 alone, or canonical digits. */
  lemma ToFromDigits(ds: seq<nat>)
    requires |ds| >= 1 && forall i | 0 <= i < |ds| :: ds[i] < BASE
    requires |ds| == 1 || ds[0] != 0
    ensures ToDigits(FromDigits(ds)) == ds
  {
    if ds == [0] {
      assert FromDigits(ds) == FromDigits([]) * BASE + 0;
    } else {
      assert ds[0] != 0;
      DigitsOfFromDigits(ds);
    }
  }

  /** The value of k digits below 128 stays below 128^k. */
  lemma {:induction false} FromDigitsBound(ds: seq<nat>)
    requires forall i | 0 <= i < |ds| :: ds[i] < BASE
    ensures FromDigits(ds) < Pow(|ds|)
  {
    if ds != [] {
      var prefix := ds[..|ds| - 1];
      FromDigitsBound(prefix);
      assert FromDigits(prefix) + 1 <= Pow(|prefix|);
      assert FromDigits(ds) < (FromDigits(prefix) + 1) * BASE;
    }
  }

  /** Digits(n) has exactly as many digits as n needs: 128^(k-1) <= n < 128^k for k digits. */
  lemma {:induction false} DigitCount(n: nat)
    requires n > 0
    ensures Pow(|Digits(n)| - 1) <= n < Pow(|Digits(n)|)
  {
    if n / BASE > 0 {
      DigitCount(n / BASE);
      var k := |Digits(n / BASE)|;
      assert |Digits(n)| == k + 1;
      assert Pow(k - 1) * BASE <= (n / BASE) * BASE <= n;
      assert n < (n / BASE + 1) * BASE <= Pow(k) * BASE;
    }
  }

  /** Powers of 128 grow with the exponent. */
  lemma {:induction false} PowMonotone(a: nat, b: nat)
    requires a <= b
    ensures Pow(a) <= Pow(b)
  {
    if a < b {
      PowMonotone(a, b - 1);
    }
  }

  /** A number below 2^64 has at most 10 base-128 digits (2^64 <= 128^10). */
  lemma U64DigitCount(n: nat)
    requires n < U64_LIMIT
    ensures |ToDigits(n)| <= 10
  {
    if n > 0 {
      DigitCount(n);
      if |Digits(n)| > 10 {
        PowMonotone(10, |Digits(n)| - 1);
        assert false;
      }
    }
  }

  /** Nine base-128 digits always fit in a u64 (128^9 is 2^63). */
  lemma NineDigitsFitU64(ds: seq<nat>)
    requires forall i | 0 <= i < |ds| :: ds[i] < BASE
    requires |ds| <= 9
    ensures FromDigits(ds) < U64_LIMIT
  {
    FromDigitsBound(ds);
    PowMonotone(|ds|, 9);
    assert Pow(9) == 0x8000_0000_0000_0000;
  }
}
