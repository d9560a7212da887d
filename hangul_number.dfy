/**
  The codec `HangulNumberConverter` of hangulNumber.rs: a u64 becomes a seed
  symbol followed by the scrambled base-128 digits of the number, each written
  as a symbol of the table, and `decode` reads such a string back.

  The specification functions `Encoded` and `Decoded` say what the encoder and
  the decoder compute, for any table of 128 distinct symbols (the converter is
  built with the table `CHARS`); the methods of the class are the loops of
  hangulNumber.rs, proved to compute exactly these, and the lemmas state the properties
  of the code: its shape, the round trip, injectivity and the failure cases of
  decode.
*/
module HangulNumber {
  import opened Wrappers
  import opened Alphabet
  import opened Base128
  import opened Scrambler
  import Graphemes

  /** The error of `encode_with_seed`: "Seed must be between 0 and 127". */
  datatype EncodeError = SeedOutOfRange

  /** The errors of `decode`, in the order it checks for them. */
  datatype DecodeError =
    | TooShort                         // "Invalid string: must be at least 2 characters"
    | InvalidSeedCharacter(c: char)    // "Invalid seed character: c"
    | InvalidCharacter(c: char)        // "Invalid character: c"

  /** Each digit, scrambled with the seed and written as its symbol of table t. */
  function Symbols(t: seq<char>, ds: seq<nat>, seed: nat): (s: string)
    requires |t| == SIZE
  {
    seq(|ds|, i requires 0 <= i < |ds| => t[Scramble(ds[i], seed)])
  }

  lemma SymbolsAppend(t: seq<char>, ds: seq<nat>, d: nat, seed: nat)
    requires |t| == SIZE
    ensures Symbols(t, ds + [d], seed) == Symbols(t, ds, seed) + [t[Scramble(d, seed)]]
  {
  }

  /** One more digit written by the symbol loop of `encode_with_seed`. */
  lemma SymbolsStep(t: seq<char>, ds: seq<nat>, k: nat, seed: nat)
    requires |t| == SIZE && k < |ds|
    ensures Symbols(t, ds[..k + 1], seed) == Symbols(t, ds[..k], seed) + [t[Scramble(ds[k], seed)]]
  {
    assert ds[..k + 1] == ds[..k] + [ds[k]];
    SymbolsAppend(t, ds[..k], ds[k], seed);
  }

  /** The string `encode_with_seed(num, seed)` returns: the seed symbol, then the data symbols. */
  function Encoded(t: seq<char>, num: nat, seed: nat): (s: string)
    requires |t| == SIZE && seed < SIZE
  {
    [t[seed]] + Symbols(t, ToDigits(num), seed)
  }

  /**
    The digits behind the data symbols, unscrambled with the seed, or the
    error for the first symbol that is not in the table.
  */
  ghost function DataDigits(t: seq<char>, data: string, seed: nat): (r: Result<seq<nat>, DecodeError>)
    requires IsTable(t) && seed < SIZE
  {
    if data == [] then Ok([])
    else
      match DataDigits(t, data[..|data| - 1], seed)
      case Err(e) => Err(e)
      case Ok(ds) =>
        var c := data[|data| - 1];
        if c in ReverseOf(t) then Ok(ds + [Unscramble(ReverseOf(t)[c], seed)])
        else Err(InvalidCharacter(c))
  }

  /** What `decode(s)` returns, the value being an unbounded natural number. */
  ghost function Decoded(t: seq<char>, s: string): (r: Result<nat, DecodeError>)
    requires IsTable(t)
  {
    if |s| < 2 then Err(TooShort)
    else if s[0] !in ReverseOf(t) then Err(InvalidSeedCharacter(s[0]))
    else
      match DataDigits(t, s[1..], ReverseOf(t)[s[0]])
      case Err(e) => Err(e)
      case Ok(ds) => Ok(FromDigits(ds))
  }

  /** The Vec reversal `digits.reverse()`. */
  function Reversed(s: seq<nat>): (r: seq<nat>)
  {
    if s == [] then [] else Reversed(s[1..]) + [s[0]]
  }

  /** `Reversed` keeps the length and puts element k at index |s| - 1 - k. */
  lemma {:induction false} ReversedAt(s: seq<nat>)
    ensures |Reversed(s)| == |s|
    ensures forall k | 0 <= k < |s| :: Reversed(s)[k] == s[|s| - 1 - k]
  {
    if s != [] {
      ReversedAt(s[1..]);
    }
  }

  lemma {:induction false} ReversedAppend(s: seq<nat>, x: nat)
    ensures Reversed(s + [x]) == [x] + Reversed(s)
  {
    if s != [] {
      assert (s + [x])[1..] == s[1..] + [x];
      ReversedAppend(s[1..], x);
    }
  }

  /** One more digit taken off by the `while temp > 0` loop of `encode_with_seed`. */
  lemma DigitsStep(n: nat, temp: nat, digits: seq<nat>)
    requires temp > 0 && Digits(n) == Digits(temp) + Reversed(digits)
    ensures Digits(n) == Digits(temp / BASE) + Reversed(digits + [temp % BASE])
  {
    DigitsLast(temp);
    ReversedStep(Digits(n), Digits(temp / BASE), temp % BASE, digits);
  }

  lemma ReversedStep(whole: seq<nat>, rest: seq<nat>, d: nat, digits: seq<nat>)
    requires whole == (rest + [d]) + Reversed(digits)
    ensures whole == rest + Reversed(digits + [d])
  {
    ReversedAppend(digits, d);
    assert (rest + [d]) + Reversed(digits) == rest + ([d] + Reversed(digits));
  }

  /** The loop of `new`: inserts every symbol of the table with its index. */
  method BuildReverseMap(t: seq<char>) returns (m: map<char, nat>)
    requires IsTable(t)
    ensures m == ReverseOf(t)
  {
    m := map[];
    for i := 0 to |t|
      invariant forall j | 0 <= j < i :: t[j] in m && m[t[j]] == j
      invariant forall c | c in m :: m[c] < i && t[m[c]] == c
    {
      m := m[t[i] := i];
    }
    forall c | c in m
      ensures c in ReverseOf(t) && ReverseOf(t)[c] == m[c]
    {
      assert t[m[c]] == c;
    }
    forall c | c in ReverseOf(t)
      ensures c in m
    {
      assert t[ReverseOf(t)[c]] == c;
    }
  }

  /**
    The digit loop of `encode_with_seed` for a positive num: the base-128
    digits, least significant first, then `digits.reverse()`.
  */
  method DigitsOf(num: u64) returns (digits: seq<nat>)
    requires num > 0
    ensures digits == ToDigits(num as nat)
  {
    digits := [];
    var temp := num;
    while temp > 0
      invariant Digits(num as nat) == Digits(temp as nat) + Reversed(digits)
    {
      DigitsStep(num as nat, temp as nat, digits);
      digits := digits + [(temp % 128) as nat];
      temp := temp / 128;
    }
    digits := Reversed(digits);
  }

  class HangulNumberConverter {
    /** The symbol table, `CHARS`. */
    const chars: seq<char>
    /** Every symbol of the table with its index. */
    const reverseMap: map<char, nat>

    ghost predicate Valid()
    {
      IsTable(chars) && reverseMap == ReverseOf(chars)
    }

    /** `new`: the converter over `CHARS`, with its reverse map filled in. */
    constructor ()
      ensures Valid() && chars == CHARS
    {
      CharsIsTable();
      var m := BuildReverseMap(CHARS);
      chars := CHARS;
      reverseMap := m;
    }

    /** `encode_with_seed`: fails for a seed above 127, else returns the encoding of num under that seed. */
    method EncodeWithSeed(num: u64, seed: nat) returns (r: Result<string, EncodeError>)
      requires Valid()
      ensures seed >= SIZE ==> r == Err(SeedOutOfRange)
      ensures seed < SIZE ==> r == Ok(Encoded(chars, num as nat, seed))
    {
      if seed >= 128 {
        return Err(SeedOutOfRange);
      }
      var seedChar := chars[seed];
      if num == 0 {
        var scrambled := (0 + seed) % 128;
        EncodedZero(chars, seed);
        ScrambleZero(seed);
        return Ok([seedChar, chars[scrambled]]);
      }
      var digits := DigitsOf(num);
      var result: string := [seedChar];
      for k := 0 to |digits|
        invariant result == [seedChar] + Symbols(chars, digits[..k], seed)
      {
        var scrambled := (digits[k] + seed) % 128;
        SymbolsStep(chars, digits, k, seed);
        result := result + [chars[scrambled]];
      }
      assert digits[..|digits|] == digits;
      return Ok(result);
    }

    /**
      `encode`: the seed is the sub-second part of the clock, in nanoseconds,
      modulo 128; the clock reading is the parameter.
    */
    method Encode(num: u64, subsecNanos: nat) returns (r: Result<string, EncodeError>)
      requires Valid()
      ensures r == Ok(Encoded(chars, num as nat, subsecNanos % SIZE))
      ensures r.Ok? && Decoded(chars, r.value) == Ok(num as nat)
    {
      var seed := subsecNanos % 128;
      r := EncodeWithSeed(num, seed);
      RoundTrip(chars, num as nat, seed);
    }

    /** `encode_all`: the encodings of num under the seeds 0 to 127, in order. */
    method EncodeAll(num: u64) returns (r: Result<seq<string>, EncodeError>)
      requires Valid()
      ensures r.Ok? && |r.value| == SIZE
      ensures forall seed | 0 <= seed < SIZE :: r.value[seed] == Encoded(chars, num as nat, seed)
      ensures forall seed | 0 <= seed < SIZE :: Decoded(chars, r.value[seed]) == Ok(num as nat)
    {
      var results: seq<string> := [];
      for seed := 0 to 128
        invariant |results| == seed
        invariant forall j | 0 <= j < seed :: results[j] == Encoded(chars, num as nat, j)
      {
        // the `?` of `encode_all` never fires: every seed here is below 128
        var encoded := EncodeWithSeed(num, seed);
        results := results + [encoded.value];
      }
      forall seed | 0 <= seed < SIZE
        ensures Decoded(chars, results[seed]) == Ok(num as nat)
      {
        RoundTrip(chars, num as nat, seed);
      }
      return Ok(results);
    }

    /** `decode`: splits s into characters, checks the length, looks up the seed and folds the digits. */
    method Decode(s: string) returns (r: Result<nat, DecodeError>)
      requires Valid()
      ensures r == Decoded(chars, s)
    {
      var units := Graphemes.Collect(s);
      if |units| < 2 {
        return Err(TooShort);
      }
      var seedChar := units[0];
      if seedChar !in reverseMap {
        return Err(InvalidSeedCharacter(seedChar));
      }
      var seed := reverseMap[seedChar];
      var data := units[1..];
      var num: nat := 0;
      for k := 0 to |data|
        invariant DataDigits(chars, data[..k], seed).Ok?
        invariant num == FromDigits(DataDigits(chars, data[..k], seed).value)
      {
        var c := data[k];
        assert data[..k + 1][..k] == data[..k];
        if c !in reverseMap {
          DataDigitsFirstError(chars, data, k + 1, seed);
          return Err(InvalidCharacter(c));
        }
        var scrambled := reverseMap[c];
        var original := (scrambled + 128 - seed) % 128;
        ghost var ds := DataDigits(chars, data[..k], seed).value;
        assert original == Unscramble(ReverseOf(chars)[c], seed);
        DataDigitsSnoc(chars, data[..k], c, seed);
        assert data[..k + 1] == data[..k] + [c];
        assert DataDigits(chars, data[..k + 1], seed) == Ok(ds + [original]);
        FromDigitsSnoc(ds, original);
        num := num * 128 + original;
      }
      assert data[..|data|] == data;
      return Ok(num);
    }
  }

  /** Decoding stops at the first symbol that is not in the table. */
  lemma {:induction false} DataDigitsFirstError(t: seq<char>, data: string, k: nat, seed: nat)
    requires IsTable(t) && seed < SIZE && k <= |data|
    requires DataDigits(t, data[..k], seed).Err?
    ensures DataDigits(t, data, seed) == DataDigits(t, data[..k], seed)
    decreases |data|
  {
    if k < |data| {
      var prefix := data[..|data| - 1];
      assert prefix[..k] == data[..k];
      DataDigitsFirstError(t, prefix, k, seed);
    } else {
      assert data[..k] == data;
    }
  }

  /** Unscrambling the symbols of digits below 128 gives back the digits. */
  lemma {:induction false} DataDigitsOfSymbols(t: seq<char>, ds: seq<nat>, seed: nat)
    requires IsTable(t) && seed < SIZE
    requires forall i | 0 <= i < |ds| :: ds[i] < BASE
    ensures DataDigits(t, Symbols(t, ds, seed), seed) == Ok(ds)
  {
    if ds != [] {
      var pre, d := ds[..|ds| - 1], ds[|ds| - 1];
      var k := Scramble(d, seed);
      assert ds == pre + [d];
      SymbolsAppend(t, pre, d, seed);
      DataDigitsOfSymbols(t, pre, seed);
      assert t[k] in ReverseOf(t) && ReverseOf(t)[t[k]] == k;
      DataDigitsSnoc(t, Symbols(t, pre, seed), t[k], seed);
      UnscrambleScramble(d, seed);
    }
  }

  /** One more data symbol read by the loop of `decode`, when it is in the table. */
  lemma DataDigitsSnoc(t: seq<char>, prefix: string, c: char, seed: nat)
    requires IsTable(t) && seed < SIZE && DataDigits(t, prefix, seed).Ok? && c in ReverseOf(t)
    ensures DataDigits(t, prefix + [c], seed) == Ok(DataDigits(t, prefix, seed).value + [Unscramble(ReverseOf(t)[c], seed)])
  {
    assert (prefix + [c])[..|prefix|] == prefix;
  }

  /** Re-encoding the digits decode recovered gives back the data symbols. */
  lemma {:induction false} SymbolsOfDataDigits(t: seq<char>, data: string, seed: nat)
    requires IsTable(t) && seed < SIZE && DataDigits(t, data, seed).Ok?
    ensures |DataDigits(t, data, seed).value| == |data|
    ensures Symbols(t, DataDigits(t, data, seed).value, seed) == data
  {
    if data != [] {
      var n := |data|;
      var prefix, c := data[..n - 1], data[n - 1];
      SymbolsOfDataDigits(t, prefix, seed);
      var dp := DataDigits(t, prefix, seed).value;
      var i := ReverseOf(t)[c];
      assert DataDigits(t, data, seed).value == dp + [Unscramble(i, seed)];
      SymbolsAppend(t, dp, Unscramble(i, seed), seed);
      ScrambleUnscramble(i, seed);
      assert t[i] == c;
      assert data == prefix + [c];
    }
  }

  /** The data part fails exactly when one of its symbols is not in the table. */
  lemma {:induction false} DataDigitsFails(t: seq<char>, data: string, seed: nat)
    requires IsTable(t) && seed < SIZE
    ensures DataDigits(t, data, seed).Err? <==> exists i | 0 <= i < |data| :: data[i] !in t
  {
    if data != [] {
      var n := |data|;
      var prefix := data[..n - 1];
      DataDigitsFails(t, prefix, seed);
      ReverseOfKeys(t, data[n - 1]);
      if exists i | 0 <= i < |prefix| :: prefix[i] !in t {
        var i :| 0 <= i < |prefix| && prefix[i] !in t;
        assert data[i] !in t;
      }
      if exists i | 0 <= i < n :: data[i] !in t {
        var i :| 0 <= i < n && data[i] !in t;
        if i < n - 1 {
          assert prefix[i] !in t;
        }
      }
    }
  }

  /** An encoding is the seed symbol followed by one symbol per digit; every symbol is in the table. */
  lemma EncodedSymbols(t: seq<char>, num: nat, seed: nat)
    requires IsTable(t) && seed < SIZE
    ensures |Encoded(t, num, seed)| == 1 + |ToDigits(num)| >= 2
    ensures Encoded(t, num, seed)[0] == t[seed]
    ensures forall i | 1 <= i < |Encoded(t, num, seed)| :: Encoded(t, num, seed)[i] == t[Scramble(ToDigits(num)[i - 1], seed)]
    ensures forall i | 0 <= i < |Encoded(t, num, seed)| :: Encoded(t, num, seed)[i] in t
  {
    var s, ds := Encoded(t, num, seed), ToDigits(num);
    forall i | 1 <= i < |s|
      ensures s[i] == t[Scramble(ds[i - 1], seed)]
    {
      assert s[i] == Symbols(t, ds, seed)[i - 1];
    }
  }

  /** The encoding of 0 is the seed symbol twice. */
  lemma EncodedZero(t: seq<char>, seed: nat)
    requires IsTable(t) && seed < SIZE
    ensures Encoded(t, 0, seed) == [t[seed], t[seed]]
  {
    ScrambleZero(seed);
    assert Symbols(t, [0], seed) == [t[Scramble(0, seed)]];
  }

  /**
    A positive number has one data symbol per base-128 digit, and the first
    of them is not the seed symbol: the encoding has no leading zero digit.
  */
  lemma EncodedPositive(t: seq<char>, num: nat, seed: nat)
    requires IsTable(t) && seed < SIZE && num > 0
    ensures |Encoded(t, num, seed)| == 1 + |Digits(num)|
    ensures Encoded(t, num, seed)[1] != t[seed]
  {
    EncodedSymbols(t, num, seed);
    var d := ToDigits(num)[0];
    assert d != 0 && d < BASE;
    ScrambleZero(seed);
    UnscrambleScramble(d, seed);
    assert Scramble(d, seed) != seed;
    assert IndexOf(t, t[Scramble(d, seed)]) != IndexOf(t, t[seed]);
  }

  /** A u64 is written with at most 11 symbols, the seed and at most 10 data symbols. */
  lemma EncodedLengthU64(t: seq<char>, num: nat, seed: nat)
    requires IsTable(t) && seed < SIZE && num < U64_LIMIT
    ensures |Encoded(t, num, seed)| <= 11
  {
    U64DigitCount(num);
  }

  /** decode(encode_with_seed(num, seed)) == Ok(num), for every number and every seed. */
  lemma RoundTrip(t: seq<char>, num: nat, seed: nat)
    requires IsTable(t) && seed < SIZE
    ensures Decoded(t, Encoded(t, num, seed)) == Ok(num)
  {
    var s := Encoded(t, num, seed);
    assert s[1..] == Symbols(t, ToDigits(num), seed);
    DataDigitsOfSymbols(t, ToDigits(num), seed);
    FromToDigits(num);
  }

  /** For a fixed seed, different numbers have different encodings. */
  lemma EncodeInjective(t: seq<char>, a: nat, b: nat, seed: nat)
    requires IsTable(t) && seed < SIZE
    ensures Encoded(t, a, seed) == Encoded(t, b, seed) ==> a == b
  {
    RoundTrip(t, a, seed);
    RoundTrip(t, b, seed);
  }

  /** Encodings under different seeds differ, whatever the numbers, since their first symbols differ. */
  lemma SeedsDistinguish(t: seq<char>, a: nat, b: nat, seed1: nat, seed2: nat)
    requires IsTable(t) && seed1 < SIZE && seed2 < SIZE && seed1 != seed2
    ensures Encoded(t, a, seed1) != Encoded(t, b, seed2)
  {
    assert Encoded(t, a, seed1)[0] != Encoded(t, b, seed2)[0];
  }

  /** decode fails exactly when the input has fewer than 2 characters or a character outside the table. */
  lemma DecodedFails(t: seq<char>, s: string)
    requires IsTable(t)
    ensures Decoded(t, s).Err? <==> |s| < 2 || exists i | 0 <= i < |s| :: s[i] !in t
  {
    if |s| >= 2 {
      ReverseOfKeys(t, s[0]);
      if s[0] in t {
        var data := s[1..];
        DataDigitsFails(t, data, ReverseOf(t)[s[0]]);
        if exists i | 0 <= i < |s| :: s[i] !in t {
          var i :| 0 <= i < |s| && s[i] !in t;
          assert data[i - 1] !in t;
        }
        if exists i | 0 <= i < |data| :: data[i] !in t {
          var i :| 0 <= i < |data| && data[i] !in t;
          assert s[i + 1] !in t;
        }
      }
    }
  }

  /** Which error decode reports: too short, a bad seed symbol, or the first bad data symbol. */
  lemma DecodedError(t: seq<char>, s: string, k: nat)
    requires IsTable(t)
    ensures |s| < 2 ==> Decoded(t, s) == Err(TooShort)
    ensures |s| >= 2 && s[0] !in t ==> Decoded(t, s) == Err(InvalidSeedCharacter(s[0]))
    ensures 2 <= |s| && 1 <= k < |s| && s[k] !in t && (forall j | 0 <= j < k :: s[j] in t)
            ==> Decoded(t, s) == Err(InvalidCharacter(s[k]))
  {
    if |s| >= 2 {
      ReverseOfKeys(t, s[0]);
      if s[0] in t && 1 <= k < |s| && s[k] !in t && (forall j | 0 <= j < k :: s[j] in t) {
        var data := s[1..];
        var seed := ReverseOf(t)[s[0]];
        var p := data[..k - 1];
        assert forall j | 0 <= j < |p| :: p[j] == s[j + 1];
        DataDigitsFails(t, p, seed);
        assert data[..k] == p + [s[k]];
        assert data[..k][..k - 1] == p;
        ReverseOfKeys(t, s[k]);
        DataDigitsFirstError(t, data, k, seed);
      }
    }
  }

  /**
    Every decodable string without a redundant leading zero symbol is an
    encoding: a decodable string whose first data symbol is not the seed
    symbol (unless it is the only one) is the encoding of its value under its
    seed.
  */
  lemma EncodeDecoded(t: seq<char>, s: string)
    requires IsTable(t) && Decoded(t, s).Ok?
    requires |s| == 2 || s[1] != s[0]
    ensures Encoded(t, Decoded(t, s).value, ReverseOf(t)[s[0]]) == s
  {
    var seed := ReverseOf(t)[s[0]];
    var data := s[1..];
    var ds := DataDigits(t, data, seed).value;
    assert Decoded(t, s) == Ok(FromDigits(ds));
    SymbolsOfDataDigits(t, data, seed);
    DataDigitsBelowBase(t, data, seed);
    // the digit 0 is written as the seed symbol itself, so there is no leading 0 digit
    assert t[seed] == s[0] && data[0] == s[1];
    assert data[0] == t[Scramble(ds[0], seed)];
    ScrambleZero(seed);
    ToFromDigits(ds);
    assert Encoded(t, FromDigits(ds), seed) == [s[0]] + data;
    assert s == [s[0]] + data;
  }

  /** Every digit decode recovers is below 128. */
  lemma {:induction false} DataDigitsBelowBase(t: seq<char>, data: string, seed: nat)
    requires IsTable(t) && seed < SIZE && DataDigits(t, data, seed).Ok?
    ensures forall i | 0 <= i < |DataDigits(t, data, seed).value| :: DataDigits(t, data, seed).value[i] < BASE
  {
    if data != [] {
      DataDigitsBelowBase(t, data[..|data| - 1], seed);
    }
  }

  /**
    Up to nine data symbols the decoded value stays below 2^64 (128^9 is
    2^63), so there the unbounded value is the u64 that `decode` computes.
  */
  lemma DecodedFitsU64(t: seq<char>, s: string)
    requires IsTable(t) && Decoded(t, s).Ok? && |s| <= 10
    ensures Decoded(t, s).value < U64_LIMIT
  {
    var seed := ReverseOf(t)[s[0]];
    var ds := DataDigits(t, s[1..], seed).value;
    SymbolsOfDataDigits(t, s[1..], seed);
    DataDigitsBelowBase(t, s[1..], seed);
    NineDigitsFitU64(ds);
  }
}
