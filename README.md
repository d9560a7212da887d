# Hangul number converter, modelled in Dafny

The converter in `hangulNumber.rs` writes a `u64` as a short string of Hangul
syllables. The symbol table `CHARS` has 128 syllables, grouped by initial
consonant. An encoding starts with a seed symbol `CHARS[seed]`. Then come the
base-128 digits of the number, most significant first. Each digit is shifted
by the seed modulo 128 and written as its symbol. `decode` does the reverse:
it splits the string into characters, looks each one up in the reverse map
built by `new`, unscrambles it with the seed, and folds the digits as
`num * 128 + digit`. `encode_all` lists the encodings under all 128 seeds.
`format_number_with_commas` prints a number with thousands separators.

Modules:

- `Wrappers`: `Option`, `Result` and the `u64` range.
- `Alphabet`: the table `CHARS`, written out row by row. It has a proof that
  its 128 symbols are distinct, and the reverse lookup `ReverseOf`.
- `Base128`: the digits of a number, the fold that reads them back, and the
  laws connecting the two.
- `Scrambler`: the seed shift and its inverse.
- `Graphemes`: the `GraphemeIterator` class with its mutable position, and
  the `collect` over it.
- `HangulNumber`: the class `HangulNumberConverter` with the loops of
  hangulNumber.rs as methods. Each method is proved equal to a specification function
  (`Encoded`, `Decoded`). The lemmas about those functions give the shape of
  an encoding, the round trip, injectivity, and the exact failure cases of
  decoding. The lemmas are stated for any table of 128 distinct symbols. The
  constructor fixes the converter's table to `CHARS`, and `CharsIsTable`
  discharges that assumption.
- `Commas`: the comma-inserting loop, proved equal to a reference grouping
  function. Lemmas give where the commas fall, and that deleting them gives
  back the digits.

## Model

| member | source | states |
|---|---|---|
| Alphabet.CharsIsTable | hangulNumber.rs:5-34 | the table has 128 entries and no two of them are equal |
| Alphabet.TableDistinct | hangulNumber.rs:5-34 | a 128-symbol table is a valid table exactly when no two of its symbols are equal |
| Alphabet.ReverseOf | hangulNumber.rs:44-47 | the reverse map sends every `t[i]` to `i`, and every key to an index below 128 whose entry is that key |
| Alphabet.ReverseOfKeys | hangulNumber.rs:151-160 | a character has an entry in the reverse map exactly when it occurs in the table |
| HangulNumber.BuildReverseMap | hangulNumber.rs:44-47 | the insertion loop builds exactly the reverse map of the table |
| HangulNumber.HangulNumberConverter.constructor | hangulNumber.rs:43-54 | the converter uses `CHARS`, its table is valid, and its map is the reverse map of `CHARS` |
| HangulNumber.Encoded | hangulNumber.rs:64-96 | the string `encode_with_seed` returns: the seed symbol `t[seed]`, then one symbol per digit of `ToDigits(num)` (a single 0 digit for 0) |
| HangulNumber.DataDigits | hangulNumber.rs:155-164 | the digits of the data symbols, each looked up in the reverse map and unscrambled with the seed, left to right; `Err(InvalidCharacter(c))` for the first symbol `c` not in the table |
| HangulNumber.Decoded | hangulNumber.rs:141-167 | what `decode` returns: `TooShort` below 2 characters, then `InvalidSeedCharacter` for an unknown first character, then the first data error, else `Ok` of the fold of the data digits |
| HangulNumber.Symbols | hangulNumber.rs:90-93 | one symbol `t[(d + seed) % 128]` per digit `d`, in digit order |
| HangulNumber.DigitsOf | hangulNumber.rs:77-86 | for `num > 0` the push loop over `temp % 128`, `temp / 128`, followed by `digits.reverse()`, gives exactly `ToDigits(num)` |
| HangulNumber.HangulNumberConverter.EncodeWithSeed | hangulNumber.rs:64-96 | `Err` exactly when `seed >= 128`; otherwise `Ok` of the seed symbol followed by the scrambled digit symbols of `num` |
| HangulNumber.HangulNumberConverter.Encode | hangulNumber.rs:107-117 | delegates with seed `subsec_nanos % 128`, always succeeds, and the result decodes to `num` |
| HangulNumber.HangulNumberConverter.EncodeAll | hangulNumber.rs:126-132 | always `Ok`, with exactly 128 strings; entry `i` is the encoding under seed `i` and decodes to `num` |
| HangulNumber.HangulNumberConverter.Decode | hangulNumber.rs:141-167 | the result equals `Decoded`: the fold of the unscrambled digits, or the first error met |
| HangulNumber.EncodedSymbols | hangulNumber.rs:88-93 | the encoding is the seed symbol `t[seed]` followed by one symbol `t[(d + seed) % 128]` per digit `d`, so it has at least 2 symbols, all from the table |
| HangulNumber.EncodedZero | hangulNumber.rs:72-75 | the encoding of 0 is exactly the seed symbol twice |
| HangulNumber.EncodedPositive | hangulNumber.rs:77-93 | for `num > 0` the length is 1 plus the number of base-128 digits, and the first data symbol differs from the seed symbol (no leading zero digit) |
| HangulNumber.EncodedLengthU64 | hangulNumber.rs:77-83 | a `u64` is written with at most 11 symbols |
| HangulNumber.RoundTrip | hangulNumber.rs:141-167 | decoding the encoding of `num` under any seed below 128 gives `Ok(num)` |
| HangulNumber.EncodeInjective | hangulNumber.rs:88-93 | under one seed, different numbers have different encodings |
| HangulNumber.SeedsDistinguish | hangulNumber.rs:69-74 | encodings under different seeds differ, whatever the numbers |
| HangulNumber.DecodedFails | hangulNumber.rs:143-160 | decoding fails exactly when the input has fewer than 2 characters or some character is not in the table |
| HangulNumber.DecodedError | hangulNumber.rs:145-160 | which error is returned: too short, an invalid seed character, or the first invalid data character |
| HangulNumber.EncodeDecoded | hangulNumber.rs:141-167 | every decodable string without a redundant leading zero symbol is the encoding of its value under its own seed |
| HangulNumber.DecodedFitsU64 | hangulNumber.rs:156-164 | with at most 9 data symbols the decoded value is below 2^64, so the `u64` fold cannot overflow there |
| HangulNumber.DataDigitsOfSymbols | hangulNumber.rs:157-164 | the decoding loop recovers the digits written by the encoding loop |
| HangulNumber.SymbolsOfDataDigits | hangulNumber.rs:157-164 | the decoded digits are one per data symbol and re-encode to the data symbols |
| HangulNumber.DataDigitsFails | hangulNumber.rs:157-160 | the data loop fails exactly when some data character is not in the table |
| HangulNumber.DataDigitsFirstError | hangulNumber.rs:158-160 | once an invalid character is met, the result is that error, whatever follows |
| HangulNumber.DataDigitsSnoc | hangulNumber.rs:157-164 | one more symbol in the table adds its unscrambled digit at the end of the decoded digits |
| HangulNumber.DataDigitsBelowBase | hangulNumber.rs:162 | every unscrambled digit is below 128 |
| HangulNumber.ReversedAt | hangulNumber.rs:86 | `digits.reverse()` keeps the length and puts element `k` at index `len - 1 - k` |
| HangulNumber.ReversedAppend | hangulNumber.rs:80-86 | reversing a sequence with one more element at the end puts it at the front |
| Graphemes.GraphemeIterator.constructor | hangulNumber.rs:181-185 | a fresh iterator is at position 0 of the string |
| Graphemes.GraphemeIterator.Next | hangulNumber.rs:195-209 | yields the character at the position and steps past it, or `None` with the position unchanged at the end |
| Graphemes.Collect | hangulNumber.rs:143 | draining the iterator gives exactly the characters of the string, in order |
| Scrambler.Scramble | hangulNumber.rs:91 | `(d + seed) % 128`, always below 128 |
| Scrambler.Unscramble | hangulNumber.rs:162 | `(scrambled + 128 - seed) % 128` for a seed below 128, always below 128 |
| Scrambler.UnscrambleScramble | hangulNumber.rs:162 | for digit and seed in [0, 127], `((d + seed) % 128 + 128 - seed) % 128 == d` |
| Scrambler.ScrambleZero | hangulNumber.rs:73 | the digit 0 scrambles to the seed itself |
| Scrambler.ScrambleUnscramble | hangulNumber.rs:91 | scrambling an unscrambled value gives it back, so the scramble is a bijection of [0, 127] |
| Base128.Digits | hangulNumber.rs:77-86 | digits below 128, none for 0, and no leading zero digit |
| Base128.ToDigits | hangulNumber.rs:71-86 | the encoder's digits: one 0 digit for 0, else the base-128 digits; at least one digit, each below 128, and no leading 0 unless it is the only digit |
| Base128.FromDigits | hangulNumber.rs:163 | the fold `num * 128 + digit` from the left; a sequence of zero digits folds to 0 |
| Base128.FromDigitsSnoc | hangulNumber.rs:163 | one more digit multiplies the fold by 128 and adds the digit |
| Base128.FromDigitsPrefix | hangulNumber.rs:161-164 | every intermediate value of `num` in the fold is at most the final value |
| Base128.FromToDigits | hangulNumber.rs:77-86 | folding the digits of `n` as `num * 128 + digit` gives back `n` |
| Base128.DigitsOfFromDigits | hangulNumber.rs:156-164 | a canonical digit sequence is the digit sequence of its fold value |
| Base128.ToFromDigits | hangulNumber.rs:156-164 | a digit sequence as the encoder writes it, with a single 0 for zero, is the encoder's digit sequence of its value |
| Base128.FromDigitsBound | hangulNumber.rs:163 | the fold of `k` digits is below 128^k |
| Base128.NineDigitsFitU64 | hangulNumber.rs:163 | nine base-128 digits fold to a value below 2^64 |
| Base128.DigitCount | hangulNumber.rs:80-83 | a positive `n` with `k` digits lies in [128^(k-1), 128^k) |
| Base128.U64DigitCount | hangulNumber.rs:80-83 | a `u64` has at most 10 base-128 digits |
| Commas.DecimalString | hangulNumber.rs:213 | at least one character, all decimal digits, and no leading zero |
| Commas.DecimalValueOfString | hangulNumber.rs:213 | the decimal string of `n` denotes `n` |
| Commas.FormatNumberWithCommas | hangulNumber.rs:212-224 | the result is the reference grouping of the decimal digits of `n` |
| Commas.CommaBefore | hangulNumber.rs:218 | the loop's test `i > 0 && (len - i) % 3 == 0` for writing ',' before index `i` |
| Commas.Punctuated | hangulNumber.rs:217-222 | the output after `k` loop steps: each character, with a ',' before index `i` when `i > 0 && (len - i) % 3 == 0`; between `k` and `2k` characters long |
| Commas.PunctuatedIsGrouped | hangulNumber.rs:217-222 | writing ',' before index `i` exactly when `i > 0 && (len - i) % 3 == 0` gives the reference grouping |
| Commas.GroupedWithoutCommas | hangulNumber.rs:212-224 | deleting every ',' gives back the digits |
| Commas.GroupedLength | hangulNumber.rs:217-222 | a string of length `L` gets `(L - 1) / 3` commas |
| Commas.GroupedFirst | hangulNumber.rs:218 | the first character is the first digit, so there is no leading comma |
| Commas.GroupedCommaPositions | hangulNumber.rs:218-220 | a character is ',' exactly when a multiple of four characters start there counting to the end, so every group after the first has three digits |
| Commas.FormatReadsBack | hangulNumber.rs:212-224 | the formatted number, with its commas deleted, is the decimal string of `n` and denotes `n` |

## Left out

- `main` (hangulNumber.rs:226-287) is console I/O: it reads and parses lines and prints the listing. It is not modelled.
- The `Default` implementation (hangulNumber.rs:170-174) only calls `new`.
- HangulNumber.HangulNumberConverter.Encode: the clock is not modelled. Its nanosecond reading is the parameter `subsecNanos`, which stands for a successful reading only. The panic of `SystemTime::now().duration_since(UNIX_EPOCH).unwrap()` (hangulNumber.rs:111-113) on a clock set before the epoch is not modelled.
- The `eprintln!` size warning in `new` (hangulNumber.rs:49-51) cannot fire, because the table's type fixes 128 entries. `CharsIsTable` states the length as a fact.
- HangulNumber.Decoded and HangulNumber.HangulNumberConverter.Decode fold over an unbounded `nat`. They do not model the `u64` overflow of `num * 128 + original` (hangulNumber.rs:163) on inputs with 10 or more data symbols. That overflow panics in a debug build and wraps in a release build. `DecodedFitsU64` shows the value matches the `u64` one up to 9 data symbols. For an encoder output, `EncodedLengthU64` shows that the encoding of a `u64` has at most 11 symbols, so at most 10 data symbols, whose final value is that `u64` by `RoundTrip`; by `FromDigitsPrefix` every intermediate value of the fold is at most the final one, so no step overflows.
- Graphemes.GraphemeIterator.Next counts its position in characters, not UTF-8 bytes, and yields a `char` rather than a `&str` slice. Every table symbol is one Unicode scalar value, so the units are the same.
- The trait `Graphemes` and its unused `extended` flag are folded into the iterator's constructor.
- `HashMap` is modelled as a Dafny `map<char, nat>` keyed by the symbol.
- `Vec::reverse` is the function `Reversed`, and `String::push_str` is sequence concatenation.
- `u64::to_string` is the function `Commas.DecimalString`.
- The codec functions and lemmas take the table as a parameter, required to hold 128 distinct symbols. The converter binds it to `CHARS`.
