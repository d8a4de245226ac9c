# Coin combinations, modelled in Dafny

This project models the core of a small Rust library. The library enumerates the power set
of four US coins (Penny, Nickel, Dime, Quarter) and values each subset in cents.

- `Coin::all()` fixes the canonical order of the coins. The coin at position j stands for
  bit j of an index.
- `generate_all_combinations` builds the sixteen combinations for indices 0 to 15. For each
  index it scans bit positions 0 to 3 and pushes the coin of every set bit.
- `generate_random_combination` draws one index and decodes it with the same loop.
- `total_value` sums the cent values of any sequence of coins, duplicates included.

Files:

- `bits.dfy`, module `Bits`, covers the bit operations on non-negative indices.
  `Pow2(n)` is `1 << n`. `Shr(i, j)` is `i >> j`, written as j halvings.
  `BitSet(i, j)` is `(i >> j) & 1 == 1`. The module also holds the arithmetic
  lemmas that relate them.
- `coins.dfy`, module `Coins`, holds everything else:
  - the `Coin` datatype, `All`, `ValueInCents` and `TotalValue`;
  - the specification function `Decode(i, n)`, which gives the combination of index `i`
    over the first `n` coins;
  - its inverse `Encode`, which sums `1 << j` over the coins' positions;
  - the specification of the whole output, `Combinations()`;
  - the two generator loops as methods, proved equal to `Decode`.

The main results:

- `Decode` and `Encode` form a bijection between the indices below `1 << n` and the
  combinations in canonical order (`EncodeDecode`, `DecodeEncode`).
- So the sixteen generated combinations are distinct. They are exactly the canonically
  ordered subsets of the universe, and each one sits at the index it encodes to.
- The random generator's decoding loop returns entry `i` of the enumeration.

## Model

| member | source | states |
|---|---|---|
| `Coins.All` | src/lib.rs:25-27 | `Coin::all()` holds 4 coins, no two of them equal. Its exact order is pinned down by `CoinUniverse` |
| `Coins.ValueInCents` | src/lib.rs:30-37 | every coin is worth between 1 and 25 cents, so the value fits the `u8` result. The exact table is stated by `CentTable` |
| `Coins.TotalValue` | src/lib.rs:77-83 | the total is 0 iff there are no coins. `TotalValueByCounts` fixes its value as a reference sum over the coin counts |
| `Bits.Pow2` | src/lib.rs:45-45 | `1 << n` is at least 1 |
| `Bits.Shr` | src/lib.rs:65-65 | `i >> j` never exceeds i |
| `Bits.ShrIsDivision` | src/lib.rs:65-65 | `i >> j` equals i divided by `1 << j`, rounded down |
| `Coins.Position` | src/lib.rs:25-27 | a coin's bit position is its index in `Coin::all()`: `All()[Position(c)] == c` |
| `Coins.CoinUniverse` | src/lib.rs:25-27 | `Coin::all()` has exactly 4 coins, in the order Penny, Nickel, Dime, Quarter. Every variant occurs in it. Position j holds the coin whose position is j. Cent values strictly ascend along the order |
| `Coins.CentTable` | src/lib.rs:30-37 | `value_in_cents` maps Penny, Nickel, Dime and Quarter to 1, 5, 10 and 25. Every value is between 1 and 25 |
| `Coins.TotalValueAppend` | src/lib.rs:77-83 | the total of a concatenation is the sum of the totals of its parts |
| `Coins.TotalValueByCounts` | src/lib.rs:77-83 | reference definition: the total is 1, 5, 10 and 25 times the number of Pennies, Nickels, Dimes and Quarters in the input, so duplicates count |
| `Coins.TotalValuePermutation` | src/lib.rs:77-83 | two inputs with the same coins, in any order, have the same total |
| `Coins.TotalValueBounds` | src/lib.rs:77-83 | the total lies between the number of coins and 25 times that number |
| `Coins.TotalValueFitsU32` | src/lib.rs:77-83 | for at most 171,798,691 coins, the total fits the `u32` result type |
| `Coins.TotalValueExamples` | src/lib.rs:171-194 | `[]` gives 0, `[Penny]` 1, `[Quarter]` 25, `[Quarter, Dime]` 35, `[Quarter, Dime, Nickel, Penny]` 41, `[Nickel, Nickel]` 10 |
| `Coins.UniverseValue` | src/lib.rs:25-37 | all four coins together are worth 41 cents |
| `Coins.Decode` | src/lib.rs:58-67 | decoding over n bit positions yields at most n coins |
| `Coins.DecodeMembership` | src/lib.rs:58-67 | coin c is in the combination of index i over n positions iff c's position is below n and that bit of i is set |
| `Coins.DecodeCanonical` | src/lib.rs:58-67 | decoded coins come in strictly ascending position, so in canonical order and without repeats |
| `Coins.DecodeZero` | src/lib.rs:58-67 | index 0 yields the empty combination, whatever the number of positions |
| `Coins.DecodeAddHigh` | src/lib.rs:58-67 | adding one `1 << m` with m >= n leaves the decoding over n positions unchanged |
| `Coins.DecodeAddMultiple` | src/lib.rs:58-67 | adding any multiple of `1 << m` with m >= n leaves the decoding over n positions unchanged |
| `Coins.DecodeLowBits` | src/lib.rs:58-67 | decoding over n positions ignores every bit at or above n: index i decodes like `i % (1 << n)` |
| `Coins.EncodeDecode` | src/lib.rs:58-67 | re-encoding the combination of index i, as the sum of `1 << j` over its coins, gives the low n bits of i |
| `Coins.CanonicalLength` | src/lib.rs:58-67 | a canonically ordered combination over n positions has at most n coins |
| `Coins.DecodeEncode` | src/lib.rs:58-67 | take a canonically ordered combination over n positions and encode it. The code is below `1 << n` and decodes back to the same combination |
| `Coins.AppendTopCoin` | src/lib.rs:65-66 | pushing the coin of position n - 1 adds `1 << (n - 1)` to the encoding. The new index decodes to the extended combination |
| `Coins.DecodeInjective` | src/lib.rs:58-67 | two indices below `1 << n` that decode to the same combination are equal |
| `Coins.DecodeValueBound` | src/lib.rs:58-67 | a decoded combination is worth at most the first n coins together |
| `Coins.CombinationCount` | src/lib.rs:43-45 | the universe has 4 coins and `1 << 4` is 16 |
| `Coins.Combinations` | src/lib.rs:44-51 | the enumeration has 16 entries. By definition entry i is the decoding of index i over all four positions |
| `Coins.CombinationBits` | src/lib.rs:58-67 | entry i holds `Coin::all()[j]` iff `(i >> j) & 1 == 1`. Its coins are in canonical order, and re-encoding it gives back i |
| `Coins.CombinationsDistinct` | src/lib.rs:252-268 | no two of the 16 entries are equal |
| `Coins.SameBits` | src/lib.rs:58-67 | two indices whose bits `(i >> j) & 1` agree for every j below n decode to the same combination over n positions |
| `Coins.CombinationsDistinctAsSets` | src/lib.rs:42-74 | two entries holding the same set of coins are the same entry, so the 16 combinations are pairwise distinct as sets |
| `Coins.CombinationsComplete` | src/lib.rs:42-74 | a coin sequence is an entry iff it is canonically ordered. A canonical sequence is the entry at the index it encodes to |
| `Coins.SingleEntry` | src/lib.rs:58-67 | the one-coin combination of coin c is the entry at `1 << Position(c)` |
| `Coins.PairEntry` | src/lib.rs:58-67 | the combination of two canonically ordered coins is the entry at the sum of their bits |
| `Coins.EmptyEntry` | src/lib.rs:207-215 | entry 0 is empty |
| `Coins.FullEntry` | src/lib.rs:217-226 | entry 15 is the whole universe |
| `Coins.CombinationsEntries` | src/lib.rs:207-250 | entries 0, 1, 2, 5, 10 and 15 are `[]`, `[Penny]`, `[Nickel]`, `[Penny, Dime]`, `[Nickel, Quarter]` and all 4 coins |
| `Coins.CountOfLength` | src/lib.rs:289-289 | counting the entries of a given length never gives more than the number of entries |
| `Coins.CountOfLengthIsCard` | src/lib.rs:289-289 | counting the entries of a given length gives the number of positions that hold one |
| `Coins.ScenarioValues` | src/lib.rs:60-65 | entry 5 (Penny, Dime) is worth 11 cents and entry 10 (Nickel, Quarter) 30 cents |
| `Coins.SingleCoinIndex` | src/lib.rs:285-296 | entry i holds exactly one coin iff i is 1, 2, 4 or 8 |
| `Coins.SingleCoinCombinations` | src/lib.rs:285-296 | exactly four entries hold a single coin: those at 1, 2, 4 and 8 |
| `Coins.CombinationValueBound` | src/lib.rs:270-279 | every entry is worth at most 41 cents |
| `Coins.CombinationValueRange` | src/lib.rs:270-279 | entry values lie in [0, 41]. The minimum 0 is reached by entry 0 and the maximum 41 by entry 15 |
| `Coins.GenerateAllCombinations` | src/lib.rs:42-74 | the nested loop returns 16 combinations, exactly the enumeration `Combinations()`. The inner loop's partial combination is the decoding of the bits scanned so far |
| `Coins.GenerateRandomCombination` | src/lib.rs:87-109 | for a drawn index below 16, the decoding loop returns entry i of the enumeration. It has at most 4 coins, in canonical order, worth at most 41 cents |

## Left out

- The random draw `rand::thread_rng().gen_range(0..16)` is a foreign, non-deterministic call. `GenerateRandomCombination` takes the drawn index as a parameter instead, under `requires i < 16`, which is the range `gen_range` promises. Its uniform distribution is not modelled.
- The statistical "variety over 50 draws" test is not a property of any single run and is not modelled.
- src/web.rs is left out: HTTP routing, async handlers, JSON serialisation, CORS, logging and socket binding. Its `/all` and `/random` handlers only pair each combination with its `total_value`, and with its index for `/all`.
- src/main.rs is left out: console printing of the same results.
- The derived traits (`Debug`, `Clone`, `Copy`, `PartialEq`) are left out, and so is the `format!("{:?}")` comparison in the uniqueness test. Dafny datatype values are immutable and compared structurally.
- The empty `AppState` is left out. It carries nothing.
- `TotalValue`: the sum is computed over unbounded naturals. The source sums into a `u32`, which would overflow (a panic in debug builds, wrap-around in release builds) only beyond 171,798,691 coins. `TotalValueFitsU32` shows that no overflow happens below that size.
- `ValueInCents`: it returns a natural number, not a `u8`. Every value is at most 25, so the `u8` width and the `as u32` cast change nothing.
- The source's indices `i` and `total_combinations` are `i32`, because the literal `1` in `1 << total_coins` has no suffix. So `>>` is an arithmetic shift there. The indices stay in 0..16, so modelling them as `nat` and `>>` as halving changes nothing.
- `Vec` values become immutable sequences, and `push` becomes concatenation. No caller shares the vectors, so nothing is lost.
