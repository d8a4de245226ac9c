/**
  The coin universe, the valuation of a handful of coins and the power-set
  enumeration of src/lib.rs.  Bit j of an index stands for the coin at
  position j of the canonical universe (Penny, Nickel, Dime, Quarter).
 */
module Coins {
  import opened Bits

  /** `Coin`: a closed set of four denominations. */
  datatype Coin = Penny | Nickel | Dime | Quarter

  /** `Coin::all()`: the universe in canonical order, four distinct coins. */
  function All(): (r: seq<Coin>)
    ensures |r| == 4
    ensures forall j, k :: 0 <= j < k < |r| ==> r[j] != r[k]
  {
    [Penny, Nickel, Dime, Quarter]
  }

  /** `Coin::value_in_cents()`; every value fits the source's `u8`. */
  function ValueInCents(c: Coin): (r: nat)
    ensures 1 <= r <= 25
  {
    match c
    case Penny => 1
    case Nickel => 5
    case Dime => 10
    case Quarter => 25
  }

  /** Bit position of a coin: where it stands in `All()`. */
  function Position(c: Coin): (j: nat)
    ensures j < |All()| && All()[j] == c
  {
    match c
    case Penny => 0
    case Nickel => 1
    case Dime => 2
    case Quarter => 3
  }

  /** Largest value a `u32` holds. */
  const U32_MAX: nat := 0xFFFF_FFFF

  /** `total_value`: the sum of the cent values of the coins, duplicates included. */
  function TotalValue(coins: seq<Coin>): (r: nat)
    ensures r == 0 <==> coins == []
  {
    if coins == [] then 0 else ValueInCents(coins[0]) + TotalValue(coins[1..])
  }

  /** The universe: four coins, each variant once, positions 0 to 3, values ascending. */
  lemma CoinUniverse()
    ensures |All()| == 4
    ensures All()[0] == Penny && All()[1] == Nickel && All()[2] == Dime && All()[3] == Quarter
    ensures forall c: Coin :: c in All()
    ensures forall j :: 0 <= j < |All()| ==> Position(All()[j]) == j
    ensures forall j, k :: 0 <= j < k < |All()| ==> ValueInCents(All()[j]) < ValueInCents(All()[k])
  {
    forall c: Coin ensures c in All() {
      assert All()[Position(c)] == c;
    }
  }

  /** The cent table of `value_in_cents`. */
  lemma CentTable()
    ensures ValueInCents(Penny) == 1 && ValueInCents(Nickel) == 5
    ensures ValueInCents(Dime) == 10 && ValueInCents(Quarter) == 25
    ensures forall c: Coin :: 1 <= ValueInCents(c) <= 25
  {
  }

  /** Position is the inverse of indexing into the universe. */
  lemma PositionOfAll(j: nat)
    requires j < |All()|
    ensures Position(All()[j]) == j
  {
    CoinUniverse();
  }

  // ---------------------------------------------------------------------------
  // Valuation
  // ---------------------------------------------------------------------------

  /** Summing is additive over concatenation. */
  lemma {:induction false} TotalValueAppend(a: seq<Coin>, b: seq<Coin>)
    ensures TotalValue(a + b) == TotalValue(a) + TotalValue(b)
  {
    if a != [] {
      assert (a + b)[0] == a[0];
      assert (a + b)[1..] == a[1..] + b;
      TotalValueAppend(a[1..], b);
      assert TotalValue(a + b) == ValueInCents(a[0]) + TotalValue(a[1..] + b);
    } else {
      assert a + b == b;
    }
  }

  /** Reference definition: each coin counts once per occurrence, in any order. */
  lemma {:induction false} TotalValueByCounts(coins: seq<Coin>)
    ensures var m := multiset(coins);
      TotalValue(coins) == m[Penny] * 1 + m[Nickel] * 5 + m[Dime] * 10 + m[Quarter] * 25
  {
    if coins != [] {
      assert coins == [coins[0]] + coins[1..];
      assert multiset(coins) == multiset{coins[0]} + multiset(coins[1..]);
      TotalValueByCounts(coins[1..]);
    }
  }

  /** The value depends only on which coins occur how often, not on their order. */
  lemma TotalValuePermutation(a: seq<Coin>, b: seq<Coin>)
    requires multiset(a) == multiset(b)
    ensures TotalValue(a) == TotalValue(b)
  {
    TotalValueByCounts(a);
    TotalValueByCounts(b);
  }

  /** Each coin contributes between 1 and 25 cents. */
  lemma {:induction false} TotalValueBounds(coins: seq<Coin>)
    ensures |coins| <= TotalValue(coins) <= 25 * |coins|
  {
    if coins != [] {
      TotalValueBounds(coins[1..]);
    }
  }

  /** The source's `u32` sum cannot overflow on fewer than 171,798,692 coins. */
  lemma TotalValueFitsU32(coins: seq<Coin>)
    requires |coins| <= U32_MAX / 25
    ensures TotalValue(coins) <= U32_MAX
  {
    TotalValueBounds(coins);
  }

  /** The worked examples: empty, single, all four, duplicates. */
  lemma TotalValueExamples()
    ensures TotalValue([]) == 0
    ensures TotalValue([Penny]) == 1
    ensures TotalValue([Quarter]) == 25
    ensures TotalValue([Quarter, Dime]) == 35
    ensures TotalValue([Quarter, Dime, Nickel, Penny]) == 41
    ensures TotalValue([Nickel, Nickel]) == 10
  {
    assert [Quarter, Dime, Nickel, Penny][1..] == [Dime, Nickel, Penny];
    assert [Dime, Nickel, Penny][1..] == [Nickel, Penny];
  }

  // ---------------------------------------------------------------------------
  // Bitmask decoding
  // ---------------------------------------------------------------------------

  /**
    The combination for index i over the first n coins of the universe:
    `All()[j]` for every j < n whose bit is set, in ascending j.
   */
  function Decode(i: nat, n: nat): (s: seq<Coin>)
    requires n <= |All()|
    ensures |s| <= n
  {
    if n == 0 then []
    else Decode(i, n - 1) + (if BitSet(i, n - 1) then [All()[n - 1]] else [])
  }

  /** Re-encoding a combination: the sum of `1 << j` over the positions j of its coins. */
  function Encode(s: seq<Coin>): (e: nat)
  {
    if s == [] then 0 else Pow2(Position(s[0])) + Encode(s[1..])
  }

  /** A combination in canonical order whose coins all come from the first n positions. */
  predicate Canonical(s: seq<Coin>, n: nat)
  {
    && (forall k :: 0 <= k < |s| ==> Position(s[k]) < n)
    && (forall a, b :: 0 <= a < b < |s| ==> Position(s[a]) < Position(s[b]))
  }

  /** Re-encoding is additive over concatenation. */
  lemma {:induction false} EncodeAppend(a: seq<Coin>, b: seq<Coin>)
    ensures Encode(a + b) == Encode(a) + Encode(b)
  {
    if a != [] {
      assert (a + b)[0] == a[0];
      assert (a + b)[1..] == a[1..] + b;
      EncodeAppend(a[1..], b);
      assert Encode(a + b) == Pow2(Position(a[0])) + Encode(a[1..] + b);
    } else {
      assert a + b == b;
    }
  }

  /** Coin c is in combination i exactly when its bit is set. */
  lemma {:induction false} DecodeMembership(i: nat, n: nat, c: Coin)
    requires n <= |All()|
    ensures c in Decode(i, n) <==> Position(c) < n && BitSet(i, Position(c))
  {
    if n > 0 {
      DecodeMembership(i, n - 1, c);
      PositionOfAll(n - 1);
    }
  }

  /** Decoding yields the coins in canonical order, without repeats. */
  lemma {:induction false} DecodeCanonical(i: nat, n: nat)
    requires n <= |All()|
    ensures Canonical(Decode(i, n), n)
  {
    if n > 0 {
      var d := Decode(i, n - 1);
      DecodeCanonical(i, n - 1);
      CanonicalExtend(d, n);
      if BitSet(i, n - 1) {
        assert Decode(i, n) == d + [All()[n - 1]];
      } else {
        assert Decode(i, n) == d + [] == d;
      }
    }
  }

  /** A canonical combination below position n - 1 stays canonical, with or without coin n - 1 pushed. */
  lemma CanonicalExtend(d: seq<Coin>, n: nat)
    requires 0 < n <= |All()| && Canonical(d, n - 1)
    ensures Canonical(d, n) && Canonical(d + [All()[n - 1]], n)
  {
    PositionOfAll(n - 1);
    var e := d + [All()[n - 1]];
    forall k | 0 <= k < |e| ensures Position(e[k]) < n {
      if k < |d| {
        assert e[k] == d[k];
      }
    }
    forall a, b | 0 <= a < b < |e| ensures Position(e[a]) < Position(e[b]) {
      assert e[a] == d[a];
      if b < |d| {
        assert e[b] == d[b];
      }
    }
  }

  /** Round trip index -> combination -> index, on the low n bits. */
  lemma {:induction false} EncodeDecode(i: nat, n: nat)
    requires n <= |All()|
    ensures Encode(Decode(i, n)) == i % Pow2(n)
  {
    if n > 0 {
      var d := Decode(i, n - 1);
      var tail := if BitSet(i, n - 1) then [All()[n - 1]] else [];
      var bit := if BitSet(i, n - 1) then Pow2(n - 1) else 0;
      assert Decode(i, n) == d + tail;
      EncodeAppend(d, tail);
      assert Encode(tail) == bit by {
        if BitSet(i, n - 1) {
          EncodeAppendTop([], n);
        }
      }
      EncodeDecode(i, n - 1);
      ModPow2Step(i, n - 1);
      assert i % Pow2(n) == i % Pow2(n - 1) + bit;
    }
  }

  /** Decoding n coins only looks at the low n bits. */
  lemma {:induction false} DecodeAddHigh(x: nat, m: nat, n: nat)
    requires n <= m && n <= |All()|
    ensures Decode(x + Pow2(m), n) == Decode(x, n)
  {
    if n > 0 {
      DecodeAddHigh(x, m, n - 1);
      AddPow2KeepsLowBits(x, m, n - 1);
    }
  }

  /** Adding any multiple of `1 << m`, m >= n, leaves the decoding unchanged. */
  lemma {:induction false} DecodeAddMultiple(r: nat, q: nat, m: nat, n: nat)
    requires n <= m && n <= |All()|
    ensures Decode(r + q * Pow2(m), n) == Decode(r, n)
  {
    if q > 0 {
      DecodeAddMultiple(r, q - 1, m, n);
      assert r + q * Pow2(m) == (r + (q - 1) * Pow2(m)) + Pow2(m);
      DecodeAddHigh(r + (q - 1) * Pow2(m), m, n);
    }
  }

  /** Decoding n coins depends only on the low n bits of the index. */
  lemma DecodeLowBits(i: nat, n: nat)
    requires n <= |All()|
    ensures Decode(i, n) == Decode(i % Pow2(n), n)
  {
    var p := Pow2(n);
    var q, r := i / p, i % p;
    assert i == r + q * p;
    DecodeAddMultiple(r, q, n, n);
  }

  /** Index 0 selects no coin. */
  lemma DecodeZero(n: nat)
    requires n <= |All()|
    ensures Decode(0, n) == []
  {
    if n > 0 {
      DecodeZero(n - 1);
      ShrBelow(0, n - 1);
    }
  }

  /** Dropping the last coin of a canonical combination leaves one below that coin's position. */
  lemma CanonicalInit(s: seq<Coin>, n: nat)
    requires Canonical(s, n) && s != []
    ensures Canonical(s[..|s| - 1], Position(s[|s| - 1]))
  {
    var init := s[..|s| - 1];
    forall k | 0 <= k < |init| ensures Position(init[k]) < Position(s[|s| - 1]) {
      assert init[k] == s[k];
    }
  }

  /** A canonical combination over n positions has at most n coins. */
  lemma {:induction false} CanonicalLength(s: seq<Coin>, n: nat)
    requires Canonical(s, n)
    ensures |s| <= n
    decreases |s|
  {
    if s != [] {
      CanonicalInit(s, n);
      CanonicalLength(s[..|s| - 1], Position(s[|s| - 1]));
    }
  }

  /** A canonical combination that avoids position n - 1 stays within the first n - 1. */
  lemma CanonicalShrink(s: seq<Coin>, n: nat)
    requires n > 0 && Canonical(s, n)
    requires s == [] || Position(s[|s| - 1]) != n - 1
    ensures Canonical(s, n - 1)
  {
    forall k | 0 <= k < |s| ensures Position(s[k]) < n - 1 {
      if k < |s| - 1 {
        assert Position(s[k]) < Position(s[|s| - 1]);
      }
    }
  }

  /** Round trip combination -> index -> combination, for every canonical combination. */
  lemma {:induction false} DecodeEncode(s: seq<Coin>, n: nat)
    requires n <= |All()| && Canonical(s, n)
    ensures Encode(s) < Pow2(n) && Decode(Encode(s), n) == s
    decreases n, 1
  {
    if n == 0 {
      CanonicalLength(s, n);
    } else if s != [] && Position(s[|s| - 1]) == n - 1 {
      DecodeEncodeLast(s, n);
    } else {
      CanonicalShrink(s, n);
      DecodeEncode(s, n - 1);
      DecodeClearTopBit(Encode(s), n);
    }
  }

  /** An index below `1 << (n - 1)` selects nothing at position n - 1. */
  lemma DecodeClearTopBit(e: nat, n: nat)
    requires 0 < n <= |All()| && e < Pow2(n - 1)
    ensures Decode(e, n) == Decode(e, n - 1)
  {
    ShrBelow(e, n - 1);
    assert Decode(e, n) == Decode(e, n - 1) + [];
  }

  /** The step of DecodeEncode where the combination ends with the coin at position n - 1. */
  lemma {:induction false} DecodeEncodeLast(s: seq<Coin>, n: nat)
    requires 0 < n <= |All()| && Canonical(s, n)
    requires s != [] && Position(s[|s| - 1]) == n - 1
    ensures Encode(s) < Pow2(n) && Decode(Encode(s), n) == s
    decreases n, 0
  {
    var init := s[..|s| - 1];
    CanonicalInit(s, n);
    DecodeEncode(init, n - 1);
    assert s == init + [All()[n - 1]];
    AppendTopCoin(init, n);
  }

  /** Appending the coin at position n - 1 to a combination over n - 1 positions sets bit n - 1. */
  lemma AppendTopCoin(init: seq<Coin>, n: nat)
    requires 0 < n <= |All()|
    requires Encode(init) < Pow2(n - 1) && Decode(Encode(init), n - 1) == init
    ensures Encode(init + [All()[n - 1]]) == Encode(init) + Pow2(n - 1) < Pow2(n)
    ensures Decode(Encode(init + [All()[n - 1]]), n) == init + [All()[n - 1]]
  {
    EncodeAppendTop(init, n);
    DecodeSetTopBit(Encode(init), n);
  }

  /** Appending the coin at position n - 1 adds `1 << (n - 1)` to the encoding. */
  lemma EncodeAppendTop(init: seq<Coin>, n: nat)
    requires 0 < n <= |All()|
    ensures Encode(init + [All()[n - 1]]) == Encode(init) + Pow2(n - 1)
  {
    var top := All()[n - 1];
    assert Encode([top]) == Pow2(n - 1) by {
      assert [top][1..] == [];
      PositionOfAll(n - 1);
    }
    EncodeAppend(init, [top]);
  }

  /** Setting bit n - 1 of an index below `1 << (n - 1)` appends the coin at position n - 1. */
  lemma DecodeSetTopBit(e: nat, n: nat)
    requires 0 < n <= |All()| && e < Pow2(n - 1)
    ensures Decode(e + Pow2(n - 1), n) == Decode(e, n - 1) + [All()[n - 1]]
  {
    DecodeAddHigh(e, n - 1, n - 1);
    AddPow2SetsBit(e, n - 1);
  }

  /** Distinct indices decode to distinct combinations. */
  lemma DecodeInjective(i: nat, k: nat, n: nat)
    requires n <= |All()| && i < Pow2(n) && k < Pow2(n)
    requires Decode(i, n) == Decode(k, n)
    ensures i == k
  {
    EncodeDecode(i, n);
    EncodeDecode(k, n);
    DivModUnique(i, Pow2(n), 0, i);
    DivModUnique(k, Pow2(n), 0, k);
  }

  /** A combination is worth at most the first n coins together. */
  lemma {:induction false} DecodeValueBound(i: nat, n: nat)
    requires n <= |All()|
    ensures TotalValue(Decode(i, n)) <= TotalValue(All()[..n])
  {
    if n > 0 {
      var tail := if BitSet(i, n - 1) then [All()[n - 1]] else [];
      DecodeValueBound(i, n - 1);
      TotalValueAppend(Decode(i, n - 1), tail);
      assert All()[..n] == All()[..n - 1] + [All()[n - 1]];
      TotalValueAppend(All()[..n - 1], [All()[n - 1]]);
    }
  }

  // ---------------------------------------------------------------------------
  // The power set
  // ---------------------------------------------------------------------------

  /** What `generate_all_combinations` returns: entry i is the combination of bitmask i. */
  function Combinations(): (cs: seq<seq<Coin>>)
    ensures |cs| == 16
  {
    CombinationCount();
    seq(Pow2(|All()|), (i: int) requires 0 <= i => Decode(i, |All()|))
  }

  /** `1 << 4`: four coins give sixteen combinations. */
  lemma CombinationCount()
    ensures |All()| == 4 && Pow2(|All()|) == 16
  {
    assert Pow2(4) == 2 * Pow2(3) == 4 * Pow2(2) == 8 * Pow2(1) == 16 * Pow2(0);
  }

  /** Sixteen entries, entry i decoding bitmask i over the whole universe. */
  lemma CombinationsShape()
    ensures |Combinations()| == 16
    ensures forall i :: 0 <= i < 16 ==> Combinations()[i] == Decode(i, 4)
  {
  }

  /** The number of combinations holding exactly k coins. */
  function CountOfLength(cs: seq<seq<Coin>>, k: nat): (r: nat)
    ensures r <= |cs|
  {
    if cs == [] then 0
    else CountOfLength(cs[..|cs| - 1], k) + (if |cs[|cs| - 1]| == k then 1 else 0)
  }

  /** Counting agrees with the number of positions holding a k-coin combination. */
  lemma {:induction false} CountOfLengthIsCard(cs: seq<seq<Coin>>, k: nat)
    ensures CountOfLength(cs, k) == |set i | 0 <= i < |cs| && |cs[i]| == k|
  {
    if cs != [] {
      var init := cs[..|cs| - 1];
      CountOfLengthIsCard(init, k);
      var before := set i | 0 <= i < |init| && |init[i]| == k;
      var after := set i | 0 <= i < |cs| && |cs[i]| == k;
      if |cs[|cs| - 1]| == k {
        assert after == before + {|cs| - 1};
      } else {
        assert after == before;
      }
    }
  }

  /** Sixteen combinations; entry i holds coin j iff bit j of i is set, in canonical order, and re-encodes to i. */
  lemma CombinationBits(i: nat, j: nat)
    requires i < |Combinations()| && j < |All()|
    ensures All()[j] in Combinations()[i] <==> BitSet(i, j)
    ensures Canonical(Combinations()[i], |All()|)
    ensures Encode(Combinations()[i]) == i
  {
    CombinationCount();
    CombinationsShape();
    var s := Decode(i, 4);
    DecodeMembership(i, 4, All()[j]);
    PositionOfAll(j);
    DecodeCanonical(i, 4);
    EncodeDecode(i, 4);
    DivModUnique(i, 16, 0, i);
  }

  /** No combination appears twice. */
  lemma CombinationsDistinct()
    ensures forall i, k :: 0 <= i < k < |Combinations()| ==> Combinations()[i] != Combinations()[k]
  {
    forall i, k | 0 <= i < k < |Combinations()|
      ensures Combinations()[i] != Combinations()[k]
    {
      if Combinations()[i] == Combinations()[k] {
        DecodeInjective(i, k, |All()|);
      }
    }
  }

  /** Two indices whose bits agree on the first n positions decode alike. */
  lemma {:induction false} SameBits(i: nat, k: nat, n: nat)
    requires n <= |All()|
    requires forall j :: 0 <= j < n ==> (BitSet(i, j) <==> BitSet(k, j))
    ensures Decode(i, n) == Decode(k, n)
  {
    if n > 0 {
      SameBits(i, k, n - 1);
    }
  }

  /** No two combinations hold the same set of coins. */
  lemma CombinationsDistinctAsSets(i: nat, k: nat)
    requires i < |Combinations()| && k < |Combinations()|
    requires forall c :: c in Combinations()[i] <==> c in Combinations()[k]
    ensures i == k
  {
    CombinationCount();
    forall j | 0 <= j < 4 ensures BitSet(i, j) <==> BitSet(k, j) {
      CombinationBits(i, j);
      CombinationBits(k, j);
    }
    SameBits(i, k, 4);
    CombinationsShape();
    DecodeInjective(i, k, 4);
  }

  /** The entries are exactly the canonical combinations, each at the index it encodes to. */
  lemma CombinationsComplete(s: seq<Coin>)
    ensures s in Combinations() <==> Canonical(s, |All()|)
    ensures Canonical(s, |All()|) ==> Encode(s) < |Combinations()| && Combinations()[Encode(s)] == s
  {
    CombinationsShape();
    if Canonical(s, |All()|) {
      DecodeEncode(s, |All()|);
      assert Combinations()[Encode(s)] == s;
    }
    if s in Combinations() {
      var i :| 0 <= i < |Combinations()| && Combinations()[i] == s;
      DecodeCanonical(i, |All()|);
    }
  }

  /** The entries the source's tests name. */
  lemma CombinationsEntries()
    ensures Combinations()[0] == []
    ensures Combinations()[1] == [Penny]
    ensures Combinations()[2] == [Nickel]
    ensures Combinations()[5] == [Penny, Dime]
    ensures Combinations()[10] == [Nickel, Quarter]
    ensures Combinations()[15] == All() && |Combinations()[15]| == 4
  {
    SingleEntries();
    PairEntries();
    EmptyEntry();
    FullEntry();
  }

  /** Penny and Nickel alone sit at 1 and 2. */
  lemma SingleEntries()
    ensures Combinations()[1] == [Penny] && Combinations()[2] == [Nickel]
  {
    SingleEntry(Penny);
    SingleEntry(Nickel);
    assert Pow2(1) == 2 * Pow2(0) == 2;
  }

  /** Penny with Dime sits at 5, Nickel with Quarter at 10. */
  lemma PairEntries()
    ensures Combinations()[5] == [Penny, Dime] && Combinations()[10] == [Nickel, Quarter]
  {
    PairEntry(Penny, Dime);
    PairEntry(Nickel, Quarter);
    assert Pow2(3) == 2 * Pow2(2) == 4 * Pow2(1) == 8 * Pow2(0) == 8;
  }

  /** A single coin sits at the index of its own bit. */
  lemma SingleEntry(c: Coin)
    ensures Encode([c]) == Pow2(Position(c))
    ensures Combinations()[Encode([c])] == [c]
  {
    assert [c][1..] == [];
    CombinationsComplete([c]);
  }

  /** A two-coin canonical combination sits at the sum of its coins' bits. */
  lemma PairEntry(c: Coin, d: Coin)
    requires Position(c) < Position(d)
    ensures Encode([c, d]) == Pow2(Position(c)) + Pow2(Position(d))
    ensures Combinations()[Encode([c, d])] == [c, d]
  {
    assert [c, d][1..] == [d];
    assert [d][1..] == [];
    assert Encode([d]) == Pow2(Position(d));
    CombinationsComplete([c, d]);
  }

  /** The empty combination comes first. */
  lemma EmptyEntry()
    ensures Combinations()[0] == []
  {
    CombinationsComplete([]);
  }

  /** The full universe comes last. */
  lemma FullEntry()
    ensures Combinations()[15] == All()
  {
    CombinationsShape();
    assert Decode(15, 4) == All();
  }

  /** The worked scenarios: index 5 (Penny, Dime) is worth 11 cents, index 10 (Nickel, Quarter) 30. */
  lemma ScenarioValues()
    ensures TotalValue(Combinations()[5]) == 11
    ensures TotalValue(Combinations()[10]) == 30
  {
    CombinationsEntries();
    assert [Penny, Dime][1..] == [Dime];
    assert [Nickel, Quarter][1..] == [Quarter];
  }

  /** Combination i holds one coin iff i is a power of two. */
  lemma SingleCoinIndex(i: nat)
    requires i < |Combinations()|
    ensures |Combinations()[i]| == 1 <==> i == 1 || i == 2 || i == 4 || i == 8
  {
    CombinationsShape();
    var s := Combinations()[i];
    if |s| == 1 {
      assert s == [s[0]];
      EncodeDecode(i, 4);
      DivModUnique(i, 16, 0, i);
      SingleEntry(s[0]);
    }
    if i == 1 || i == 2 || i == 4 || i == 8 {
      var c := if i == 1 then Penny else if i == 2 then Nickel else if i == 4 then Dime else Quarter;
      SingleEntry(c);
    }
  }

  /** Exactly four combinations hold a single coin. */
  lemma SingleCoinCombinations()
    ensures forall i :: 0 <= i < |Combinations()| ==>
      (|Combinations()[i]| == 1 <==> i == 1 || i == 2 || i == 4 || i == 8)
    ensures CountOfLength(Combinations(), 1) == 4
  {
    var cs := Combinations();
    forall i | 0 <= i < |cs| ensures |cs[i]| == 1 <==> i == 1 || i == 2 || i == 4 || i == 8 {
      SingleCoinIndex(i);
    }
    CountOfLengthIsCard(cs, 1);
    assert (set i | 0 <= i < |cs| && |cs[i]| == 1) == {1, 2, 4, 8};
  }

  /** No combination is worth more than the whole universe, 41 cents. */
  lemma CombinationValueBound(i: nat)
    requires i < |Combinations()|
    ensures TotalValue(Combinations()[i]) <= 41
  {
    CombinationsShape();
    DecodeValueBound(i, 4);
    assert All()[..4] == All();
    UniverseValue();
  }

  /** The whole universe is worth 1 + 5 + 10 + 25 = 41 cents. */
  lemma UniverseValue()
    ensures TotalValue(All()) == 41
  {
    TotalValueExamples();
    TotalValuePermutation(All(), [Quarter, Dime, Nickel, Penny]);
  }

  /** Values range over [0, 41]: the empty combination gives the minimum, the full one the maximum. */
  lemma CombinationValueRange()
    ensures forall i :: 0 <= i < |Combinations()| ==> 0 <= TotalValue(Combinations()[i]) <= 41
    ensures TotalValue(Combinations()[0]) == 0
    ensures TotalValue(Combinations()[15]) == 41
  {
    forall i | 0 <= i < |Combinations()| ensures TotalValue(Combinations()[i]) <= 41 {
      CombinationValueBound(i);
    }
    EmptyEntry();
    FullEntry();
    UniverseValue();
  }

  // ---------------------------------------------------------------------------
  // The generators
  // ---------------------------------------------------------------------------

  /** `generate_all_combinations`: push, for every index, the coins whose bit is set. */
  method GenerateAllCombinations() returns (combinations: seq<seq<Coin>>)
    ensures |combinations| == 16
    ensures combinations == Combinations()
  {
    CombinationCount();
    var coins := All();
    var totalCoins := |coins|;
    var totalCombinations := Pow2(totalCoins);
    combinations := [];
    for i := 0 to totalCombinations
      invariant |combinations| == i
      invariant forall k :: 0 <= k < i ==> combinations[k] == Decode(k, totalCoins)
    {
      var combination := [];
      for j := 0 to totalCoins
        invariant combination == Decode(i, j)
      {
        if Shr(i, j) % 2 == 1 {
          combination := combination + [coins[j]];
        }
      }
      combinations := combinations + [combination];
    }
    CombinationsShape();
  }

  /**
    `generate_random_combination` after its random draw: decode the drawn index i.
    The result is entry i of the power set, so at most four valid coins worth at most 41 cents.
   */
  method GenerateRandomCombination(i: nat) returns (combination: seq<Coin>)
    requires i < Pow2(|All()|)
    ensures combination == Combinations()[i]
    ensures |combination| <= 4 && Canonical(combination, 4)
    ensures TotalValue(combination) <= 41
  {
    var coins := All();
    var totalCoins := |coins|;
    combination := [];
    for j := 0 to totalCoins
      invariant combination == Decode(i, j)
    {
      if Shr(i, j) % 2 == 1 {
        combination := combination + [coins[j]];
      }
    }
    DecodeCanonical(i, totalCoins);
    CombinationValueRange();
  }
}
