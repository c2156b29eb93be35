/** The per-flow byte counters of examples/tcp/dctcp-example.cc and Jain's fairness index over each group of
    flows, in the unsigned 64-bit arithmetic of the source. */
module Fairness {

  const WORD: nat := 0x1_0000_0000_0000_0000

  type uint64 = n: nat | n < WORD witness 0

  /** What a 64-bit register keeps of a number. */
  function Wrap(n: nat): uint64 {
    n % WORD
  }

  // ---- Exact sums ----

  function Sum(xs: seq<nat>): nat {
    if xs == [] then 0 else Sum(xs[..|xs| - 1]) + xs[|xs| - 1]
  }

  function SumSquares(xs: seq<nat>): nat {
    if xs == [] then 0 else SumSquares(xs[..|xs| - 1]) + xs[|xs| - 1] * xs[|xs| - 1]
  }

  /** The sum of the squared differences to one value. */
  function Spread(xs: seq<nat>, x: nat): nat {
    if xs == [] then 0
    else
      SquareNotNegative(xs[|xs| - 1] - x);
      Spread(xs[..|xs| - 1], x) + (xs[|xs| - 1] - x) * (xs[|xs| - 1] - x)
  }

  /** The sum of the squared differences of all pairs. */
  function PairSpread(xs: seq<nat>): nat {
    if xs == [] then 0 else PairSpread(xs[..|xs| - 1]) + Spread(xs[..|xs| - 1], xs[|xs| - 1])
  }

  /** Twice the sum of the products of all pairs. */
  function PairProducts(xs: seq<nat>): nat {
    if xs == [] then 0 else PairProducts(xs[..|xs| - 1]) + 2 * (Sum(xs[..|xs| - 1]) * xs[|xs| - 1])
  }

  ghost predicate AllEqual(xs: seq<nat>) {
    forall i, j | 0 <= i < |xs| && 0 <= j < |xs| :: xs[i] == xs[j]
  }

  ghost predicate AllZero(xs: seq<nat>) {
    forall i | 0 <= i < |xs| :: xs[i] == 0
  }

  ghost predicate AtMostOneNonZero(xs: seq<nat>) {
    forall i, j | 0 <= i < j < |xs| :: xs[i] == 0 || xs[j] == 0
  }

  lemma SquareNotNegative(d: int)
    ensures d * d >= 0 && (d * d == 0 <==> d == 0)
  {
  }

  lemma {:induction false} SpreadExpands(xs: seq<nat>, x: nat)
    ensures Spread(xs, x) == SumSquares(xs) - 2 * (Sum(xs) * x) + |xs| * (x * x)
  {
    if xs != [] {
      var k := |xs| - 1;
      SpreadExpands(xs[..k], x);
      SpreadStep(k, SumSquares(xs[..k]), Sum(xs[..k]), x, xs[k]);
    }
  }

  lemma SpreadStep(k: int, q: int, s: int, x: int, y: int)
    ensures q - 2 * (s * x) + k * (x * x) + (y - x) * (y - x) == q + y * y - 2 * ((s + y) * x) + (k + 1) * (x * x)
  {
    assert (y - x) * (y - x) == y * y - 2 * (y * x) + x * x;
    assert (s + y) * x == s * x + y * x;
    assert (k + 1) * (x * x) == k * (x * x) + x * x;
  }

  lemma {:induction false} SpreadIsZeroIff(xs: seq<nat>, x: nat)
    ensures Spread(xs, x) == 0 <==> forall i | 0 <= i < |xs| :: xs[i] == x
  {
    if xs != [] {
      var k := |xs| - 1;
      SpreadIsZeroIff(xs[..k], x);
      SquareNotNegative(xs[k] - x);
      assert forall i | 0 <= i < k :: xs[..k][i] == xs[i];
    }
  }

  /** The Cauchy-Schwarz inequality with its defect. */
  lemma {:induction false} CauchySchwarz(xs: seq<nat>)
    ensures |xs| * SumSquares(xs) == Sum(xs) * Sum(xs) + PairSpread(xs)
  {
    if xs != [] {
      var k := |xs| - 1;
      CauchySchwarz(xs[..k]);
      SpreadExpands(xs[..k], xs[k]);
      DefectStep(k, SumSquares(xs[..k]), Sum(xs[..k]), xs[k]);
    }
  }

  lemma DefectStep(k: int, q: int, s: int, x: int)
    ensures (k + 1) * (q + x * x) - (s + x) * (s + x) == k * q - s * s + (q - 2 * (s * x) + k * (x * x))
  {
    assert (k + 1) * (q + x * x) == k * q + q + k * (x * x) + x * x;
    assert (s + x) * (s + x) == s * s + 2 * (s * x) + x * x;
  }

  /** The defect vanishes exactly when all values are equal. */
  lemma {:induction false} PairSpreadIsZeroIff(xs: seq<nat>)
    ensures PairSpread(xs) == 0 <==> AllEqual(xs)
  {
    if xs != [] {
      var k := |xs| - 1;
      PairSpreadIsZeroIff(xs[..k]);
      SpreadIsZeroIff(xs[..k], xs[k]);
      EqualAppend(xs);
    }
  }

  lemma EqualAppend(xs: seq<nat>)
    requires xs != []
    ensures var k := |xs| - 1; AllEqual(xs) <==> AllEqual(xs[..k]) && forall i | 0 <= i < k :: xs[..k][i] == xs[k]
  {
    var k := |xs| - 1;
    assert forall i | 0 <= i < k :: xs[..k][i] == xs[i];
    if AllEqual(xs[..k]) && forall i | 0 <= i < k :: xs[..k][i] == xs[k] {
      forall i | 0 <= i < |xs| ensures xs[i] == xs[k] {
        assert i < k ==> xs[..k][i] == xs[i];
      }
    }
  }

  lemma {:induction false} SumIsZeroIff(xs: seq<nat>)
    ensures Sum(xs) == 0 <==> AllZero(xs)
  {
    if xs != [] {
      var k := |xs| - 1;
      SumIsZeroIff(xs[..k]);
      assert forall i | 0 <= i < k :: xs[..k][i] == xs[i];
    }
  }

  /** The square of a sum of non-negative values exceeds the sum of the squares by the products of the pairs. */
  lemma {:induction false} SquareOfSum(xs: seq<nat>)
    ensures Sum(xs) * Sum(xs) == SumSquares(xs) + PairProducts(xs)
  {
    if xs != [] {
      var k := |xs| - 1;
      SquareOfSum(xs[..k]);
      SquareStep(Sum(xs[..k]), xs[k]);
    }
  }

  lemma SquareStep(s: int, x: int)
    ensures (s + x) * (s + x) == s * s + 2 * (s * x) + x * x
  {
  }

  /** The excess vanishes exactly when at most one value is not zero. */
  lemma {:induction false} PairProductsIsZeroIff(xs: seq<nat>)
    ensures PairProducts(xs) == 0 <==> AtMostOneNonZero(xs)
  {
    if xs != [] {
      var k := |xs| - 1;
      PairProductsIsZeroIff(xs[..k]);
      SumIsZeroIff(xs[..k]);
      ProductZero(Sum(xs[..k]), xs[k]);
      assert forall i | 0 <= i < k :: xs[..k][i] == xs[i];
    }
  }

  lemma ProductZero(a: nat, b: nat)
    ensures a * b >= 0 && (a * b == 0 <==> a == 0 || b == 0)
  {
  }

  // ---- The index as computed ----

  datatype Option<T> = None | Some(value: T)

  /** The quotient of the source, with both products taken in 64 bits; no number when the divisor is zero. */
  function Index(n: nat, sum: uint64, sumSquares: uint64): Option<real> {
    var dividend, divisor := Wrap(sum * sum), Wrap(n * sumSquares);
    if divisor == 0 then None else Some(dividend as real / divisor as real)
  }

  /** The accumulating loop of one group. */
  method GroupFairness(bytes: array<uint64>) returns (sum: uint64, sumSquares: uint64, fairness: Option<real>)
    ensures sum == Wrap(Sum(bytes[..])) && sumSquares == Wrap(SumSquares(bytes[..]))
    ensures fairness == Index(bytes.Length, sum, sumSquares)
  {
    hide SumSquares, Sum, Index, Wrap;
    sum, sumSquares := 0, 0;
    ghost var words: seq<nat> := bytes[..];
    NoSums(words[..0]);
    for i := 0 to bytes.Length
      invariant sum == Wrap(Sum(words[..i])) && sumSquares == Wrap(SumSquares(words[..i]))
    {
      var word := bytes[i];
      assert word == words[i];
      SumsAppend(words, i);
      sum := AddWrapped(Sum(words[..i]), sum, word);
      sumSquares := AddSquareWrapped(SumSquares(words[..i]), sumSquares, word);
    }
    assert words[..bytes.Length] == words;
    fairness := Index(bytes.Length, sum, sumSquares);
  }

  /** 64-bit addition to a register that holds what is left of a larger number. */
  method AddWrapped(ghost exact: nat, a: uint64, b: uint64) returns (c: uint64)
    requires a == Wrap(exact)
    ensures c == Wrap(exact + b)
  {
    c := Wrap(a + b);
    ghost var q := exact / WORD;
    assert exact + b == a + b + q * WORD;
    ModMultiple(a + b, q);
  }

  /** The same with the square of a word, itself taken in 64 bits. */
  method AddSquareWrapped(ghost exact: nat, a: uint64, word: uint64) returns (c: uint64)
    requires a == Wrap(exact)
    ensures c == Wrap(exact + word * word)
  {
    var square := Wrap(word * word);
    c := AddWrapped(exact, a, square);
    WrapTwice(exact, word * word);
  }

  lemma WrapTwice(a: nat, b: nat)
    ensures Wrap(a + Wrap(b)) == Wrap(a + b)
  {
    var q := b / WORD;
    assert a + b == a + b % WORD + q * WORD;
    ModMultiple(a + b % WORD, q);
  }

  lemma {:induction false} ModMultiple(a: nat, q: nat)
    ensures Wrap(a + q * WORD) == Wrap(a)
  {
    if q > 0 {
      ModMultiple(a, q - 1);
      assert a + q * WORD == (a + (q - 1) * WORD) + WORD;
    }
  }

  lemma NoSums(words: seq<nat>)
    requires words == []
    ensures Sum(words) == 0 && SumSquares(words) == 0 && Wrap(0) == 0
  {
  }

  lemma SumsAppend(words: seq<nat>, i: nat)
    requires i < |words|
    ensures Sum(words[..i + 1]) == Sum(words[..i]) + words[i]
    ensures SumSquares(words[..i + 1]) == SumSquares(words[..i]) + words[i] * words[i]
  {
    assert words[..i + 1][..i] == words[..i];
  }

  // ---- When nothing wraps ----

  /** Every value the computation passes through is below 2^64. */
  ghost predicate NothingWraps(xs: seq<nat>) {
    && (forall k | 0 <= k <= |xs| :: Sum(xs[..k]) < WORD && SumSquares(xs[..k]) < WORD)
    && (forall i | 0 <= i < |xs| :: xs[i] * xs[i] < WORD)
    && Sum(xs) * Sum(xs) < WORD
    && |xs| * SumSquares(xs) < WORD
  }

  lemma {:induction false} PrefixSums(xs: seq<nat>, k: nat)
    requires k <= |xs|
    ensures Sum(xs[..k]) <= Sum(xs) && SumSquares(xs[..k]) <= SumSquares(xs)
    ensures forall i | k <= i < |xs| :: xs[i] * xs[i] <= SumSquares(xs)
    decreases |xs| - k
  {
    if k == |xs| {
      assert xs[..k] == xs;
    } else {
      PrefixSums(xs, k + 1);
      assert xs[..k + 1][..k] == xs[..k];
      SquareNotNegative(xs[k]);
    }
  }

  /** Nothing wraps exactly when the last product, the number of flows times the sum of the squares, is below
      2^64. */
  lemma NothingWrapsIff(xs: seq<nat>)
    ensures NothingWraps(xs) <==> |xs| * SumSquares(xs) < WORD
  {
    if |xs| * SumSquares(xs) < WORD {
      CauchySchwarz(xs);
      SquareAtLeast(Sum(xs));
      PrefixSums(xs, 0);
      if xs != [] {
        FactorAtMost(|xs|, SumSquares(xs));
      }
      forall k | 0 <= k <= |xs| ensures Sum(xs[..k]) < WORD && SumSquares(xs[..k]) < WORD {
        PrefixSums(xs, k);
      }
    }
  }

  lemma SquareAtLeast(s: nat)
    ensures s <= s * s
  {
  }

  lemma FactorAtMost(n: nat, q: nat)
    requires n > 0
    ensures q <= n * q
  {
  }

  /** The counters of one measurement second at 1 Gbps: at most 125000000 bytes in each of at most 20 flows. */
  lemma MeasuredCountersFit(xs: seq<nat>)
    requires |xs| <= 20 && forall i | 0 <= i < |xs| :: xs[i] <= 125000000
    ensures NothingWraps(xs)
  {
    SumSquaresAtMost(xs, 125000000);
    assert |xs| * SumSquares(xs) <= 20 * (20 * (125000000 * 125000000)) by {
      MulAtMost(|xs|, 20, 125000000 * 125000000);
      MulAtMost(SumSquares(xs), 20 * (125000000 * 125000000), |xs|);
      MulAtMost(|xs|, 20, 20 * (125000000 * 125000000));
    }
    NothingWrapsIff(xs);
  }

  lemma MulAtMost(a: nat, b: nat, c: nat)
    requires a <= b
    ensures a * c <= b * c
  {
  }

  lemma {:induction false} SumSquaresAtMost(xs: seq<nat>, bound: nat)
    requires forall i | 0 <= i < |xs| :: xs[i] <= bound
    ensures SumSquares(xs) <= |xs| * (bound * bound)
  {
    if xs != [] {
      var k := |xs| - 1;
      SumSquaresAtMost(xs[..k], bound);
      MulAtMost(xs[k], bound, xs[k]);
      MulAtMost(xs[k], bound, bound);
      assert bound * xs[k] == xs[k] * bound;
      assert (k + 1) * (bound * bound) == k * (bound * bound) + bound * bound;
    }
  }

  lemma {:induction false} SumSquaresAtMostShared(xs: seq<nat>, perFlow: nat)
    requires forall i | 0 <= i < |xs| :: xs[i] <= perFlow
    ensures SumSquares(xs) <= perFlow * Sum(xs)
  {
    if xs != [] {
      var k := |xs| - 1;
      SumSquaresAtMostShared(xs[..k], perFlow);
      MulAtMost(xs[k], perFlow, xs[k]);
      assert perFlow * (Sum(xs[..k]) + xs[k]) == perFlow * Sum(xs[..k]) + perFlow * xs[k];
    }
  }

  lemma SharedProduct(n: nat, q: nat, m: nat, s: nat, total: nat)
    requires q <= m * s && s <= total
    ensures n * q <= n * (m * total)
  {
    MulAtMost(s, total, m);
    MulAtMost(q, m * total, n);
  }

  /** Flows that share a link: a bound on each flow and one on all of them together. */
  lemma SharedCountersFit(xs: seq<nat>, perFlow: nat, total: nat)
    requires forall i | 0 <= i < |xs| :: xs[i] <= perFlow
    requires Sum(xs) <= total && |xs| * (perFlow * total) < WORD
    ensures NothingWraps(xs)
  {
    hide Sum, SumSquares, NothingWraps;
    SumSquaresAtMostShared(xs, perFlow);
    SharedProduct(|xs|, SumSquares(xs), perFlow, Sum(xs), total);
    NothingWrapsIff(xs);
  }

  /** Two measurement seconds: at most 250000000 bytes in each of at most 20 flows at 1 Gbps, and at most
      2500000000 bytes in all of them through the shared link of 10 Gbps. */
  lemma TwoSecondCountersFit(xs: seq<nat>)
    requires |xs| <= 20 && (forall i | 0 <= i < |xs| :: xs[i] <= 250000000) && Sum(xs) <= 2500000000
    ensures NothingWraps(xs)
  {
    MulAtMost(|xs|, 20, 250000000 * 2500000000);
    SharedCountersFit(xs, 250000000, 2500000000);
  }

  lemma {:induction false} SameSums(xs: seq<nat>, x: nat)
    requires forall i | 0 <= i < |xs| :: xs[i] == x
    ensures Sum(xs) == |xs| * x && SumSquares(xs) == |xs| * (x * x)
  {
    if xs != [] {
      var k := |xs| - 1;
      SameSums(xs[..k], x);
      assert (k + 1) * (x * x) == k * (x * x) + x * x && (k + 1) * x == k * x + x;
    }
  }

  // ---- The index without wrapping ----

  /** Jain's index in exact arithmetic; a group without traffic has none. */
  function JainIndex(xs: seq<nat>): Option<real> {
    var a, b := Sum(xs) * Sum(xs), |xs| * SumSquares(xs);
    if b == 0 then None else Some(a as real / b as real)
  }

  /** The index that is computed from the counters. */
  function ComputedIndex(xs: seq<nat>): Option<real> {
    Index(|xs|, Wrap(Sum(xs)), Wrap(SumSquares(xs)))
  }

  /** The index of a group with traffic lies between 1/n and 1; it is 1 exactly when all flows received the same,
      and 1/n exactly when one flow received everything. A group without traffic has no index. */
  lemma JainIndexBounds(xs: seq<nat>)
    requires xs != []
    ensures var n, index := |xs|, JainIndex(xs);
            && (index.None? <==> AllZero(xs))
            && (index.Some? ==>
                  && 1.0 / n as real <= index.value <= 1.0
                  && (index.value == 1.0 <==> AllEqual(xs))
                  && (index.value == 1.0 / n as real <==> AtMostOneNonZero(xs)))
  {
    hide Sum, SumSquares, PairSpread, PairProducts, AllEqual, AtMostOneNonZero, AllZero;
    var n, s, q := |xs|, Sum(xs), SumSquares(xs);
    CauchySchwarz(xs);
    PairSpreadIsZeroIff(xs);
    SquareOfSum(xs);
    PairProductsIsZeroIff(xs);
    SumIsZeroIff(xs);
    ProductZero(s, s);
    ProductZero(n, q);
    if n * q > 0 {
      QuotientBounds(n, s * s, q);
    }
  }

  /** Taking the factors in 64 bits does not change what is left of a product. */
  lemma WrapProduct(a: nat, b: nat)
    ensures Wrap(Wrap(a) * Wrap(b)) == Wrap(a * b)
  {
    var c, d := Wrap(a), Wrap(b);
    var q := a / WORD * b + c * (b / WORD);
    calc {
      a * b;
      { SplitFactor(a, b); }
      (a / WORD * b) * WORD + c * b;
      { SplitFactor(b, c); }
      (a / WORD * b) * WORD + ((b / WORD * c) * WORD + d * c);
      { assert b / WORD * c == c * (b / WORD); }
      c * d + q * WORD;
    }
    ModMultiple(c * d, q);
  }

  lemma SplitFactor(a: nat, b: nat)
    ensures a * b == (a / WORD * b) * WORD + Wrap(a) * b
  {
    assert a == a / WORD * WORD + Wrap(a);
  }

  /** The two products of the index in 64 bits. */
  lemma ComputedProducts(n: nat, s: nat, q: nat)
    requires n < WORD
    ensures Wrap(Wrap(s) * Wrap(s)) == Wrap(s * s) && Wrap(n * Wrap(q)) == Wrap(n * q)
  {
    WrapProduct(s, s);
    WrapProduct(n, q);
    SmallMod(n);
  }

  /** For all counters: the computed index is Jain's index if and only if there is no traffic, or the divisor does
      not wrap to zero and the words lost from dividend and divisor are in the proportion of the two. */
  lemma IndexIsExactIff(xs: seq<nat>)
    requires |xs| < WORD
    ensures var a, b := Sum(xs) * Sum(xs), |xs| * SumSquares(xs);
            ComputedIndex(xs) == JainIndex(xs) <==> b == 0 || (Wrap(b) > 0 && (a / WORD) * b == (b / WORD) * a)
  {
    hide Sum, SumSquares, Wrap;
    var s, q := Sum(xs), SumSquares(xs);
    ComputedProducts(|xs|, s, q);
    SmallMod(0);
    if |xs| * q > 0 && Wrap(|xs| * q) > 0 {
      WrappedQuotientIff(s * s, |xs| * q);
    }
  }

  lemma WrappedQuotientIff(a: nat, b: nat)
    requires b > 0 && Wrap(b) > 0
    ensures Wrap(a) as real / Wrap(b) as real == a as real / b as real <==> (a / WORD) * b == (b / WORD) * a
  {
    QuotientsEqualIff(Wrap(a), Wrap(b), a, b);
    SplitFactor(a, b);
    SplitFactor(b, a);
    assert a * Wrap(b) == Wrap(b) * a && a * b == b * a;
  }

  lemma QuotientsEqualIff(a: nat, b: nat, c: nat, d: nat)
    requires b > 0 && d > 0
    ensures a as real / b as real == c as real / d as real <==> a * d == c * b
  {
    ProductInReals(a, d);
    ProductInReals(c, b);
    RealQuotientsEqualIff(a as real, b as real, c as real, d as real);
  }

  lemma RealQuotientsEqualIff(a: real, b: real, c: real, d: real)
    requires b > 0.0 && d > 0.0
    ensures a / b == c / d <==> a * d == c * b
  {
    var x, y := a / b, c / d;
    assert a == x * b && c == y * d;
    assert a * d == (b * d) * x && c * b == (b * d) * y;
    Cancel(b * d, x, y);
  }

  /** When nothing wraps the computed index is right. */
  lemma FittingIndexIsExact(xs: seq<nat>)
    requires |xs| < WORD && NothingWraps(xs)
    ensures ComputedIndex(xs) == JainIndex(xs)
  {
    hide Sum, SumSquares, ComputedIndex, JainIndex;
    var a, b := Sum(xs) * Sum(xs), |xs| * SumSquares(xs);
    SmallMod(b);
    assert a / WORD == 0 && b / WORD == 0;
    IndexIsExactIff(xs);
  }

  /** When the divisor wraps and the dividend does not, the computed index is wrong. */
  lemma LoneWrapIsWrong(xs: seq<nat>)
    requires |xs| < WORD && Sum(xs) * Sum(xs) < WORD <= |xs| * SumSquares(xs)
    ensures ComputedIndex(xs) != JainIndex(xs)
  {
    hide Sum, SumSquares, ComputedIndex, JainIndex;
    var a, b := Sum(xs) * Sum(xs), |xs| * SumSquares(xs);
    assert a / WORD == 0 && b / WORD >= 1;
    SquareOfSum(xs);
    ProductZero(b / WORD, a);
    ProductZero(|xs|, SumSquares(xs));
    IndexIsExactIff(xs);
  }

  /** Equal flows have the index 1 even when the products wrap, unless the divisor wraps to zero. */
  lemma EqualFlowsAreExactIff(xs: seq<nat>)
    requires |xs| < WORD && AllEqual(xs) && |xs| * SumSquares(xs) > 0
    ensures ComputedIndex(xs) == JainIndex(xs) <==> Wrap(|xs| * SumSquares(xs)) > 0
  {
    hide Sum, SumSquares, ComputedIndex, JainIndex, Wrap;
    CauchySchwarz(xs);
    PairSpreadIsZeroIff(xs);
    IndexIsExactIff(xs);
  }

  /** Three measurement seconds are too many: with ten of the twenty flows at 1 Gbps, which fill the shared link,
      and ten idle, Jain's index is 1/2 and the computed one exceeds 1. */
  lemma ThreeSecondIndexCanExceedOne()
    ensures var xs: seq<nat> := seq(10, _ => 375000000) + seq(10, _ => 0);
            && Sum(xs) == 3 * 1250000000
            && JainIndex(xs) == Some(0.5)
            && ComputedIndex(xs).Some? && ComputedIndex(xs).value > 1.4
  {
    var busy: seq<nat>, idle: seq<nat> := seq(10, _ => 375000000), seq(10, _ => 0);
    SameSums(busy, 375000000);
    SameSums(idle, 0);
    SumsConcat(busy, idle);
    var xs := busy + idle;
    assert Sum(xs) == 3750000000;
    assert SumSquares(xs) == 1406250000000000000;
    ThreeSecondQuotients(xs);
  }

  lemma ThreeSecondQuotients(xs: seq<nat>)
    requires |xs| == 20 && Sum(xs) == 3750000000 && SumSquares(xs) == 1406250000000000000
    ensures JainIndex(xs) == Some(0.5) && ComputedIndex(xs).Some? && ComputedIndex(xs).value > 1.4
  {
    hide Sum, SumSquares;
    assert 3750000000 * 3750000000 == 14062500000000000000;
    assert Wrap(20 * 1406250000000000000) == 9678255926290448384;
  }

  lemma OneFlow(x: nat)
    ensures Sum([x]) == x && SumSquares([x]) == x * x
  {
    assert [x][..0] == [];
  }

  lemma {:induction false} SumsConcat(a: seq<nat>, b: seq<nat>)
    ensures Sum(a + b) == Sum(a) + Sum(b) && SumSquares(a + b) == SumSquares(a) + SumSquares(b)
  {
    if b == [] {
      assert a + b == a;
    } else {
      var k := |b| - 1;
      assert (a + b)[..|a| + k] == a + b[..k];
      SumsConcat(a, b[..k]);
    }
  }

  lemma SmallMod(a: nat)
    requires a < WORD
    ensures Wrap(a) == a
  {
  }

  lemma QuotientBounds(n: nat, a: nat, q: nat)
    requires n > 0 && q > 0 && n * q > 0 && q <= a <= n * q
    ensures var index := a as real / (n * q) as real;
            && 1.0 / n as real <= index <= 1.0
            && (index == 1.0 <==> a == n * q)
            && (index == 1.0 / n as real <==> a == q)
  {
    var d := (n * q) as real;
    CancelFactor(n as real, q as real, d);
    QuotientOrder(a as real, d, d);
    QuotientOrder(q as real, a as real, d);
    assert d / d == 1.0;
  }

  lemma CancelFactor(n: real, q: real, d: real)
    requires n > 0.0 && q > 0.0 && d > 0.0 && d == n * q
    ensures q / d == 1.0 / n
  {
    assert (q / d) * d == q;
    assert (1.0 / n) * d == ((1.0 / n) * n) * q;
  }

  lemma QuotientOrder(a: real, b: real, d: real)
    requires d > 0.0
    ensures a <= b ==> a / d <= b / d
    ensures a / d == b / d <==> a == b
  {
    assert (a / d) * d == a && (b / d) * d == b;
  }

  // ---- Throughput ----

  /** The printed throughput in Mb/s of a number of bytes received within the window. */
  function Throughput(bytes: uint64, window: real): real
    requires window > 0.0
  {
    Wrap(bytes * 8) as real / window / 1000000.0
  }

  /** The average in Mb/s that is printed for a group of n flows: the division by n is an integer division. Without
      a window there is no average. */
  function Average(n: nat, sum: uint64, window: real): Option<real>
    requires n > 0
  {
    if window == 0.0 then None else Some(Wrap(sum / n * 8) as real / window / 1000000.0)
  }

  /** The aggregate in Gb/s that is printed for a number of bytes. */
  function Gbps(sum: uint64): real {
    Wrap(sum * 8) as real / 1000000000.0
  }

  function Aggregate(bytes: seq<uint64>): real {
    Gbps(Wrap(Sum(bytes)))
  }

  function TotalThroughput(bytes: seq<uint64>, window: real): real
    requires window > 0.0
  {
    if bytes == [] then 0.0
    else TotalThroughput(bytes[..|bytes| - 1], window) + Throughput(bytes[|bytes| - 1], window)
  }

  datatype Group = Group(average: Option<real>, fairness: Option<real>)

  datatype Report = Report(s1r1: Group, s2r2: Group, s3r1: Group, throughT1: real, toR1: real)

  function GroupReport(bytes: seq<uint64>, window: real): Group
    requires bytes != []
  {
    var sum := Wrap(Sum(bytes));
    Group(Average(|bytes|, sum, window), ComputedIndex(bytes))
  }

  /** The throughput of one byte. */
  function Unit(window: real): real
    requires window > 0.0
  {
    8.0 / window / 1000000.0
  }

  lemma UnitPositive(window: real)
    requires window > 0.0
    ensures Unit(window) > 0.0
  {
  }

  lemma ThroughputInUnits(bytes: nat, window: real)
    requires window > 0.0
    ensures (bytes * 8) as real / window / 1000000.0 == bytes as real * Unit(window)
  {
    var b := bytes as real;
    assert (bytes * 8) as real == b * 8.0;
    assert b * 8.0 / window == b * (8.0 / window);
  }

  lemma {:induction false} TotalInUnits(bytes: seq<uint64>, window: real)
    requires window > 0.0 && Sum(bytes) * 8 < WORD
    ensures TotalThroughput(bytes, window) == Sum(bytes) as real * Unit(window)
  {
    hide Unit, Wrap;
    if bytes != [] {
      var k := |bytes| - 1;
      TotalInUnits(bytes[..k], window);
      assert Throughput(bytes[k], window) == bytes[k] as real * Unit(window) by {
        hide Sum, TotalThroughput;
        SmallMod(bytes[k] * 8);
        ThroughputInUnits(bytes[k], window);
      }
      Distribute(Sum(bytes[..k]), bytes[k], Unit(window));
    }
  }

  lemma Distribute(a: nat, b: nat, unit: real)
    ensures (a + b) as real * unit == a as real * unit + b as real * unit
  {
  }

  /** The printed average never exceeds the mean of the flows' throughputs and falls short of it by less than one
      byte a flow; it is the mean exactly when the group's bytes divide evenly. */
  lemma AverageIsMeanIff(bytes: seq<uint64>, window: real)
    requires bytes != [] && window > 0.0 && Sum(bytes) * 8 < WORD
    ensures var average := Average(|bytes|, Wrap(Sum(bytes)), window);
            var mean := TotalThroughput(bytes, window) / |bytes| as real;
            && average.Some?
            && average.value <= mean < average.value + Throughput(1, window)
            && (average.value == mean <==> Sum(bytes) % |bytes| == 0)
  {
    hide Sum, TotalThroughput, Unit, Average, Throughput;
    var n, s, unit := |bytes|, Sum(bytes), Unit(window);
    AverageInUnits(n, s, window);
    TotalInUnits(bytes, window);
    ByteInUnits(window);
    UnitPositive(window);
    DivisionInReals(s, n);
    MeanBounds(s as real, (s / n) as real, (s % n) as real, n as real, unit);
  }

  lemma AverageInUnits(n: nat, s: nat, window: real)
    requires n > 0 && window > 0.0 && s * 8 < WORD
    ensures var average := Average(n, Wrap(s), window);
            average.Some? && average.value == (s / n) as real * Unit(window)
  {
    hide Unit, Wrap;
    var q := s / n;
    QuotientAtMost(s, n);
    SmallMod(s);
    SmallMod(q * 8);
    ThroughputInUnits(q, window);
  }

  lemma ByteInUnits(window: real)
    requires window > 0.0
    ensures Throughput(1, window) == Unit(window)
  {
  }

  lemma QuotientAtMost(s: nat, n: nat)
    requires n > 0
    ensures 0 <= s / n <= s
  {
    var q := s / n;
    assert s == q * n + s % n;
    MulAtMost(1, n, q);
  }

  lemma DivisionInReals(s: nat, n: nat)
    requires n > 0
    ensures s as real == (s / n) as real * n as real + (s % n) as real
  {
    assert s == (s / n) * n + s % n;
    ProductInReals(s / n, n);
  }

  lemma ProductInReals(a: nat, b: nat)
    ensures (a * b) as real == a as real * b as real
  {
  }

  lemma MeanBounds(s: real, q: real, rest: real, n: real, unit: real)
    requires unit > 0.0 && 0.0 <= rest < n && s == q * n + rest
    ensures q * unit <= s * unit / n < q * unit + unit
    ensures q * unit == s * unit / n <==> rest == 0.0
  {
    MeanIs(q, rest, n, unit);
    QuotientOrder(rest, n, n);
    QuotientOrder(0.0, rest, n);
    assert n / n == 1.0 && 0.0 / n == 0.0;
    Scale(q, rest / n, unit);
  }

  lemma MeanIs(q: real, rest: real, n: real, unit: real)
    requires n > 0.0
    ensures (q * n + rest) * unit / n == (q + rest / n) * unit
  {
    var mean := q + rest / n;
    calc {
      (q * n + rest) * unit / n;
      { assert mean * n == q * n + rest; }
      mean * n * unit / n;
      { Reorder(mean, n, unit); }
      mean * unit;
    }
  }

  lemma Reorder(a: real, n: real, b: real)
    requires n > 0.0
    ensures a * n * b / n == a * b
  {
    assert a * n * b == a * b * n;
  }

  lemma Scale(q: real, fraction: real, unit: real)
    requires 0.0 <= fraction < 1.0 && unit > 0.0
    ensures q * unit <= (q + fraction) * unit < q * unit + unit
    ensures q * unit == (q + fraction) * unit <==> fraction == 0.0
  {
    assert (q + fraction) * unit == q * unit + fraction * unit;
    assert fraction * unit < 1.0 * unit;
  }

  /** The printed aggregate of a bottleneck is the sum of its flows' throughputs, multiplied by the window. */
  lemma AggregateScalesWithWindow(bytes: seq<uint64>, window: real)
    requires window > 0.0 && Sum(bytes) * 8 < WORD
    ensures Aggregate(bytes) * 1000.0 == TotalThroughput(bytes, window) * window
  {
    hide Sum, TotalThroughput, Gbps;
    var s := Sum(bytes);
    SmallMod(s);
    GbpsInUnits(s);
    TotalInUnits(bytes, window);
    assert Unit(window) * window == Unit(1.0);
    Associate(s as real, Unit(window), window);
  }

  lemma Associate(a: real, b: real, c: real)
    ensures a * (b * c) == a * b * c
  {
  }

  /** Twenty flows that fill the shared link of 10 Gbps for two seconds are printed as 20 Gbps. */
  lemma TwoSecondAggregateIsDouble()
    ensures var bytes: seq<uint64> := seq(20, _ => 125000000);
            Aggregate(bytes) == 20.0 && TotalThroughput(bytes, 2.0) == 10000.0
  {
    var bytes: seq<uint64> := seq(20, _ => 125000000);
    SameSums(bytes, 125000000);
    SmallMod(20000000000);
    AggregateScalesWithWindow(bytes, 2.0);
  }

  /** The printed aggregate of a bottleneck is the sum of its flows' throughputs exactly when the window is one
      second or nothing was received: the bytes are not divided by the window. */
  lemma AggregateIsThroughputIff(bytes: seq<uint64>, window: real)
    requires window > 0.0 && Sum(bytes) * 8 < WORD
    ensures Aggregate(bytes) * 1000.0 == TotalThroughput(bytes, window) <==> window == 1.0 || Sum(bytes) == 0
  {
    hide Sum, TotalThroughput, Unit, Gbps;
    var s := Sum(bytes);
    SmallMod(s);
    GbpsInUnits(s);
    TotalInUnits(bytes, window);
    UnitOfSecondIff(window);
    Cancel(s as real, Unit(1.0), Unit(window));
  }

  lemma GbpsInUnits(s: nat)
    requires s * 8 < WORD
    ensures Gbps(s) * 1000.0 == s as real * Unit(1.0)
  {
    hide Wrap;
    SmallMod(s * 8);
    assert (s * 8) as real == s as real * 8.0;
  }

  lemma UnitOfSecondIff(window: real)
    requires window > 0.0
    ensures Unit(window) == Unit(1.0) <==> window == 1.0
  {
    assert Unit(window) * window == Unit(1.0);
    Cancel(Unit(window), window, 1.0);
  }

  lemma Cancel(a: real, b: real, c: real)
    ensures a * b == a * c <==> b == c || a == 0.0
  {
    if a != 0.0 {
      DivideOut(a, b);
      DivideOut(a, c);
    }
  }

  lemma DivideOut(a: real, b: real)
    requires a != 0.0
    ensures a * b / a == b
  {
  }

  /** The bytes of two groups, added into one register. */
  method GroupsSum(first: array<uint64>, second: array<uint64>) returns (sum: uint64)
    ensures sum == Wrap(Sum(first[..] + second[..]))
  {
    hide SumSquares, Sum, Wrap;
    ghost var words: seq<nat> := first[..] + second[..];
    sum := 0;
    NoSums(words[..0]);
    for i := 0 to first.Length
      invariant sum == Wrap(Sum(words[..i]))
    {
      assert first[i] == words[i];
      SumsAppend(words, i);
      sum := AddWrapped(Sum(words[..i]), sum, first[i]);
    }
    for i := 0 to second.Length
      invariant sum == Wrap(Sum(words[..first.Length + i]))
    {
      assert second[i] == words[first.Length + i];
      SumsAppend(words, first.Length + i);
      sum := AddWrapped(Sum(words[..first.Length + i]), sum, second[i]);
    }
    assert words[..first.Length + second.Length] == words;
  }

  // ---- The counters ----

  class Counters {
    const s1r1: array<uint64>
    const s2r2: array<uint64>
    const s3r1: array<uint64>

    ghost predicate Valid() {
      && s1r1.Length == 10 && s2r2.Length == 20 && s3r1.Length == 10
      && s1r1 != s2r2 && s1r1 != s3r1 && s2r2 != s3r1
    }

    constructor ()
      ensures Valid() && fresh(s1r1) && fresh(s2r2) && fresh(s3r1)
    {
      s1r1, s2r2, s3r1 := new uint64[10], new uint64[20], new uint64[10];
    }

    method TraceS1R1Sink(index: nat, size: nat)
      requires Valid() && index < s1r1.Length
      modifies s1r1
      ensures s1r1[..] == old(s1r1[..])[index := Wrap(old(s1r1[index]) + size)]
    {
      s1r1[index] := Wrap(s1r1[index] + size);
    }

    method TraceS2R2Sink(index: nat, size: nat)
      requires Valid() && index < s2r2.Length
      modifies s2r2
      ensures s2r2[..] == old(s2r2[..])[index := Wrap(old(s2r2[index]) + size)]
    {
      s2r2[index] := Wrap(s2r2[index] + size);
    }

    method TraceS3R1Sink(index: nat, size: nat)
      requires Valid() && index < s3r1.Length
      modifies s3r1
      ensures s3r1[..] == old(s3r1[..])[index := Wrap(old(s3r1[index]) + size)]
    {
      s3r1[index] := Wrap(s3r1[index] + size);
    }

    method InitializeCounters()
      requires Valid()
      modifies s1r1, s2r2, s3r1
      ensures forall i | 0 <= i < 10 :: s1r1[i] == 0 && s3r1[i] == 0
      ensures forall i | 0 <= i < 20 :: s2r2[i] == 0
    {
      for i := 0 to 10
        invariant forall j | 0 <= j < i :: s1r1[j] == 0
      {
        s1r1[i] := 0;
      }
      for i := 0 to 20
        invariant forall j | 0 <= j < 10 :: s1r1[j] == 0
        invariant forall j | 0 <= j < i :: s2r2[j] == 0
      {
        s2r2[i] := 0;
      }
      for i := 0 to 10
        invariant forall j | 0 <= j < 10 :: s1r1[j] == 0
        invariant forall j | 0 <= j < 20 :: s2r2[j] == 0
        invariant forall j | 0 <= j < i :: s3r1[j] == 0
      {
        s3r1[i] := 0;
      }
    }

    /** The average and the index of each group, computed from its counters alone, and the two aggregates over
        the groups that share a bottleneck. */
    method PrintFairness(window: real) returns (report: Report)
      requires Valid()
      ensures report.s1r1 == GroupReport(s1r1[..], window)
      ensures report.s2r2 == GroupReport(s2r2[..], window)
      ensures report.s3r1 == GroupReport(s3r1[..], window)
      ensures report.throughT1 == Aggregate(s1r1[..] + s2r2[..])
      ensures report.toR1 == Aggregate(s3r1[..] + s1r1[..])
    {
      hide Sum, SumSquares, Index, Wrap, Average;
      var sum1, _, fairness1 := GroupFairness(s1r1);
      var sum2, _, fairness2 := GroupFairness(s2r2);
      var sum3, _, fairness3 := GroupFairness(s3r1);
      var sumT1 := GroupsSum(s1r1, s2r2);
      var sumR1 := GroupsSum(s3r1, s1r1);
      report := Report(Group(Average(10, sum1, window), fairness1), Group(Average(20, sum2, window), fairness2),
                       Group(Average(10, sum3, window), fairness3), Gbps(sumT1), Gbps(sumR1));
    }
  }
}
