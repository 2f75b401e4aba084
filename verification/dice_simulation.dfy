/**
 The counting core of a two-dice simulation: roll two six-sided dice a number
 of times, tally how often each sum 2..12 comes up in an 11-bucket histogram,
 and rescale the tallies to percentages of the number of rolls.

 The random draws are an input: a sequence of rolls whose faces lie in 1..6,
 which is all that `random.randint(1, 6)` promises. Percentages are exact
 reals; they idealise, and do not reproduce, floating-point division.
 */
module DiceSimulation {

  /** A die face: a value `random.randint(1, 6)` can return. */
  type Face = d: int | 1 <= d <= 6 witness 1

  /** One trial: the two faces drawn for it. */
  datatype Roll = Roll(die1: Face, die2: Face)

  /** The one failure the percentage step can raise. */
  datatype Error = DivisionByZero

  datatype Result<T> = Success(value: T) | Failure(error: Error)

  /** The eleven buckets: every possible sum of two faces, the keys of every
      histogram and percentage table. */
  function Buckets(): (b: set<int>)
    ensures forall k :: k in b <==> 2 <= k <= 12
  {
    {2, 3, 4, 5, 6, 7, 8, 9, 10, 11, 12}
  }

  /** Number of passes of `for _ in range(n)`: none when n is not positive. */
  function RangeLength(n: int): (passes: nat)
    ensures n >= 0 ==> passes == n
    ensures n <= 0 ==> passes == 0
  {
    if n > 0 then n else 0
  }

  /** The sum of a roll's faces always names one of the eleven buckets. */
  function RollSum(r: Roll): (s: int)
    ensures 2 <= s <= 12 && s in Buckets()
  {
    r.die1 + r.die2
  }

  // ---------------------------------------------------------------------------
  // Reference definition of the histogram
  // ---------------------------------------------------------------------------

  /** How many of the rolls have faces that add up to s. */
  function Occurrences(rolls: seq<Roll>, s: int): (n: nat)
    ensures n <= |rolls|
    decreases |rolls|
  {
    if rolls == [] then 0
    else
      var last := rolls[|rolls| - 1];
      Occurrences(rolls[..|rolls| - 1], s) + (if RollSum(last) == s then 1 else 0)
  }

  /** For every bucket, the number of rolls whose faces add up to it. */
  function Histogram(rolls: seq<Roll>): map<int, int> {
    map s | s in Buckets() :: Occurrences(rolls, s)
  }

  /** The histogram before any roll: all eleven buckets at zero. */
  function EmptyHistogram(): (h: map<int, int>)
    ensures h.Keys == Buckets()
    ensures h == Histogram([])
    ensures TotalCount(h) == 0
  {
    map s | s in Buckets() :: 0
  }

  /** Sum of the counts of buckets lo..hi-1. */
  function CountSum(h: map<int, int>, lo: int, hi: int): int
    requires forall k :: lo <= k < hi ==> k in h
    decreases hi - lo
  {
    if lo >= hi then 0 else h[lo] + CountSum(h, lo + 1, hi)
  }

  /** Sum of the counts of all eleven buckets. */
  function TotalCount(h: map<int, int>): int
    requires Buckets() <= h.Keys
  {
    CountSum(h, 2, 13)
  }

  /** Raising one bucket by one raises the sum over a range by one exactly
      when the range holds that bucket. */
  lemma {:induction false} CountSumBump(h: map<int, int>, s: int, lo: int, hi: int)
    requires s in h
    requires forall k :: lo <= k < hi ==> k in h
    ensures CountSum(h[s := h[s] + 1], lo, hi)
            == CountSum(h, lo, hi) + (if lo <= s < hi then 1 else 0)
    decreases hi - lo
  {
    if lo < hi {
      CountSumBump(h, s, lo + 1, hi);
    }
  }

  /** One more roll raises exactly the bucket of its sum, by exactly one, and
      leaves the other ten buckets as they were. */
  lemma HistogramStep(rolls: seq<Roll>, r: Roll)
    ensures RollSum(r) in Histogram(rolls)
    ensures Histogram(rolls + [r])
            == Histogram(rolls)[RollSum(r) := Histogram(rolls)[RollSum(r)] + 1]
  {
    assert (rolls + [r])[..|rolls|] == rolls;
  }

  /** Before any roll every bucket is at zero, and nothing else is a key. */
  lemma NoRolls()
    ensures Histogram([]).Keys == Buckets()
    ensures forall s :: s in Histogram([]) ==> Histogram([])[s] == 0
  {
  }

  /** Tallying roll i into the histogram of the rolls before it gives the
      histogram of the rolls up to and including it. */
  lemma TallyNext(rolls: seq<Roll>, i: int)
    requires 0 <= i < |rolls|
    ensures RollSum(rolls[i]) in Histogram(rolls[..i])
    ensures Histogram(rolls[..i + 1])
            == Histogram(rolls[..i])[RollSum(rolls[i]) := Histogram(rolls[..i])[RollSum(rolls[i])] + 1]
  {
    assert rolls[..i + 1] == rolls[..i] + [rolls[i]];
    HistogramStep(rolls[..i], rolls[i]);
  }

  /** Every roll lands in exactly one bucket, so the counts add up to the
      number of rolls. */
  lemma {:induction false} HistogramTotal(rolls: seq<Roll>)
    ensures Histogram(rolls).Keys == Buckets()
    ensures TotalCount(Histogram(rolls)) == |rolls|
    decreases |rolls|
  {
    if rolls == [] {
      assert Histogram(rolls) == EmptyHistogram();
      assert TotalCount(EmptyHistogram()) == 0;
    } else {
      var prefix, last := rolls[..|rolls| - 1], rolls[|rolls| - 1];
      assert rolls == prefix + [last];
      HistogramTotal(prefix);
      HistogramStep(prefix, last);
      var h, s := Histogram(prefix), RollSum(last);
      assert Histogram(rolls) == h[s := h[s] + 1];
      CountSumBump(h, s, 2, 13);
    }
  }

  // ---------------------------------------------------------------------------
  // simulate_dice_rolls
  // ---------------------------------------------------------------------------

  /** Tallies the first `numRolls` rolls (none when `numRolls` is not
      positive) into a fresh histogram keyed by the sums 2..12. */
  method SimulateDiceRolls(numRolls: int, rolls: seq<Roll>) returns (rollCounts: map<int, int>)
    requires numRolls <= |rolls|
    ensures rollCounts.Keys == Buckets()
    ensures forall s :: s in rollCounts ==> 0 <= rollCounts[s] <= RangeLength(numRolls)
    ensures rollCounts == Histogram(rolls[..RangeLength(numRolls)])
    ensures TotalCount(rollCounts) == RangeLength(numRolls)
    ensures numRolls <= 0 ==> rollCounts == EmptyHistogram()
  {
    rollCounts := EmptyHistogram();
    assert rolls[..0] == [];
    var i := 0;
    while i < numRolls
      invariant 0 <= i <= RangeLength(numRolls)
      invariant rollCounts == Histogram(rolls[..i])
    {
      var die1: int := rolls[i].die1;
      var die2: int := rolls[i].die2;
      var totalSum := die1 + die2;
      assert totalSum == RollSum(rolls[i]);
      TallyNext(rolls, i);
      rollCounts := rollCounts[totalSum := rollCounts[totalSum] + 1];
      i := i + 1;
    }
    assert i == RangeLength(numRolls);
    HistogramTotal(rolls[..i]);
  }

  // ---------------------------------------------------------------------------
  // calculate_percentages
  // ---------------------------------------------------------------------------

  /** Dividing by a non-zero real and multiplying back cancels; a quotient of
      a value between zero and the divisor lies between 0 and 1. */
  lemma DivisionCancels(c: real, t: real)
    requires t != 0.0
    ensures (c / t) * t == c
    ensures 0.0 <= c <= t ==> 0.0 <= c / t <= 1.0
    ensures c == t ==> c / t == 1.0
  {
  }

  /** One bucket's share of the rolls, in percent: times the number of rolls
      it gives back a hundred times the count, and a count between zero and
      the number of rolls gives a percentage between 0 and 100. */
  function Percentage(count: int, totalRolls: int): (p: real)
    requires totalRolls != 0
    ensures p * (totalRolls as real) == (count as real) * 100.0
    ensures 0 <= count <= totalRolls ==> 0.0 <= p <= 100.0
    ensures count == totalRolls ==> p == 100.0
  {
    DivisionCancels(count as real, totalRolls as real);
    (count as real / totalRolls as real) * 100.0
  }

  /** What the percentage step yields: the same keys, each count rescaled to
      percent of `totalRolls`; a division by zero when `totalRolls` is zero
      and there is at least one count to divide. */
  function Percentages(rollCounts: map<int, int>, totalRolls: int): (r: Result<map<int, real>>)
    ensures r.Failure? <==> totalRolls == 0 && rollCounts != map[]
    ensures r.Success? ==> r.value.Keys == rollCounts.Keys
  {
    if totalRolls == 0 then
      if rollCounts == map[] then Success(map[]) else Failure(DivisionByZero)
    else
      Success(map s | s in rollCounts :: Percentage(rollCounts[s], totalRolls))
  }

  /** Each percentage is its count times 100 divided by `totalRolls`: times
      `totalRolls` it gives back a hundred times the count, under the same key. */
  lemma PercentagesRescale(rollCounts: map<int, int>, totalRolls: int)
    requires totalRolls != 0
    ensures Percentages(rollCounts, totalRolls).Success?
    ensures Percentages(rollCounts, totalRolls).value.Keys == rollCounts.Keys
    ensures forall s :: s in rollCounts ==>
              Percentages(rollCounts, totalRolls).value[s] * (totalRolls as real)
              == (rollCounts[s] as real) * 100.0
  {
  }

  /** A non-empty set of keys has a key to pick. */
  lemma NonEmptyHasMember(keys: set<int>)
    requires keys != {}
    ensures exists k :: k in keys
  {
    if forall k :: k !in keys {
      assert false;
    }
  }

  /** Builds a fresh table with the keys of `rollCounts`, one key at a time. */
  method CalculatePercentages(rollCounts: map<int, int>, totalRolls: int)
    returns (r: Result<map<int, real>>)
    ensures r == Percentages(rollCounts, totalRolls)
  {
    var percentages: map<int, real> := map[];
    var remaining := rollCounts.Keys;
    while remaining != {}
      invariant remaining <= rollCounts.Keys
      invariant totalRolls == 0 ==> remaining == rollCounts.Keys
      invariant percentages.Keys == rollCounts.Keys - remaining
      invariant totalRolls != 0 ==> forall s :: s in percentages ==>
                  percentages[s] == Percentage(rollCounts[s], totalRolls)
      decreases remaining
    {
      NonEmptyHasMember(remaining);
      var totalSum :| totalSum in remaining;
      if totalRolls == 0 {
        return Failure(DivisionByZero);
      }
      var percentage := Percentage(rollCounts[totalSum], totalRolls);
      percentages := percentages[totalSum := percentage];
      remaining := remaining - {totalSum};
    }
    if totalRolls == 0 {
      assert rollCounts.Keys == {};
      assert rollCounts == map[];
    } else {
      var expected := Percentages(rollCounts, totalRolls).value;
      assert percentages.Keys == expected.Keys;
      assert forall s :: s in percentages ==> percentages[s] == expected[s];
      assert percentages == expected;
    }
    return Success(percentages);
  }

  /** Sum of the percentages of buckets lo..hi-1. */
  function PercentSum(p: map<int, real>, lo: int, hi: int): real
    requires forall k :: lo <= k < hi ==> k in p
    decreases hi - lo
  {
    if lo >= hi then 0.0 else p[lo] + PercentSum(p, lo + 1, hi)
  }

  /** Sum of the percentages of all eleven buckets. */
  function TotalPercent(p: map<int, real>): real
    requires Buckets() <= p.Keys
  {
    PercentSum(p, 2, 13)
  }

  /** Percentages of the same total add up like their counts. */
  lemma PercentageAdds(a: int, b: int, totalRolls: int)
    requires totalRolls != 0
    ensures Percentage(a, totalRolls) + Percentage(b, totalRolls) == Percentage(a + b, totalRolls)
  {
    var t := totalRolls as real;
    assert (a as real) / t + (b as real) / t == ((a + b) as real) / t;
  }

  /** Rescaling commutes with summing: the percentages of a range of buckets
      add up to the percentage of the range's total count. */
  lemma {:induction false} PercentSumScales(rollCounts: map<int, int>, totalRolls: int, lo: int, hi: int)
    requires totalRolls != 0
    requires forall k :: lo <= k < hi ==> k in rollCounts
    ensures Percentages(rollCounts, totalRolls).Success?
    ensures forall k :: lo <= k < hi ==> k in Percentages(rollCounts, totalRolls).value
    ensures PercentSum(Percentages(rollCounts, totalRolls).value, lo, hi)
            == Percentage(CountSum(rollCounts, lo, hi), totalRolls)
    decreases hi - lo
  {
    if lo < hi {
      PercentSumScales(rollCounts, totalRolls, lo + 1, hi);
      PercentageAdds(rollCounts[lo], CountSum(rollCounts, lo + 1, hi), totalRolls);
    } else {
      assert Percentage(0, totalRolls) == 0.0;
    }
  }

  /** When the total handed to the percentage step is the sum of the counts,
      the eleven percentages add up to exactly 100 over the reals. */
  lemma PercentagesSumTo100(rollCounts: map<int, int>, totalRolls: int)
    requires Buckets() <= rollCounts.Keys
    requires totalRolls == TotalCount(rollCounts) && totalRolls != 0
    ensures Percentages(rollCounts, totalRolls).Success?
    ensures Buckets() <= Percentages(rollCounts, totalRolls).value.Keys
    ensures TotalPercent(Percentages(rollCounts, totalRolls).value) == 100.0
  {
    PercentSumScales(rollCounts, totalRolls, 2, 13);
    assert CountSum(rollCounts, 2, 13) == totalRolls;
  }

  /** Counts between zero and the number of rolls give percentages between 0
      and 100. */
  lemma PercentagesInRange(rollCounts: map<int, int>, totalRolls: int)
    requires totalRolls > 0
    requires forall s :: s in rollCounts ==> 0 <= rollCounts[s] <= totalRolls
    ensures Percentages(rollCounts, totalRolls).Success?
    ensures forall s :: s in Percentages(rollCounts, totalRolls).value ==>
              0.0 <= Percentages(rollCounts, totalRolls).value[s] <= 100.0
  {
  }

  /** A single roll: its bucket holds the only count, at 100 percent, and every
      other bucket is at 0. */
  lemma SingleRoll(r: Roll)
    ensures Histogram([r])[RollSum(r)] == 1
    ensures forall s :: s in Histogram([r]) && s != RollSum(r) ==> Histogram([r])[s] == 0
    ensures Percentages(Histogram([r]), 1).Success?
    ensures Percentages(Histogram([r]), 1).value[RollSum(r)] == 100.0
    ensures forall s :: s in Histogram([r]) && s != RollSum(r) ==>
              Percentages(Histogram([r]), 1).value[s] == 0.0
  {
    HistogramStep([], r);
    assert [] + [r] == [r];
  }

  // ---------------------------------------------------------------------------
  // The two steps chained, as the entry point chains them
  // ---------------------------------------------------------------------------

  /** Simulates `numRolls` rolls, then normalises the counts by `numRolls`.
      A positive count of rolls gives eleven percentages in 0..100 that add up
      to 100; zero divides by zero; a negative count gives all zeros. */
  method SimulateAndNormalize(numRolls: int, rolls: seq<Roll>)
    returns (r: Result<map<int, real>>)
    requires numRolls <= |rolls|
    ensures r == Percentages(Histogram(rolls[..RangeLength(numRolls)]), numRolls)
    ensures numRolls == 0 <==> r == Failure(DivisionByZero)
    ensures r.Success? ==> r.value.Keys == Buckets()
    ensures numRolls > 0 ==> r.Success? && TotalPercent(r.value) == 100.0
    ensures numRolls > 0 ==> forall s :: s in r.value ==> 0.0 <= r.value[s] <= 100.0
    ensures numRolls < 0 ==> r.Success? && forall s :: s in r.value ==> r.value[s] == 0.0
  {
    var rollCounts := SimulateDiceRolls(numRolls, rolls);
    assert 2 in rollCounts;
    r := CalculatePercentages(rollCounts, numRolls);
    if numRolls > 0 {
      PercentagesSumTo100(rollCounts, numRolls);
      PercentagesInRange(rollCounts, numRolls);
    }
  }
}
