# Two-dice roll simulation: the counting core

This project models, in Dafny, the statistical core of a small dice-roll
simulator (`1.py`): `simulate_dice_rolls` rolls two six-sided dice
`num_rolls` times and tallies the sums into a histogram keyed by 2..12,
and `calculate_percentages` rescales each count to a percentage of the
number of rolls.

Everything lives in `dice_simulation.dfy`, module `DiceSimulation`:

- `Face` (1..6) and `Roll` (two faces) stand for the draws of
  `random.randint(1, 6)`. The rolls are an input sequence, so the
  histogram is a deterministic function of it.
- `Occurrences` and `Histogram` are the reference definition: for every
  bucket, how many rolls have faces that add up to it.
- `SimulateDiceRolls` is the loop of `simulate_dice_rolls`. It starts from
  eleven zero buckets and raises one bucket per roll, in place, in a local
  map. It is proved to return exactly `Histogram` of the rolls it consumed.
- `Percentage`, `Percentages` and `CalculatePercentages` model
  `calculate_percentages` over exact reals. The method fills a fresh map
  one key at a time, as the source's loop over `dict.items()` does. It is
  proved equal to `Percentages`, including the division-by-zero case.
- `SimulateAndNormalize` chains the two steps as the entry point does.
  It shows that the percentages of a positive number of rolls lie in
  0..100 and add up to exactly 100.

Two edge cases follow the code rather than a stricter reading of its
purpose:

- A non-positive roll count is not rejected as an invalid argument. The
  code has no such check: `range(num_rolls)` is empty, so the result is
  eleven zero buckets (`SimulateDiceRolls`, last ensures).
- A zero total does not always divide by zero. The division happens only
  inside the loop over the counts, so an empty count map with a zero total
  gives an empty result (`Percentages`, first ensures).

## Model

| member | source | states |
|---|---|---|
| `DiceSimulation.Buckets` | 1.py:27 | The histogram's keys are exactly the integers 2..12 (`range(2, 13)`). |
| `DiceSimulation.RangeLength` | 1.py:29 | The loop `for _ in range(num_rolls)` makes exactly `num_rolls` passes when `num_rolls >= 0`, and none when it is zero or negative. |
| `DiceSimulation.RollSum` | 1.py:31-33 | Two faces in 1..6 add up to a value in 2..12, which is always an existing bucket key. |
| `DiceSimulation.Occurrences` | 1.py:29-34 | The number of rolls whose faces add up to a given sum never exceeds the number of rolls. |
| `DiceSimulation.EmptyHistogram` | 1.py:27 | The starting dictionary has exactly the keys 2..12, is the histogram of no rolls, and its counts add up to 0. |
| `DiceSimulation.NoRolls` | 1.py:27 | The histogram of no rolls holds all eleven buckets 2..12, each at zero, and no other key. |
| `DiceSimulation.HistogramStep` | 1.py:33-34 | One more roll raises the bucket of its sum by exactly one. That key is already present, and every other bucket is unchanged. |
| `DiceSimulation.TallyNext` | 1.py:29-34 | Tallying roll i into the histogram of the first i rolls gives the histogram of the first i+1 rolls. |
| `DiceSimulation.CountSumBump` | 1.py:34 | Raising one bucket by one raises the sum of the counts over a range by one exactly when the range holds that bucket. |
| `DiceSimulation.HistogramTotal` | 1.py:27-36 | For any rolls, the histogram has exactly the keys 2..12 and its counts add up to the number of rolls. |
| `DiceSimulation.SimulateDiceRolls` | 1.py:16-36 | Returns the histogram of the first `num_rolls` rolls, or of none when `num_rolls <= 0`. Its keys are exactly 2..12, each count lies between 0 and the number of rolls, and the counts add up to the number of loop passes. A non-positive count gives all zeros and no error. |
| `DiceSimulation.Percentage` | 1.py:51 | `(count / total_rolls) * 100` times the total gives back the count times 100. A count between 0 and a positive total gives a value between 0 and 100, and a count equal to the total gives exactly 100. |
| `DiceSimulation.PercentageAdds` | 1.py:51 | Percentages of the same total add up like their counts. |
| `DiceSimulation.Percentages` | 1.py:38-53 | Division by zero happens exactly when the total is zero and there is at least one count. Otherwise the result has the same keys as the counts. |
| `DiceSimulation.PercentagesRescale` | 1.py:49-53 | For a non-zero total, every key keeps its place, and its percentage is its count times 100 divided by the total. |
| `DiceSimulation.CalculatePercentages` | 1.py:38-53 | The loop over the counts yields exactly `Percentages`. It fails with division by zero when the total is zero and the map is not empty, and it returns an empty map for an empty input. |
| `DiceSimulation.PercentSumScales` | 1.py:49-53 | Summed over any range of buckets, the percentages equal the percentage of the range's total count. |
| `DiceSimulation.PercentagesSumTo100` | 1.py:51 | When the total passed in is the sum of the eleven counts, the eleven percentages add up to exactly 100. |
| `DiceSimulation.PercentagesInRange` | 1.py:51 | Counts between 0 and a positive total give percentages between 0 and 100. |
| `DiceSimulation.SingleRoll` | 1.py:27-53 | After one roll, its bucket holds the only count, 1, at 100 percent, and every other bucket is at 0 and 0 percent. |
| `DiceSimulation.SimulateAndNormalize` | 1.py:94-97 | Simulating n rolls, then normalising by n, yields exactly the percentages of the histogram of the first max(n, 0) rolls, divided by n. For n > 0 the result has the keys 2..12, each value lies in 0..100, and the values add up to 100. For n = 0 it divides by zero. For n < 0 every percentage is 0. |

## Left out

- The `random` module (1.py:6, 31-32) is not modelled. Its draws are the `rolls` parameter, faces typed 1..6. Their distribution and seeding are not modelled.
- `DiceSimulation.SimulateDiceRolls` requires at least `numRolls` rolls in its input. A random source never runs out; the finite sequence that stands for it must be long enough.
- `DiceSimulation.Percentage` uses exact reals. It does not reproduce Python's floating-point rounding, so the exact sum of 100 is an idealisation of "about 100".
- Iteration order of `dict.items()` (1.py:50): the model picks the remaining keys in an unspecified order. The resulting map does not depend on it, and with a zero total any first key raises the same error.
- Dynamic typing: `num_rolls` and the counts are modelled as integers only. A non-integer `num_rolls` makes `range(num_rolls)` (1.py:29) raise `TypeError`; that error, and other numeric values passed to `calculate_percentages`, are not modelled.
- The default argument `num_rolls=10000` (1.py:16) and `NUM_ROLLS = 10000` (1.py:89) are not modelled; the roll count is always passed explicitly.
- `visualize_results` (1.py:55-82) is matplotlib plotting; its only logic is sorting keys for display.
- `main` (1.py:84-104) prints and formats with `.2f`. Only its chaining of the two steps (1.py:94-97) is modelled, as `SimulateAndNormalize`.
- The `numpy` import and the scipy remarks (1.py:7, 9-14) are unused.
- Statistical expectations, such as 7 being the most frequent sum, are probabilistic. The code does not promise them.
