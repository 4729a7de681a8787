# dedupe — a Dafny model of the duplicate-line statistics

dedupe is a small Go command-line tool that reads text files line by line
and reports, per file, how many lines it read and how many of them are extra
copies of a line seen before (also as a percentage of the lines read). When
some line occurs more than once, it also reports the largest number of extra
copies of any one line, and the shortest, longest and mean byte length of the
lines that occur more than once. The mean is lengthSum / dupeLines, where
lengthSum is the total byte length of those lines. Last, it prints the
elapsed time.

This project models the part of `main.go` that computes the counters behind
those numbers once a file's lines are in hand:

- **Line counter** (`countLines`): one forward pass over the lines that bumps
  each line's entry in a caller-supplied occurrence map (a missing entry reads
  as 0, as in Go) and returns the number of lines. Module `LineCounter`,
  file `line_counter.dfy`. A line is a sequence of bytes, so its length is
  Go's `len(line)`.
- **Statistics record** (`stats`, `newStats`): a class `Statistics.Stats`
  whose integer fields the aggregator updates in place. Its constructor is
  `newStats`: every counter 0 except `minLen`, which starts at the sentinel
  1000000.
- **Aggregator** (`CollectStats`): a loop over the map entries. Each entry
  whose count n is above 1 bumps `dupeLines`, adds n - 1 to `dupeCount`,
  raises `maxDupeCount` to n - 1, adds the line's length to `lengthSum`, and
  widens `[minLen, maxLen]` to that length. Go's map iteration order is
  unspecified, so the loop takes an arbitrary remaining key at each step.
  Its postconditions are closed forms of the map and the record's starting
  values, which proves that the order does not matter (module `Statistics`,
  file `statistics.dfy`).
- **Per-file pipeline** (`main.go:129-135`): a fresh map, `countLines`, a
  fresh record, then `CollectStats` (module `Dedupe`, file `dedupe.dfy`).

The closed forms are folds over a finite set of keys: `Sum`, `MaxOver` and
`MinOver` in module `Folds` (file `folds.dfy`). Each is defined by taking out
an arbitrary element. A lemma shows that any element can be taken out first
(`SumRemove`, `MaxOverRemove`, `MinOverRemove`). Two further lemmas state
what `MaxOver` and `MinOver` mean (`MaxOverIsMax`, `MinOverIsMin`).

Notation used below:
- `Occurrences(input)` is the occurrence map of a fresh count.
- `DupKeys(counts)` is the set of lines whose count is above 1.
- `Excess(counts)` is Σ(count − 1) over `DupKeys(counts)`.
- `DupLengthSum(counts)` is Σ len(line) over `DupKeys(counts)`.

## Model

| member | source | states |
|---|---|---|
| `LineCounter.CountLines` | main.go:23-31 | returns exactly the number of lines scanned; afterwards each line's entry equals its old value (0 if absent) plus its number of occurrences in the input; keys not in the input keep their values; the key set grows by exactly the input's lines |
| `LineCounter.FreshCount` | main.go:129-131 | counting into a fresh map yields exactly `Occurrences(input)`, and every stored count is at least 1 |
| `LineCounter.SumOfOccurrences` | main.go:24-29 | starting from a fresh map, the counts add up to the number of lines scanned |
| `Statistics.Stats.constructor` | main.go:44-47 | `newStats`: dupeCount, maxDupeCount, dupeLines, maxLen and lengthSum are 0; minLen is the sentinel 1000000 |
| `Statistics.RaiseMaxDupe` | main.go:55-57 | the update "if n > maxDupeCount then store n - 1" is exactly max(maxDupeCount, n - 1), despite its look of an off-by-one |
| `Statistics.CollectStats` | main.go:49-70 | for any starting record and in any iteration order: dupeLines increases by the number of lines with count > 1; dupeCount by Σ(n − 1) over them; lengthSum by Σ len(line) over them; maxDupeCount becomes the max of its start value and every n − 1; maxLen becomes the max of its start value and every duplicated length; minLen becomes the min of its start value and every duplicated length |
| `Statistics.CollectStep` | main.go:50-66 | one loop step on a new duplicated line with count n: dupeLines' fold grows by 1, dupeCount's by n − 1, lengthSum's by len(line); maxDupeCount's fold becomes exactly what the `n > maxDupeCount` update stores; maxLen's and minLen's folds are widened to len(line) |
| `Statistics.SingleEntryIgnored` | main.go:50-51 | adding an entry whose count is at most 1 leaves the duplicated lines, dupeCount's increment and maxDupeCount's result unchanged |
| `Statistics.ExcessPlusDistinct` | main.go:50-54 | with a fresh count, dupeCount plus the number of distinct lines equals the number of lines read |
| `Statistics.ExcessZeroIffUnique` | main.go:50-54 | with a fresh count, 0 <= dupeCount <= lines read; dupeCount is 0 exactly when no line occurs twice, and so is the set of duplicated lines empty (dupeLines 0) |
| `Statistics.MaxExcessPositive` | main.go:55-57 | from newStats, maxDupeCount is at least 0, and it is 0 exactly when no line is duplicated |
| `Statistics.LengthBounds` | main.go:59-66 | from newStats, if some line is duplicated and every duplicated line is shorter than the sentinel: minLen and maxLen are each the length of some duplicated line, minLen <= maxLen, and minLen·dupeLines <= lengthSum <= maxLen·dupeLines |
| `Folds.SumRemove` | main.go:50 | a sum over the keys may take out any key first, so the sums that CollectStats accumulates do not depend on the map's iteration order |
| `Folds.MaxOverRemove` | main.go:55-63 | a maximum over the keys may fold in any key last, so maxDupeCount and maxLen do not depend on the iteration order |
| `Folds.MinOverRemove` | main.go:64-66 | a minimum over the keys may fold in any key last, so minLen does not depend on the iteration order |
| `Folds.MaxOverIsMax` | main.go:55-63 | the folded maximum is at least the start value and every value, and equals the start value or one of the values |
| `Folds.MinOverIsMin` | main.go:64-66 | the folded minimum is at most the start value and every value, and equals the start value or one of the values |
| `Dedupe.AnalyzeFile` | main.go:129-135 | the statistics of one file in closed form over `Occurrences(input)`: totalLines is the number of lines; dupeCount + distinct lines = totalLines; dupeCount is 0, and dupeLines is 0, exactly when all lines are unique; with no duplicated line, maxDupeCount, maxLen and lengthSum are 0 and minLen keeps the sentinel |
| `Dedupe.UniqueFileFacts` | main.go:129-135 | for a fresh count: dupeCount + distinct lines = lines read; dupeCount is 0, and dupeLines is 0, exactly when no line occurs twice; then maxDupeCount, maxLen and lengthSum stay 0 and minLen keeps the sentinel |
| `Dedupe.AllIdentical` | main.go:129-135 | k >= 2 copies of one line give one duplicated line, k − 1 excess copies and a maximum excess of k − 1 |
| `Dedupe.SixLineCounts` | main.go:23-31 | the lines a, b, a, c, b, a count to {a: 3, b: 2, c: 1} |
| `Dedupe.SixLineScenario` | main.go:49-70 | for those lines: the duplicated lines are a and b, dupeCount is 3, and maxDupeCount is 2 |

## Left out

- `main` (main.go:90-139) is not modelled: flag parsing, `os.Args`, opening and closing files, and the loop over the file names.
- `ShowVersion` and `ShowUsage` (main.go:12-21) are not modelled: they only print and exit.
- `PresentStats` (main.go:72-88) is not modelled. It does floating-point division for the percentage and the mean, formats output, and does clock arithmetic.
- The float field `meanLen` of the record is not modelled. `newStats` sets it to 0, and only `PresentStats` sets it to anything else.
- Splitting a file into lines (Go's `bufio.Scanner`) is not modelled. This includes stripping `\r\n`, the 64 KiB token limit, and the read error that `countLines` never checks. The model takes the sequence of lines the scanner produced as its input.
- LineCounter.CountLines: Go passes the map by reference and updates it in place. The model passes the map in and hands the updated map back, so aliasing of the map is not modelled.
- Go's `int` is 32 or 64 bits wide depending on the platform. The model's counters are unbounded integers, so overflow past 2^31 - 1 or 2^63 - 1 lines or bytes is not modelled.
- Timing (`time.Now`) is not modelled.
