/**
  The per-file pipeline of dedupe (main.go, the body of the loop over the
  files): a fresh occurrence map, countLines over the file's lines, a fresh
  statistics record from newStats, then CollectStats. Opening the file,
  splitting it into lines and printing the result are not part of the model.
 */
module Dedupe {
  import opened Folds
  import opened LineCounter
  import opened Statistics

  /**
    The statistics dedupe computes for one file whose lines are `input`, in
    closed form over the file's occurrence map; the lemmas of Statistics say
    what these closed forms amount to (ExcessPlusDistinct, ExcessZeroIffUnique,
    MaxExcessPositive, LengthBounds, MaxOverIsMax, MinOverIsMin).
   */
  method AnalyzeFile(input: seq<Line>) returns (totalLines: int, s: Stats)
    ensures fresh(s)
    ensures totalLines == |input|
    ensures s.dupeLines == |DupKeys(Occurrences(input))|
    ensures s.dupeCount == Excess(Occurrences(input))
    ensures s.lengthSum == DupLengthSum(Occurrences(input))
    ensures s.maxDupeCount == MaxOver(0, DupKeys(Occurrences(input)), ExcessOf(Occurrences(input)))
    ensures s.maxLen == MaxOver(0, DupKeys(Occurrences(input)), LineLength)
    ensures s.minLen == MinOver(MinLenSentinel, DupKeys(Occurrences(input)), LineLength)
    ensures s.dupeCount + |Occurrences(input).Keys| == totalLines
    ensures s.dupeCount == 0 <==> forall l :: multiset(input)[l] <= 1
    ensures s.dupeLines == 0 <==> forall l :: multiset(input)[l] <= 1
    ensures s.dupeLines == 0 ==> s.maxDupeCount == 0 && s.minLen == MinLenSentinel && s.maxLen == 0 && s.lengthSum == 0
  {
    var counts := map[];
    totalLines, counts := CountLines(input, counts);
    FreshCount(input, counts);
    s := new Stats();
    CollectStats(counts, s);
    UniqueFileFacts(input);
  }

  /**
    What the closed forms of AnalyzeFile amount to for a fresh count: the
    excess and the distinct lines add up to the lines read, and when no line
    occurs twice nothing is counted and every statistic keeps its newStats value.
   */
  lemma UniqueFileFacts(input: seq<Line>)
    ensures Excess(Occurrences(input)) + |Occurrences(input).Keys| == |input|
    ensures Excess(Occurrences(input)) == 0 <==> forall l :: multiset(input)[l] <= 1
    ensures |DupKeys(Occurrences(input))| == 0 <==> forall l :: multiset(input)[l] <= 1
    ensures |DupKeys(Occurrences(input))| == 0 ==>
      && MaxOver(0, DupKeys(Occurrences(input)), ExcessOf(Occurrences(input))) == 0
      && MinOver(MinLenSentinel, DupKeys(Occurrences(input)), LineLength) == MinLenSentinel
      && MaxOver(0, DupKeys(Occurrences(input)), LineLength) == 0
      && DupLengthSum(Occurrences(input)) == 0
  {
    ExcessPlusDistinct(input);
    ExcessZeroIffUnique(input);
  }

  /** A file of k copies of one line, k >= 2: one duplicated line, k - 1 excess copies, and that is also the maximum. */
  lemma AllIdentical(x: Line, k: nat)
    requires k >= 2
    ensures DupKeys(Occurrences(seq(k, _ => x))) == {x}
    ensures Excess(Occurrences(seq(k, _ => x))) == k - 1
    ensures MaxOver(0, DupKeys(Occurrences(seq(k, _ => x))), ExcessOf(Occurrences(seq(k, _ => x)))) == k - 1
  {
    var input := seq(k, _ => x);
    var occ := Occurrences(input);
    RepeatMultiplicity(x, k);
    assert occ.Keys == {x};
    assert DupKeys(occ) == {x};
    ExcessPlusDistinct(input);
    MaxOverInsert(0, {}, ExcessOf(occ), x);
    assert {} + {x} == {x};
  }

  /** k copies of x hold x exactly k times. */
  lemma {:induction false} RepeatMultiplicity(x: Line, k: nat)
    ensures multiset(seq(k, _ => x))[x] == k
  {
    if k > 0 {
      RepeatMultiplicity(x, k - 1);
      assert seq(k, _ => x) == seq(k - 1, _ => x) + [x];
    }
  }

  /** The occurrence map of the lines a, b, a, c, b, a is {a: 3, b: 2, c: 1}. */
  lemma SixLineCounts(a: Line, b: Line, c: Line)
    requires a != b && b != c && a != c
    ensures Occurrences([a, b, a, c, b, a]) == map[a := 3, b := 2, c := 1]
  {
  }

  /**
    The lines a, b, a, c, b, a: two duplicated lines, three excess copies, and
    a largest excess of two.
   */
  lemma SixLineScenario(a: Line, b: Line, c: Line)
    requires a != b && b != c && a != c
    ensures DupKeys(Occurrences([a, b, a, c, b, a])) == {a, b}
    ensures Excess(Occurrences([a, b, a, c, b, a])) == 3
    ensures MaxOver(0, DupKeys(Occurrences([a, b, a, c, b, a])), ExcessOf(Occurrences([a, b, a, c, b, a]))) == 2
  {
    var occ := Occurrences([a, b, a, c, b, a]);
    SixLineCounts(a, b, c);
    assert DupKeys(occ) == {a} + {b};
    var excess := ExcessOf(occ);
    assert excess(a) == 2 && excess(b) == 1;
    SumInsert({}, excess, a);
    SumInsert({a}, excess, b);
    MaxOverInsert(0, {}, excess, a);
    MaxOverInsert(0, {a}, excess, b);
    assert {} + {a} == {a};
  }
}
