/**
  The statistics aggregator of dedupe (main.go, stats / newStats /
  CollectStats): a record of integer counters, created with fixed initial
  values, that one pass over the occurrence map fills in from the entries whose
  line occurs more than once.
 */
module Statistics {
  import opened Folds
  import opened LineCounter

  /** The starting value of minLen: "no duplicated line seen yet". */
  const MinLenSentinel := 1000000

  /** The distinct lines of the map that occur more than once. */
  ghost function DupKeys(counts: map<Line, int>): set<Line>
  {
    set l | l in counts && counts[l] > 1
  }

  /** What one line adds to dupeCount: its occurrences beyond the first. */
  ghost function ExcessOf(counts: map<Line, int>): Line -> int
  {
    l => Lookup(counts, l) - 1
  }

  /** The length of a line in bytes. */
  function LineLength(l: Line): int
  {
    |l|
  }

  /** Σ (count - 1) over the duplicated lines. */
  ghost function Excess(counts: map<Line, int>): int
  {
    Sum(DupKeys(counts), ExcessOf(counts))
  }

  /** Σ len(line) over the duplicated lines. */
  ghost function DupLengthSum(counts: map<Line, int>): int
  {
    Sum(DupKeys(counts), LineLength)
  }

  /**
    The update of maxDupeCount for an entry with count n: the test is against
    n but the value stored is n - 1. Since n > m exactly when n - 1 >= m, the
    update keeps the larger of m and n - 1.
   */
  function RaiseMaxDupe(m: int, n: int): (r: int)
    ensures r == Max(m, n - 1)
  {
    if n > m then n - 1 else m
  }

  /** The per-file statistics record; meanLen, a float the presenter writes, is left out. */
  class Stats {
    var dupeCount: int
    var maxDupeCount: int
    var dupeLines: int
    var minLen: int
    var maxLen: int
    var lengthSum: int

    /** newStats: every counter zero except minLen, which holds the sentinel. */
    constructor ()
      ensures dupeCount == 0 && maxDupeCount == 0 && dupeLines == 0
      ensures minLen == MinLenSentinel && maxLen == 0 && lengthSum == 0
    {
      dupeCount, maxDupeCount, dupeLines := 0, 0, 0;
      minLen, maxLen, lengthSum := MinLenSentinel, 0, 0;
    }
  }

  /**
    CollectStats: for every entry whose count n exceeds 1, count the line,
    add n - 1 to dupeCount, raise maxDupeCount to n - 1, add the line's length
    to lengthSum and widen [minLen, maxLen] to it. Entries are visited in an
    arbitrary order; each postcondition is a closed form of the map and the
    record's starting values, so the order does not matter.
   */
  method CollectStats(counts: map<Line, int>, s: Stats)
    modifies s
    ensures s.dupeLines == old(s.dupeLines) + |DupKeys(counts)|
    ensures s.dupeCount == old(s.dupeCount) + Excess(counts)
    ensures s.lengthSum == old(s.lengthSum) + DupLengthSum(counts)
    ensures s.maxDupeCount == MaxOver(old(s.maxDupeCount), DupKeys(counts), ExcessOf(counts))
    ensures s.maxLen == MaxOver(old(s.maxLen), DupKeys(counts), LineLength)
    ensures s.minLen == MinOver(old(s.minLen), DupKeys(counts), LineLength)
  {
    ghost var excess := ExcessOf(counts);
    ghost var lines0, count0, max0 := s.dupeLines, s.dupeCount, s.maxDupeCount;
    ghost var sum0, maxLen0, minLen0 := s.lengthSum, s.maxLen, s.minLen;
    var remaining := counts.Keys;
    ghost var seen: set<Line> := {};
    while remaining != {}
      invariant remaining <= counts.Keys
      invariant forall l :: l in seen <==> l in counts && l !in remaining && counts[l] > 1
      invariant s.dupeLines == lines0 + |seen|
      invariant s.dupeCount == count0 + Sum(seen, excess)
      invariant s.lengthSum == sum0 + Sum(seen, LineLength)
      invariant s.maxDupeCount == MaxOver(max0, seen, excess)
      invariant s.maxLen == MaxOver(maxLen0, seen, LineLength)
      invariant s.minLen == MinOver(minLen0, seen, LineLength)
      decreases remaining
    {
      var line :| line in remaining;
      var n := counts[line];
      if n > 1 {
        CollectStep(counts, seen, line, max0, maxLen0, minLen0);
        s.dupeLines := s.dupeLines + 1;
        s.dupeCount := s.dupeCount + (n - 1);
        s.maxDupeCount := RaiseMaxDupe(s.maxDupeCount, n);
        var length := |line|;
        s.lengthSum := s.lengthSum + length;
        if length > s.maxLen {
          s.maxLen := length;
        }
        if length < s.minLen {
          s.minLen := length;
        }
        seen := seen + {line};
      }
      remaining := remaining - {line};
    }
    assert seen == DupKeys(counts);
  }

  /**
    One step of CollectStats: adding a new duplicated line to the lines folded
    so far raises the count by one, each sum by the line's own term, and each
    maximum and minimum exactly as the loop body does.
   */
  lemma CollectStep(counts: map<Line, int>, seen: set<Line>, line: Line, max0: int, maxLen0: int, minLen0: int)
    requires line in counts && counts[line] > 1 && line !in seen
    ensures |seen + {line}| == |seen| + 1
    ensures Sum(seen + {line}, ExcessOf(counts)) == Sum(seen, ExcessOf(counts)) + (counts[line] - 1)
    ensures Sum(seen + {line}, LineLength) == Sum(seen, LineLength) + |line|
    ensures MaxOver(max0, seen + {line}, ExcessOf(counts))
         == RaiseMaxDupe(MaxOver(max0, seen, ExcessOf(counts)), counts[line])
    ensures MaxOver(maxLen0, seen + {line}, LineLength) == Max(MaxOver(maxLen0, seen, LineLength), |line|)
    ensures MinOver(minLen0, seen + {line}, LineLength) == Min(MinOver(minLen0, seen, LineLength), |line|)
  {
    var excess := ExcessOf(counts);
    assert excess(line) == counts[line] - 1;
    SumInsert(seen, excess, line);
    SumInsert(seen, LineLength, line);
    MaxOverInsert(max0, seen, excess, line);
    MaxOverInsert(maxLen0, seen, LineLength, line);
    MinOverInsert(minLen0, seen, LineLength, line);
  }

  /**
    An entry whose count is at most 1 contributes nothing: adding one to the
    map leaves the duplicated lines, and with them every statistic, unchanged.
   */
  lemma SingleEntryIgnored(counts: map<Line, int>, l: Line, n: int, maxInit: int)
    requires l !in counts && n <= 1
    ensures DupKeys(counts[l := n]) == DupKeys(counts)
    ensures Excess(counts[l := n]) == Excess(counts)
    ensures MaxOver(maxInit, DupKeys(counts[l := n]), ExcessOf(counts[l := n]))
         == MaxOver(maxInit, DupKeys(counts), ExcessOf(counts))
  {
    var counts' := counts[l := n];
    var dups := DupKeys(counts);
    assert DupKeys(counts') == dups;
    forall k | k in dups
      ensures ExcessOf(counts')(k) == ExcessOf(counts)(k)
    {
      assert k != l;
    }
    SumCongruent(dups, ExcessOf(counts'), ExcessOf(counts));
    MaxOverCongruent(maxInit, dups, ExcessOf(counts'), ExcessOf(counts));
  }

  /**
    With a fresh count, dupeCount plus the number of distinct lines is the
    number of lines: each distinct line accounts for one line, and its
    occurrences beyond the first are its excess.
   */
  lemma ExcessPlusDistinct(input: seq<Line>)
    ensures Excess(Occurrences(input)) + |Occurrences(input).Keys| == |input|
  {
    var occ := Occurrences(input);
    var dups := DupKeys(occ);
    var singles := occ.Keys - dups;
    var count := (l: Line) => Lookup(occ, l);
    var one := (l: Line) => 1;
    assert occ.Keys == dups + singles;
    SumUnion(dups, singles, count);
    SumAdd(dups, count, ExcessOf(occ), one);
    SumConst(dups, one, 1);
    forall l | l in singles
      ensures count(l) == 1
    {
      assert occ[l] == multiset(input)[l] >= 1;
    }
    SumConst(singles, count, 1);
    SumOfOccurrences(input);
  }

  /**
    With a fresh count, dupeCount is never negative, is at most the number of
    lines, and is zero exactly when no line occurs twice; likewise no line is
    counted as duplicated exactly when no line occurs twice.
   */
  lemma ExcessZeroIffUnique(input: seq<Line>)
    ensures 0 <= Excess(Occurrences(input)) <= |input|
    ensures Excess(Occurrences(input)) == 0 <==> forall l :: multiset(input)[l] <= 1
    ensures DupKeys(Occurrences(input)) == {} <==> forall l :: multiset(input)[l] <= 1
  {
    var occ := Occurrences(input);
    SumNonNegative(DupKeys(occ), ExcessOf(occ));
    ExcessPlusDistinct(input);
    if DupKeys(occ) == {} {
      forall l
        ensures multiset(input)[l] <= 1
      {
        if l in input {
          assert l !in DupKeys(occ);
        }
      }
    } else {
      var l := Pick(DupKeys(occ));
      assert multiset(input)[l] > 1;
    }
    if Excess(occ) == 0 {
      forall l
        ensures multiset(input)[l] <= 1
      {
        if l in input {
          assert l !in DupKeys(occ);
          assert occ[l] <= 1;
        }
      }
    } else {
      var l :| l in DupKeys(occ) && ExcessOf(occ)(l) != 0;
      assert multiset(input)[l] > 1;
    }
  }

  /**
    The largest excess over the duplicated lines is positive exactly when some
    line is duplicated, so a record started from newStats reports a
    maxDupeCount of 0 exactly when it reports no duplicated line.
   */
  lemma MaxExcessPositive(counts: map<Line, int>)
    ensures MaxOver(0, DupKeys(counts), ExcessOf(counts)) >= 0
    ensures MaxOver(0, DupKeys(counts), ExcessOf(counts)) == 0 <==> DupKeys(counts) == {}
  {
  }

  /**
    Starting from newStats, when some line is duplicated and every duplicated
    line is shorter than the sentinel, minLen and maxLen are the shortest and
    longest duplicated lengths, so minLen <= maxLen and the length sum lies
    between minLen and maxLen times the number of duplicated lines.
   */
  lemma LengthBounds(counts: map<Line, int>)
    requires DupKeys(counts) != {}
    requires forall l :: l in DupKeys(counts) ==> |l| < MinLenSentinel
    ensures MinOver(MinLenSentinel, DupKeys(counts), LineLength) <= MaxOver(0, DupKeys(counts), LineLength)
    ensures MinOver(MinLenSentinel, DupKeys(counts), LineLength) * |DupKeys(counts)| <= DupLengthSum(counts)
    ensures DupLengthSum(counts) <= MaxOver(0, DupKeys(counts), LineLength) * |DupKeys(counts)|
    ensures exists l :: l in DupKeys(counts) && MinOver(MinLenSentinel, DupKeys(counts), LineLength) == |l|
    ensures exists l :: l in DupKeys(counts) && MaxOver(0, DupKeys(counts), LineLength) == |l|
  {
    var dups := DupKeys(counts);
    var lo, hi := MinOver(MinLenSentinel, dups, LineLength), MaxOver(0, dups, LineLength);
    MinOverIsMin(MinLenSentinel, dups, LineLength);
    MaxOverIsMax(0, dups, LineLength);
    var l := Pick(dups);
    assert lo <= LineLength(l) <= hi;
    SumBounds(dups, LineLength, lo, hi);
    if hi == 0 {
      assert hi == |l|;
    }
  }
}
