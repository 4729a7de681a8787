/**
  The line counter of dedupe (main.go, countLines): one forward pass over the
  lines of a file that bumps each line's entry in a caller-supplied occurrence
  map and returns how many lines it saw. The lines arrive already split; a
  line is its bytes, so its length is Go's len(line).
 */
module LineCounter {
  import opened Folds

  newtype byte = b: int | 0 <= b < 256

  /** The content of one line, newline excluded. */
  type Line = seq<byte>

  /** Reading a Go map: a key that is absent reads as the zero value. */
  function Lookup(counts: map<Line, int>, l: Line): int
  {
    if l in counts then counts[l] else 0
  }

  /** The occurrence map a fresh count of `input` ends with. */
  ghost function Occurrences(input: seq<Line>): map<Line, int>
  {
    map l | l in input :: multiset(input)[l]
  }

  /**
    countLines: every scanned line adds one to its entry in `counts` (an
    absent entry counts from zero) and one to the returned line count. The map
    that Go updates in place is passed in and handed back.
   */
  method CountLines(input: seq<Line>, counts: map<Line, int>) returns (n: int, counts': map<Line, int>)
    ensures n == |input|
    ensures counts'.Keys == counts.Keys + set l | l in input
    ensures forall l :: Lookup(counts', l) == Lookup(counts, l) + multiset(input)[l]
  {
    n := 0;
    counts' := counts;
    while n < |input|
      invariant 0 <= n <= |input|
      invariant counts'.Keys == counts.Keys + set l | l in input[..n]
      invariant forall l :: Lookup(counts', l) == Lookup(counts, l) + multiset(input[..n])[l]
    {
      var line := input[n];
      assert input[..n + 1] == input[..n] + [line];
      counts' := counts'[line := Lookup(counts', line) + 1];
      n := n + 1;
    }
    assert input[..n] == input;
  }

  /** Counting into a fresh map yields exactly the occurrence map. */
  lemma FreshCount(input: seq<Line>, counts: map<Line, int>)
    requires counts.Keys == set l | l in input
    requires forall l :: Lookup(counts, l) == multiset(input)[l]
    ensures counts == Occurrences(input)
    ensures forall l :: l in counts ==> counts[l] >= 1
  {
  }

  /** Summed over any set that holds every line of s, the multiplicities add up to |s|. */
  lemma {:induction false} SumMultiplicities(s: seq<Line>, keys: set<Line>)
    requires forall l :: l in s ==> l in keys
    ensures Sum(keys, l => multiset(s)[l]) == |s|
    decreases |s|
  {
    if s == [] {
      SumConst(keys, l => multiset(s)[l], 0);
    } else {
      var p, x := s[..|s| - 1], s[|s| - 1];
      assert s == p + [x];
      var isX := (l: Line) => if l == x then 1 else 0;
      SumAdd(keys, l => multiset(s)[l], l => multiset(p)[l], isX);
      SumMultiplicities(p, keys);
      SumRemove(keys, isX, x);
      SumConst(keys - {x}, isX, 0);
    }
  }

  /** With a fresh map, the counts add up to the number of lines scanned. */
  lemma SumOfOccurrences(input: seq<Line>)
    ensures Sum(Occurrences(input).Keys, l => Lookup(Occurrences(input), l)) == |input|
  {
    var occ := Occurrences(input);
    SumCongruent(occ.Keys, l => Lookup(occ, l), l => multiset(input)[l]);
    SumMultiplicities(input, occ.Keys);
  }
}
