/** Loop crossovers: the loops between consecutive helices, split by the side
    of the membrane they run on, and the number of same-side loop pairs whose
    segments cross. */
module Crossovers {
  import opened Geometry

  /** The loop from helix i to helix i + 1, drawn as a segment between their positions. */
  datatype Loop = Loop(from: Point, to: Point)

  /**
   * Whether two loops are counted as crossing. The first plays segment AB and
   * the second CD; by LineSegmentIntersectionIsRootFree this is what the
   * source's test decides once the length of AB is known.
   */
  predicate Crosses(ab: Loop, cd: Loop) {
    SegmentsCross(ab.from, ab.to, cd.from, cd.to)
  }

  /**
   * The loops (i, i + 1) for i = start, start + 2, ... while i + 1 < total:
   * start 0 gives the loops on one side of the membrane, start 1 the other.
   */
  function SideLoops(pos: seq<Point>, total: nat, start: nat): (loops: seq<Loop>)
    requires total <= |pos|
    ensures |loops| == if start <= total then (total - start) / 2 else 0
    decreases total - start
  {
    if start + 1 >= total then []
    else [Loop(pos[start], pos[start + 1])] + SideLoops(pos, total, start + 2)
  }

  /** Loop k of a side joins helices start + 2k and start + 2k + 1, both below total. */
  lemma {:induction false} SideLoopsAt(pos: seq<Point>, total: nat, start: nat)
    requires total <= |pos|
    ensures forall k :: 0 <= k < |SideLoops(pos, total, start)| ==>
      start + 2 * k + 1 < total && SideLoops(pos, total, start)[k] == Loop(pos[start + 2 * k], pos[start + 2 * k + 1])
    decreases total - start
  {
    if start + 1 < total {
      SideLoopsAt(pos, total, start + 2);
      var loops := SideLoops(pos, total, start);
      forall k | 0 < k < |loops|
        ensures start + 2 * k + 1 < total && loops[k] == Loop(pos[start + 2 * k], pos[start + 2 * k + 1])
      {
        assert loops[k] == SideLoops(pos, total, start + 2)[k - 1];
      }
    }
  }

  /** Number of l in [j, |loops|) such that loop i crosses loop l. */
  function RowCrossings(loops: seq<Loop>, i: nat, j: nat): (n: nat)
    requires i < |loops| && j <= |loops|
    ensures n <= |loops| - j
    decreases |loops| - j
  {
    if j == |loops| then 0
    else (if Crosses(loops[i], loops[j]) then 1 else 0) + RowCrossings(loops, i, j + 1)
  }

  /** Number of pairs i < l, with i at or after `from`, such that loop i crosses loop l. */
  function PairCrossings(loops: seq<Loop>, from: nat): nat
    requires from <= |loops|
    decreases |loops| - from
  {
    if from == |loops| then 0
    else RowCrossings(loops, from, from + 1) + PairCrossings(loops, from + 1)
  }

  function Choose2(n: nat): nat {
    n * (n - 1) / 2
  }

  /** One more loop adds m - 1 pairs. */
  lemma Choose2Step(m: nat)
    requires m >= 1
    ensures Choose2(m) == Choose2(m - 1) + (m - 1)
  {
    assert m * (m - 1) == (m - 1) * (m - 2) + 2 * (m - 1);
  }

  /** No more crossing pairs than unordered pairs of loops. */
  lemma {:induction false} PairCrossingsBound(loops: seq<Loop>, from: nat)
    requires from <= |loops|
    ensures PairCrossings(loops, from) <= Choose2(|loops| - from)
    decreases |loops| - from
  {
    if from < |loops| {
      PairCrossingsBound(loops, from + 1);
      Choose2Step(|loops| - from);
    }
  }

  /** What count_crossovers returns for the positions pos of the helices 0 .. total - 1. */
  function Crossovers(pos: seq<Point>, total: nat): nat
    requires total <= |pos|
  {
    PairCrossings(SideLoops(pos, total, 0), 0) + PairCrossings(SideLoops(pos, total, 1), 0)
  }

  /**
   * floor(total / 2) loops on the first side and floor((total - 1) / 2) on
   * the second, so the count is at most C(a, 2) + C(b, 2).
   */
  lemma CrossoversBound(pos: seq<Point>, total: nat)
    requires total <= |pos|
    ensures |SideLoops(pos, total, 0)| == total / 2
    ensures |SideLoops(pos, total, 1)| == if total == 0 then 0 else (total - 1) / 2
    ensures Crossovers(pos, total) <= Choose2(total / 2) + Choose2(if total == 0 then 0 else (total - 1) / 2)
  {
    PairCrossingsBound(SideLoops(pos, total, 0), 0);
    PairCrossingsBound(SideLoops(pos, total, 1), 0);
  }

  /** With fewer than four helices each side has at most one loop, so nothing can cross. */
  lemma FewHelicesNoCrossovers(pos: seq<Point>, total: nat)
    requires total <= |pos| && total < 4
    ensures Crossovers(pos, total) == 0
  {
    CrossoversBound(pos, total);
  }

  /** The loop-building pass of count_crossovers for one side. */
  method BuildSide(pos: seq<Point>, total: nat, start: nat) returns (lines: seq<Loop>)
    requires total <= |pos| && start <= 1
    ensures lines == SideLoops(pos, total, start)
  {
    lines := [];
    var i := start;
    while i < total
      invariant start <= i <= total + 1
      invariant lines + SideLoops(pos, total, i) == SideLoops(pos, total, start)
      decreases total - i
    {
      if i + 1 < total {
        lines := lines + [Loop(pos[i], pos[i + 1])];
      }
      i := i + 2;
    }
  }

  /** The pair-counting pass of count_crossovers over the loops of one side. */
  method CountPairs(lines: seq<Loop>) returns (crossOvers: nat)
    ensures crossOvers == PairCrossings(lines, 0)
  {
    crossOvers := 0;
    var i := 0;
    while i < |lines|
      invariant 0 <= i <= |lines|
      invariant crossOvers + PairCrossings(lines, i) == PairCrossings(lines, 0)
    {
      var j := i + 1;
      ghost var before := crossOvers;
      while j < |lines|
        invariant i + 1 <= j <= |lines|
        invariant crossOvers + RowCrossings(lines, i, j) == before + RowCrossings(lines, i, i + 1)
      {
        if Crosses(lines[i], lines[j]) {
          crossOvers := crossOvers + 1;
        }
        j := j + 1;
      }
      i := i + 1;
    }
  }

  /**
   * count_crossovers(total, x) for pos = the positions of arrangement x: the
   * number of crossing same-side loop pairs. The positions are only read.
   */
  method CountCrossovers(pos: seq<Point>, total: nat) returns (crossOvers: nat)
    requires total <= |pos|
    ensures crossOvers == Crossovers(pos, total)
    ensures crossOvers <= Choose2(total / 2) + Choose2(if total == 0 then 0 else (total - 1) / 2)
  {
    var lines := BuildSide(pos, total, 0);
    var first := CountPairs(lines);
    lines := BuildSide(pos, total, 1);
    var second := CountPairs(lines);
    crossOvers := first + second;
    CrossoversBound(pos, total);
  }
}
