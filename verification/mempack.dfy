/** The state shared by the arrangement search and the rotation scorer, and
    the routines that change it: reading the contacts, the symmetry-swap
    search over helix pairs, and the placement and scoring of residues. */
module Mempack {
  import opened Geometry
  import Crossovers
  import Matching
  import Contacts
  import Tokenize

  /** Distance of a residue from its helix axis. */
  const HelixRadius: real := 5.0
  /** Angle of the first residue of a helix before rotation, in degrees. */
  const StartAngle: real := -90.0
  /** Angle between consecutive residues of a helix, in degrees. */
  const ResidueStep: real := 100.0

  /** What happened to arrangement x when two helices were tried swapped. */
  datatype Outcome = More | Fewer | Equal

  /** Positions p with the entries of helices h and j exchanged. */
  function Swapped(p: seq<Point>, h: nat, j: nat): seq<Point>
    requires h < |p| && j < |p|
  {
    p[h := p[j]][j := p[h]]
  }

  /** A swap moves helices without adding or losing a position. */
  lemma SwapIsPermutation(p: seq<Point>, h: nat, j: nat)
    requires h < |p| && j < |p|
    ensures |Swapped(p, h, j)| == |p|
    ensures multiset(Swapped(p, h, j)) == multiset(p)
  {
    var q := p[h := p[j]];
    assert multiset(q) == multiset(p) - multiset{p[h]} + multiset{p[j]};
    assert q[j] == p[j];
  }

  /** Swapping the same two helices again restores the positions. */
  lemma SwapIsInvolution(p: seq<Point>, h: nat, j: nat)
    requires h < |p| && j < |p|
    ensures Swapped(Swapped(p, h, j), h, j) == p
  {
    var r := Swapped(p, h, j);
    assert r[h] == p[j] && r[j] == p[h];
    assert r[h := r[j]][j := r[h]] == p;
  }

  /** The comparison swap_helices makes between the crossovers before and after the swap. */
  function SwapOutcome(p: seq<Point>, total: nat, h: nat, j: nat): Outcome
    requires total <= |p| && h < |p| && j < |p|
  {
    var before := Crossovers.Crossovers(p, total);
    var after := Crossovers.Crossovers(Swapped(p, h, j), total);
    if before < after then More else if before == after then Equal else Fewer
  }

  /**
   * The arrangement kept at index x after trying the swap has the fewer
   * crossovers of the two candidates, the original winning a tie; on a tie
   * the swapped one, which is appended, has as few.
   */
  lemma KeptHasFewest(p: seq<Point>, total: nat, h: nat, j: nat)
    requires total <= |p| && h < |p| && j < |p|
    ensures var kept := if SwapOutcome(p, total, h, j) == Fewer then Swapped(p, h, j) else p;
      && Crossovers.Crossovers(kept, total) <= Crossovers.Crossovers(p, total)
      && Crossovers.Crossovers(kept, total) <= Crossovers.Crossovers(Swapped(p, h, j), total)
      && (kept != p ==> Crossovers.Crossovers(kept, total) < Crossovers.Crossovers(p, total))
    ensures SwapOutcome(p, total, h, j) == Equal <==>
      Crossovers.Crossovers(Swapped(p, h, j), total) == Crossovers.Crossovers(p, total)
  {
  }

  /** The helix pairs h < j the search can mark as seen. */
  function Pairs(n: nat): (ps: set<(int, int)>)
    ensures forall h, j :: (h, j) in ps <==> 0 <= h < j < n
  {
    set h, j | 0 <= h < j < n :: (h, j)
  }

  /** There is an arrangement, and each has total positions, a permutation of the first one's. */
  predicate Permutations(all: seq<seq<Point>>, total: nat) {
    && |all| > 0
    && forall a :: 0 <= a < |all| ==> |all[a]| == total && multiset(all[a]) == multiset(all[0])
  }

  lemma ReplaceKeepsPermutations(all: seq<seq<Point>>, total: nat, x: nat, q: seq<Point>)
    requires Permutations(all, total) && x < |all| && |q| == total && multiset(q) == multiset(all[x])
    ensures Permutations(all[x := q], total)
  {
  }

  lemma AppendKeepsPermutations(all: seq<seq<Point>>, total: nat, q: seq<Point>)
    requires Permutations(all, total) && |q| == total && multiset(q) == multiset(all[0])
    ensures Permutations(all + [q], total)
  {
  }

  /**
   * `after` is what the search from arrangement x may leave of `before`:
   * nothing removed, the arrangements before x untouched, and no more
   * crossovers at x.
   */
  predicate Improves(before: seq<seq<Point>>, after: seq<seq<Point>>, x: nat, total: nat) {
    && x < |before| <= |after|
    && after[..x] == before[..x]
    && total <= |before[x]| && total <= |after[x]|
    && Crossovers.Crossovers(after[x], total) <= Crossovers.Crossovers(before[x], total)
  }

  lemma ImprovesTransitive(a: seq<seq<Point>>, b: seq<seq<Point>>, c: seq<seq<Point>>, x: nat, total: nat)
    requires Improves(a, b, x, total) && Improves(b, c, x, total)
    ensures Improves(a, c, x, total)
  {
  }

  /** A search from x + 1 leaves arrangement x and everything before it as they were. */
  lemma ImprovesFromNext(a: seq<seq<Point>>, b: seq<seq<Point>>, x: nat, total: nat)
    requires Improves(a, b, x + 1, total) && total <= |a[x]|
    ensures Improves(a, b, x, total) && b[x] == a[x]
  {
    assert b[x] == b[..x + 1][x];
    assert a[x] == a[..x + 1][x];
    assert b[..x] == b[..x + 1][..x];
    assert a[..x] == a[..x + 1][..x];
  }

  /** One TrySwap on arrangement x of `before` leaves `after` improving on it. */
  lemma SwapStepImproves(before: seq<seq<Point>>, after: seq<seq<Point>>, x: nat, total: nat, h: nat, j: nat)
    requires x < |before| && total <= |before[x]| && h < j < total
    requires var o := SwapOutcome(before[x], total, h, j);
      && (o == More ==> after == before)
      && (o == Fewer ==> after == before[x := Swapped(before[x], h, j)])
      && (o == Equal ==> after == before + [Swapped(before[x], h, j)])
    ensures Improves(before, after, x, total)
  {
    SwapIsPermutation(before[x], h, j);
    if SwapOutcome(before[x], total, h, j) == Equal {
      assert after[..x] == before[..x];
    }
  }

  /** The pairs left to mark shrink once an unmarked pair of helices is marked. */
  lemma UnseenShrinks(total: nat, start: set<(int, int)>, seen: set<(int, int)>, e: (int, int))
    requires e in seen && e !in start && e in Pairs(total) && start <= seen
    ensures |Pairs(total) - seen| < |Pairs(total) - start|
  {
    var rest := Pairs(total) - start;
    assert Pairs(total) - seen <= rest - {e};
    SubsetSize(Pairs(total) - seen, rest - {e});
  }

  /**
   * What swap_helices(total, h1, h2, x) leaves of the arrangements `all` and
   * the marked pairs `seen`, from the pair (h, j) of its two loops on. A pair
   * whose contact lists match is marked and its swap tried on arrangement x:
   * more crossovers keep x, fewer keep the swap, and a tie appends the
   * swapped positions, searches from x + 1 with the pair marked, and then
   * restores the marks to those made before that search.
   */
  function Search(h1: seq<int>, h2: seq<int>, total: nat, all: seq<seq<Point>>, seen: set<(int, int)>,
                  x: nat, h: nat, j: nat): (r: (seq<seq<Point>>, set<(int, int)>))
    requires |h1| == |h2| && Permutations(all, total) && x < |all| && h < j
    ensures Permutations(r.0, total) && |all| <= |r.0|
    decreases |Pairs(total) - seen|, total - h, total - j
  {
    if h >= total then (all, seen)
    else if j >= total then Search(h1, h2, total, all, seen, x, h + 1, h + 2)
    else if Matching.IsMatch(Matching.Neighbours(h1, h2, h), Matching.Neighbours(h1, h2, j), h, j, seen) then
      var marked := seen + {(h, j)};
      var swapped := Swapped(all[x], h, j);
      Matching.MatchNeedsUnseen(Matching.Neighbours(h1, h2, h), Matching.Neighbours(h1, h2, j), h, j, seen);
      UnseenShrinks(total, seen, marked, (h, j));
      SwapIsPermutation(all[x], h, j);
      match SwapOutcome(all[x], total, h, j)
      case More => Search(h1, h2, total, all, marked, x, h, j + 1)
      case Fewer =>
        ReplaceKeepsPermutations(all, total, x, swapped);
        Search(h1, h2, total, all[x := swapped], marked, x, h, j + 1)
      case Equal =>
        AppendKeepsPermutations(all, total, swapped);
        var inner := Search(h1, h2, total, all + [swapped], marked, x + 1, 0, 1);
        Search(h1, h2, total, inner.0, marked, x, h, j + 1)
    else Search(h1, h2, total, all, seen, x, h, j + 1)
  }

  /** (a, b) is the pair (h, j) of swap_helices' loops or one they reach after it. */
  predicate FromPair(a: int, b: int, h: int, j: int) {
    h < a || (a == h && j <= b)
  }

  /** The pairs from (h, j) on whose contact lists match when the marks are `seen`. */
  function MatchedFrom(h1: seq<int>, h2: seq<int>, total: nat, seen: set<(int, int)>, h: int, j: int): set<(int, int)>
    requires |h1| == |h2|
  {
    set a: int, b: int | 0 <= a < b < total && FromPair(a, b, h, j) &&
      Matching.IsMatch(Matching.Neighbours(h1, h2, a), Matching.Neighbours(h1, h2, b), a, b, seen) :: (a, b)
  }

  /** Past the last helix no pair is left to match. */
  lemma MatchedPastEnd(h1: seq<int>, h2: seq<int>, total: nat, seen: set<(int, int)>, h: int, j: int)
    requires |h1| == |h2| && total <= h
    ensures MatchedFrom(h1, h2, total, seen, h, j) == {}
  {
  }

  /** Past the last j of row h the pairs left are those of row h + 1 on. */
  lemma MatchedNextRow(h1: seq<int>, h2: seq<int>, total: nat, seen: set<(int, int)>, h: int, j: int)
    requires |h1| == |h2| && total <= j
    ensures MatchedFrom(h1, h2, total, seen, h, j) == MatchedFrom(h1, h2, total, seen, h + 1, h + 2)
  {
  }

  /** The pairs from (h, j) on are (h, j) itself, if it matches, and those from (h, j + 1) on. */
  lemma MatchedAt(h1: seq<int>, h2: seq<int>, total: nat, seen: set<(int, int)>, h: int, j: int)
    requires |h1| == |h2| && 0 <= h < j < total
    ensures MatchedFrom(h1, h2, total, seen, h, j) ==
      (if Matching.IsMatch(Matching.Neighbours(h1, h2, h), Matching.Neighbours(h1, h2, j), h, j, seen)
       then {(h, j)} else {}) + MatchedFrom(h1, h2, total, seen, h, j + 1)
  {
  }

  /**
   * The marks a search from (h, j) leaves are those it started with plus
   * exactly the pairs from (h, j) on that match against the marks `seen0`
   * the level began with, when every mark made since then is of an earlier
   * pair: the marks of a tie's inner search are always undone.
   */
  lemma {:induction false} SearchMarks(h1: seq<int>, h2: seq<int>, total: nat, all: seq<seq<Point>>,
                                       seen0: set<(int, int)>, seen: set<(int, int)>, x: nat, h: nat, j: nat)
    requires |h1| == |h2| && Permutations(all, total) && x < |all| && h < j
    requires seen0 <= seen && forall e :: e in seen && e !in seen0 ==> !FromPair(e.0, e.1, h, j)
    ensures Search(h1, h2, total, all, seen, x, h, j).1 == seen + MatchedFrom(h1, h2, total, seen0, h, j)
    decreases |Pairs(total) - seen|, total - h, total - j, 1
  {
    if h >= total {
      MatchedPastEnd(h1, h2, total, seen0, h, j);
    } else if j >= total {
      SearchMarks(h1, h2, total, all, seen0, seen, x, h + 1, h + 2);
      MatchedNextRow(h1, h2, total, seen0, h, j);
    } else {
      var a, b := Matching.Neighbours(h1, h2, h), Matching.Neighbours(h1, h2, j);
      assert (h, j) in seen ==> (h, j) in seen0;
      assert Matching.IsMatch(a, b, h, j, seen) == Matching.IsMatch(a, b, h, j, seen0);
      MatchedAt(h1, h2, total, seen0, h, j);
      if Matching.IsMatch(a, b, h, j, seen) {
        SearchMarksMatched(h1, h2, total, all, seen0, seen, x, h, j);
      } else {
        SearchMarks(h1, h2, total, all, seen0, seen, x, h, j + 1);
      }
    }
  }

  /** SearchMarks for a pair (h, j) that matches: it is marked, whatever the swap's outcome. */
  lemma {:induction false} SearchMarksMatched(h1: seq<int>, h2: seq<int>, total: nat, all: seq<seq<Point>>,
                                              seen0: set<(int, int)>, seen: set<(int, int)>, x: nat, h: nat, j: nat)
    requires |h1| == |h2| && Permutations(all, total) && x < |all| && h < j < total
    requires seen0 <= seen && forall e :: e in seen && e !in seen0 ==> !FromPair(e.0, e.1, h, j)
    requires Matching.IsMatch(Matching.Neighbours(h1, h2, h), Matching.Neighbours(h1, h2, j), h, j, seen)
    ensures Search(h1, h2, total, all, seen, x, h, j).1 == seen + {(h, j)} + MatchedFrom(h1, h2, total, seen0, h, j + 1)
    decreases |Pairs(total) - seen|, total - h, total - j, 0
  {
    var marked := seen + {(h, j)};
    Matching.MatchNeedsUnseen(Matching.Neighbours(h1, h2, h), Matching.Neighbours(h1, h2, j), h, j, seen);
    UnseenShrinks(total, seen, marked, (h, j));
    var swapped := Swapped(all[x], h, j);
    SwapIsPermutation(all[x], h, j);
    match SwapOutcome(all[x], total, h, j)
    case More =>
      SearchMarks(h1, h2, total, all, seen0, marked, x, h, j + 1);
    case Fewer =>
      ReplaceKeepsPermutations(all, total, x, swapped);
      SearchMarks(h1, h2, total, all[x := swapped], seen0, marked, x, h, j + 1);
    case Equal =>
      AppendKeepsPermutations(all, total, swapped);
      var inner := Search(h1, h2, total, all + [swapped], marked, x + 1, 0, 1);
      SearchMarks(h1, h2, total, inner.0, seen0, marked, x, h, j + 1);
  }

  /** Angle of the k-th residue of a helix rotated by `rotate` degrees: each residue turns ResidueStep further. */
  function ResidueAngle(rotate: real, k: nat): real {
    if k == 0 then StartAngle + rotate else ResidueAngle(rotate, k - 1) + ResidueStep
  }

  /** Position of residue i of a helix starting at residue `start`, on a circle of radius HelixRadius round `centre`. */
  function ResiduePosition(direction: real -> Point, centre: Point, rotate: real, start: int, i: int): Point
    requires start <= i
  {
    OnCircle(centre, direction(ResidueAngle(rotate, i - start)))
  }

  /** The point at HelixRadius from `centre` in direction u. */
  function OnCircle(centre: Point, u: Point): Point {
    Point(centre.x + HelixRadius * u.x, centre.y + HelixRadius * u.y)
  }

  /** The residue map m with residues start .. stop placed round `centre`, one after another. */
  function PlaceHelix(direction: real -> Point, m: map<int, Point>, centre: Point, rotate: real, start: int, stop: int)
    : map<int, Point>
    decreases if stop < start then 0 else stop - start + 1
  {
    if stop < start then m
    else PlaceHelix(direction, m, centre, rotate, start, stop - 1)[stop := ResiduePosition(direction, centre, rotate, start, stop)]
  }

  /** The residue map m after helices 0 .. n - 1 have been placed, in order. */
  function PlaceAll(direction: real -> Point, m: map<int, Point>, positions: seq<Point>, rotations: seq<int>,
                    boundaries: seq<int>, n: nat): map<int, Point>
    requires n <= |positions| && n <= |rotations| && 2 * n <= |boundaries|
  {
    if n == 0 then m
    else
      PlaceHelix(direction, PlaceAll(direction, m, positions, rotations, boundaries, n - 1),
                 positions[n - 1], rotations[n - 1] as real, boundaries[2 * (n - 1)], boundaries[2 * (n - 1) + 1])
  }

  /** A residue's entry, or (0, 0) when it has none, which is what map::operator[] reads. */
  function Lookup(m: map<int, Point>, r: int): Point {
    if r in m then m[r] else Point(0.0, 0.0)
  }

  /** Sum of the distances between the two residues of the first k contacts. */
  function ContactDistanceUpTo(distance: (Point, Point) -> real, m: map<int, Point>,
                               contacts: seq<Contacts.ResidueContact>, k: nat): real
    requires k <= |contacts|
  {
    if k == 0 then 0.0
    else
      var rr := contacts[k - 1].residues;
      ContactDistanceUpTo(distance, m, contacts, k - 1) + distance(Lookup(m, rr.0), Lookup(m, rr.1))
  }

  function ContactDistance(distance: (Point, Point) -> real, m: map<int, Point>, contacts: seq<Contacts.ResidueContact>)
    : real
  {
    ContactDistanceUpTo(distance, m, contacts, |contacts|)
  }

  /**
   * Placing a helix gives residues start .. stop their positions on the
   * helix's circle and keeps every other residue's entry.
   */
  lemma {:induction false} PlaceHelixEntries(direction: real -> Point, m: map<int, Point>, centre: Point, rotate: real,
                                             start: int, stop: int)
    ensures var p := PlaceHelix(direction, m, centre, rotate, start, stop);
      && (forall i :: i in p <==> i in m || start <= i <= stop)
      && (forall i :: start <= i <= stop ==> p[i] == ResiduePosition(direction, centre, rotate, start, i))
      && (forall i :: i in m && !(start <= i <= stop) ==> p[i] == m[i])
    decreases if stop < start then 0 else stop - start + 1
  {
    if start <= stop {
      PlaceHelixEntries(direction, m, centre, rotate, start, stop - 1);
    }
  }

  /** The k-th residue sits k steps of ResidueStep past the rotated start angle. */
  lemma {:induction false} ResidueAngleValue(rotate: real, k: nat)
    ensures ResidueAngle(rotate, k) == StartAngle + rotate + ResidueStep * (k as real)
  {
    if k > 0 {
      ResidueAngleValue(rotate, k - 1);
    }
  }

  /**
   * 18 residues make five full turns (18 * 100 = 5 * 360 degrees), so with a
   * direction that repeats every 360 degrees residue i + 18 of a helix lands
   * where residue i does.
   */
  lemma HelixTurnRepeats(direction: real -> Point, centre: Point, rotate: real, start: int, i: int)
    requires start <= i
    requires forall a: real :: direction(a + 360.0) == direction(a)
    ensures ResiduePosition(direction, centre, rotate, start, i + 18) == ResiduePosition(direction, centre, rotate, start, i)
  {
    var a := ResidueAngle(rotate, i - start);
    ResidueAngleValue(rotate, i - start);
    ResidueAngleValue(rotate, i + 18 - start);
    assert ResidueAngle(rotate, i + 18 - start) == a + 360.0 + 360.0 + 360.0 + 360.0 + 360.0;
    assert direction(a + 360.0 + 360.0 + 360.0 + 360.0 + 360.0) == direction(a + 360.0 + 360.0 + 360.0 + 360.0);
    assert direction(a + 360.0 + 360.0 + 360.0 + 360.0) == direction(a + 360.0 + 360.0 + 360.0);
    assert direction(a + 360.0 + 360.0 + 360.0) == direction(a + 360.0 + 360.0);
    assert direction(a + 360.0 + 360.0) == direction(a + 360.0);
    assert direction(a + 360.0) == direction(a);
  }

  /** With unit directions every residue lies at HelixRadius from its helix's centre. */
  lemma ResidueOnCircle(direction: real -> Point, centre: Point, rotate: real, start: int, i: int)
    requires start <= i
    requires forall a: real :: Norm2(direction(a)) == 1.0
    ensures Norm2(Sub(ResiduePosition(direction, centre, rotate, start, i), centre)) == HelixRadius * HelixRadius
  {
    var u := direction(ResidueAngle(rotate, i - start));
    assert Norm2(u) == 1.0;
    assert Sub(OnCircle(centre, u), centre) == Point(HelixRadius * u.x, HelixRadius * u.y);
  }

  /** With a non-negative distance the score of an arrangement is non-negative. */
  lemma {:induction false} ContactDistanceNonNegative(distance: (Point, Point) -> real, m: map<int, Point>,
                                                      contacts: seq<Contacts.ResidueContact>, k: nat)
    requires k <= |contacts|
    requires forall p: Point, q: Point :: distance(p, q) >= 0.0
    ensures ContactDistanceUpTo(distance, m, contacts, k) >= 0.0
  {
    if k > 0 {
      ContactDistanceNonNegative(distance, m, contacts, k - 1);
      var rr := contacts[k - 1].residues;
      assert distance(Lookup(m, rr.0), Lookup(m, rr.1)) >= 0.0;
    }
  }

  /** Residue r lies in the range of one of the helices 0 .. n - 1. */
  predicate Covered(boundaries: seq<int>, n: nat, r: int)
    requires 2 * n <= |boundaries|
  {
    exists k :: 0 <= k < n && boundaries[2 * k] <= r <= boundaries[2 * k + 1]
  }

  /**
   * A residue in some helix's range gets its position from placing that
   * helix, whatever the residue map held before.
   */
  lemma {:induction false} PlaceAllCovered(direction: real -> Point, m1: map<int, Point>, m2: map<int, Point>,
                                           positions: seq<Point>, rotations: seq<int>, boundaries: seq<int>, n: nat, r: int)
    requires n <= |positions| && n <= |rotations| && 2 * n <= |boundaries|
    requires Covered(boundaries, n, r)
    ensures r in PlaceAll(direction, m1, positions, rotations, boundaries, n)
    ensures r in PlaceAll(direction, m2, positions, rotations, boundaries, n)
    ensures PlaceAll(direction, m1, positions, rotations, boundaries, n)[r]
         == PlaceAll(direction, m2, positions, rotations, boundaries, n)[r]
  {
    var k := n - 1;
    var p1 := PlaceAll(direction, m1, positions, rotations, boundaries, k);
    var p2 := PlaceAll(direction, m2, positions, rotations, boundaries, k);
    var start, stop := boundaries[2 * k], boundaries[2 * k + 1];
    PlaceHelixEntries(direction, p1, positions[k], rotations[k] as real, start, stop);
    PlaceHelixEntries(direction, p2, positions[k], rotations[k] as real, start, stop);
    if !(start <= r <= stop) {
      var w :| 0 <= w < n && boundaries[2 * w] <= r <= boundaries[2 * w + 1];
      assert w < k;
      assert Covered(boundaries, k, r);
      PlaceAllCovered(direction, m1, m2, positions, rotations, boundaries, k, r);
    }
  }

  /** Every residue with an entry in m lies in the range of one of the helices 0 .. n - 1. */
  predicate KeysCovered(m: map<int, Point>, boundaries: seq<int>, n: nat)
    requires 2 * n <= |boundaries|
  {
    forall r :: r in m ==> Covered(boundaries, n, r)
  }

  /** After placing helices 0 .. n - 1, the residues with an entry are those of m and the covered ones. */
  lemma {:induction false} PlaceAllKeys(direction: real -> Point, m: map<int, Point>, positions: seq<Point>,
                                        rotations: seq<int>, boundaries: seq<int>, n: nat, r: int)
    requires n <= |positions| && n <= |rotations| && 2 * n <= |boundaries|
    ensures r in PlaceAll(direction, m, positions, rotations, boundaries, n) <==> r in m || Covered(boundaries, n, r)
  {
    if n > 0 {
      var k := n - 1;
      PlaceAllKeys(direction, m, positions, rotations, boundaries, k, r);
      PlaceHelixEntries(direction, PlaceAll(direction, m, positions, rotations, boundaries, k), positions[k],
                        rotations[k] as real, boundaries[2 * k], boundaries[2 * k + 1]);
      if boundaries[2 * k] <= r <= boundaries[2 * k + 1] {
        assert Covered(boundaries, n, r);
      } else if Covered(boundaries, n, r) {
        var w :| 0 <= w < n && boundaries[2 * w] <= r <= boundaries[2 * w + 1];
        assert Covered(boundaries, k, r);
      }
    }
  }

  /**
   * When every residue with an entry in m lies in some helix's range,
   * placing all the helices overwrites every entry: the result is the map
   * placed from scratch, and it again has entries for covered residues only.
   */
  lemma PlaceAllOverwrites(direction: real -> Point, m: map<int, Point>, positions: seq<Point>, rotations: seq<int>,
                           boundaries: seq<int>, n: nat)
    requires n <= |positions| && n <= |rotations| && 2 * n <= |boundaries|
    requires KeysCovered(m, boundaries, n)
    ensures PlaceAll(direction, m, positions, rotations, boundaries, n)
         == PlaceAll(direction, map[], positions, rotations, boundaries, n)
    ensures KeysCovered(PlaceAll(direction, m, positions, rotations, boundaries, n), boundaries, n)
  {
    var p1 := PlaceAll(direction, m, positions, rotations, boundaries, n);
    var p2 := PlaceAll(direction, map[], positions, rotations, boundaries, n);
    forall r
      ensures r in p1.Keys <==> r in p2.Keys
      ensures r in p1 ==> Covered(boundaries, n, r) && p1[r] == p2[r]
    {
      PlaceAllKeys(direction, m, positions, rotations, boundaries, n, r);
      PlaceAllKeys(direction, map[], positions, rotations, boundaries, n, r);
      if r in p1 {
        PlaceAllCovered(direction, m, map[], positions, rotations, boundaries, n, r);
      }
    }
    assert forall r :: r in p1.Keys <==> r in p2.Keys;
    assert p1.Keys == p2.Keys;
    assert forall r :: r in p1 ==> p1[r] == p2[r];
  }

  /**
   * When every contact residue lies in some helix's range, the score does
   * not depend on the residue positions left over from an earlier placement.
   */
  lemma {:induction false} ScoreIgnoresStalePositions(direction: real -> Point, distance: (Point, Point) -> real,
                                                      m1: map<int, Point>, m2: map<int, Point>,
                                                      positions: seq<Point>, rotations: seq<int>, boundaries: seq<int>,
                                                      n: nat, contacts: seq<Contacts.ResidueContact>, k: nat)
    requires n <= |positions| && n <= |rotations| && 2 * n <= |boundaries| && k <= |contacts|
    requires forall c :: 0 <= c < |contacts| ==>
      Covered(boundaries, n, contacts[c].residues.0) && Covered(boundaries, n, contacts[c].residues.1)
    ensures ContactDistanceUpTo(distance, PlaceAll(direction, m1, positions, rotations, boundaries, n), contacts, k)
         == ContactDistanceUpTo(distance, PlaceAll(direction, m2, positions, rotations, boundaries, n), contacts, k)
  {
    if k > 0 {
      ScoreIgnoresStalePositions(direction, distance, m1, m2, positions, rotations, boundaries, n, contacts, k - 1);
      var rr := contacts[k - 1].residues;
      PlaceAllCovered(direction, m1, m2, positions, rotations, boundaries, n, rr.0);
      PlaceAllCovered(direction, m1, m2, positions, rotations, boundaries, n, rr.1);
    }
  }

  /**
   * The loop of get_residue_positions: residues start .. stop, in order, at
   * angles -90 + rotate, then 100 degrees on for each next residue.
   */
  method PlaceResidues(direction: real -> Point, m: map<int, Point>, centre: Point, rotate: real, start: int, stop: int)
    returns (placed: map<int, Point>)
    ensures placed == PlaceHelix(direction, m, centre, rotate, start, stop)
  {
    var angle := StartAngle + rotate;
    placed := m;
    var i := start;
    while i <= stop
      invariant start <= i <= if start <= stop then stop + 1 else start
      invariant angle == ResidueAngle(rotate, i - start)
      invariant placed == PlaceHelix(direction, m, centre, rotate, start, i - 1)
      decreases stop - i
    {
      placed := placed[i := OnCircle(centre, direction(angle))];
      angle := angle + ResidueStep;
      i := i + 1;
    }
  }

  /** The summing loop of optimise_rotation over the residue contacts. */
  method SumDistances(distance: (Point, Point) -> real, positions: map<int, Point>, contacts: seq<Contacts.ResidueContact>)
    returns (totalDistance: real)
    ensures totalDistance == ContactDistance(distance, positions, contacts)
  {
    totalDistance := 0.0;
    var k := 0;
    while k < |contacts|
      invariant k <= |contacts|
      invariant totalDistance == ContactDistanceUpTo(distance, positions, contacts, k)
    {
      var rr := contacts[k].residues;
      totalDistance := totalDistance + distance(Lookup(positions, rr.0), Lookup(positions, rr.1));
      k := k + 1;
    }
  }

  /**
   * One pass of the reading loop of main for one classified line, on the
   * edge lists h1/h2, the residue contacts and the boundary list.
   */
  method ReadLine(line: Contacts.InputLine, h1: seq<int>, h2: seq<int>, edges: nat,
                  residues: seq<Contacts.ResidueContact>, bounds: seq<int>)
    returns (h1': seq<int>, h2': seq<int>, edges': nat, residues': seq<Contacts.ResidueContact>, bounds': seq<int>)
    requires edges == |h1| == |h2|
    ensures edges' == |h1'| == |h2'| && Contacts.Zip(h1', h2') == Contacts.AddEdge(Contacts.Zip(h1, h2), line)
    ensures residues' == Contacts.AddResidues(residues, line)
    ensures bounds' == Contacts.AddBoundaries(bounds, line)
  {
    h1', h2', edges', residues', bounds' := h1, h2, edges, residues, bounds;
    match line {
      case ContactLine(a, b, c, d) =>
        residues' := Contacts.Insert(residues, Contacts.ResidueContact((a, b), (c, d)));
        var tag := Contacts.CountPair(h1, h2, c - 1, d - 1);
        Contacts.ZipContains(h1, h2, (c - 1, d - 1));
        if tag == 0 {
          Contacts.ZipAppend(h1, h2, c - 1, d - 1);
          h1' := h1 + [c - 1];
          h2' := h2 + [d - 1];
          edges' := edges + 1;
        }
      case TopologyLine(field) =>
        bounds' := Tokenize.Tokenize(field, bounds);
      case OtherLine =>
    }
  }

  /** The reading loop of main over all lines, from the residue contacts and boundaries read so far. */
  method ReadAll(lines: seq<Contacts.InputLine>, residues0: seq<Contacts.ResidueContact>, bounds0: seq<int>)
    returns (h1: seq<int>, h2: seq<int>, edges: nat, residues: seq<Contacts.ResidueContact>, bounds: seq<int>)
    ensures edges == |h1| == |h2| && Contacts.Zip(h1, h2) == Contacts.Edges(lines)
    ensures residues == Contacts.ResidueMapUpTo(residues0, lines, |lines|)
    ensures bounds == Contacts.BoundariesUpTo(bounds0, lines, |lines|)
  {
    h1, h2, edges, residues, bounds := [], [], 0, residues0, bounds0;
    var n := 0;
    while n < |lines|
      invariant 0 <= n <= |lines|
      invariant edges == |h1| == |h2| && Contacts.Zip(h1, h2) == Contacts.EdgesUpTo(lines, n)
      invariant residues == Contacts.ResidueMapUpTo(residues0, lines, n)
      invariant bounds == Contacts.BoundariesUpTo(bounds0, lines, n)
    {
      var line := lines[n];
      assert Contacts.EdgesUpTo(lines, n + 1) == Contacts.AddEdge(Contacts.EdgesUpTo(lines, n), line);
      assert Contacts.ResidueMapUpTo(residues0, lines, n + 1) == Contacts.AddResidues(residues, line);
      assert Contacts.BoundariesUpTo(bounds0, lines, n + 1) == Contacts.AddBoundaries(bounds, line);
      h1, h2, edges, residues, bounds := ReadLine(line, h1, h2, edges, residues, bounds);
      n := n + 1;
    }
  }

  /**
   * The swap test on the arrangements `all`: count crossovers of arrangement
   * x, swap helices h and j, count again; more crossovers restore x, fewer
   * keep the swap, and a tie appends the swapped positions as a new
   * arrangement and restores x.
   */
  method SwapStep(all: seq<seq<Point>>, total: nat, h: nat, j: nat, x: nat) returns (outcome: Outcome, all': seq<seq<Point>>)
    requires Permutations(all, total) && x < |all| && h < j < total
    ensures Permutations(all', total)
    ensures outcome == SwapOutcome(all[x], total, h, j)
    ensures outcome == More ==> all' == all
    ensures outcome == Fewer ==> all' == all[x := Swapped(all[x], h, j)]
    ensures outcome == Equal ==> all' == all + [Swapped(all[x], h, j)]
  {
    var positions := all[x];
    var crossOvers := Crossovers.CountCrossovers(positions, total);
    var swapH1 := positions[h];
    var swapH2 := positions[j];
    positions := positions[h := swapH2][j := swapH1];
    all' := all[x := positions];
    var crossOversSwapped := Crossovers.CountCrossovers(positions, total);
    SwapIsPermutation(all[x], h, j);
    if crossOvers < crossOversSwapped {
      positions := positions[h := swapH1][j := swapH2];
      all' := all'[x := positions];
      SwapIsInvolution(all[x], h, j);
      assert all' == all;
      outcome := More;
    } else if crossOvers == crossOversSwapped {
      all' := all' + [positions];
      positions := positions[h := swapH1][j := swapH2];
      all' := all'[x := positions];
      SwapIsInvolution(all[x], h, j);
      AppendKeepsPermutations(all, total, Swapped(all[x], h, j));
      outcome := Equal;
    } else {
      ReplaceKeepsPermutations(all, total, x, positions);
      outcome := Fewer;
    }
  }

  /**
   * The global state of one component: the helix count, the positions of
   * every arrangement, the pairs already swapped, the helix boundaries, the
   * rotations and residue positions per arrangement, and the residue
   * contacts. cos/sin and sqrt are supplied as `direction` and `distance`.
   */
  class State {
    var total: nat
    var allHelixPositions: seq<seq<Point>>
    var helixSwapsSeen: set<(int, int)>
    var boundaries: seq<int>
    var allRotations: seq<seq<int>>
    var residuesToHelices: seq<Contacts.ResidueContact>
    var allResiduePositions: seq<map<int, Point>>
    /** (cos a, sin a) for an angle a in degrees. */
    const direction: real -> Point
    /** distance_rr: the Euclidean distance of two points. */
    const distance: (Point, Point) -> real

    constructor (direction: real -> Point, distance: (Point, Point) -> real)
      ensures this.direction == direction && this.distance == distance
      ensures total == 0 && allHelixPositions == [] && helixSwapsSeen == {} && boundaries == []
      ensures allRotations == [] && residuesToHelices == [] && allResiduePositions == []
    {
      this.direction := direction;
      this.distance := distance;
      total := 0;
      allHelixPositions := [];
      helixSwapsSeen := {};
      boundaries := [];
      allRotations := [];
      residuesToHelices := [];
      allResiduePositions := [];
    }

    /**
     * There is an arrangement, and every arrangement places the total
     * helices at the positions of the first one, permuted.
     */
    predicate Arrangements()
      reads this
    {
      Permutations(allHelixPositions, total)
    }

    /**
     * The reading loop of main: each contact line records its residue pair
     * (first entry wins) and, when the helix pair (c - 1, d - 1) is new, appends
     * it to h1/h2; each topology line is tokenized onto the boundaries.
     */
    method ReadInput(lines: seq<Contacts.InputLine>) returns (h1: seq<int>, h2: seq<int>, edges: nat)
      modifies this`residuesToHelices, this`boundaries
      ensures edges == |h1| == |h2| && Contacts.Zip(h1, h2) == Contacts.Edges(lines)
      ensures residuesToHelices == Contacts.ResidueMapUpTo(old(residuesToHelices), lines, |lines|)
      ensures boundaries == Contacts.BoundariesUpTo(old(boundaries), lines, |lines|)
    {
      var residues, bounds;
      h1, h2, edges, residues, bounds := ReadAll(lines, residuesToHelices, boundaries);
      residuesToHelices, boundaries := residues, bounds;
    }

    /**
     * One step of swap_helices for a matched pair (h, j) of arrangement x; see
     * SwapStep.
     */
    method TrySwap(h: nat, j: nat, x: nat) returns (outcome: Outcome)
      requires Arrangements() && x < |allHelixPositions| && h < j < total
      modifies this`allHelixPositions
      ensures Arrangements()
      ensures outcome == SwapOutcome(old(allHelixPositions[x]), total, h, j)
      ensures outcome == More ==> allHelixPositions == old(allHelixPositions)
      ensures outcome == Fewer ==>
        allHelixPositions == old(allHelixPositions)[x := Swapped(old(allHelixPositions[x]), h, j)]
      ensures outcome == Equal ==>
        allHelixPositions == old(allHelixPositions) + [Swapped(old(allHelixPositions[x]), h, j)]
    {
      outcome, allHelixPositions := SwapStep(allHelixPositions, total, h, j, x);
    }

    /**
     * swap_helices(total, h1, h2, x): try every unseen matching pair h < j on
     * arrangement x; a tie appends an arrangement, searches from x + 1 with
     * (h, j) marked, then forgets what that search marked. The result is
     * Search's; arrangements are only appended, those before x are
     * untouched, x never gains crossovers, and the marks left behind are the
     * old ones plus the pairs matched at this level.
     */
    method SwapHelices(h1: seq<int>, h2: seq<int>, x: nat)
      requires Arrangements() && x < |allHelixPositions| && |h1| == |h2|
      modifies this`allHelixPositions, this`helixSwapsSeen
      ensures Arrangements()
      ensures (allHelixPositions, helixSwapsSeen) ==
        Search(h1, h2, total, old(allHelixPositions), old(helixSwapsSeen), x, 0, 1)
      ensures Improves(old(allHelixPositions), allHelixPositions, x, total)
      ensures helixSwapsSeen == old(helixSwapsSeen) + MatchedFrom(h1, h2, total, old(helixSwapsSeen), 0, 1)
      decreases |Pairs(total) - helixSwapsSeen|, 2
    {
      ghost var goal := Search(h1, h2, total, allHelixPositions, helixSwapsSeen, x, 0, 1);
      SearchMarks(h1, h2, total, allHelixPositions, helixSwapsSeen, helixSwapsSeen, x, 0, 1);
      var h := 0;
      while h < total
        invariant Arrangements() && x < |allHelixPositions|
        invariant goal == Search(h1, h2, total, allHelixPositions, helixSwapsSeen, x, h, h + 1)
        invariant Improves(old(allHelixPositions), allHelixPositions, x, total)
        invariant old(helixSwapsSeen) <= helixSwapsSeen
      {
        ghost var before := allHelixPositions;
        SeenGrowth(old(helixSwapsSeen), helixSwapsSeen);
        SearchRow(h1, h2, x, h);
        ImprovesTransitive(old(allHelixPositions), before, allHelixPositions, x, total);
        h := h + 1;
      }
    }

    /**
     * One pass of swap_helices' outer loop, for helix h: build h's contact
     * list, then visit the pairs (h, j) for j from h + 1 up. The search from
     * (h, h + 1) is then the search from the next helix.
     */
    method SearchRow(h1: seq<int>, h2: seq<int>, x: nat, h: nat)
      requires Arrangements() && x < |allHelixPositions| && |h1| == |h2| && h < total
      modifies this`allHelixPositions, this`helixSwapsSeen
      ensures Arrangements() && x < |allHelixPositions|
      ensures Search(h1, h2, total, old(allHelixPositions), old(helixSwapsSeen), x, h, h + 1) ==
        Search(h1, h2, total, allHelixPositions, helixSwapsSeen, x, h + 1, h + 2)
      ensures Improves(old(allHelixPositions), allHelixPositions, x, total)
      ensures old(helixSwapsSeen) <= helixSwapsSeen
      decreases |Pairs(total) - helixSwapsSeen|, 1
    {
      ghost var goal := Search(h1, h2, total, allHelixPositions, helixSwapsSeen, x, h, h + 1);
      var hContact := Matching.NeighbourList(h1, h2, h);
      var j := h + 1;
      while j < total
        invariant h < j <= total
        invariant Arrangements() && x < |allHelixPositions|
        invariant goal == Search(h1, h2, total, allHelixPositions, helixSwapsSeen, x, h, j)
        invariant Improves(old(allHelixPositions), allHelixPositions, x, total)
        invariant old(helixSwapsSeen) <= helixSwapsSeen
      {
        ghost var before := allHelixPositions;
        SeenGrowth(old(helixSwapsSeen), helixSwapsSeen);
        VisitPair(h1, h2, hContact, x, h, j);
        ImprovesTransitive(old(allHelixPositions), before, allHelixPositions, x, total);
        j := j + 1;
      }
    }

    /**
     * The body of swap_helices' inner loop for the pair (h, j) of
     * arrangement x: when the contact lists match, mark the pair, try the
     * swap, and on a tie search from x + 1 and restore the marks. The
     * search from (h, j) is then the search from the next pair.
     */
    method VisitPair(h1: seq<int>, h2: seq<int>, hContact: seq<int>, x: nat, h: nat, j: nat)
      requires Arrangements() && x < |allHelixPositions| && |h1| == |h2| && h < j < total
      requires hContact == Matching.Neighbours(h1, h2, h)
      modifies this`allHelixPositions, this`helixSwapsSeen
      ensures Arrangements() && x < |allHelixPositions|
      ensures Search(h1, h2, total, old(allHelixPositions), old(helixSwapsSeen), x, h, j) ==
        Search(h1, h2, total, allHelixPositions, helixSwapsSeen, x, h, j + 1)
      ensures Improves(old(allHelixPositions), allHelixPositions, x, total)
      ensures old(helixSwapsSeen) <= helixSwapsSeen
      decreases |Pairs(total) - helixSwapsSeen|, 0
    {
      var jContact := Matching.NeighbourList(h1, h2, j);
      var matched := Matching.TestPair(hContact, jContact, h, j, helixSwapsSeen);
      if matched {
        Matching.MatchNeedsUnseen(hContact, jContact, h, j, helixSwapsSeen);
        helixSwapsSeen := helixSwapsSeen + {(h, j)};
        var snapshot := helixSwapsSeen;
        var outcome := TrySwap(h, j, x);
        KeptHasFewest(old(allHelixPositions)[x], total, h, j);
        SwapStepImproves(old(allHelixPositions), allHelixPositions, x, total, h, j);
        if outcome == Equal {
          ghost var appended := allHelixPositions;
          UnseenShrinks(total, old(helixSwapsSeen), helixSwapsSeen, (h, j));
          SwapHelices(h1, h2, x + 1);
          ImprovesFromNext(appended, allHelixPositions, x, total);
          ImprovesTransitive(old(allHelixPositions), appended, allHelixPositions, x, total);
          helixSwapsSeen := snapshot;
        }
      }
    }

    /** Marks only added leave no more pairs to mark. */
    lemma SeenGrowth(start: set<(int, int)>, seen: set<(int, int)>)
      requires start <= seen
      ensures |Pairs(total) - seen| <= |Pairs(total) - start|
    {
      SubsetSize(Pairs(total) - seen, Pairs(total) - start);
    }

    /**
     * get_residue_positions(rotate, helix, x): residues boundaries[2 helix] ..
     * boundaries[2 helix + 1] are placed on the circle of radius 5 around the
     * helix, the first at -90 + rotate degrees and each next one 100 degrees on.
     */
    method GetResiduePositions(rotate: real, helix: nat, x: nat)
      requires x < |allHelixPositions| && helix < |allHelixPositions[x]|
      requires x < |allResiduePositions| && 2 * helix + 1 < |boundaries|
      modifies this`allResiduePositions
      ensures allResiduePositions == old(allResiduePositions)[x := PlaceHelix(direction, old(allResiduePositions[x]),
        allHelixPositions[x][helix], rotate, boundaries[2 * helix], boundaries[2 * helix + 1])]
    {
      var placed := PlaceResidues(direction, allResiduePositions[x], allHelixPositions[x][helix], rotate,
                                  boundaries[2 * helix], boundaries[2 * helix + 1]);
      allResiduePositions := allResiduePositions[x := placed];
    }

    /**
     * optimise_rotation(x): place every helix of arrangement x at its stored
     * rotation, then add up the distances between the two residues of every
     * residue contact; a residue with no position counts as (0, 0).
     */
    method OptimiseRotation(x: nat) returns (totalDistance: real)
      requires x < |allHelixPositions| && total <= |allHelixPositions[x]|
      requires x < |allRotations| && total <= |allRotations[x]|
      requires x < |allResiduePositions| && 2 * total <= |boundaries|
      modifies this`allResiduePositions
      ensures allResiduePositions == old(allResiduePositions)[x := PlaceAll(direction, old(allResiduePositions[x]),
        allHelixPositions[x], allRotations[x], boundaries, total)]
      ensures totalDistance == ContactDistance(distance, allResiduePositions[x], residuesToHelices)
    {
      ghost var m0 := allResiduePositions[x];
      var i := 0;
      while i < total
        invariant i <= total
        invariant allResiduePositions == old(allResiduePositions)[x := PlaceAll(direction, m0,
          allHelixPositions[x], allRotations[x], boundaries, i)]
      {
        GetResiduePositions(allRotations[x][i] as real, i, x);
        i := i + 1;
      }
      totalDistance := SumDistances(distance, allResiduePositions[x], residuesToHelices);
    }

    /** Arrangement x has a position for every helix, and every helix has its two boundaries. */
    predicate Placeable(x: nat)
      reads this`allHelixPositions, this`boundaries, this`total
    {
      x < |allHelixPositions| && total <= |allHelixPositions[x]| && 2 * total <= |boundaries|
    }

    /**
     * optimise_rotation(x) can run: Placeable, with rotations and a residue
     * map for arrangement x, holding entries only for residues some helix
     * places, as get_residue_positions is the only writer.
     */
    predicate Scorable(x: nat)
      reads this`allHelixPositions, this`boundaries, this`total, this`allRotations, this`allResiduePositions
    {
      && Placeable(x) && x < |allRotations| && total <= |allRotations[x]| && x < |allResiduePositions|
      && KeysCovered(allResiduePositions[x], boundaries, total)
    }

  }

  /** A subset is no larger than its superset. */
  lemma {:induction false} SubsetSize<T>(a: set<T>, b: set<T>)
    requires a <= b
    ensures |a| <= |b|
    decreases |a|
  {
    if a != {} {
      var e :| e in a;
      SubsetSize(a - {e}, b - {e});
    }
  }
}
