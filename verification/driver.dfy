/** The body of main once the input lines are classified: reading, the
    checks, the arrangement search, and the ranking of the arrangements by
    their optimised scores. */
module DrawGraphs {
  import opened Geometry
  import Contacts
  import Mempack
  import Genetic
  import Paramopt

  /**
   * The scores map of main (score to arrangement index), kept as its
   * entries in ascending key order, which is the order it is reported in.
   */
  type Ranking = seq<(real, nat)>

  predicate StrictlySorted(m: Ranking) {
    forall i, k :: 0 <= i < k < |m| ==> m[i].0 < m[k].0
  }

  /** scores[key] = v: a new key is inserted in order, an existing key's arrangement is replaced. */
  function Assign(m: Ranking, key: real, v: nat): Ranking {
    if m == [] then [(key, v)]
    else if key < m[0].0 then [(key, v)] + m
    else if key == m[0].0 then [(key, v)] + m[1..]
    else [m[0]] + Assign(m[1..], key, v)
  }

  /** Assigning keeps the keys in strictly ascending order; the first key is then the lower of key and the old first key. */
  lemma {:induction false} AssignSorted(m: Ranking, key: real, v: nat)
    requires StrictlySorted(m)
    ensures StrictlySorted(Assign(m, key, v))
    ensures Assign(m, key, v) != [] && Assign(m, key, v)[0].0 == if m == [] || key < m[0].0 then key else m[0].0
  {
    if m != [] && key > m[0].0 {
      AssignSorted(m[1..], key, v);
      var rest := Assign(m[1..], key, v);
      var r := Assign(m, key, v);
      assert r == [m[0]] + rest;
      assert m[0].0 < rest[0].0 by {
        if |m| > 1 {
          assert m[1..][0] == m[1];
        }
      }
      forall i, k | 0 <= i < k < |r|
        ensures r[i].0 < r[k].0
      {
        if i == 0 && k > 1 {
          assert rest[0].0 < rest[k - 1].0;
        }
      }
    }
  }

  /** After assigning, e is an entry exactly when it is (key, v) or an old entry with another key. */
  lemma {:induction false} AssignMember(m: Ranking, key: real, v: nat, e: (real, nat))
    requires StrictlySorted(m)
    ensures e in Assign(m, key, v) <==> e == (key, v) || (e in m && e.0 != key)
  {
    if m == [] {
    } else if key < m[0].0 {
      if e in m {
        var i :| 0 <= i < |m| && m[i] == e;
        assert m[0].0 <= m[i].0;
      }
    } else if key == m[0].0 {
      assert e in m <==> e == m[0] || e in m[1..];
      if e in m[1..] {
        var i :| 0 <= i < |m[1..]| && m[1..][i] == e;
        assert m[i + 1] == e;
      }
    } else {
      AssignMember(m[1..], key, v, e);
      assert e in m <==> e == m[0] || e in m[1..];
    }
  }

  /** The scores map after arrangements 0 .. n - 1 were scored, in that order. */
  function RankingOf(scores: seq<real>, n: nat): Ranking
    requires n <= |scores|
  {
    if n == 0 then [] else Assign(RankingOf(scores, n - 1), scores[n - 1], n - 1)
  }

  /** The scores map after n arrangements depends on their scores only. */
  lemma {:induction false} RankingOfPrefix(s: seq<real>, t: seq<real>, n: nat)
    requires n <= |s| && n <= |t| && s[..n] == t[..n]
    ensures RankingOf(s, n) == RankingOf(t, n)
  {
    if n > 0 {
      assert s[..n - 1] == s[..n][..n - 1] && t[..n - 1] == t[..n][..n - 1];
      assert s[n - 1] == s[..n][n - 1] && t[n - 1] == t[..n][n - 1];
      RankingOfPrefix(s, t, n - 1);
    }
  }

  /** The keys of the scores map are strictly ascending. */
  lemma {:induction false} RankingOfSorted(scores: seq<real>, n: nat)
    requires n <= |scores|
    ensures StrictlySorted(RankingOf(scores, n))
  {
    if n > 0 {
      RankingOfSorted(scores, n - 1);
      AssignSorted(RankingOf(scores, n - 1), scores[n - 1], n - 1);
    }
  }

  /**
   * The entries of the scores map after n arrangements: the score of an
   * arrangement paired with the last arrangement that had that score.
   */
  lemma {:induction false} RankingOfMember(scores: seq<real>, n: nat, e: (real, nat))
    requires n <= |scores|
    ensures e in RankingOf(scores, n) <==> LastWithScore(scores, n, e)
  {
    if n > 0 {
      var m := RankingOf(scores, n - 1);
      var last := (scores[n - 1], n - 1);
      assert RankingOf(scores, n) == Assign(m, last.0, last.1);
      RankingOfSorted(scores, n - 1);
      AssignMember(m, last.0, last.1, e);
      if e.0 != last.0 {
        RankingOfMember(scores, n - 1, e);
        LastWithOtherScore(scores, n, e);
      } else if e.1 < n - 1 {
        assert scores[n - 1] == e.0;
      }
    }
  }

  /** Arrangement e.1, among the first n, has score e.0, and no later one among them has that score. */
  predicate LastWithScore(scores: seq<real>, n: nat, e: (real, nat))
    requires n <= |scores|
  {
    e.1 < n && scores[e.1] == e.0 && forall a :: e.1 < a < n ==> scores[a] != e.0
  }

  /** An arrangement whose score differs from e's does not change whether e is the last with its score. */
  lemma LastWithOtherScore(scores: seq<real>, n: nat, e: (real, nat))
    requires 0 < n <= |scores| && scores[n - 1] != e.0
    ensures LastWithScore(scores, n, e) <==> LastWithScore(scores, n - 1, e)
  {
    if e.1 < n - 1 && LastWithScore(scores, n - 1, e) {
      forall a | e.1 < a < n
        ensures scores[a] != e.0
      {
      }
    }
  }

  /** The last of the first n arrangements whose score equals arrangement a's. */
  function LastIndex(scores: seq<real>, n: nat, a: nat): (b: nat)
    requires a < n <= |scores|
    ensures a <= b && LastWithScore(scores, n, (scores[a], b))
    decreases n
  {
    if scores[n - 1] == scores[a] then n - 1
    else
      var b := LastIndex(scores, n - 1, a);
      assert forall c :: b < c < n ==> scores[c] != scores[a] by {
        assert forall c :: b < c < n - 1 ==> scores[c] != scores[a];
      }
      b
  }

  /** One block of the report: an arrangement's helix positions and rotations, and its score. */
  datatype Row = Row(arrangement: nat, positions: seq<Point>, rotations: seq<int>, score: real)

  /** What main prints for the scores map, one row per entry in ascending score order. */
  function Report(m: Ranking, positions: seq<seq<Point>>, rotations: seq<seq<int>>): seq<Row>
    requires forall k :: 0 <= k < |m| ==> m[k].1 < |positions| && m[k].1 < |rotations|
  {
    seq(|m|, k requires 0 <= k < |m| => Row(m[k].1, positions[m[k].1], rotations[m[k].1], m[k].0))
  }

  /**
   * rows report every arrangement's score: scores strictly ascending, each
   * row the positions, rotations and score of the last arrangement with that
   * score, and every arrangement's score on some row.
   */
  predicate Reports(rows: seq<Row>, scores: seq<real>, positions: seq<seq<Point>>, rotations: seq<seq<int>>)
    requires |scores| == |positions| == |rotations|
  {
    && (forall i, k :: 0 <= i < k < |rows| ==> rows[i].score < rows[k].score)
    && (forall k :: 0 <= k < |rows| ==>
          && LastWithScore(scores, |scores|, (rows[k].score, rows[k].arrangement))
          && rows[k].positions == positions[rows[k].arrangement]
          && rows[k].rotations == rotations[rows[k].arrangement])
    && (forall a :: 0 <= a < |scores| ==> exists k :: 0 <= k < |rows| && rows[k].score == scores[a])
  }

  /** Every row printed for the scores map holds the last arrangement with its score. */
  lemma RankedRows(scores: seq<real>, positions: seq<seq<Point>>, rotations: seq<seq<int>>)
    requires |scores| == |positions| == |rotations|
    ensures forall k :: 0 <= k < |RankingOf(scores, |scores|)| ==> RankingOf(scores, |scores|)[k].1 < |scores|
    ensures var rows := Report(RankingOf(scores, |scores|), positions, rotations);
      && (forall i, k :: 0 <= i < k < |rows| ==> rows[i].score < rows[k].score)
      && (forall k :: 0 <= k < |rows| ==> LastWithScore(scores, |scores|, (rows[k].score, rows[k].arrangement)))
  {
    var n := |scores|;
    var m := RankingOf(scores, n);
    RankingOfSorted(scores, n);
    forall k | 0 <= k < |m|
      ensures LastWithScore(scores, n, m[k])
    {
      RankingOfMember(scores, n, m[k]);
    }
  }

  /** Every arrangement's score is a key of the scores map. */
  lemma RankedCovers(scores: seq<real>, a: nat)
    requires a < |scores|
    ensures var m := RankingOf(scores, |scores|); exists k :: 0 <= k < |m| && m[k].0 == scores[a]
  {
    var n := |scores|;
    var m := RankingOf(scores, n);
    var b := LastIndex(scores, n, a);
    RankingOfMember(scores, n, (scores[a], b));
    var k :| 0 <= k < |m| && m[k] == (scores[a], b);
  }

  /** Printing the scores map after every arrangement was scored reports every arrangement's score. */
  lemma RankedReport(scores: seq<real>, positions: seq<seq<Point>>, rotations: seq<seq<int>>)
    requires |scores| == |positions| == |rotations|
    ensures var m := RankingOf(scores, |scores|);
      && (forall k :: 0 <= k < |m| ==> m[k].1 < |positions|)
      && Reports(Report(m, positions, rotations), scores, positions, rotations)
  {
    var m := RankingOf(scores, |scores|);
    RankedRows(scores, positions, rotations);
    assert forall k :: 0 <= k < |m| ==> m[k].1 < |positions|;
    var rows := Report(m, positions, rotations);
    forall a | 0 <= a < |scores|
      ensures exists k :: 0 <= k < |rows| && rows[k].score == scores[a]
    {
      RankedCovers(scores, a);
      var k :| 0 <= k < |m| && m[k].0 == scores[a];
      assert rows[k].score == scores[a];
    }
  }

  /** Each helix rotation stored is a whole number of degrees in [0, 359]. */
  predicate WholeDegrees(rs: seq<int>, n: nat) {
    |rs| == n && forall j :: 0 <= j < n ==> 0 <= rs[j] <= 359
  }

  /**
   * What eval scores arrangement a against: its helix positions, with the
   * boundaries, helix count and residue contacts every arrangement shares.
   */
  ghost function SceneOf(st: Mempack.State, a: nat): Paramopt.Scene
    reads st`allHelixPositions, st`boundaries, st`total, st`residuesToHelices
    requires a < |st.allHelixPositions|
  {
    Paramopt.Scene(st.direction, st.distance, st.allHelixPositions[a], st.boundaries, st.total, st.residuesToHelices)
  }

  /** The scene of every arrangement, in order. */
  ghost function Scenes(st: Mempack.State): (r: seq<Paramopt.Scene>)
    reads st`allHelixPositions, st`boundaries, st`total, st`residuesToHelices
    ensures |r| == |st.allHelixPositions| && forall a :: 0 <= a < |r| ==> r[a] == SceneOf(st, a)
  {
    var ps, bs, n, cs := st.allHelixPositions, st.boundaries, st.total, st.residuesToHelices;
    seq(|ps|, a requires 0 <= a < |ps| => Paramopt.Scene(st.direction, st.distance, ps[a], bs, n, cs))
  }

  /**
   * v is what eval returned for scene sc at some genome of one rotation per
   * helix, each within the parameter range [0, 359].
   */
  ghost predicate Optimised(sc: Paramopt.Scene, v: real) {
    Paramopt.Achieved(sc, v, seq(sc.total, _ => Genetic.MinParam), seq(sc.total, _ => Genetic.MaxParam))
  }

  /** Every arrangement's rotations are whole degrees in [0, 359], one per helix. */
  predicate AllWholeDegrees(rss: seq<seq<int>>, n: nat) {
    forall a :: 0 <= a < |rss| ==> WholeDegrees(rss[a], n)
  }

  lemma WholeDegreesNext(rss: seq<seq<int>>, rs: seq<int>, n: nat)
    requires AllWholeDegrees(rss, n) && WholeDegrees(rs, n)
    ensures AllWholeDegrees(rss + [rs], n)
  {
  }

  /**
   * The residue placement main runs before optimising arrangement a: every
   * helix i of it gets its residues placed at rotation all_rotations[a][i].
   */
  method PlaceArrangement(st: Mempack.State, a: nat)
    requires st.Placeable(a) && a < |st.allRotations| && st.total <= |st.allRotations[a]|
    requires a < |st.allResiduePositions|
    modifies st`allResiduePositions
    ensures st.allResiduePositions == old(st.allResiduePositions)[a := Mempack.PlaceAll(st.direction,
      old(st.allResiduePositions[a]), st.allHelixPositions[a], st.allRotations[a], st.boundaries, st.total)]
  {
    ghost var m0 := st.allResiduePositions[a];
    var i := 0;
    while i < st.total
      invariant i <= st.total
      invariant st.allResiduePositions == old(st.allResiduePositions)[a := Mempack.PlaceAll(st.direction, m0,
        st.allHelixPositions[a], st.allRotations[a], st.boundaries, i)]
    {
      st.GetResiduePositions(st.allRotations[a][i] as real, i, a);
      i := i + 1;
    }
  }

  /**
   * The start of a pass of the scoring loop of main: zero rotations and an
   * empty residue map are appended for arrangement a, and its residues placed.
   */
  method OpenArrangement(st: Mempack.State, a: nat)
    requires st.Arrangements() && 2 * st.total == |st.boundaries| && a < |st.allHelixPositions|
    requires |st.allRotations| == a == |st.allResiduePositions|
    modifies st`allRotations, st`allResiduePositions
    ensures st.allRotations == old(st.allRotations) + [seq(st.total, _ => 0)]
    ensures st.allResiduePositions == old(st.allResiduePositions) + [Mempack.PlaceAll(st.direction, map[],
      st.allHelixPositions[a], st.allRotations[a], st.boundaries, st.total)]
    ensures st.Scorable(a)
  {
    st.allRotations := st.allRotations + [seq(st.total, _ => 0)];
    st.allResiduePositions := st.allResiduePositions + [map[]];
    PlaceArrangement(st, a);
    Mempack.PlaceAllOverwrites(st.direction, map[], st.allHelixPositions[a], st.allRotations[a], st.boundaries, st.total);
  }

  /**
   * One pass of the scoring loop of main for arrangement a: zero rotations
   * and an empty residue map are appended for it, its residues placed, and
   * its rotations optimised; the score is the optimised result divided by
   * the number of contact edges, and `result`, the optimised result, is a
   * score eval gave a's scene. The entries of earlier arrangements stay, and
   * the rotations left for a are whole degrees in [0, 359].
   */
  method ScoreArrangement(st: Mempack.State, opt: Paramopt.Optimiser, a: nat, edges: nat, fuel: nat)
    returns (score: real, ghost result: real)
    requires opt.world == st && Genetic.UnitDraws(opt.uni) && opt.besti < Genetic.PoolSize && 0 < edges
    requires st.Arrangements() && 2 * st.total == |st.boundaries| && a < |st.allHelixPositions|
    requires |st.allRotations| == a == |st.allResiduePositions|
    modifies st`allRotations, st`allResiduePositions, opt
    ensures |st.allResiduePositions| == a + 1 == |st.allRotations|
    ensures st.allRotations == old(st.allRotations) + [st.allRotations[a]]
    ensures WholeDegrees(st.allRotations[a], st.total) && opt.besti < Genetic.PoolSize
    ensures score == result / edges as real && result == opt.best && Optimised(SceneOf(st, a), result)
  {
    OpenArrangement(st, a);
    ghost var rotations := st.allRotations;
    var best, history, converged, last := opt.OptimiseParameters(st.total, a, fuel);
    assert st.allRotations == rotations[..a] + [st.allRotations[a]];
    assert opt.CurrentScene() == SceneOf(st, a);
    assert opt.minparam == seq(st.total, _ => Genetic.MinParam) && opt.maxparam == seq(st.total, _ => Genetic.MaxParam);
    result := best;
    score := best / edges as real;
  }

  /**
   * The scoring loop of main: for each arrangement a in turn, zero rotations
   * and an empty residue map are appended, its residues placed, and the
   * rotations optimised; the score, the optimised result divided by the
   * number of contact edges, maps to a, a later arrangement replacing an
   * earlier one with the same score. `scores` lists every arrangement's
   * score, and `results` the optimised result each score came from, one eval
   * gave that arrangement's scene; the rotations left for each are whole
   * degrees in [0, 359].
   */
  method ScoreArrangements(st: Mempack.State, opt: Paramopt.Optimiser, edges: nat, fuel: nat)
    returns (ranking: Ranking, ghost scores: seq<real>, ghost results: seq<real>)
    requires opt.world == st && Genetic.UnitDraws(opt.uni) && opt.besti < Genetic.PoolSize && 0 < edges
    requires st.Arrangements() && 2 * st.total == |st.boundaries|
    requires st.allRotations == [] && st.allResiduePositions == []
    modifies st`allRotations, st`allResiduePositions, opt
    ensures |scores| == |st.allHelixPositions| == |st.allRotations|
    ensures ranking == RankingOf(scores, |scores|)
    ensures forall a :: 0 <= a < |scores| ==> WholeDegrees(st.allRotations[a], st.total)
    ensures Achieves(Scenes(st), scores, results, edges)
  {
    ranking, scores, results := [], [], [];
    ghost var scenes := Scenes(st);
    var a := 0;
    while a < |st.allHelixPositions|
      invariant a <= |st.allHelixPositions| && st.Arrangements() && 2 * st.total == |st.boundaries|
      invariant opt.world == st && opt.besti < Genetic.PoolSize
      invariant |scores| == a == |st.allRotations| == |st.allResiduePositions|
      invariant ranking == RankingOf(scores, a)
      invariant AllWholeDegrees(st.allRotations, st.total)
      invariant Scenes(st) == scenes && Achieves(scenes, scores, results, edges)
    {
      ghost var result, rotations := 0.0, st.allRotations;
      var score;
      score, result := ScoreArrangement(st, opt, a, edges, fuel);
      WholeDegreesNext(rotations, st.allRotations[a], st.total);
      assert Scenes(st) == scenes;
      AchievesNext(scenes, scores, results, edges, score, result);
      ranking := Assign(ranking, score, a);
      RankingOfPrefix(scores, scores + [score], a);
      scores, results := scores + [score], results + [result];
      a := a + 1;
    }
  }

  /**
   * Arrangement a's score is results[a] over the number of contact edges,
   * and results[a] is a score eval gave a's scene, for each arrangement
   * scored so far; stated for the last one and, recursively, the ones
   * before it.
   */
  ghost predicate Achieves(scenes: seq<Paramopt.Scene>, scores: seq<real>, results: seq<real>, edges: nat)
    requires 0 < edges
    decreases |scores|
  {
    && |scores| == |results| <= |scenes|
    && (|scores| > 0 ==>
          var n := |scores| - 1;
          && Achieves(scenes, scores[..n], results[..n], edges)
          && scores[n] == results[n] / edges as real && Optimised(scenes[n], results[n]))
  }

  /** One more arrangement scored as Achieves asks keeps Achieves. */
  lemma AchievesNext(scenes: seq<Paramopt.Scene>, scores: seq<real>, results: seq<real>, edges: nat, score: real,
                     result: real)
    requires 0 < edges && Achieves(scenes, scores, results, edges) && |scores| < |scenes|
    requires score == result / edges as real && Optimised(scenes[|scores|], result)
    ensures Achieves(scenes, scores + [score], results + [result], edges)
  {
    assert (scores + [score])[..|scores|] == scores && (results + [result])[..|results|] == results;
  }

  /** Under Achieves, every arrangement's score is its result over the edge count, a score eval gave its scene. */
  lemma {:induction false} AchievesAt(scenes: seq<Paramopt.Scene>, scores: seq<real>, results: seq<real>, edges: nat,
                                      a: nat)
    requires 0 < edges && Achieves(scenes, scores, results, edges) && a < |scores|
    ensures a < |results| && a < |scenes|
    ensures scores[a] == results[a] / edges as real && Optimised(scenes[a], results[a])
    decreases |scores|
  {
    var n := |scores| - 1;
    if a < n {
      AchievesAt(scenes, scores[..n], results[..n], edges, a);
    }
  }

  /**
   * The scoring and reporting part of main: score every arrangement, then
   * print one row per entry of the scores map in ascending score order.
   */
  method RankArrangements(st: Mempack.State, opt: Paramopt.Optimiser, edges: nat, fuel: nat)
    returns (rows: seq<Row>, ghost scores: seq<real>, ghost results: seq<real>)
    requires opt.world == st && Genetic.UnitDraws(opt.uni) && opt.besti < Genetic.PoolSize && 0 < edges
    requires st.Arrangements() && 2 * st.total == |st.boundaries|
    requires st.allRotations == [] && st.allResiduePositions == []
    modifies st`allRotations, st`allResiduePositions, opt
    ensures |scores| == |st.allHelixPositions| == |st.allRotations|
    ensures Reports(rows, scores, st.allHelixPositions, st.allRotations)
    ensures forall k :: 0 <= k < |rows| ==> WholeDegrees(rows[k].rotations, st.total)
    ensures Achieves(Scenes(st), scores, results, edges)
  {
    var ranking;
    ranking, scores, results := ScoreArrangements(st, opt, edges, fuel);
    RankedReport(scores, st.allHelixPositions, st.allRotations);
    rows := Report(ranking, st.allHelixPositions, st.allRotations);
  }

  /**
   * main up to the scoring: read the classified lines, run the checks, place
   * the helices as `layout` arranges the helix count and the contact edges,
   * and, with more than four helices, search for alternative arrangements
   * from the first: the arrangements and marks are Search's from the
   * first arrangement, which never gains crossovers.
   */
  method Prepare(st: Mempack.State, lines: seq<Contacts.InputLine>, layout: (nat, seq<(int, int)>) -> seq<Point>)
    returns (v: Contacts.Result<nat>, h1: seq<int>, h2: seq<int>, edges: nat)
    requires st.allHelixPositions == [] && st.helixSwapsSeen == {} && st.boundaries == [] && st.residuesToHelices == []
    requires forall n, es :: |layout(n, es)| == n
    modifies st`residuesToHelices, st`boundaries, st`total, st`allHelixPositions, st`helixSwapsSeen
    ensures v == Contacts.Validate(|Contacts.Edges(lines)|, Contacts.BoundariesUpTo([], lines, |lines|))
    ensures edges == |h1| == |h2| && Contacts.Zip(h1, h2) == Contacts.Edges(lines)
    ensures v.Ok? ==> st.total == v.value && 2 * st.total == |st.boundaries| && st.Arrangements()
    ensures v.Ok? && st.total <= 4 ==> st.allHelixPositions == [layout(st.total, Contacts.Zip(h1, h2))]
    ensures v.Ok? && st.total > 4 ==>
      var first := [layout(st.total, Contacts.Zip(h1, h2))];
      && (st.allHelixPositions, st.helixSwapsSeen) == Mempack.Search(h1, h2, st.total, first, {}, 0, 0, 1)
      && Mempack.Improves(first, st.allHelixPositions, 0, st.total)
  {
    h1, h2, edges := st.ReadInput(lines);
    v := Contacts.Validate(edges, st.boundaries);
    if v.Ok? {
      st.total := v.value;
      st.allHelixPositions := [layout(st.total, Contacts.Zip(h1, h2))];
      if st.total > 4 {
        st.SwapHelices(h1, h2, 0);
      }
    }
  }

  /**
   * main for an input whose contact graph is a single component covering
   * every helix of the topology line, the one case in which main's helix
   * count is |boundaries| / 2: prepare
   * the arrangements, then optimise, rank and report them. `scores` lists
   * every arrangement's score and `results` the optimised result each came
   * from; h1 and h2 are the contact edges read, from which the swap search
   * worked.
   */
  method Run(st: Mempack.State, opt: Paramopt.Optimiser, lines: seq<Contacts.InputLine>,
             layout: (nat, seq<(int, int)>) -> seq<Point>, fuel: nat)
    returns (r: Contacts.Result<seq<Row>>, ghost scores: seq<real>, ghost results: seq<real>,
             ghost h1: seq<int>, ghost h2: seq<int>)
    requires opt.world == st && Genetic.UnitDraws(opt.uni) && opt.besti < Genetic.PoolSize
    requires st.allHelixPositions == [] && st.helixSwapsSeen == {} && st.boundaries == []
    requires st.allRotations == [] && st.residuesToHelices == [] && st.allResiduePositions == []
    requires forall n, es :: |layout(n, es)| == n
    modifies st, opt
    ensures var v := Contacts.Validate(|Contacts.Edges(lines)|, Contacts.BoundariesUpTo([], lines, |lines|));
      && (r.Err? <==> v.Err?)
      && (r.Err? ==> r.error == v.error)
      && (r.Ok? ==> st.total == v.value && st.Arrangements())
    ensures r.Ok? ==> && |scores| == |st.allHelixPositions| == |st.allRotations|
                      && Reports(r.value, scores, st.allHelixPositions, st.allRotations)
                      && (forall k :: 0 <= k < |r.value| ==> WholeDegrees(r.value[k].rotations, st.total))
                      && Achieves(Scenes(st), scores, results, |Contacts.Edges(lines)|)
    ensures |h1| == |h2| && Contacts.Zip(h1, h2) == Contacts.Edges(lines)
    ensures r.Ok? && st.total <= 4 ==> st.allHelixPositions == [layout(st.total, Contacts.Edges(lines))]
    ensures r.Ok? && st.total > 4 ==>
      var first := [layout(st.total, Contacts.Edges(lines))];
      && (st.allHelixPositions, st.helixSwapsSeen) == Mempack.Search(h1, h2, st.total, first, {}, 0, 0, 1)
      && Mempack.Improves(first, st.allHelixPositions, 0, st.total)
  {
    scores, results := [], [];
    var v, a1, a2, edges := Prepare(st, lines, layout);
    h1, h2 := a1, a2;
    if v.Err? {
      return Contacts.Err(v.error), scores, results, h1, h2;
    }
    var rows;
    rows, scores, results := RankArrangements(st, opt, edges, fuel);
    r := Contacts.Ok(rows);
  }
}
