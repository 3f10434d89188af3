/** The parameter optimiser that chooses helix rotations: the genetic
    search's global state and its passes, scoring genomes through eval,
    which stores a genome's rotations and runs optimise_rotation. */
module Paramopt {
  import opened Genetic
  import opened Geometry
  import Contacts
  import Mempack

  /** The parameter ranges readparams sets: n continuous parameters, each in [0, 359]. */
  predicate Ranges(lo: seq<real>, hi: seq<real>, n: nat) {
    |lo| == n && |hi| == n && forall j :: 0 <= j < n ==> lo[j] == MinParam && hi[j] == MaxParam
  }

  /** The best and worst score of one generation's new pool, after statistics. */
  datatype Generation = Generation(best: real, worst: real)

  /**
   * run_ga's (prevbest, prevgen) after the generations h, generation g being
   * h[g - 1]: a generation whose best is strictly below prevbest becomes the
   * record.
   */
  function Progress(h: seq<Generation>): (real, nat) {
    if h == [] then (VBig, 0)
    else
      var p := Progress(h[..|h| - 1]);
      if h[|h| - 1].best < p.0 then (h[|h| - 1].best, |h|) else p
  }

  /** run_ga's stopping test after the generations h. */
  predicate Converged(h: seq<Generation>)
    requires h != []
  {
    |h| - Progress(h).1 > Patience || h[|h| - 1].worst == h[|h| - 1].best
  }

  /**
   * prevbest is the lowest of VBig and every generation's best, and prevgen
   * the first generation that reached it (0 while none went below VBig).
   */
  lemma {:induction false} ProgressIsFirstMinimum(h: seq<Generation>)
    ensures var p := Progress(h);
      && p.0 <= VBig && p.1 <= |h|
      && (forall k :: 0 <= k < |h| ==> p.0 <= h[k].best)
      && (p.1 == 0 ==> p.0 == VBig)
      && (p.1 > 0 ==> h[p.1 - 1].best == p.0 && p.0 < VBig)
      && (forall k :: 0 <= k < p.1 - 1 ==> h[k].best > p.0)
  {
    if h != [] {
      var t := h[..|h| - 1];
      ProgressIsFirstMinimum(t);
      assert forall k :: 0 <= k < |t| ==> t[k] == h[k];
    }
  }

  /** The best score never rises from one generation to the next. */
  predicate Monotone(h: seq<Generation>) {
    forall k :: 0 < k < |h| ==> h[k].best <= h[k - 1].best
  }

  /** run_ga did not stop after any generation of h before the last. */
  predicate KeptRunning(h: seq<Generation>) {
    forall k :: 0 < k < |h| ==> !Converged(h[..k])
  }

  /**
   * run_ga's bookkeeping after the generations h: (prevbest, prevgen) is the
   * record, the bests never rose, run_ga did not stop before the last
   * generation, and (best, worst) are the last generation's scores.
   */
  predicate Log(h: seq<Generation>, prevbest: real, prevgen: nat, best: real, worst: real) {
    && (prevbest, prevgen) == Progress(h)
    && Monotone(h) && KeptRunning(h)
    && (h != [] ==> h[|h| - 1] == Generation(best, worst))
  }

  /**
   * Recording one more generation (b, w) after h, when run_ga did not stop
   * after h and b is no higher than the last best: the record moves to the
   * new generation exactly when b is strictly below it, the bookkeeping
   * holds again, and run_ga stops now exactly when the record is more than
   * Patience generations old or b equals w.
   */
  lemma {:induction false} RecordGeneration(h: seq<Generation>, prevbest: real, prevgen: nat, best: real, worst: real,
                                            b: real, w: real)
    requires Log(h, prevbest, prevgen, best, worst) && (h != [] ==> !Converged(h) && b <= best)
    ensures var h' := h + [Generation(b, w)];
      var (pb, pg) := if b < prevbest then (b, |h'|) else (prevbest, prevgen);
      && Log(h', pb, pg, b, w)
      && (Converged(h') <==> |h'| - pg > Patience || w == b)
  {
    var h' := h + [Generation(b, w)];
    assert h'[..|h|] == h;
    forall k | 0 < k < |h'|
      ensures !Converged(h'[..k])
    {
      assert h'[..k] == h[..k];
    }
  }

  /**
   * What eval's score depends on besides the genome: cos/sin and sqrt, the
   * helix positions of the arrangement, the boundaries, the helix count and
   * the residue contacts.
   */
  datatype Scene = Scene(direction: real -> Point, distance: (Point, Point) -> real, positions: seq<Point>,
                         boundaries: seq<int>, total: nat, contacts: seq<Contacts.ResidueContact>)

  predicate Placeable(sc: Scene) {
    sc.total <= |sc.positions| && 2 * sc.total <= |sc.boundaries|
  }

  /** What eval returns for `genome` when the arrangement's residue map was m: optimise_rotation at the genome's rotations. */
  function SceneScore(sc: Scene, genome: seq<real>, m: map<int, Point>): real
    requires Placeable(sc) && sc.total <= |genome|
  {
    Mempack.ContactDistance(sc.distance, Mempack.PlaceAll(sc.direction, m, sc.positions, Rotations(genome), sc.boundaries,
                                                           sc.total), sc.contacts)
  }

  /**
   * v is what eval returns for the genome: the arrangement's residue map
   * only ever holds residues that placing the helices overwrites, so the
   * score is that of the genome's own rotations placed from scratch.
   */
  predicate ScoreOf(sc: Scene, genome: seq<real>, v: real) {
    Placeable(sc) && sc.total <= |genome| && v == SceneScore(sc, genome, map[])
  }

  /**
   * Schema t is s after statistics: unflagged, with the same genome and
   * weight; a flagged s got the score of its genome, an unflagged one kept
   * its score.
   */
  ghost predicate Scored(sc: Scene, s: Schema, t: Schema) {
    && t == s.(perfval := t.perfval, evalflg := false)
    && (!s.evalflg ==> t.perfval == s.perfval)
    && (s.evalflg ==> ScoreOf(sc, s.genome, t.perfval))
  }

  /** The first k schemata of `after` are those of `before` scored; the rest are untouched. */
  ghost predicate ScoredUpTo(sc: Scene, before: seq<Schema>, after: seq<Schema>, k: nat) {
    && |after| == |before| && k <= |before|
    && (forall i :: 0 <= i < k ==> Scored(sc, before[i], after[i]))
    && (forall i :: k <= i < |before| ==> after[i] == before[i])
  }

  /** v is at most every score given to a flagged schema among the first k. */
  ghost predicate BelowScores(v: real, before: seq<Schema>, after: seq<Schema>, k: nat)
    requires k <= |before| == |after|
  {
    forall i :: 0 <= i < k && before[i].evalflg ==> v <= after[i].perfval
  }

  /** Scoring schema k extends ScoredUpTo and BelowScores by one. */
  lemma ScoredStep(sc: Scene, before: seq<Schema>, mid: seq<Schema>, after: seq<Schema>, k: nat, v0: real, v1: real)
    requires ScoredUpTo(sc, before, mid, k) && k < |before| && BelowScores(v0, before, mid, k)
    requires k < |after| && after == mid[k := after[k]] && Scored(sc, mid[k], after[k])
    requires v1 <= v0 && (mid[k].evalflg ==> v1 <= after[k].perfval)
    ensures ScoredUpTo(sc, before, after, k + 1) && BelowScores(v1, before, after, k + 1)
  {
  }

  /** after is before with at most the entry at index r replaced. */
  predicate OnlyAt<T(==)>(before: seq<T>, after: seq<T>, r: nat) {
    r < |before| == |after| && forall k :: 0 <= k < |before| && k != r ==> after[k] == before[k]
  }

  lemma OnlyAtTransitive<T>(a: seq<T>, b: seq<T>, c: seq<T>, r: nat)
    requires OnlyAt(a, b, r) && OnlyAt(b, c, r)
    ensures OnlyAt(a, c, r)
  {
  }

  /**
   * Every unflagged schema of the pool holds a score eval returned for its
   * genome: the scores run_ga ranks, keeps and reports are evaluations.
   */
  ghost predicate Sound(sc: Scene, pool: seq<Schema>) {
    forall i {:trigger ScoreOf(sc, pool[i].genome, pool[i].perfval)} ::
      0 <= i < |pool| && !pool[i].evalflg ==> ScoreOf(sc, pool[i].genome, pool[i].perfval)
  }

  /** No schema of the pool waits to be scored. */
  predicate Settled(pool: seq<Schema>) {
    forall i :: 0 <= i < |pool| ==> !pool[i].evalflg
  }

  /** eval returned v for some genome in the parameter ranges. */
  ghost predicate Achieved(sc: Scene, v: real, lo: seq<real>, hi: seq<real>) {
    exists g :: InRange(g, lo, hi) && ScoreOf(sc, g, v)
  }

  /** statistics leaves a sound pool sound, with nothing left flagged. */
  lemma ScoredSound(sc: Scene, before: seq<Schema>, after: seq<Schema>)
    requires ScoredUpTo(sc, before, after, |before|) && Sound(sc, before)
    ensures Sound(sc, after) && Settled(after)
  {
    forall i | 0 <= i < |after|
      ensures !after[i].evalflg && ScoreOf(sc, after[i].genome, after[i].perfval)
    {
      assert Scored(sc, before[i], after[i]);
    }
  }

  /** A reordering of a sound, settled pool is sound and settled. */
  lemma PermutedSound(sc: Scene, before: seq<Schema>, sorted: seq<Schema>)
    requires multiset(sorted) == multiset(before) && Sound(sc, before) && Settled(before)
    ensures Sound(sc, sorted) && Settled(sorted)
  {
    forall i | 0 <= i < |sorted|
      ensures !sorted[i].evalflg && ScoreOf(sc, sorted[i].genome, sorted[i].perfval)
    {
      assert sorted[i] in multiset(sorted);
      var m :| 0 <= m < |before| && before[m] == sorted[i];
    }
  }

  /**
   * gaselect on a sound, settled current pool fills the new pool, unflagged,
   * with genomes and scores that belong together.
   */
  lemma SelectionSound(sc: Scene, before: seq<Schema>, sorted: seq<Schema>, ranked: seq<Schema>, best: real,
                       besti: nat, besti': nat, fitsum: real, samples: seq<int>, uni: nat -> real, u: nat,
                       prior: seq<Schema>, after: seq<Schema>)
    requires Selection(before, sorted, ranked, best, besti, besti', fitsum, samples, uni, u, prior, after)
    requires Sound(sc, before) && Settled(before)
    ensures Sound(sc, after) && Settled(after)
  {
    PermutedSound(sc, before, sorted);
    forall i | 0 <= i < |after|
      ensures !after[i].evalflg && ScoreOf(sc, after[i].genome, after[i].perfval)
    {
      var k := if i == besti' then besti' else samples[i];
      assert after[i] == Copy(ranked[k], prior[i]);
      assert ranked[k].genome == sorted[k].genome && ranked[k].perfval == sorted[k].perfval;
    }
  }

  /** crossovr flags every schema whose genome it changes, so a sound pool stays sound. */
  lemma CrossSound(sc: Scene, pool: seq<Schema>, u: nat, besti: nat, crosrate: real, uni: nat -> real, q: nat)
    requires q <= |pool| / 2 && Sound(sc, pool)
    ensures Sound(sc, CrossUpTo(pool, u, besti, crosrate, uni, q).pool)
  {
    var r := CrossUpTo(pool, u, besti, crosrate, uni, q).pool;
    forall k | 0 <= k < |r| && !r[k].evalflg
      ensures ScoreOf(sc, r[k].genome, r[k].perfval)
    {
      CrossUpToFlags(pool, u, besti, crosrate, uni, q, k);
    }
  }

  /** mutate flags every schema whose genome it changes, so a sound pool stays sound. */
  lemma MutateSound(sc: Scene, pool: seq<Schema>, besti: nat, lo: seq<real>, hi: seq<real>, prob: real, scale: real,
                    uni: nat -> real, gauss: nat -> real, u: nat, g: nat)
    requires |lo| == |hi| && Sound(sc, pool)
    ensures Sound(sc, MutatePool(pool, besti, lo, hi, prob, scale, uni, gauss, u, g).pool)
  {
    MutatePoolFacts(pool, besti, lo, hi, prob, scale, uni, gauss, u, g);
  }

  /**
   * In a sound, settled, in-range pool the lowest and the highest score are
   * each what eval returned for one of its genomes.
   */
  lemma BestAchieved(sc: Scene, pool: seq<Schema>, lo: seq<real>, hi: seq<real>)
    requires 0 < |pool| && Sound(sc, pool) && Settled(pool) && PoolInRange(pool, lo, hi)
    ensures Achieved(sc, MinPerf(pool, |pool|), lo, hi) && Achieved(sc, MaxPerf(pool, |pool|), lo, hi)
  {
    PerfBounds(pool, |pool|);
    var i :| 0 <= i < |pool| && pool[i].perfval == MinPerf(pool, |pool|);
    var j :| 0 <= j < |pool| && pool[j].perfval == MaxPerf(pool, |pool|);
    assert InRange(pool[i].genome, lo, hi) && InRange(pool[j].genome, lo, hi);
  }

  /**
   * crossovr then mutate(prob), over pool contents: from `pool` and the
   * cursors u and g, crossovr leaves `crossed`, and mutate then leaves
   * `mutated`, its pool and both cursors.
   */
  ghost predicate Varies(pool: seq<Schema>, u: nat, g: nat, besti: nat, crosrate: real, prob: real, scale: real,
                         lo: seq<real>, hi: seq<real>, uni: nat -> real, gauss: nat -> real,
                         crossed: Crossing, mutated: Mutating)
  {
    && |lo| == |hi|
    && crossed == CrossUpTo(pool, u, besti, crosrate, uni, |pool| / 2)
    && mutated == MutatePool(crossed.pool, besti, lo, hi, prob, scale, uni, gauss, crossed.u, g)
  }

  /**
   * The pools and cursors one breeding pass goes through: gaselect's sorted
   * and ranked current pool, elite, total weight and samples, the new pool
   * it fills and the uniform cursor after it; then crossovr's and mutate's
   * results.
   */
  datatype Breeding = Breeding(sorted: seq<Schema>, ranked: seq<Schema>, elite: nat, fitsum: real, samples: seq<int>,
                               selected: seq<Schema>, cursor: nat, crossed: Crossing, mutated: Mutating)

  /**
   * b is gaselect, crossovr and mutate(prob) run in turn, each on what the
   * one before left, from the current pool `before`, the new pool `prior`,
   * best, elite besti and cursors u and g.
   */
  ghost predicate Bred(before: seq<Schema>, prior: seq<Schema>, best: real, besti: nat, u: nat, g: nat,
                       crosrate: real, prob: real, scale: real, lo: seq<real>, hi: seq<real>,
                       uni: nat -> real, gauss: nat -> real, b: Breeding)
  {
    && Selection(before, b.sorted, b.ranked, best, besti, b.elite, b.fitsum, b.samples, uni, u, prior, b.selected)
    && b.cursor == u + |before|
    && Varies(b.selected, b.cursor, g, b.elite, crosrate, prob, scale, lo, hi, uni, gauss, b.crossed, b.mutated)
  }

  /**
   * A breeding pass from a sound, settled current pool whose lowest score is
   * best leaves the elite slot holding best, unflagged, and every unflagged
   * schema of the new pool holding its genome's score.
   */
  lemma BredSound(sc: Scene, before: seq<Schema>, prior: seq<Schema>, best: real, besti: nat, u: nat, g: nat,
                  crosrate: real, prob: real, scale: real, lo: seq<real>, hi: seq<real>,
                  uni: nat -> real, gauss: nat -> real, b: Breeding)
    requires Bred(before, prior, best, besti, u, g, crosrate, prob, scale, lo, hi, uni, gauss, b)
    requires 0 < |before| && best == MinPerf(before, |before|) && Sound(sc, before) && Settled(before)
    ensures b.elite < |b.mutated.pool| && b.mutated.pool[b.elite].perfval == best && !b.mutated.pool[b.elite].evalflg
    ensures Sound(sc, b.mutated.pool)
  {
    SelectionKeepsElite(before, b.sorted, b.ranked, best, besti, b.elite, b.fitsum, b.samples, uni, u, prior, b.selected);
    SelectionSound(sc, before, b.sorted, b.ranked, best, besti, b.elite, b.fitsum, b.samples, uni, u, prior, b.selected);
    CrossUpToKeepsElite(b.selected, b.cursor, b.elite, crosrate, uni, |b.selected| / 2);
    CrossSound(sc, b.selected, b.cursor, b.elite, crosrate, uni, |b.selected| / 2);
    MutatePoolFacts(b.crossed.pool, b.elite, lo, hi, prob, scale, uni, gauss, b.crossed.u, g);
    MutateSound(sc, b.crossed.pool, b.elite, lo, hi, prob, scale, uni, gauss, b.crossed.u, g);
  }

  /**
   * The globals of paramopt.c together with the arrangement state they
   * score against. The uniform and normal random streams are inputs, read
   * at the cursors uniAt and gaussAt.
   */
  class Optimiser {
    /** The arrangements, boundaries, contacts and rotations eval scores against. */
    const world: Mempack.State
    /** uni64: draws in [0, 1). */
    const uni: nat -> real
    /** gaussrnd: normal draws. */
    const gauss: nat -> real
    var uniAt: nat
    var gaussAt: nat

    var curpool: array<Schema>
    var newpool: array<Schema>
    var samparr: array<int>
    var poolsize: nat
    var genlen: nat
    var mutrate: real
    var crosrate: real
    var mutscfac: real
    var minparam: seq<real>
    var maxparam: seq<real>
    /** The elite: the last sorted position holding the best score. */
    var besti: nat
    /** The arrangement whose rotations are being searched. */
    var rotation: nat
    var best: real
    var worst: real
    var avcPerf: real
    /** The lowest score eval has returned since optimise_parameters last began. */
    var vbest: real
    var ncalls: nat
    /** mutate's static scale: multiplied by mutscfac after every mutate and never reset. */
    var scale: real
    /** The genome eval last stored the rotations of. */
    ghost var lastGenome: seq<real>

    /** The program's start: empty pools, zero counters, vbest = VBIG, besti = 0, scale = 0.25. */
    constructor (world: Mempack.State, uni: nat -> real, gauss: nat -> real)
      ensures this.world == world && this.uni == uni && this.gauss == gauss
      ensures uniAt == 0 && gaussAt == 0 && poolsize == 0 && genlen == 0 && besti == 0 && rotation == 0
      ensures vbest == VBig && ncalls == 0 && scale == InitialScale
      ensures curpool.Length == 0 && newpool.Length == 0 && samparr.Length == 0
    {
      this.world := world;
      this.uni := uni;
      this.gauss := gauss;
      uniAt, gaussAt := 0, 0;
      curpool := new Schema[0];
      newpool := new Schema[0];
      samparr := new int[0];
      poolsize, genlen := 0, 0;
      mutrate, crosrate, mutscfac := 0.0, 0.0, 0.0;
      minparam, maxparam := [], [];
      besti, rotation := 0, 0;
      best, worst, avcPerf := 0.0, 0.0, 0.0;
      vbest, ncalls := VBig, 0;
      scale := InitialScale;
      lastGenome := [];
    }

    /**
     * Between ga_init and the end of run_ga: two distinct pools of poolsize
     * genomes, one in-range gene per helix, and an arrangement eval can score.
     */
    ghost predicate Valid()
      reads this`curpool, this`newpool, this`samparr, this`poolsize, this`besti, this`genlen
      reads this`minparam, this`maxparam, this`rotation, curpool, newpool
      reads world`allHelixPositions, world`boundaries, world`total, world`allRotations, world`allResiduePositions
    {
      && curpool != newpool
      && 0 < poolsize && curpool.Length == poolsize && newpool.Length == poolsize && samparr.Length == poolsize
      && besti < poolsize
      && genlen == world.total && Ranges(minparam, maxparam, genlen)
      && PoolInRange(curpool[..], minparam, maxparam) && PoolInRange(newpool[..], minparam, maxparam)
      && world.Scorable(rotation)
    }

    /** The scene of the arrangement being searched. */
    ghost function CurrentScene(): Scene
      reads this`rotation, world`allHelixPositions, world`boundaries, world`total, world`residuesToHelices
      requires rotation < |world.allHelixPositions|
    {
      Scene(world.direction, world.distance, world.allHelixPositions[rotation], world.boundaries, world.total,
            world.residuesToHelices)
    }

    /**
     * The rotations eval last stored for the arrangement: those of the last
     * genome it scored, an in-range one, so one whole degree in [0, 359] per
     * helix.
     */
    ghost predicate RotationsStored()
      reads this`rotation, this`lastGenome, this`minparam, this`maxparam, world`allRotations, world`total
    {
      && rotation < |world.allRotations| && |world.allRotations[rotation]| == world.total
      && (forall j :: 0 <= j < world.total ==> 0 <= world.allRotations[rotation][j] <= 359)
      && InRange(lastGenome, minparam, maxparam) && world.allRotations[rotation] == Rotations(lastGenome)
    }

    /**
     * best and worst are the lowest and highest score of `pool`, every
     * schema of which is scored, with what eval returned for its genome.
     */
    ghost predicate Summarizes(pool: array<Schema>)
      reads this`poolsize, this`rotation, this`best, this`worst, pool
      reads world`allHelixPositions, world`boundaries, world`total, world`residuesToHelices
    {
      && 0 < poolsize == pool.Length && rotation < |world.allHelixPositions|
      && best == MinPerf(pool[..], poolsize) && worst == MaxPerf(pool[..], poolsize)
      && Sound(CurrentScene(), pool[..]) && Settled(pool[..])
    }

    /** Scoring changed the rotations and residue positions of the searched arrangement only. */
    ghost predicate OnlyCurrent(rotations: seq<seq<int>>, residues: seq<map<int, Point>>)
      reads this`rotation, world`allRotations, world`allResiduePositions
    {
      OnlyAt(rotations, world.allRotations, rotation) && OnlyAt(residues, world.allResiduePositions, rotation)
    }

    /** readparams(helices): one parameter per helix, in [0, 359], and the fixed search settings. */
    method ReadParams(helices: nat)
      modifies this`genlen, this`poolsize, this`mutrate, this`crosrate, this`mutscfac, this`minparam, this`maxparam
      ensures genlen == helices && poolsize == PoolSize
      ensures mutrate == MutRate && crosrate == CrosRate && mutscfac == MutScFac
      ensures Ranges(minparam, maxparam, helices)
    {
      genlen, poolsize := helices, PoolSize;
      mutrate, crosrate, mutscfac := MutRate, CrosRate, MutScFac;
      var lo, hi := [], [];
      var i := 0;
      while i < helices
        invariant i <= helices && Ranges(lo, hi, i)
      {
        lo, hi := lo + [MinParam], hi + [MaxParam];
        i := i + 1;
      }
      minparam, maxparam := lo, hi;
    }

    /**
     * ga_init: fresh pools; schema i of the current pool gets the genome
     * drawn at cursor uniAt + i * genlen and is flagged, the new pool is zero.
     */
    method GaInit()
      requires UnitDraws(uni) && 0 < poolsize && besti < poolsize
      requires genlen == world.total && Ranges(minparam, maxparam, genlen) && world.Scorable(rotation)
      modifies this`curpool, this`newpool, this`samparr, this`uniAt
      ensures Valid() && fresh(curpool) && fresh(newpool) && fresh(samparr)
      ensures uniAt == old(uniAt) + poolsize * genlen
      ensures InitialPool(curpool[..], uni, old(uniAt), minparam, maxparam)
      ensures forall i :: 0 <= i < poolsize ==> newpool[i] == Blank(genlen)
      ensures FlaggedCount(curpool[..], poolsize) > 0
    {
      var cur, next, u := NewPools(poolsize, uni, uniAt, minparam, maxparam);
      var samples := new int[poolsize](_ => 0);
      curpool, newpool, samparr, uniAt := cur, next, samples, u;
    }

    /**
     * eval(genome): store the genome's truncated genes as the arrangement's
     * rotations, run optimise_rotation on it, count the call and keep vbest.
     */
    method Eval(genome: seq<real>) returns (v: real)
      requires world.Scorable(rotation) && |genome| == world.total
      modifies world`allRotations, world`allResiduePositions, this`ncalls, this`vbest, this`lastGenome
      ensures world.Scorable(rotation) && lastGenome == genome
      ensures world.allRotations == old(world.allRotations)[rotation := Rotations(genome)]
      ensures world.allResiduePositions == old(world.allResiduePositions)[rotation := Mempack.PlaceAll(world.direction,
        old(world.allResiduePositions[rotation]), world.allHelixPositions[rotation], Rotations(genome),
        world.boundaries, world.total)]
      ensures v == SceneScore(CurrentScene(), genome, old(world.allResiduePositions[rotation]))
      ensures v == SceneScore(CurrentScene(), genome, map[])
      ensures ncalls == old(ncalls) + 1
      ensures vbest == if v < old(vbest) then v else old(vbest)
      ensures OnlyCurrent(old(world.allRotations), old(world.allResiduePositions))
    {
      var rotations := TruncateGenome(genome);
      world.allRotations := world.allRotations[rotation := rotations];
      lastGenome := genome;
      Mempack.PlaceAllOverwrites(world.direction, world.allResiduePositions[rotation], world.allHelixPositions[rotation],
                                 rotations, world.boundaries, world.total);
      v := world.OptimiseRotation(rotation);
      ncalls := ncalls + 1;
      if v < vbest {
        vbest := v;
      }
    }

    /** The body of statistics' first loop for schema i: a flagged schema is scored by eval and unflagged. */
    method ScoreSchema(pool: array<Schema>, i: nat)
      requires i < pool.Length && world.Scorable(rotation) && Ranges(minparam, maxparam, world.total)
      requires InRange(pool[i].genome, minparam, maxparam)
      modifies pool, this`ncalls, this`vbest, this`lastGenome, world`allRotations, world`allResiduePositions
      ensures world.Scorable(rotation)
      ensures pool[..] == old(pool[..])[i := pool[i]] && Scored(CurrentScene(), old(pool[i]), pool[i])
      ensures ncalls == old(ncalls) + (if old(pool[i].evalflg) then 1 else 0)
      ensures vbest <= old(vbest) && (old(pool[i].evalflg) ==> vbest <= pool[i].perfval)
      ensures old(RotationsStored()) || old(pool[i].evalflg) ==> RotationsStored()
      ensures OnlyCurrent(old(world.allRotations), old(world.allResiduePositions))
    {
      if pool[i].evalflg {
        var genome := pool[i].genome;
        var v := Eval(genome);
        RotationsInRange(genome, minparam, maxparam);
        pool[i] := pool[i].(perfval := v, evalflg := false);
      }
    }

    /** The first loop of statistics: every flagged schema of the pool is scored by eval and unflagged. */
    method ScoreAll(pool: array<Schema>)
      requires world.Scorable(rotation) && Ranges(minparam, maxparam, world.total)
      requires PoolInRange(pool[..], minparam, maxparam)
      modifies pool, this`ncalls, this`vbest, this`lastGenome, world`allRotations, world`allResiduePositions
      ensures world.Scorable(rotation)
      ensures ScoredUpTo(CurrentScene(), old(pool[..]), pool[..], pool.Length)
      ensures ncalls == old(ncalls) + FlaggedCount(old(pool[..]), pool.Length)
      ensures vbest <= old(vbest) && BelowScores(vbest, old(pool[..]), pool[..], pool.Length)
      ensures old(RotationsStored()) || FlaggedCount(old(pool[..]), pool.Length) > 0 ==> RotationsStored()
      ensures OnlyCurrent(old(world.allRotations), old(world.allResiduePositions))
    {
      ghost var before := pool[..];
      ghost var sc := CurrentScene();
      var i := 0;
      while i < pool.Length
        invariant i <= pool.Length && world.Scorable(rotation) && CurrentScene() == sc
        invariant ScoredUpTo(sc, before, pool[..], i)
        invariant ncalls == old(ncalls) + FlaggedCount(before, i)
        invariant vbest <= old(vbest) && BelowScores(vbest, before, pool[..], i)
        invariant old(RotationsStored()) || FlaggedCount(before, i) > 0 ==> RotationsStored()
        invariant OnlyCurrent(old(world.allRotations), old(world.allResiduePositions))
      {
        ghost var mid, v0 := pool[..], vbest;
        ghost var rotations, residues := world.allRotations, world.allResiduePositions;
        ScoreSchema(pool, i);
        OnlyAtTransitive(old(world.allRotations), rotations, world.allRotations, rotation);
        OnlyAtTransitive(old(world.allResiduePositions), residues, world.allResiduePositions, rotation);
        ScoredStep(sc, before, mid, pool[..], i, v0, vbest);
        i := i + 1;
      }
    }

    /**
     * statistics(pool): score every flagged schema through eval and unflag
     * it, then record the lowest, highest and mean score of the pool.
     */
    method Statistics(pool: array<Schema>)
      requires 0 < pool.Length == poolsize && world.Scorable(rotation) && Ranges(minparam, maxparam, world.total)
      requires PoolInRange(pool[..], minparam, maxparam)
      modifies pool, this`ncalls, this`vbest, this`lastGenome, this`best, this`worst, this`avcPerf
      modifies world`allRotations, world`allResiduePositions
      ensures world.Scorable(rotation) && PoolInRange(pool[..], minparam, maxparam)
      ensures ScoredUpTo(CurrentScene(), old(pool[..]), pool[..], poolsize)
      ensures ncalls == old(ncalls) + FlaggedCount(old(pool[..]), poolsize)
      ensures vbest <= old(vbest) && BelowScores(vbest, old(pool[..]), pool[..], poolsize)
      ensures old(RotationsStored()) || FlaggedCount(old(pool[..]), poolsize) > 0 ==> RotationsStored()
      ensures best == MinPerf(pool[..], poolsize) && worst == MaxPerf(pool[..], poolsize)
      ensures avcPerf == SumPerf(pool[..], poolsize) / poolsize as real
      ensures OnlyCurrent(old(world.allRotations), old(world.allResiduePositions))
    {
      ghost var before := pool[..];
      ScoreAll(pool);
      assert PoolInRange(pool[..], minparam, maxparam) by {
        forall k | 0 <= k < poolsize
          ensures pool[k].genome == before[k].genome
        {
        }
      }
      var b, w, sum := Summarize(pool);
      best, worst, avcPerf := b, w, sum / poolsize as real;
    }

    /** The start of run_ga: statistics on the current pool, scoring what is flagged and recording its best and worst. */
    method ScoreCurrent()
      requires Valid() && Sound(CurrentScene(), curpool[..]) && (RotationsStored() || FlaggedCount(curpool[..], poolsize) > 0)
      modifies curpool, this`ncalls, this`vbest, this`lastGenome, this`best, this`worst, this`avcPerf
      modifies world`allRotations, world`allResiduePositions
      ensures Valid() && RotationsStored() && Summarizes(curpool)
      ensures ScoredUpTo(CurrentScene(), old(curpool[..]), curpool[..], poolsize)
      ensures OnlyCurrent(old(world.allRotations), old(world.allResiduePositions))
    {
      ghost var next := newpool[..];
      Statistics(curpool);
      assert newpool[..] == next;
      ScoredSound(CurrentScene(), old(curpool[..]), curpool[..]);
    }

    /**
     * statistics on the new pool within a generation: its best and worst are
     * recorded, and the elite, when unflagged, keeps its score.
     */
    method ScoreNew()
      requires Valid() && Sound(CurrentScene(), newpool[..])
      modifies newpool, this`ncalls, this`vbest, this`lastGenome, this`best, this`worst, this`avcPerf
      modifies world`allRotations, world`allResiduePositions
      ensures Valid() && Summarizes(newpool)
      ensures ScoredUpTo(CurrentScene(), old(newpool[..]), newpool[..], poolsize)
      ensures !old(newpool[besti].evalflg) ==> newpool[besti].perfval == old(newpool[besti].perfval) && best <= old(newpool[besti].perfval)
      ensures old(RotationsStored()) ==> RotationsStored()
      ensures OnlyCurrent(old(world.allRotations), old(world.allResiduePositions))
      ensures curpool[..] == old(curpool[..]) && samparr[..] == old(samparr[..])
    {
      ghost var cur, elite := curpool[..], newpool[besti];
      Statistics(newpool);
      assert curpool[..] == cur;
      assert Scored(CurrentScene(), elite, newpool[besti]);
      ScoredSound(CurrentScene(), old(newpool[..]), newpool[..]);
      PerfBounds(newpool[..], poolsize);
    }

    /**
     * gaselect: sort the current pool, give rank i the weight poolsize - i,
     * find the elite, spin the wheel poolsize times, and copy the selected
     * schemata, and the elite at its own index, into the new pool.
     * `sorted` is the current pool right after sorting.
     */
    method GaSelect() returns (ghost sorted: seq<Schema>, ghost fitsum: real)
      requires Valid()
      modifies curpool, newpool, samparr, this`besti, this`uniAt
      ensures Valid()
      ensures uniAt == old(uniAt) + poolsize
      ensures Selection(old(curpool[..]), sorted, curpool[..], best, old(besti), besti, fitsum, samparr[..], uni,
                        old(uniAt), old(newpool[..]), newpool[..])
    {
      ghost var before, prior := curpool[..], newpool[..];
      var bi;
      sorted, fitsum, bi := Select(curpool, newpool, samparr, best, besti, uni, uniAt);
      SelectionInRange(before, sorted, curpool[..], best, besti, bi, fitsum, samparr[..], uni, uniAt,
                       prior, newpool[..], minparam, maxparam);
      besti, uniAt := bi, uniAt + poolsize;
    }

    /**
     * crossovr on the new pool, drawing from the uniform stream; the elite
     * is never crossed, and a schema whose genome changes is flagged.
     */
    method Crossovr()
      requires Valid()
      modifies newpool, this`uniAt
      ensures Valid()
      ensures Crossing(newpool[..], uniAt) == CrossUpTo(old(newpool[..]), old(uniAt), besti, crosrate, uni, poolsize / 2)
      ensures newpool[besti] == old(newpool[besti])
    {
      assert Genomes(newpool[..], genlen);
      uniAt := Crossover(newpool, besti, crosrate, uni, genlen, uniAt);
      CrossoverKeepsRange(old(newpool[..]), old(uniAt), besti, crosrate, uni, minparam, maxparam);
      CrossUpToKeepsElite(old(newpool[..]), old(uniAt), besti, crosrate, uni, poolsize / 2);
    }

    /**
     * mutate(prob) on the new pool at the current scale, which then shrinks
     * by mutscfac; the elite is never mutated, and a schema whose genome
     * changes is flagged.
     */
    method Mutate(prob: real)
      requires Valid()
      modifies newpool, this`uniAt, this`gaussAt, this`scale
      ensures Valid()
      ensures Mutating(newpool[..], uniAt, gaussAt) ==
        MutatePool(old(newpool[..]), besti, minparam, maxparam, prob, old(scale), uni, gauss, old(uniAt), old(gaussAt))
      ensures newpool[besti] == old(newpool[besti])
      ensures scale == old(scale) * mutscfac
    {
      assert Genomes(newpool[..], genlen);
      uniAt, gaussAt := Genetic.Mutate(newpool, besti, minparam, maxparam, prob, scale, uni, gauss, uniAt, gaussAt);
      MutatePoolFacts(old(newpool[..]), besti, minparam, maxparam, prob, old(scale), uni, gauss, old(uniAt), old(gaussAt));
      scale := scale * mutscfac;
    }

    /**
     * crossovr and then mutate(mutrate) on the new pool; `crossed` is the
     * new pool and uniform cursor between the two; the scale shrinks by
     * mutscfac.
     */
    method Vary() returns (ghost crossed: Crossing)
      requires Valid()
      modifies newpool, this`uniAt, this`gaussAt, this`scale
      ensures Valid()
      ensures Varies(old(newpool[..]), old(uniAt), old(gaussAt), besti, crosrate, mutrate, old(scale), minparam, maxparam,
                     uni, gauss, crossed, Mutating(newpool[..], uniAt, gaussAt))
      ensures scale == old(scale) * mutscfac
    {
      Crossovr();
      crossed := Crossing(newpool[..], uniAt);
      Mutate(mutrate);
    }

    /**
     * The breeding half of a generation: gaselect, crossovr and
     * mutate(mutrate), each working on what the one before left, with `b`
     * recording the pools and cursors in between; the current pool, samparr,
     * besti, the new pool and the cursors end as `b` says. BredSound says
     * what such a pass keeps.
     */
    method Reproduce() returns (ghost b: Breeding)
      requires Valid()
      modifies curpool, newpool, samparr, this`besti, this`uniAt, this`gaussAt, this`scale
      ensures Valid()
      ensures Bred(old(curpool[..]), old(newpool[..]), old(best), old(besti), old(uniAt), old(gaussAt), old(crosrate),
                   old(mutrate), old(scale), old(minparam), old(maxparam), uni, gauss, b)
      ensures curpool[..] == b.ranked && samparr[..] == b.samples && besti == b.elite
      ensures Mutating(newpool[..], uniAt, gaussAt) == b.mutated
      ensures RotationsStored() == old(RotationsStored())
    {
      ghost var sorted, fitsum := GaSelect();
      ghost var ranked, samples, elite, selected, cursor := curpool[..], samparr[..], besti, newpool[..], uniAt;
      assert cursor == old(uniAt) + |old(curpool[..])|;
      ghost var crossed := Vary();
      assert Varies(selected, cursor, old(gaussAt), elite, old(crosrate), old(mutrate), old(scale), old(minparam),
                    old(maxparam), uni, gauss, crossed, Mutating(newpool[..], uniAt, gaussAt));
      b := Breeding(sorted, ranked, elite, fitsum, samples, selected, cursor, crossed, Mutating(newpool[..], uniAt, gaussAt));
    }

    /**
     * One generation of run_ga: gaselect, crossovr, mutate(mutrate) and
     * statistics on the new pool, each on what the one before left;
     * statistics scores b.mutated.pool, the new pool mutate left. The elite reaches the
     * new pool unflagged and unchanged, so the best score never rises, and
     * best and worst then summarize the new pool.
     */
    method Breed() returns (ghost b: Breeding)
      requires Valid() && Summarizes(curpool)
      modifies curpool, newpool, samparr, this`besti, this`uniAt, this`gaussAt, this`scale
      modifies this`ncalls, this`vbest, this`lastGenome, this`best, this`worst, this`avcPerf
      modifies world`allRotations, world`allResiduePositions
      ensures Valid() && Summarizes(newpool)
      ensures Bred(old(curpool[..]), old(newpool[..]), old(best), old(besti), old(uniAt), old(gaussAt), old(crosrate),
                   old(mutrate), old(scale), old(minparam), old(maxparam), uni, gauss, b)
      ensures curpool[..] == b.ranked && samparr[..] == b.samples && besti == b.elite
      ensures uniAt == b.mutated.u && gaussAt == b.mutated.g
      ensures ScoredUpTo(CurrentScene(), b.mutated.pool, newpool[..], poolsize)
      ensures best <= old(best)
      ensures old(RotationsStored()) ==> RotationsStored()
      ensures OnlyCurrent(old(world.allRotations), old(world.allResiduePositions))
    {
      b := Reproduce();
      BredSound(CurrentScene(), old(curpool[..]), old(newpool[..]), old(best), old(besti), old(uniAt), old(gaussAt),
                old(crosrate), old(mutrate), old(scale), old(minparam), old(maxparam), uni, gauss, b);
      ScoreNew();
    }

    /** The end of a generation in run_ga: the new pool becomes the current one and the old current pool is reused. */
    method SwapPools()
      requires Valid() && Summarizes(newpool)
      modifies this`curpool, this`newpool
      ensures Valid() && curpool == old(newpool) && newpool == old(curpool)
      ensures Summarizes(curpool)
    {
      curpool, newpool := newpool, curpool;
    }

    /**
     * run_ga's loop body up to its stopping test: breed a generation and
     * record it; stop when the record is more than Patience generations old
     * or the new pool's scores are all equal.
     */
    method Advance(ghost h: seq<Generation>, gen: nat, prevbest: real, prevgen: nat)
      returns (ghost h': seq<Generation>, gen': nat, prevbest': real, prevgen': nat, stop: bool)
      requires Valid() && RotationsStored() && Summarizes(curpool)
      requires gen == |h| && Log(h, prevbest, prevgen, best, worst) && (h != [] ==> !Converged(h))
      modifies curpool, newpool, samparr, this`besti, this`uniAt, this`gaussAt, this`scale
      modifies this`ncalls, this`vbest, this`lastGenome, this`best, this`worst, this`avcPerf
      modifies world`allRotations, world`allResiduePositions
      ensures Valid() && RotationsStored() && Summarizes(newpool)
      ensures gen' == gen + 1 == |h'| && h' == h + [Generation(best, worst)] && Log(h', prevbest', prevgen', best, worst)
      ensures stop <==> Converged(h')
      ensures OnlyCurrent(old(world.allRotations), old(world.allResiduePositions))
    {
      ghost var b := Breed();
      RecordGeneration(h, prevbest, prevgen, old(best), old(worst), best, worst);
      h' := h + [Generation(best, worst)];
      gen' := gen + 1;
      prevbest', prevgen' := prevbest, prevgen;
      if best < prevbest {
        prevbest', prevgen' := best, gen';
      }
      stop := gen' - prevgen' > Patience || worst == best;
    }

    /**
     * run_ga at the head of its loop after the generations h: the pools are
     * valid, best and worst summarize the current pool, the bookkeeping
     * holds, and run_ga has not stopped.
     */
    ghost predicate Running(h: seq<Generation>, gen: nat, prevbest: real, prevgen: nat)
      reads this, curpool, newpool, world`residuesToHelices
      reads world`allHelixPositions, world`boundaries, world`total, world`allRotations, world`allResiduePositions
    {
      && Valid() && RotationsStored() && Summarizes(curpool)
      && gen == |h| && Log(h, prevbest, prevgen, best, worst) && (h != [] ==> !Converged(h))
    }

    /**
     * run_ga after the generations `history`, at most `fuel` of them: the
     * pools are valid, the rotations stored, the bookkeeping holds, and
     * `converged` says that the stopping test fired after the last one;
     * best and worst then summarize the pool run_ga ended on, which is the
     * new pool when it stopped and the current pool otherwise.
     */
    ghost predicate Finished(history: seq<Generation>, gen: nat, prevbest: real, prevgen: nat, converged: bool,
                             fuel: nat)
      reads this, curpool, newpool, world`residuesToHelices
      reads world`allHelixPositions, world`boundaries, world`total, world`allRotations, world`allResiduePositions
    {
      && Valid() && RotationsStored()
      && gen == |history| <= fuel && Log(history, prevbest, prevgen, best, worst)
      && (converged ==> history != [] && Converged(history) && Summarizes(newpool))
      && (!converged ==> gen == fuel && (history != [] ==> !Converged(history)) && Summarizes(curpool))
    }

    /** The pool run_ga ended on. */
    ghost function FinalPool(converged: bool): array<Schema>
      reads this`curpool, this`newpool
    {
      if converged then newpool else curpool
    }

    /** One pass of run_ga's loop: advance, and unless run_ga stops, the pools change roles. */
    method Step(ghost h: seq<Generation>, gen: nat, prevbest: real, prevgen: nat)
      returns (ghost h': seq<Generation>, gen': nat, prevbest': real, prevgen': nat, stop: bool)
      requires Running(h, gen, prevbest, prevgen)
      modifies this`curpool, this`newpool, this`besti, this`uniAt, this`gaussAt, this`scale
      modifies this`ncalls, this`vbest, this`lastGenome, this`best, this`worst, this`avcPerf
      modifies curpool, newpool, samparr, world`allRotations, world`allResiduePositions
      ensures Valid() && RotationsStored()
      ensures gen' == gen + 1 == |h'| && h' == h + [Generation(best, worst)] && Log(h', prevbest', prevgen', best, worst)
      ensures stop <==> Converged(h')
      ensures stop ==> curpool == old(curpool) && newpool == old(newpool) && Summarizes(newpool)
      ensures !stop ==> curpool == old(newpool) && newpool == old(curpool) && Running(h', gen', prevbest', prevgen')
      ensures OnlyCurrent(old(world.allRotations), old(world.allResiduePositions))
    {
      h', gen', prevbest', prevgen', stop := Advance(h, gen, prevbest, prevgen);
      if !stop {
        SwapPools();
      }
    }

    /**
     * run_ga with at most `fuel` generations: score the current pool, then
     * breed generation after generation, recording a strict improvement of
     * the best score, until 50 generations pass without one or the pool's
     * scores are all equal; the pools change roles between generations.
     * `history` lists each generation's best and worst.
     */
    method RunGa(fuel: nat) returns (gen: nat, prevgen: nat, prevbest: real, converged: bool,
                                     ghost history: seq<Generation>)
      requires Valid() && Sound(CurrentScene(), curpool[..])
      requires RotationsStored() || FlaggedCount(curpool[..], poolsize) > 0
      modifies this`curpool, this`newpool, this`besti, this`uniAt, this`gaussAt, this`scale
      modifies this`ncalls, this`vbest, this`lastGenome, this`best, this`worst, this`avcPerf
      modifies curpool, newpool, samparr, world`allRotations, world`allResiduePositions
      ensures Finished(history, gen, prevbest, prevgen, converged, fuel)
      ensures OnlyCurrent(old(world.allRotations), old(world.allResiduePositions))
    {
      ScoreCurrent();
      ghost var rotations, residues := world.allRotations, world.allResiduePositions;
      gen, prevgen, prevbest, converged, history := Generations(fuel);
      OnlyAtTransitive(old(world.allRotations), rotations, world.allRotations, rotation);
      OnlyAtTransitive(old(world.allResiduePositions), residues, world.allResiduePositions, rotation);
    }

    /** The loop of run_ga, from no generations and the record (VBIG, 0), for at most `fuel` generations. */
    method Generations(fuel: nat) returns (gen: nat, prevgen: nat, prevbest: real, converged: bool,
                                           ghost history: seq<Generation>)
      requires Running([], 0, VBig, 0)
      modifies this`curpool, this`newpool, this`besti, this`uniAt, this`gaussAt, this`scale
      modifies this`ncalls, this`vbest, this`lastGenome, this`best, this`worst, this`avcPerf
      modifies curpool, newpool, samparr, world`allRotations, world`allResiduePositions
      ensures Finished(history, gen, prevbest, prevgen, converged, fuel)
      ensures OnlyCurrent(old(world.allRotations), old(world.allResiduePositions))
    {
      gen, prevgen, prevbest, converged, history := 0, 0, VBig, false, [];
      while gen < fuel
        invariant Running(history, gen, prevbest, prevgen) && gen <= fuel
        invariant (curpool == old(curpool) && newpool == old(newpool)) || (curpool == old(newpool) && newpool == old(curpool))
        invariant OnlyCurrent(old(world.allRotations), old(world.allResiduePositions))
        decreases fuel - gen
      {
        var stop;
        ghost var rotations, residues := world.allRotations, world.allResiduePositions;
        history, gen, prevbest, prevgen, stop := Step(history, gen, prevbest, prevgen);
        OnlyAtTransitive(old(world.allRotations), rotations, world.allRotations, rotation);
        OnlyAtTransitive(old(world.allResiduePositions), residues, world.allResiduePositions, rotation);
        if stop {
          converged := true;
          break;
        }
      }
    }

    /**
     * The start of optimise_parameters: search arrangement r afresh (vbest
     * and the eval count reset), set the parameters and ranges, and build a
     * fresh, wholly flagged initial pool.
     */
    method Setup(helices: nat, r: nat)
      requires helices == world.total && world.Scorable(r) && UnitDraws(uni) && besti < PoolSize
      modifies this`rotation, this`vbest, this`ncalls
      modifies this`genlen, this`poolsize, this`mutrate, this`crosrate, this`mutscfac, this`minparam, this`maxparam
      modifies this`curpool, this`newpool, this`samparr, this`uniAt
      ensures Valid() && rotation == r && vbest == VBig && ncalls == 0 && poolsize == PoolSize
      ensures fresh(curpool) && fresh(newpool) && fresh(samparr)
      ensures FlaggedCount(curpool[..], poolsize) > 0 && Sound(CurrentScene(), curpool[..])
    {
      rotation := r;
      ReadParams(helices);
      GaInit();
      vbest, ncalls := VBig, 0;
    }

    /**
     * optimise_parameters(helices, r): search rotations for arrangement r
     * with run_ga, which either stopped after the generations `history`
     * (`converged`) or ran all `fuel` of them, and return the best score of
     * the pool it ended on (`last`, the new pool when it stopped): the
     * lowest of its scores, each of which eval returned for the schema's
     * in-range genome, so the result is itself the score of such a genome.
     * The rotations left stored for r are those of the last genome eval
     * scored, whole degrees in [0, 359].
     */
    method OptimiseParameters(helices: nat, r: nat, fuel: nat)
      returns (result: real, ghost history: seq<Generation>, ghost converged: bool, ghost last: seq<Schema>)
      requires helices == world.total && world.Scorable(r) && UnitDraws(uni) && besti < PoolSize
      modifies this, world`allRotations, world`allResiduePositions
      ensures result == best && rotation == r && besti < PoolSize && RotationsStored() && Valid()
      ensures converged ==> history != [] && Converged(history)
      ensures !converged ==> |history| == fuel
      ensures last == FinalPool(converged)[..] && |last| == PoolSize && result == MinPerf(last, PoolSize)
      ensures Sound(CurrentScene(), last) && Settled(last) && PoolInRange(last, minparam, maxparam)
      ensures Achieved(CurrentScene(), result, minparam, maxparam)
      ensures world.allRotations[r] == Rotations(lastGenome) && InRange(lastGenome, minparam, maxparam)
      ensures |history| <= fuel && (history != [] ==> result == history[|history| - 1].best)
      ensures Monotone(history) && KeptRunning(history)
      ensures OnlyCurrent(old(world.allRotations), old(world.allResiduePositions))
    {
      Setup(helices, r);
      var gen, prevgen, prevbest, stopped;
      gen, prevgen, prevbest, stopped, history := RunGa(fuel);
      converged := stopped;
      result := best;
      last := FinalPool(converged)[..];
      BestAchieved(CurrentScene(), last, minparam, maxparam);
    }
  }
}
