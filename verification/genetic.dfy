/** The genetic search over helix rotations: the pool of candidate genomes,
    and the selection, crossover, mutation and statistics passes over it.
    Random draws come from caller-supplied streams `uni` (uniform in [0, 1))
    and `gauss`, read at a cursor that each draw advances. */
module Genetic {

  /** One candidate: a genome of rotations, its score, its selection weight, and whether it needs scoring. */
  datatype Schema = Schema(genome: seq<real>, perfval: real, selval: real, evalflg: bool)

  const PoolSize: nat := 50
  const MutRate: real := 0.1
  const CrosRate: real := 0.8
  const MutScFac: real := 1.0
  const MinParam: real := 0.0
  const MaxParam: real := 359.0
  /** First value of mutate's static scale. */
  const InitialScale: real := 0.25
  /** VBIG: the starting value of vbest and prevbest. */
  const VBig: real := 1e32
  /** Generations without a strict improvement after which the search stops. */
  const Patience: nat := 50

  ghost predicate UnitDraws(uni: nat -> real) {
    forall n: nat :: 0.0 <= uni(n) < 1.0
  }

  /** Genome g has one gene per parameter, each inside its range. */
  predicate InRange(g: seq<real>, lo: seq<real>, hi: seq<real>) {
    |g| == |lo| == |hi| && forall j :: 0 <= j < |g| ==> lo[j] <= g[j] <= hi[j]
  }

  predicate PoolInRange(pool: seq<Schema>, lo: seq<real>, hi: seq<real>) {
    forall i :: 0 <= i < |pool| ==> InRange(pool[i].genome, lo, hi)
  }

  predicate Genomes(pool: seq<Schema>, genlen: nat) {
    forall i :: 0 <= i < |pool| ==> |pool[i].genome| == genlen
  }

  // ---------------------------------------------------------------- ga_init

  /** A schema as calloc leaves it: genlen zero genes, zero scores, not flagged. */
  function Blank(genlen: nat): Schema {
    Schema(seq(genlen, _ => 0.0), 0.0, 0.0, false)
  }

  /** A continuous gene drawn uniformly from [lo, hi). */
  function InitialGene(draw: real, lo: real, hi: real): real {
    draw * (hi - lo) + lo
  }

  /** The genome ga_init draws from the uniform stream, starting at cursor u. */
  function InitialGenome(uni: nat -> real, u: nat, lo: seq<real>, hi: seq<real>): seq<real>
    requires |lo| == |hi|
  {
    seq(|lo|, j requires 0 <= j < |lo| => InitialGene(uni(u + j), lo[j], hi[j]))
  }

  lemma InitialGeneInRange(draw: real, lo: real, hi: real)
    requires 0.0 <= draw < 1.0 && lo <= hi
    ensures lo <= InitialGene(draw, lo, hi) <= hi
  {
    var d := hi - lo;
    var p := draw * d;
    assert InitialGene(draw, lo, hi) == p + lo;
    if d > 0.0 {
      assert (1.0 - draw) * d > 0.0;
      assert (1.0 - draw) * d == d - p;
      if draw > 0.0 {
        assert p > 0.0;
      } else {
        assert p == 0.0;
      }
    } else {
      assert p == 0.0;
    }
  }

  /** Every gene ga_init draws lies in its parameter's range. */
  lemma InitialGenomeInRange(uni: nat -> real, u: nat, lo: seq<real>, hi: seq<real>)
    requires UnitDraws(uni) && |lo| == |hi| && forall j :: 0 <= j < |lo| ==> lo[j] <= hi[j]
    ensures InRange(InitialGenome(uni, u, lo, hi), lo, hi)
  {
    forall j | 0 <= j < |lo|
      ensures lo[j] <= InitialGenome(uni, u, lo, hi)[j] <= hi[j]
    {
      InitialGeneInRange(uni(u + j), lo[j], hi[j]);
    }
  }

  /** The inner loop of ga_init: one uniform draw per gene, in order. */
  method DrawGenome(uni: nat -> real, u: nat, lo: seq<real>, hi: seq<real>) returns (genome: seq<real>)
    requires |lo| == |hi|
    ensures genome == InitialGenome(uni, u, lo, hi)
  {
    genome := [];
    var j := 0;
    while j < |lo|
      invariant j <= |lo| && |genome| == j
      invariant forall k :: 0 <= k < j ==> genome[k] == InitialGene(uni(u + k), lo[k], hi[k])
    {
      genome := genome + [uni(u + j) * (hi[j] - lo[j]) + lo[j]];
      j := j + 1;
    }
  }

  /**
   * The outer loop of ga_init on a freshly allocated pool: schema i gets the
   * genome drawn at cursor u + i * genlen and is flagged for scoring.
   */
  method InitPool(pool: array<Schema>, uni: nat -> real, u: nat, lo: seq<real>, hi: seq<real>) returns (u': nat)
    requires |lo| == |hi|
    modifies pool
    ensures u' == u + pool.Length * |lo|
    ensures forall i :: 0 <= i < pool.Length ==>
      pool[i] == old(pool[i]).(genome := InitialGenome(uni, u + i * |lo|, lo, hi), evalflg := true)
    ensures UnitDraws(uni) && (forall j :: 0 <= j < |lo| ==> lo[j] <= hi[j]) ==> PoolInRange(pool[..], lo, hi)
  {
    u' := u;
    var i := 0;
    while i < pool.Length
      invariant i <= pool.Length && u' == u + i * |lo|
      invariant forall k :: 0 <= k < i ==>
        pool[k] == old(pool[k]).(genome := InitialGenome(uni, u + k * |lo|, lo, hi), evalflg := true)
      invariant forall k :: i <= k < pool.Length ==> pool[k] == old(pool[k])
    {
      var genome := DrawGenome(uni, u', lo, hi);
      pool[i] := pool[i].(genome := genome, evalflg := true);
      assert u' + |lo| == u + (i + 1) * |lo|;
      u' := u' + |lo|;
      i := i + 1;
    }
    if UnitDraws(uni) && forall j :: 0 <= j < |lo| ==> lo[j] <= hi[j] {
      forall i | 0 <= i < pool.Length
        ensures InRange(pool[i].genome, lo, hi)
      {
        InitialGenomeInRange(uni, u + i * |lo|, lo, hi);
      }
    }
  }

  /**
   * The pool ga_init draws from cursor u: schema i has the genome drawn at
   * u + i * genlen, zero score and weight, and is flagged for scoring.
   */
  ghost predicate InitialPool(pool: seq<Schema>, uni: nat -> real, u: nat, lo: seq<real>, hi: seq<real>) {
    && |lo| == |hi|
    && forall i :: 0 <= i < |pool| ==> pool[i] == Schema(InitialGenome(uni, u + i * |lo|, lo, hi), 0.0, 0.0, true)
  }

  /**
   * The allocation and drawing of ga_init: two zeroed pools of `size`
   * schemata; every schema i of the first is drawn at cursor u + i * genlen
   * and flagged.
   */
  method NewPools(size: nat, uni: nat -> real, u: nat, lo: seq<real>, hi: seq<real>)
    returns (cur: array<Schema>, next: array<Schema>, u': nat)
    requires |lo| == |hi| && UnitDraws(uni) && forall j :: 0 <= j < |lo| ==> lo[j] <= hi[j]
    ensures fresh(cur) && fresh(next) && cur != next && cur.Length == size && next.Length == size
    ensures u' == u + size * |lo|
    ensures InitialPool(cur[..], uni, u, lo, hi)
    ensures forall i :: 0 <= i < size ==> next[i] == Blank(|lo|)
    ensures PoolInRange(cur[..], lo, hi)
    ensures (forall j :: 0 <= j < |lo| ==> lo[j] <= 0.0 <= hi[j]) ==> PoolInRange(next[..], lo, hi)
    ensures 0 < size ==> FlaggedCount(cur[..], size) > 0
  {
    var n := |lo|;
    cur := new Schema[size](_ => Blank(n));
    next := new Schema[size](_ => Blank(n));
    u' := InitPool(cur, uni, u, lo, hi);
    FlaggedCountZero(cur[..], size);
    if forall j :: 0 <= j < |lo| ==> lo[j] <= 0.0 <= hi[j] {
      forall i | 0 <= i < size
        ensures InRange(next[i].genome, lo, hi)
      {
        assert next[i] == Blank(n);
      }
    }
  }

  // ------------------------------------------------------- schcmp / sortpool

  /** Ascending order of perfval. */
  predicate Sorted(pool: seq<Schema>) {
    forall a, b :: 0 <= a < b < |pool| ==> pool[a].perfval <= pool[b].perfval
  }

  /** schcmp: the sign of the comparison of two scores. */
  function Compare(s1: Schema, s2: Schema): (c: int)
    ensures c < 0 <==> s1.perfval < s2.perfval
    ensures c > 0 <==> s2.perfval < s1.perfval
    ensures c == 0 <==> s1.perfval == s2.perfval
  {
    if s1.perfval < s2.perfval then -1 else if s1.perfval > s2.perfval then 1 else 0
  }

  /** The first i entries are in ascending order. */
  predicate SortedUpTo(s: seq<Schema>, i: nat)
    requires i <= |s|
  {
    forall a, b :: 0 <= a < b < i ==> s[a].perfval <= s[b].perfval
  }

  /**
   * During the insertion of entry i, sinking to position k: entries 0 .. i
   * are in order except at k, and entry k is no larger than those after it.
   */
  predicate Sinking(s: seq<Schema>, i: nat, k: nat)
    requires k <= i < |s|
  {
    && (forall a, b :: 0 <= a < b <= i && b != k ==> s[a].perfval <= s[b].perfval)
    && (forall b :: k < b <= i ==> s[k].perfval <= s[b].perfval)
  }

  /** Exchanging a sinking entry with a larger predecessor keeps it sinking, one place lower. */
  lemma SinkStep(s: seq<Schema>, i: nat, k: nat)
    requires 0 < k <= i < |s| && Sinking(s, i, k) && s[k].perfval < s[k - 1].perfval
    ensures Sinking(s[k - 1 := s[k]][k := s[k - 1]], i, k - 1)
    ensures multiset(s[k - 1 := s[k]][k := s[k - 1]]) == multiset(s)
  {
    var t := s[k - 1 := s[k]][k := s[k - 1]];
    forall a, b | 0 <= a < b <= i && b != k - 1
      ensures t[a].perfval <= t[b].perfval
    {
      if b == k && a < k - 1 {
        assert s[a].perfval <= s[k - 1].perfval;
      }
    }
    var q := s[k - 1 := s[k]];
    assert multiset(q) == multiset(s) - multiset{s[k - 1]} + multiset{s[k]};
    assert q[k] == s[k];
  }

  /** A sinking entry that has stopped leaves entries 0 .. i in order. */
  lemma SinkDone(s: seq<Schema>, i: nat, k: nat)
    requires k <= i < |s| && Sinking(s, i, k) && (k == 0 || s[k - 1].perfval <= s[k].perfval)
    ensures SortedUpTo(s, i + 1)
  {
    forall a, b | 0 <= a < b <= i
      ensures s[a].perfval <= s[b].perfval
    {
      if b == k && a < k - 1 {
        assert s[a].perfval <= s[k - 1].perfval;
      }
    }
  }

  /** sortpool: the pool put into ascending order of perfval, as a permutation of itself. */
  method SortPool(pool: array<Schema>)
    modifies pool
    ensures Sorted(pool[..])
    ensures multiset(pool[..]) == multiset(old(pool[..]))
  {
    var i := 0;
    while i < pool.Length
      invariant i <= pool.Length
      invariant SortedUpTo(pool[..], i)
      invariant multiset(pool[..]) == multiset(old(pool[..]))
    {
      var k := i;
      while k > 0 && Compare(pool[k - 1], pool[k]) > 0
        invariant 0 <= k <= i
        invariant Sinking(pool[..], i, k)
        invariant multiset(pool[..]) == multiset(old(pool[..]))
      {
        SinkStep(pool[..], i, k);
        pool[k - 1], pool[k] := pool[k], pool[k - 1];
        k := k - 1;
      }
      SinkDone(pool[..], i, k);
      i := i + 1;
    }
  }

  /** Reordering the pool keeps its genomes in range. */
  lemma PermutedInRange(a: seq<Schema>, b: seq<Schema>, lo: seq<real>, hi: seq<real>)
    requires multiset(a) == multiset(b) && PoolInRange(b, lo, hi)
    ensures PoolInRange(a, lo, hi)
  {
    forall i | 0 <= i < |a|
      ensures InRange(a[i].genome, lo, hi)
    {
      assert a[i] in multiset(b);
      var k :| 0 <= k < |b| && b[k] == a[i];
    }
  }

  // --------------------------------------------------------------- gaselect

  /** Rank weights poolsize - i of the first k ranks, for a pool of n. */
  function WeightSum(n: nat, k: nat): nat
    requires k <= n
  {
    if k == 0 then 0 else WeightSum(n, k - 1) + (n - (k - 1))
  }

  /** The rank weights n, n - 1, ..., n - k + 1 add up to k (2n - k + 1) / 2; all n of them to n (n + 1) / 2. */
  lemma {:induction false} WeightSumClosed(n: nat, k: nat)
    requires k <= n
    ensures 2 * WeightSum(n, k) == k * (2 * n - k + 1)
    ensures k == n ==> WeightSum(n, k) == n * (n + 1) / 2
  {
    if k > 0 {
      WeightSumClosed(n, k - 1);
      assert k * (2 * n - k + 1) == (k - 1) * (2 * n - (k - 1) + 1) + 2 * (n - (k - 1));
    }
  }

  /** Selection weight of the first k schemata. */
  function SelSum(pool: seq<Schema>, k: nat): real
    requires k <= |pool|
  {
    if k == 0 then 0.0 else SelSum(pool, k - 1) + pool[k - 1].selval
  }

  /** After ranking, the prefix weights are the rank-weight sums. */
  lemma {:induction false} RankedSelSum(pool: seq<Schema>, k: nat)
    requires k <= |pool|
    requires forall i :: 0 <= i < |pool| ==> pool[i].selval == (|pool| - i) as real
    ensures SelSum(pool, k) == WeightSum(|pool|, k) as real
  {
    if k > 0 {
      RankedSelSum(pool, k - 1);
    }
  }

  /**
   * The ranking loop of gaselect on the sorted pool: schema i gets weight
   * poolsize - i, fitsum is their sum, and besti becomes the last index
   * scoring `best`, or stays as it was when none does.
   */
  method RankPool(pool: array<Schema>, best: real, besti: nat) returns (fitsum: real, besti': nat)
    modifies pool
    ensures forall i :: 0 <= i < pool.Length ==> pool[i] == old(pool[i]).(selval := (pool.Length - i) as real)
    ensures fitsum == WeightSum(pool.Length, pool.Length) as real
    ensures (exists i :: 0 <= i < pool.Length && pool[i].perfval == best) ==>
      besti' < pool.Length && pool[besti'].perfval == best &&
      forall l :: besti' < l < pool.Length ==> pool[l].perfval != best
    ensures (forall i :: 0 <= i < pool.Length ==> pool[i].perfval != best) ==> besti' == besti
  {
    fitsum := 0.0;
    besti' := besti;
    var i := 0;
    while i < pool.Length
      invariant i <= pool.Length
      invariant forall k :: 0 <= k < i ==> pool[k] == old(pool[k]).(selval := (pool.Length - k) as real)
      invariant forall k :: i <= k < pool.Length ==> pool[k] == old(pool[k])
      invariant fitsum == WeightSum(pool.Length, i) as real
      invariant (exists k :: 0 <= k < i && pool[k].perfval == best) ==>
        besti' < i && pool[besti'].perfval == best && forall l :: besti' < l < i ==> pool[l].perfval != best
      invariant (forall k :: 0 <= k < i ==> pool[k].perfval != best) ==> besti' == besti
    {
      pool[i] := pool[i].(selval := (pool.Length - i) as real);
      fitsum := fitsum + pool[i].selval;
      if pool[i].perfval == best {
        besti' := i;
      }
      i := i + 1;
    }
  }

  /** The do-while of the wheel from index k, with `sum` the weight of entries 0 .. k. */
  function WheelFrom(pool: seq<Schema>, ptr: real, k: nat, sum: real): (r: nat)
    requires k < |pool|
    ensures k <= r < |pool|
    decreases |pool| - k
  {
    if sum < ptr && k < |pool| - 1 then WheelFrom(pool, ptr, k + 1, sum + pool[k + 1].selval) else k
  }

  /** The index one spin of the wheel at `ptr` selects. */
  function Wheel(pool: seq<Schema>, ptr: real): (k: nat)
    requires |pool| > 0
    ensures k < |pool|
  {
    WheelFrom(pool, ptr, 0, pool[0].selval)
  }

  lemma {:induction false} WheelFromFirstReach(pool: seq<Schema>, ptr: real, k: nat, sum: real)
    requires k < |pool| && sum == SelSum(pool, k + 1)
    requires forall l :: 0 < l <= k ==> SelSum(pool, l) < ptr
    ensures var r := WheelFrom(pool, ptr, k, sum);
      && (forall l :: 0 < l <= r ==> SelSum(pool, l) < ptr)
      && (SelSum(pool, r + 1) >= ptr || r == |pool| - 1)
    decreases |pool| - k
  {
    if sum < ptr && k < |pool| - 1 {
      WheelFromFirstReach(pool, ptr, k + 1, sum + pool[k + 1].selval);
    }
  }

  /**
   * A spin selects the first index whose prefix weight reaches `ptr`, or the
   * last index when none does; when `ptr` is at most the total weight, the
   * selected prefix does reach it.
   */
  lemma WheelIsFirstReach(pool: seq<Schema>, ptr: real)
    requires |pool| > 0
    ensures var k := Wheel(pool, ptr);
      && k < |pool|
      && (forall l :: 0 < l <= k ==> SelSum(pool, l) < ptr)
      && (SelSum(pool, k + 1) >= ptr || k == |pool| - 1)
      && (ptr <= SelSum(pool, |pool|) ==> SelSum(pool, k + 1) >= ptr)
  {
    WheelFromFirstReach(pool, ptr, 0, pool[0].selval);
  }

  /** One spin: the do-while of gaselect. */
  method Spin(pool: array<Schema>, ptr: real) returns (k: nat)
    requires pool.Length > 0
    ensures k == Wheel(pool[..], ptr)
  {
    k := 0;
    var sum := pool[0].selval;
    while sum < ptr && k < pool.Length - 1
      invariant k < pool.Length
      invariant WheelFrom(pool[..], ptr, k, sum) == Wheel(pool[..], ptr)
      decreases pool.Length - k
    {
      k := k + 1;
      sum := sum + pool[k].selval;
    }
  }

  /** The spinning loop of gaselect: spin i lands at fitsum times draw u + i. */
  method SpinAll(pool: array<Schema>, samparr: array<int>, fitsum: real, uni: nat -> real, u: nat)
    requires pool.Length > 0
    modifies samparr
    ensures forall i :: 0 <= i < samparr.Length ==> samparr[i] == Wheel(pool[..], fitsum * uni(u + i))
  {
    var i := 0;
    while i < samparr.Length
      invariant i <= samparr.Length
      invariant forall k :: 0 <= k < i ==> samparr[k] == Wheel(pool[..], fitsum * uni(u + k))
    {
      var k := Spin(pool, fitsum * uni(u + i));
      samparr[i] := k;
      i := i + 1;
    }
  }

  /** newpool entry dst after copying src's genome and score into it, unflagged; its own selval stays. */
  function Copy(src: Schema, dst: Schema): Schema {
    dst.(genome := src.genome, perfval := src.perfval, evalflg := false)
  }

  /**
   * Forming the new population: entry i copies the selected entry
   * samparr[i], except that entry besti copies curpool[besti] (elitism).
   */
  method FormPool(curpool: array<Schema>, newpool: array<Schema>, samparr: array<int>, besti: nat)
    requires curpool != newpool && newpool.Length == samparr.Length && besti < newpool.Length
    requires besti < curpool.Length && forall i :: 0 <= i < samparr.Length ==> 0 <= samparr[i] < curpool.Length
    modifies newpool
    ensures newpool[besti] == Copy(curpool[besti], old(newpool[besti]))
    ensures forall i :: 0 <= i < newpool.Length && i != besti ==>
      newpool[i] == Copy(curpool[samparr[i]], old(newpool[i]))
  {
    var i := 0;
    while i < newpool.Length
      invariant i <= newpool.Length
      invariant forall k :: 0 <= k < i ==> newpool[k] == Copy(curpool[samparr[k]], old(newpool[k]))
      invariant forall k :: i <= k < newpool.Length ==> newpool[k] == old(newpool[k])
    {
      var k := samparr[i];
      newpool[i] := newpool[i].(genome := curpool[k].genome, perfval := curpool[k].perfval, evalflg := false);
      i := i + 1;
    }
    newpool[besti] := newpool[besti].(genome := curpool[besti].genome, perfval := curpool[besti].perfval, evalflg := false);
  }

  /**
   * What gaselect leaves behind, over pool contents: `sorted` is `before` in
   * ascending order of score; `ranked` is `sorted` with rank i weighted
   * n - i; `besti'` is the last rank holding `best`, or `besti` when none
   * does; `fitsum` is the total weight; sample i is the spin of the wheel at
   * fitsum times draw u + i; and `after` is `prior` with the sampled
   * genomes and scores copied in, unflagged, the elite at its own index.
   */
  ghost predicate Selection(before: seq<Schema>, sorted: seq<Schema>, ranked: seq<Schema>, best: real,
                            besti: nat, besti': nat, fitsum: real, samples: seq<int>, uni: nat -> real, u: nat,
                            prior: seq<Schema>, after: seq<Schema>)
  {
    && |sorted| == |before| == |ranked| == |samples| == |prior| == |after| && besti' < |ranked|
    && Sorted(sorted) && multiset(sorted) == multiset(before)
    && (forall i :: 0 <= i < |ranked| ==> ranked[i] == sorted[i].(selval := (|ranked| - i) as real))
    && ((exists i :: 0 <= i < |sorted| && sorted[i].perfval == best) ==>
        ranked[besti'].perfval == best && forall l :: besti' < l < |ranked| ==> ranked[l].perfval != best)
    && ((forall i :: 0 <= i < |sorted| ==> sorted[i].perfval != best) ==> besti' == besti)
    && fitsum == WeightSum(|ranked|, |ranked|) as real
    && (forall i :: 0 <= i < |samples| ==> samples[i] == Wheel(ranked, fitsum * uni(u + i)))
    && (forall i :: 0 <= i < |samples| ==> 0 <= samples[i] < |ranked|)
    && after[besti'] == Copy(ranked[besti'], prior[besti'])
    && (forall i :: 0 <= i < |after| && i != besti' ==> after[i] == Copy(ranked[samples[i]], prior[i]))
  }

  /** Selection keeps every genome in range: the ranked pool and the new pool only hold genomes of the old one. */
  lemma SelectionInRange(before: seq<Schema>, sorted: seq<Schema>, ranked: seq<Schema>, best: real,
                         besti: nat, besti': nat, fitsum: real, samples: seq<int>, uni: nat -> real, u: nat,
                         prior: seq<Schema>, after: seq<Schema>, lo: seq<real>, hi: seq<real>)
    requires Selection(before, sorted, ranked, best, besti, besti', fitsum, samples, uni, u, prior, after)
    requires PoolInRange(before, lo, hi)
    ensures PoolInRange(ranked, lo, hi) && PoolInRange(after, lo, hi)
  {
    PermutedInRange(sorted, before, lo, hi);
    assert forall i :: 0 <= i < |ranked| ==> ranked[i].genome == sorted[i].genome;
  }

  /**
   * Elitism: when `best` is the lowest score of the old pool, the elite slot
   * of the new pool holds a schema with that score, unflagged, so it is not
   * re-evaluated.
   */
  lemma SelectionKeepsElite(before: seq<Schema>, sorted: seq<Schema>, ranked: seq<Schema>, best: real,
                            besti: nat, besti': nat, fitsum: real, samples: seq<int>, uni: nat -> real, u: nat,
                            prior: seq<Schema>, after: seq<Schema>)
    requires Selection(before, sorted, ranked, best, besti, besti', fitsum, samples, uni, u, prior, after)
    requires 0 < |before| && best == MinPerf(before, |before|)
    ensures after[besti'].perfval == best && !after[besti'].evalflg
  {
    PerfBounds(before, |before|);
    var w :| 0 <= w < |before| && before[w].perfval == best;
    assert before[w] in multiset(sorted);
  }

  /** The first half of gaselect: sort the pool, rank it and find the elite. */
  method SortRank(pool: array<Schema>, best: real, besti: nat)
    returns (ghost sorted: seq<Schema>, fitsum: real, besti': nat)
    requires besti < pool.Length
    modifies pool
    ensures besti' < pool.Length
    ensures |sorted| == pool.Length && Sorted(sorted) && multiset(sorted) == multiset(old(pool[..]))
    ensures forall i :: 0 <= i < pool.Length ==> pool[i] == sorted[i].(selval := (pool.Length - i) as real)
    ensures fitsum == WeightSum(pool.Length, pool.Length) as real
    ensures (exists i :: 0 <= i < |sorted| && sorted[i].perfval == best) ==>
      pool[besti'].perfval == best && forall l :: besti' < l < pool.Length ==> pool[l].perfval != best
    ensures (forall i :: 0 <= i < |sorted| ==> sorted[i].perfval != best) ==> besti' == besti
  {
    SortPool(pool);
    sorted := pool[..];
    fitsum, besti' := RankPool(pool, best, besti);
  }

  /**
   * The second half of gaselect: spin the wheel of the ranked pool once per
   * schema, landing at fitsum times draw u + i, and form the new pool.
   */
  method SpinForm(curpool: array<Schema>, newpool: array<Schema>, samparr: array<int>, fitsum: real, besti: nat,
                  uni: nat -> real, u: nat)
    requires curpool != newpool && 0 < curpool.Length && newpool.Length == curpool.Length == samparr.Length
    requires besti < curpool.Length
    modifies newpool, samparr
    ensures forall i :: 0 <= i < samparr.Length ==> samparr[i] == Wheel(curpool[..], fitsum * uni(u + i))
    ensures forall i :: 0 <= i < samparr.Length ==> 0 <= samparr[i] < curpool.Length
    ensures newpool[besti] == Copy(curpool[besti], old(newpool[besti]))
    ensures forall i :: 0 <= i < newpool.Length && i != besti ==> newpool[i] == Copy(curpool[samparr[i]], old(newpool[i]))
  {
    SpinAll(curpool, samparr, fitsum, uni, u);
    ghost var spun := samparr[..];
    FormPool(curpool, newpool, samparr, besti);
    assert samparr[..] == spun;
  }

  /**
   * gaselect on the pools: sort and rank the current pool, spin the wheel
   * once per schema with draws from cursor u, and form the new pool.
   */
  method Select(curpool: array<Schema>, newpool: array<Schema>, samparr: array<int>, best: real, besti: nat,
                uni: nat -> real, u: nat)
    returns (ghost sorted: seq<Schema>, fitsum: real, besti': nat)
    requires curpool != newpool && 0 < curpool.Length && newpool.Length == curpool.Length == samparr.Length
    requires besti < curpool.Length
    modifies curpool, newpool, samparr
    ensures Selection(old(curpool[..]), sorted, curpool[..], best, besti, besti', fitsum, samparr[..], uni, u,
                      old(newpool[..]), newpool[..])
  {
    sorted, fitsum, besti' := SortRank(curpool, best, besti);
    SpinForm(curpool, newpool, samparr, fitsum, besti', uni, u);
  }

  // --------------------------------------------------------------- crossovr

  /**
   * Genomes g1, g2 after crossovr's position loop with draws from cursor u:
   * position p is exchanged when its draw is below one half. The pool's
   * genomes all have genlen genes, so both lengths agree there.
   */
  function Recombine(g1: seq<real>, g2: seq<real>, uni: nat -> real, u: nat): (seq<real>, seq<real>) {
    (seq(|g1|, p requires 0 <= p < |g1| => if p < |g2| && uni(u + p) < 0.5 then g2[p] else g1[p]),
     seq(|g2|, p requires 0 <= p < |g2| => if p < |g1| && uni(u + p) < 0.5 then g1[p] else g2[p]))
  }

  /** h1, h2 hold, at each position, the genes of g1, g2 either kept or exchanged. */
  predicate Exchanged(g1: seq<real>, g2: seq<real>, h1: seq<real>, h2: seq<real>) {
    && |g1| == |g2| == |h1| == |h2|
    && forall p :: 0 <= p < |g1| ==> (h1[p] == g1[p] && h2[p] == g2[p]) || (h1[p] == g2[p] && h2[p] == g1[p])
  }

  /** Recombination keeps each position's pair of genes, so it keeps both genomes in range. */
  lemma RecombineExchanges(g1: seq<real>, g2: seq<real>, uni: nat -> real, u: nat, lo: seq<real>, hi: seq<real>)
    requires |g1| == |g2|
    ensures Exchanged(g1, g2, Recombine(g1, g2, uni, u).0, Recombine(g1, g2, uni, u).1)
    ensures forall p :: 0 <= p < |g1| ==>
      multiset{Recombine(g1, g2, uni, u).0[p], Recombine(g1, g2, uni, u).1[p]} == multiset{g1[p], g2[p]}
    ensures InRange(g1, lo, hi) && InRange(g2, lo, hi) ==>
      InRange(Recombine(g1, g2, uni, u).0, lo, hi) && InRange(Recombine(g1, g2, uni, u).1, lo, hi)
  {
  }

  /** Exchanged pairs of in-range genomes are in range. */
  lemma ExchangedInRange(g1: seq<real>, g2: seq<real>, h1: seq<real>, h2: seq<real>, lo: seq<real>, hi: seq<real>)
    requires Exchanged(g1, g2, h1, h2) && InRange(g1, lo, hi) && InRange(g2, lo, hi)
    ensures InRange(h1, lo, hi) && InRange(h2, lo, hi)
  {
  }

  /** The position loop of crossovr: genome 1 takes genome 2's gene and genome 2 the saved old gene of genome 1. */
  method RecombineGenes(g1: seq<real>, g2: seq<real>, uni: nat -> real, u: nat) returns (h1: seq<real>, h2: seq<real>)
    requires |g1| == |g2|
    ensures (h1, h2) == Recombine(g1, g2, uni, u)
  {
    h1, h2 := g1, g2;
    var p := 0;
    while p < |g1|
      invariant p <= |g1| && |h1| == |h2| == |g1|
      invariant forall k :: 0 <= k < p ==> h1[k] == Recombine(g1, g2, uni, u).0[k] && h2[k] == Recombine(g1, g2, uni, u).1[k]
      invariant forall k :: p <= k < |g1| ==> h1[k] == g1[k] && h2[k] == g2[k]
    {
      if uni(u + p) < 0.5 {
        h1 := h1[p := h2[p]];
        h2 := h2[p := g1[p]];
      }
      p := p + 1;
    }
    assert h1 == Recombine(g1, g2, uni, u).0;
    assert h2 == Recombine(g1, g2, uni, u).1;
  }

  /** A schema given genome g, flagged for scoring when g differs from its old genome. */
  function Flagged(s: Schema, g: seq<real>): Schema {
    s.(genome := g, evalflg := s.evalflg || g != s.genome)
  }

  /** The pool and the uniform cursor during a pass. */
  datatype Crossing = Crossing(pool: seq<Schema>, u: nat)

  /**
   * crossovr on the pair (i, i + 1): one draw decides whether to cross; a
   * pair holding besti is then skipped; otherwise each position draws once.
   */
  function CrossPair(c: Crossing, i: nat, besti: nat, crosrate: real, uni: nat -> real): (r: Crossing)
    requires i + 1 < |c.pool|
    ensures |r.pool| == |c.pool|
  {
    if uni(c.u) < crosrate then
      if i == besti || i + 1 == besti then Crossing(c.pool, c.u + 1)
      else
        var r := Recombine(c.pool[i].genome, c.pool[i + 1].genome, uni, c.u + 1);
        Crossing(c.pool[i := Flagged(c.pool[i], r.0)][i + 1 := Flagged(c.pool[i + 1], r.1)], c.u + 1 + |r.0|)
    else Crossing(c.pool, c.u + 1)
  }

  /** crossovr over the first q pairs (0, 1), (2, 3), ... */
  function CrossUpTo(pool: seq<Schema>, u: nat, besti: nat, crosrate: real, uni: nat -> real, q: nat): (r: Crossing)
    requires q <= |pool| / 2
    ensures |r.pool| == |pool|
  {
    if q == 0 then Crossing(pool, u)
    else CrossPair(CrossUpTo(pool, u, besti, crosrate, uni, q - 1), 2 * (q - 1), besti, crosrate, uni)
  }

  /** Pair q of `after` is pair q of `before` with genes kept or exchanged, and untouched when it holds besti. */
  predicate PairCrossed(before: seq<Schema>, after: seq<Schema>, q: nat, besti: nat)
    requires 2 * q + 1 < |before| && |after| == |before|
  {
    && Exchanged(before[2 * q].genome, before[2 * q + 1].genome, after[2 * q].genome, after[2 * q + 1].genome)
    && (2 * q == besti || 2 * q + 1 == besti ==> after[2 * q] == before[2 * q] && after[2 * q + 1] == before[2 * q + 1])
  }

  /** A pair step leaves every schema outside the pair as it was. */
  lemma CrossPairElsewhere(c: Crossing, i: nat, besti: nat, crosrate: real, uni: nat -> real, k: nat)
    requires i + 1 < |c.pool| && k < |c.pool| && k != i && k != i + 1
    ensures CrossPair(c, i, besti, crosrate, uni).pool[k] == c.pool[k]
  {
  }

  /**
   * A pair step flags a schema of the pair exactly when it was already or
   * its genome changed, and leaves the pair alone when it holds besti.
   */
  lemma CrossPairFlags(c: Crossing, i: nat, besti: nat, crosrate: real, uni: nat -> real)
    requires i + 1 < |c.pool|
    ensures var r := CrossPair(c, i, besti, crosrate, uni).pool;
      && r[i] == Flagged(c.pool[i], r[i].genome) && r[i + 1] == Flagged(c.pool[i + 1], r[i + 1].genome)
      && (i == besti || i + 1 == besti ==> r[i] == c.pool[i] && r[i + 1] == c.pool[i + 1])
  {
  }

  /** A pair step keeps or exchanges the genes of the pair at every position. */
  lemma CrossPairExchanges(c: Crossing, i: nat, besti: nat, crosrate: real, uni: nat -> real)
    requires i + 1 < |c.pool| && |c.pool[i].genome| == |c.pool[i + 1].genome|
    ensures var r := CrossPair(c, i, besti, crosrate, uni).pool;
      Exchanged(c.pool[i].genome, c.pool[i + 1].genome, r[i].genome, r[i + 1].genome)
  {
    RecombineExchanges(c.pool[i].genome, c.pool[i + 1].genome, uni, c.u + 1, [], []);
  }

  /** The first q pairs leave the schemata after them untouched. */
  lemma {:induction false} CrossUpToTail(pool: seq<Schema>, u: nat, besti: nat, crosrate: real, uni: nat -> real,
                                         q: nat, k: nat)
    requires q <= |pool| / 2 && 2 * q <= k < |pool|
    ensures CrossUpTo(pool, u, besti, crosrate, uni, q).pool[k] == pool[k]
  {
    if q > 0 {
      CrossUpToTail(pool, u, besti, crosrate, uni, q - 1, k);
      CrossPairElsewhere(CrossUpTo(pool, u, besti, crosrate, uni, q - 1), 2 * (q - 1), besti, crosrate, uni, k);
    }
  }

  /** Every schema keeps its score and weight and is flagged exactly when it was already or its genome changed. */
  lemma {:induction false} CrossUpToFlags(pool: seq<Schema>, u: nat, besti: nat, crosrate: real, uni: nat -> real,
                                          q: nat, k: nat)
    requires q <= |pool| / 2 && k < |pool|
    ensures var r := CrossUpTo(pool, u, besti, crosrate, uni, q).pool;
      r[k] == Flagged(pool[k], r[k].genome)
  {
    if q > 0 {
      var c := CrossUpTo(pool, u, besti, crosrate, uni, q - 1);
      var i := 2 * (q - 1);
      if k == i || k == i + 1 {
        CrossUpToTail(pool, u, besti, crosrate, uni, q - 1, k);
        CrossPairFlags(c, i, besti, crosrate, uni);
      } else {
        CrossUpToFlags(pool, u, besti, crosrate, uni, q - 1, k);
        CrossPairElsewhere(c, i, besti, crosrate, uni, k);
      }
    }
  }

  /** Every processed pair of a pool of genlen-gene genomes is crossed or skipped as PairCrossed says. */
  lemma {:induction false} CrossUpToPairs(pool: seq<Schema>, u: nat, besti: nat, crosrate: real, uni: nat -> real,
                                          genlen: nat, q: nat, p: nat)
    requires q <= |pool| / 2 && Genomes(pool, genlen) && p < q
    ensures PairCrossed(pool, CrossUpTo(pool, u, besti, crosrate, uni, q).pool, p, besti)
  {
    var c := CrossUpTo(pool, u, besti, crosrate, uni, q - 1);
    var i := 2 * (q - 1);
    if p == q - 1 {
      CrossUpToTail(pool, u, besti, crosrate, uni, q - 1, i);
      CrossUpToTail(pool, u, besti, crosrate, uni, q - 1, i + 1);
      CrossPairFlags(c, i, besti, crosrate, uni);
      CrossPairExchanges(c, i, besti, crosrate, uni);
    } else {
      CrossUpToPairs(pool, u, besti, crosrate, uni, genlen, q - 1, p);
      CrossPairElsewhere(c, i, besti, crosrate, uni, 2 * p);
      CrossPairElsewhere(c, i, besti, crosrate, uni, 2 * p + 1);
    }
  }

  /** Crossing keeps every genome of an in-range pool in range. */
  lemma CrossoverKeepsRange(pool: seq<Schema>, u: nat, besti: nat, crosrate: real, uni: nat -> real, lo: seq<real>, hi: seq<real>)
    requires PoolInRange(pool, lo, hi)
    ensures PoolInRange(CrossUpTo(pool, u, besti, crosrate, uni, |pool| / 2).pool, lo, hi)
  {
    var q := |pool| / 2;
    var r := CrossUpTo(pool, u, besti, crosrate, uni, q).pool;
    assert Genomes(pool, |lo|);
    forall k | 0 <= k < |r|
      ensures InRange(r[k].genome, lo, hi)
    {
      if k < 2 * q {
        var p := k / 2;
        CrossUpToPairs(pool, u, besti, crosrate, uni, |lo|, q, p);
        ExchangedInRange(pool[2 * p].genome, pool[2 * p + 1].genome, r[2 * p].genome, r[2 * p + 1].genome, lo, hi);
      } else {
        CrossUpToTail(pool, u, besti, crosrate, uni, q, k);
      }
    }
  }

  /** crossovr never touches the schema at besti: the pair holding it is skipped. */
  lemma {:induction false} CrossUpToKeepsElite(pool: seq<Schema>, u: nat, besti: nat, crosrate: real, uni: nat -> real, q: nat)
    requires q <= |pool| / 2 && besti < |pool|
    ensures CrossUpTo(pool, u, besti, crosrate, uni, q).pool[besti] == pool[besti]
  {
    if q > 0 {
      CrossUpToKeepsElite(pool, u, besti, crosrate, uni, q - 1);
      var c := CrossUpTo(pool, u, besti, crosrate, uni, q - 1);
      var i := 2 * (q - 1);
      if besti == i || besti == i + 1 {
        CrossPairFlags(c, i, besti, crosrate, uni);
      } else {
        CrossPairElsewhere(c, i, besti, crosrate, uni, besti);
      }
    }
  }

  /** One pass of crossovr's loop, on the pair (i, i + 1) with the uniform cursor at u. */
  method CrossStep(pool: array<Schema>, i: nat, besti: nat, crosrate: real, uni: nat -> real, genlen: nat, u: nat)
    returns (u': nat)
    requires i + 1 < pool.Length && Genomes(pool[..], genlen)
    modifies pool
    ensures Crossing(pool[..], u') == CrossPair(Crossing(old(pool[..]), u), i, besti, crosrate, uni)
    ensures Genomes(pool[..], genlen)
  {
    var draw := uni(u);
    u' := u + 1;
    if draw < crosrate && !(i == besti || i + 1 == besti) {
      var g1, g2 := pool[i].genome, pool[i + 1].genome;
      var h1, h2 := RecombineGenes(g1, g2, uni, u');
      u' := u' + |g1|;
      var s1, s2 := pool[i].(genome := h1), pool[i + 1].(genome := h2);
      if h1 != g1 {
        s1 := s1.(evalflg := true);
      }
      if h2 != g2 {
        s2 := s2.(evalflg := true);
      }
      assert s1 == Flagged(pool[i], h1) && s2 == Flagged(pool[i + 1], h2);
      assert |h1| == |h2| == genlen;
      pool[i], pool[i + 1] := s1, s2;
      assert pool[..] == old(pool[..])[i := s1][i + 1 := s2];
    }
  }

  /**
   * crossovr on the new pool: pairs (i, i + 1) for even i below
   * poolsize - 1, drawing from cursor u; returns the cursor after the pass.
   */
  method Crossover(pool: array<Schema>, besti: nat, crosrate: real, uni: nat -> real, genlen: nat, u: nat) returns (u': nat)
    requires Genomes(pool[..], genlen)
    modifies pool
    ensures Crossing(pool[..], u') == CrossUpTo(old(pool[..]), u, besti, crosrate, uni, pool.Length / 2)
    ensures Genomes(pool[..], genlen)
  {
    u' := u;
    var i := 0;
    while i < pool.Length - 1
      invariant i % 2 == 0 && i <= pool.Length
      invariant Crossing(pool[..], u') == CrossUpTo(old(pool[..]), u, besti, crosrate, uni, i / 2)
      invariant Genomes(pool[..], genlen)
      decreases pool.Length - i
    {
      u' := CrossStep(pool, i, besti, crosrate, uni, genlen, u');
      i := i + 2;
    }
    assert i / 2 == pool.Length / 2;
  }

  // ----------------------------------------------------------------- mutate

  /** mutate's clamping: to the maximum first, then to the minimum. */
  function Clamp(v: real, lo: real, hi: real): (r: real)
    ensures lo <= hi ==> lo <= r <= hi
    ensures lo <= v <= hi ==> r == v
    ensures hi < lo ==> r == lo
  {
    var w := if v > hi then hi else v;
    if w < lo then lo else w
  }

  /** A genome during mutation, whether a gene of it has been mutated, and the two cursors. */
  datatype Mutation = Mutation(genome: seq<real>, changed: bool, u: nat, g: nat)

  /**
   * Gene j of mutate: a uniform draw below prob moves the gene by scale
   * times a Gaussian draw times the width of its range, then clamps it.
   */
  function MutateGene(m: Mutation, j: nat, lo: seq<real>, hi: seq<real>, prob: real, scale: real,
                      uni: nat -> real, gauss: nat -> real): (r: Mutation)
    requires j < |m.genome| && j < |lo| && j < |hi|
    ensures |r.genome| == |m.genome|
  {
    if uni(m.u) < prob then
      var delta := scale * gauss(m.g) * (hi[j] - lo[j]);
      Mutation(m.genome[j := Clamp(m.genome[j] + delta, lo[j], hi[j])], true, m.u + 1, m.g + 1)
    else Mutation(m.genome, m.changed, m.u + 1, m.g)
  }

  /** mutate on genes 0 .. n - 1 of a genome, from cursors u and g. */
  function MutateUpTo(genome: seq<real>, lo: seq<real>, hi: seq<real>, prob: real, scale: real,
                      uni: nat -> real, gauss: nat -> real, u: nat, g: nat, n: nat): (r: Mutation)
    requires n <= |genome| && n <= |lo| && n <= |hi|
    ensures |r.genome| == |genome|
  {
    if n == 0 then Mutation(genome, false, u, g)
    else MutateGene(MutateUpTo(genome, lo, hi, prob, scale, uni, gauss, u, g, n - 1), n - 1, lo, hi, prob, scale, uni, gauss)
  }

  /**
   * Mutating the first n genes draws exactly n uniforms, leaves the other
   * genes alone, keeps an in-range gene in range, and marks the genome
   * changed whenever it differs.
   */
  lemma {:induction false} MutateUpToFacts(genome: seq<real>, lo: seq<real>, hi: seq<real>, prob: real, scale: real,
                                           uni: nat -> real, gauss: nat -> real, u: nat, g: nat, n: nat, j: nat)
    requires n <= |genome| && n <= |lo| && n <= |hi| && j < |genome|
    ensures var r := MutateUpTo(genome, lo, hi, prob, scale, uni, gauss, u, g, n);
      && r.u == u + n
      && (n <= j ==> r.genome[j] == genome[j])
      && (j < n && lo[j] <= genome[j] <= hi[j] ==> lo[j] <= r.genome[j] <= hi[j])
      && (r.genome != genome ==> r.changed)
  {
    if n > 0 {
      MutateUpToFacts(genome, lo, hi, prob, scale, uni, gauss, u, g, n - 1, j);
      var m := MutateUpTo(genome, lo, hi, prob, scale, uni, gauss, u, g, n - 1);
      if j < n - 1 {
        assert lo[j] <= genome[j] <= hi[j] ==> lo[j] <= m.genome[j] <= hi[j];
      }
    }
  }

  /** The gene loop of mutate for one genome. */
  method MutateGenes(genome: seq<real>, lo: seq<real>, hi: seq<real>, prob: real, scale: real,
                     uni: nat -> real, gauss: nat -> real, u: nat, g: nat) returns (m: Mutation)
    requires |genome| == |lo| == |hi|
    ensures m == MutateUpTo(genome, lo, hi, prob, scale, uni, gauss, u, g, |genome|)
  {
    m := Mutation(genome, false, u, g);
    var j := 0;
    while j < |genome|
      invariant j <= |genome|
      invariant m == MutateUpTo(genome, lo, hi, prob, scale, uni, gauss, u, g, j)
    {
      ghost var next := MutateGene(m, j, lo, hi, prob, scale, uni, gauss);
      if uni(m.u) < prob {
        var delta := scale * gauss(m.g) * (hi[j] - lo[j]);
        var v := m.genome[j] + delta;
        if v > hi[j] {
          v := hi[j];
        }
        if v < lo[j] {
          v := lo[j];
        }
        assert v == Clamp(m.genome[j] + delta, lo[j], hi[j]);
        m := Mutation(m.genome[j := v], true, m.u + 1, m.g + 1);
      } else {
        m := m.(u := m.u + 1);
      }
      assert m == next;
      j := j + 1;
    }
  }

  /** The pool and both cursors during mutate. */
  datatype Mutating = Mutating(pool: seq<Schema>, u: nat, g: nat)

  /** The genes of a genome that have a range: genlen of them in the pool. */
  function Genes(genome: seq<real>, lo: seq<real>): nat {
    if |genome| < |lo| then |genome| else |lo|
  }

  /** mutate on schema i: besti is skipped without a draw; any other is mutated gene by gene and flagged if a gene was. */
  function MutateSchema(c: Mutating, i: nat, besti: nat, lo: seq<real>, hi: seq<real>, prob: real, scale: real,
                        uni: nat -> real, gauss: nat -> real): (r: Mutating)
    requires i < |c.pool| && |lo| == |hi|
    ensures |r.pool| == |c.pool|
  {
    if i == besti then c
    else
      var s := c.pool[i];
      var m := MutateUpTo(s.genome, lo, hi, prob, scale, uni, gauss, c.u, c.g, Genes(s.genome, lo));
      Mutating(c.pool[i := s.(genome := m.genome, evalflg := s.evalflg || m.changed)], m.u, m.g)
  }

  /** mutate over schemata 0 .. n - 1. */
  function MutatePoolUpTo(pool: seq<Schema>, besti: nat, lo: seq<real>, hi: seq<real>, prob: real, scale: real,
                          uni: nat -> real, gauss: nat -> real, u: nat, g: nat, n: nat): (r: Mutating)
    requires n <= |pool| && |lo| == |hi|
    ensures |r.pool| == |pool|
  {
    if n == 0 then Mutating(pool, u, g)
    else MutateSchema(MutatePoolUpTo(pool, besti, lo, hi, prob, scale, uni, gauss, u, g, n - 1), n - 1, besti, lo, hi,
                      prob, scale, uni, gauss)
  }

  /** mutate(prob): nothing happens, and nothing is drawn, unless prob is positive. */
  function MutatePool(pool: seq<Schema>, besti: nat, lo: seq<real>, hi: seq<real>, prob: real, scale: real,
                      uni: nat -> real, gauss: nat -> real, u: nat, g: nat): (r: Mutating)
    requires |lo| == |hi|
    ensures |r.pool| == |pool|
  {
    if prob > 0.0 then MutatePoolUpTo(pool, besti, lo, hi, prob, scale, uni, gauss, u, g, |pool|) else Mutating(pool, u, g)
  }

  /**
   * What mutate may do to one schema: keep its score and weight, keep a
   * flag, flag a changed genome, and keep an in-range genome in range.
   */
  predicate MutatedFrom(s: Schema, t: Schema, lo: seq<real>, hi: seq<real>) {
    && t.perfval == s.perfval && t.selval == s.selval
    && (s.evalflg ==> t.evalflg)
    && (t.genome != s.genome ==> t.evalflg)
    && (InRange(s.genome, lo, hi) ==> InRange(t.genome, lo, hi))
  }

  lemma MutateSchemaGenome(s: Schema, lo: seq<real>, hi: seq<real>, prob: real, scale: real,
                           uni: nat -> real, gauss: nat -> real, u: nat, g: nat)
    requires |lo| == |hi|
    ensures var m := MutateUpTo(s.genome, lo, hi, prob, scale, uni, gauss, u, g, Genes(s.genome, lo));
      MutatedFrom(s, s.(genome := m.genome, evalflg := s.evalflg || m.changed), lo, hi)
  {
    var n := Genes(s.genome, lo);
    var m := MutateUpTo(s.genome, lo, hi, prob, scale, uni, gauss, u, g, n);
    if InRange(s.genome, lo, hi) {
      forall j | 0 <= j < |s.genome|
        ensures lo[j] <= m.genome[j] <= hi[j]
      {
        MutateUpToFacts(s.genome, lo, hi, prob, scale, uni, gauss, u, g, n, j);
      }
    }
    if |s.genome| > 0 {
      MutateUpToFacts(s.genome, lo, hi, prob, scale, uni, gauss, u, g, n, 0);
    } else {
      assert m.genome == s.genome;
    }
  }

  /**
   * After mutating schemata 0 .. n - 1, schema k is untouched when it is
   * besti or not yet reached, and is otherwise MutatedFrom its old self.
   */
  lemma {:induction false} MutatePoolUpToAt(pool: seq<Schema>, besti: nat, lo: seq<real>, hi: seq<real>, prob: real,
                                            scale: real, uni: nat -> real, gauss: nat -> real, u: nat, g: nat, n: nat, k: nat)
    requires n <= |pool| && |lo| == |hi| && k < |pool|
    ensures var r := MutatePoolUpTo(pool, besti, lo, hi, prob, scale, uni, gauss, u, g, n).pool;
      && (k == besti || n <= k ==> r[k] == pool[k])
      && MutatedFrom(pool[k], r[k], lo, hi)
  {
    if n > 0 {
      MutatePoolUpToAt(pool, besti, lo, hi, prob, scale, uni, gauss, u, g, n - 1, k);
      var c := MutatePoolUpTo(pool, besti, lo, hi, prob, scale, uni, gauss, u, g, n - 1);
      if k == n - 1 && k != besti {
        MutateSchemaGenome(c.pool[k], lo, hi, prob, scale, uni, gauss, c.u, c.g);
      }
    }
  }

  /** mutate leaves besti alone and every other schema MutatedFrom its old self. */
  lemma MutatePoolFacts(pool: seq<Schema>, besti: nat, lo: seq<real>, hi: seq<real>, prob: real, scale: real,
                        uni: nat -> real, gauss: nat -> real, u: nat, g: nat)
    requires |lo| == |hi|
    ensures var r := MutatePool(pool, besti, lo, hi, prob, scale, uni, gauss, u, g).pool;
      && (besti < |pool| ==> r[besti] == pool[besti])
      && (forall k :: 0 <= k < |pool| ==> MutatedFrom(pool[k], r[k], lo, hi))
      && (PoolInRange(pool, lo, hi) ==> PoolInRange(r, lo, hi))
  {
    var r := MutatePool(pool, besti, lo, hi, prob, scale, uni, gauss, u, g).pool;
    forall k | 0 <= k < |pool|
      ensures (k == besti ==> r[k] == pool[k]) && MutatedFrom(pool[k], r[k], lo, hi)
    {
      if prob > 0.0 {
        MutatePoolUpToAt(pool, besti, lo, hi, prob, scale, uni, gauss, u, g, |pool|, k);
      }
    }
  }

  /** mutate(prob) on the new pool, from cursors u and g; returns the cursors after it. */
  method Mutate(pool: array<Schema>, besti: nat, lo: seq<real>, hi: seq<real>, prob: real, scale: real,
                uni: nat -> real, gauss: nat -> real, u: nat, g: nat) returns (u': nat, g': nat)
    requires |lo| == |hi| && Genomes(pool[..], |lo|)
    modifies pool
    ensures Mutating(pool[..], u', g') == MutatePool(old(pool[..]), besti, lo, hi, prob, scale, uni, gauss, u, g)
  {
    u', g' := u, g;
    if prob > 0.0 {
      var i := 0;
      while i < pool.Length
        invariant i <= pool.Length && Genomes(pool[..], |lo|)
        invariant Mutating(pool[..], u', g') == MutatePoolUpTo(old(pool[..]), besti, lo, hi, prob, scale, uni, gauss, u, g, i)
      {
        if i != besti {
          var s := pool[i];
          var m := MutateGenes(s.genome, lo, hi, prob, scale, uni, gauss, u', g');
          pool[i] := s.(genome := m.genome, evalflg := s.evalflg || m.changed);
          u', g' := m.u, m.g;
        }
        i := i + 1;
      }
    }
  }

  // ------------------------------------------------------------- statistics

  /** The lowest score among schemata 0 .. k - 1. */
  function MinPerf(pool: seq<Schema>, k: nat): real
    requires 0 < k <= |pool|
  {
    if k == 1 then pool[0].perfval
    else
      var b := MinPerf(pool, k - 1);
      if pool[k - 1].perfval < b then pool[k - 1].perfval else b
  }

  /** The highest score among schemata 0 .. k - 1. */
  function MaxPerf(pool: seq<Schema>, k: nat): real
    requires 0 < k <= |pool|
  {
    if k == 1 then pool[0].perfval
    else
      var w := MaxPerf(pool, k - 1);
      if pool[k - 1].perfval > w then pool[k - 1].perfval else w
  }

  /** The sum of the scores of schemata 0 .. k - 1. */
  function SumPerf(pool: seq<Schema>, k: nat): real
    requires k <= |pool|
  {
    if k == 0 then 0.0 else SumPerf(pool, k - 1) + pool[k - 1].perfval
  }

  /** best and worst bound every score of the first k and are both attained. */
  lemma {:induction false} PerfBounds(pool: seq<Schema>, k: nat)
    requires 0 < k <= |pool|
    ensures forall i :: 0 <= i < k ==> MinPerf(pool, k) <= pool[i].perfval <= MaxPerf(pool, k)
    ensures exists i :: 0 <= i < k && pool[i].perfval == MinPerf(pool, k)
    ensures exists i :: 0 <= i < k && pool[i].perfval == MaxPerf(pool, k)
  {
    if k > 1 {
      PerfBounds(pool, k - 1);
    } else {
      assert pool[0].perfval == MinPerf(pool, k);
    }
  }

  /** The number of flagged schemata among the first k: the evaluations statistics makes. */
  function FlaggedCount(pool: seq<Schema>, k: nat): (n: nat)
    requires k <= |pool|
    ensures n <= k
  {
    if k == 0 then 0 else FlaggedCount(pool, k - 1) + (if pool[k - 1].evalflg then 1 else 0)
  }

  /** No evaluation happens exactly when no schema among the first k is flagged. */
  lemma {:induction false} FlaggedCountZero(pool: seq<Schema>, k: nat)
    requires k <= |pool|
    ensures FlaggedCount(pool, k) == 0 <==> forall i :: 0 <= i < k ==> !pool[i].evalflg
  {
    if k > 0 {
      FlaggedCountZero(pool, k - 1);
    }
  }

  /** The summary loop of statistics: lowest, highest and total score of the pool. */
  method Summarize(pool: array<Schema>) returns (best: real, worst: real, sum: real)
    requires pool.Length > 0
    ensures best == MinPerf(pool[..], pool.Length) && worst == MaxPerf(pool[..], pool.Length)
    ensures sum == SumPerf(pool[..], pool.Length)
  {
    best, worst, sum := pool[0].perfval, pool[0].perfval, pool[0].perfval;
    var i := 1;
    while i < pool.Length
      invariant 1 <= i <= pool.Length
      invariant best == MinPerf(pool[..], i) && worst == MaxPerf(pool[..], i) && sum == SumPerf(pool[..], i)
    {
      sum := sum + pool[i].perfval;
      if pool[i].perfval > worst {
        worst := pool[i].perfval;
      }
      if pool[i].perfval < best {
        best := pool[i].perfval;
      }
      i := i + 1;
    }
  }

  // ------------------------------------------------------------------- eval

  /** The C cast (int) of a gene: truncation toward zero. */
  function Trunc(r: real): (t: int)
    ensures 0.0 <= r ==> t as real <= r < t as real + 1.0
    ensures r < 0.0 ==> t as real - 1.0 < r <= t as real
  {
    if r >= 0.0 then r.Floor else -((-r).Floor)
  }

  /** A gene in [lo, hi] with whole-numbered bounds truncates into [lo, hi]. */
  lemma TruncInRange(r: real, lo: int, hi: int)
    requires 0 <= lo && lo as real <= r <= hi as real
    ensures lo <= Trunc(r) <= hi
  {
  }

  /** The rotations eval stores for a genome: each gene truncated. */
  function Rotations(genome: seq<real>): (rs: seq<int>)
    ensures |rs| == |genome|
  {
    seq(|genome|, j requires 0 <= j < |genome| => Trunc(genome[j]))
  }

  /** Rotations of an in-range genome are whole degrees in [0, 359]. */
  lemma RotationsInRange(genome: seq<real>, lo: seq<real>, hi: seq<real>)
    requires InRange(genome, lo, hi)
    requires forall j :: 0 <= j < |lo| ==> lo[j] == MinParam && hi[j] == MaxParam
    ensures forall j :: 0 <= j < |genome| ==> 0 <= Rotations(genome)[j] <= 359
  {
    forall j | 0 <= j < |genome|
      ensures 0 <= Rotations(genome)[j] <= 359
    {
      TruncInRange(genome[j], 0, 359);
    }
  }

  /** The push_back loop of eval. */
  method TruncateGenome(genome: seq<real>) returns (rotations: seq<int>)
    ensures rotations == Rotations(genome)
  {
    rotations := [];
    var i := 0;
    while i < |genome|
      invariant i <= |genome| && rotations == Rotations(genome)[..i]
    {
      rotations := rotations + [Trunc(genome[i])];
      i := i + 1;
    }
  }
}
