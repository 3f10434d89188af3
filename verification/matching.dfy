/** The test swap_helices applies to a pair of helices (h, j): are their
    contact lists close enough for the two helices to trade places? */
module Matching {

  /**
   * The contact list of helix h built from the first n edges (h1[i], h2[i]):
   * for each edge, in order, the other end when h1[i] == h, then the other
   * end when h2[i] == h (a self-contact contributes h twice).
   */
  function NeighboursUpTo(h1: seq<int>, h2: seq<int>, h: int, n: nat): (c: seq<int>)
    requires |h1| == |h2| && n <= |h1|
  {
    if n == 0 then []
    else
      NeighboursUpTo(h1, h2, h, n - 1)
      + (if h1[n - 1] == h then [h2[n - 1]] else [])
      + (if h2[n - 1] == h then [h1[n - 1]] else [])
  }

  function Neighbours(h1: seq<int>, h2: seq<int>, h: int): seq<int>
    requires |h1| == |h2|
  {
    NeighboursUpTo(h1, h2, h, |h1|)
  }

  /** x is in h's contact list exactly when some edge joins h and x. */
  lemma {:induction false} NeighboursMembers(h1: seq<int>, h2: seq<int>, h: int, n: nat, x: int)
    requires |h1| == |h2| && n <= |h1|
    ensures x in NeighboursUpTo(h1, h2, h, n) <==>
      exists i :: 0 <= i < n && ((h1[i] == h && h2[i] == x) || (h2[i] == h && h1[i] == x))
  {
    if n > 0 {
      NeighboursMembers(h1, h2, h, n - 1, x);
    }
  }

  /** Number of l in [0, m) with b[l] == x. */
  function RowEqual(x: int, b: seq<int>, m: nat): (n: nat)
    requires m <= |b|
    ensures n <= m
  {
    if m == 0 then 0 else RowEqual(x, b, m - 1) + (if b[m - 1] == x then 1 else 0)
  }

  /** Number of pairs (k, l), k < n, with a[k] == b[l]. */
  function EqualUpTo(a: seq<int>, b: seq<int>, n: nat): (e: nat)
    requires n <= |a|
    ensures e <= n * |b|
  {
    if n == 0 then 0 else EqualUpTo(a, b, n - 1) + RowEqual(a[n - 1], b, |b|)
  }

  /** Some l < m has x != b[l] while x == j: the credit for h's list containing j. */
  function RowJ(x: int, b: seq<int>, j: int, m: nat): bool
    requires m <= |b|
  {
    m > 0 && (RowJ(x, b, j, m - 1) || (x != b[m - 1] && x == j))
  }

  /** Some l < m has x != b[l], x != j and b[l] == h: the credit for j's list containing h. */
  function RowH(x: int, b: seq<int>, h: int, j: int, m: nat): bool
    requires m <= |b|
  {
    m > 0 && (RowH(x, b, h, j, m - 1) || (x != b[m - 1] && x != j && b[m - 1] == h))
  }

  function JCreditUpTo(a: seq<int>, b: seq<int>, j: int, n: nat): bool
    requires n <= |a|
  {
    n > 0 && (JCreditUpTo(a, b, j, n - 1) || RowJ(a[n - 1], b, j, |b|))
  }

  function HCreditUpTo(a: seq<int>, b: seq<int>, h: int, j: int, n: nat): bool
    requires n <= |a|
  {
    n > 0 && (HCreditUpTo(a, b, h, j, n - 1) || RowH(a[n - 1], b, h, j, |b|))
  }

  /** Whether the scan over all pairs (k, l) raises seen_j, and seen_h. */
  function JCredit(a: seq<int>, b: seq<int>, j: int): bool { JCreditUpTo(a, b, j, |a|) }
  function HCredit(a: seq<int>, b: seq<int>, h: int, j: int): bool { HCreditUpTo(a, b, h, j, |a|) }
  function EqualPairs(a: seq<int>, b: seq<int>): nat { EqualUpTo(a, b, |a|) }

  lemma {:induction false} RowJExists(x: int, b: seq<int>, j: int, m: nat)
    requires m <= |b|
    ensures RowJ(x, b, j, m) <==> exists l :: 0 <= l < m && x != b[l] && x == j
  {
    if m > 0 {
      RowJExists(x, b, j, m - 1);
    }
  }

  lemma {:induction false} RowHExists(x: int, b: seq<int>, h: int, j: int, m: nat)
    requires m <= |b|
    ensures RowH(x, b, h, j, m) <==> exists l :: 0 <= l < m && x != b[l] && x != j && b[l] == h
  {
    if m > 0 {
      RowHExists(x, b, h, j, m - 1);
    }
  }

  /** seen_j is raised exactly when some unequal pair (k, l) has a[k] == j. */
  lemma {:induction false} JCreditExists(a: seq<int>, b: seq<int>, j: int, n: nat)
    requires n <= |a|
    ensures JCreditUpTo(a, b, j, n) <==> exists k, l :: 0 <= k < n && 0 <= l < |b| && a[k] != b[l] && a[k] == j
  {
    if n > 0 {
      JCreditExists(a, b, j, n - 1);
      RowJExists(a[n - 1], b, j, |b|);
    }
  }

  /** seen_h is raised exactly when some unequal pair (k, l) has a[k] != j and b[l] == h. */
  lemma {:induction false} HCreditExists(a: seq<int>, b: seq<int>, h: int, j: int, n: nat)
    requires n <= |a|
    ensures HCreditUpTo(a, b, h, j, n) <==>
      exists k, l :: 0 <= k < n && 0 <= l < |b| && a[k] != b[l] && a[k] != j && b[l] == h
  {
    if n > 0 {
      HCreditExists(a, b, h, j, n - 1);
      RowHExists(a[n - 1], b, h, j, |b|);
    }
  }

  /**
   * The match test of swap_helices for helices h < j with contact lists a and
   * b, when `seen` holds the pairs already marked in helix_swaps_seen.
   * `correct` counts equal entry pairs plus the two one-off credits; it is
   * only computed for an unseen pair; the target grows by one when both
   * credits are used, and a pair of singleton lists using both is refused.
   */
  predicate IsMatch(a: seq<int>, b: seq<int>, h: int, j: int, seen: set<(int, int)>) {
    && |a| == |b| && |a| > 0
    && var scored := (h, j) !in seen;
       var seenJ := scored && JCredit(a, b, j);
       var seenH := scored && HCredit(a, b, h, j);
       var correct := if scored then EqualPairs(a, b) + (if seenJ then 1 else 0) + (if seenH then 1 else 0) else 0;
       var required := |a| + (if seenJ && seenH then 1 else 0);
       (if seenJ && seenH && |a| == 1 then -1 else correct) == required
  }

  /** A pair already in helix_swaps_seen is never matched again. */
  lemma MatchNeedsUnseen(a: seq<int>, b: seq<int>, h: int, j: int, seen: set<(int, int)>)
    requires IsMatch(a, b, h, j, seen)
    ensures (h, j) !in seen && |a| == |b| && |a| > 0
  {
  }

  /**
   * With one contact each there is a single pair (0, 0), and the else-if
   * chain gives it at most one credit, so the size-1 refusal never applies.
   */
  lemma SingletonCreditsExclusive(a: seq<int>, b: seq<int>, h: int, j: int)
    requires |a| == 1 && |b| == 1
    ensures !(JCredit(a, b, j) && HCredit(a, b, h, j))
  {
    JCreditExists(a, b, j, 1);
    HCreditExists(a, b, h, j, 1);
  }

  /** Two distinct helices in contact only with each other can trade places. */
  lemma MutualPairMatches(h: int, j: int, seen: set<(int, int)>)
    requires h != j && (h, j) !in seen
    ensures IsMatch([j], [h], h, j, seen)
  {
    JCreditExists([j], [h], j, 1);
    HCreditExists([j], [h], h, j, 1);
    assert EqualPairs([j], [h]) == 0 by {
      assert RowEqual(j, [h], 1) == 0;
    }
  }

  /** Entries of b are pairwise distinct. */
  predicate Distinct(b: seq<int>) {
    forall l, m :: 0 <= l < m < |b| ==> b[l] != b[m]
  }

  lemma {:induction false} RowEqualOnce(x: int, b: seq<int>, m: nat)
    requires m <= |b| && Distinct(b)
    ensures x in b[..m] ==> RowEqual(x, b, m) == 1
    ensures x !in b[..m] ==> RowEqual(x, b, m) == 0
  {
    if m > 0 {
      RowEqualOnce(x, b, m - 1);
      assert b[..m] == b[..m - 1] + [b[m - 1]];
      if b[m - 1] == x {
        assert x !in b[..m - 1];
      }
    }
  }

  lemma {:induction false} EqualPairsAllPresent(a: seq<int>, b: seq<int>, n: nat)
    requires n <= |a| && Distinct(b)
    requires forall k :: 0 <= k < |a| ==> a[k] in b
    ensures EqualUpTo(a, b, n) == n
  {
    if n > 0 {
      EqualPairsAllPresent(a, b, n - 1);
      assert b[..|b|] == b;
      RowEqualOnce(a[n - 1], b, |b|);
    }
  }

  /**
   * Two helices with the same contacts, neither listing the other, can trade
   * places: every entry of h's list occurs once in j's (distinct) list.
   */
  lemma SameContactsMatch(a: seq<int>, b: seq<int>, h: int, j: int, seen: set<(int, int)>)
    requires |a| == |b| && |a| > 0 && (h, j) !in seen
    requires Distinct(b) && forall k :: 0 <= k < |a| ==> a[k] in b
    requires j !in a && h !in b
    ensures IsMatch(a, b, h, j, seen)
  {
    EqualPairsAllPresent(a, b, |a|);
    JCreditExists(a, b, j, |a|);
    HCreditExists(a, b, h, j, |a|);
  }

  /** The contact-list loop of swap_helices for helix h. */
  method NeighbourList(h1: seq<int>, h2: seq<int>, h: int) returns (c: seq<int>)
    requires |h1| == |h2|
    ensures c == Neighbours(h1, h2, h)
  {
    c := [];
    var i := 0;
    while i < |h1|
      invariant 0 <= i <= |h1|
      invariant c == NeighboursUpTo(h1, h2, h, i)
    {
      if h1[i] == h {
        c := c + [h2[i]];
      }
      if h2[i] == h {
        c := c + [h1[i]];
      }
      i := i + 1;
    }
  }

  /** The scoring scan of swap_helices over all pairs (k, l) of the two lists. */
  method ScoreContacts(a: seq<int>, b: seq<int>, h: int, j: int) returns (correct: nat, seenJ: bool, seenH: bool)
    ensures seenJ == JCredit(a, b, j) && seenH == HCredit(a, b, h, j)
    ensures correct == EqualPairs(a, b) + (if seenJ then 1 else 0) + (if seenH then 1 else 0)
  {
    correct, seenJ, seenH := 0, false, false;
    var k := 0;
    while k < |a|
      invariant 0 <= k <= |a|
      invariant seenJ == JCreditUpTo(a, b, j, k) && seenH == HCreditUpTo(a, b, h, j, k)
      invariant correct == EqualUpTo(a, b, k) + (if seenJ then 1 else 0) + (if seenH then 1 else 0)
    {
      var l := 0;
      ghost var rowStartJ, rowStartH := seenJ, seenH;
      while l < |b|
        invariant 0 <= l <= |b|
        invariant seenJ == (rowStartJ || RowJ(a[k], b, j, l))
        invariant seenH == (rowStartH || RowH(a[k], b, h, j, l))
        invariant correct == EqualUpTo(a, b, k) + RowEqual(a[k], b, l) + (if seenJ then 1 else 0) + (if seenH then 1 else 0)
      {
        if a[k] == b[l] {
          correct := correct + 1;
        } else if a[k] == j {
          if !seenJ {
            seenJ := true;
            correct := correct + 1;
          }
        } else if b[l] == h {
          if !seenH {
            seenH := true;
            correct := correct + 1;
          }
        }
        l := l + 1;
      }
      k := k + 1;
    }
  }

  /**
   * The test for the pair (h, j) with contact lists hContact and jContact:
   * when the lists are non-empty and of equal length, score them unless the
   * pair has been seen, then compare the score with the target.
   */
  method TestPair(hContact: seq<int>, jContact: seq<int>, h: int, j: int, seen: set<(int, int)>) returns (matched: bool)
    ensures matched == IsMatch(hContact, jContact, h, j, seen)
  {
    matched := false;
    if |hContact| == |jContact| && |hContact| > 0 {
      var requiredScore: int := |hContact|;
      var correct: int := 0;
      var seenJ, seenH := false, false;
      if (h, j) !in seen {
        var c: nat;
        c, seenJ, seenH := ScoreContacts(hContact, jContact, h, j);
        correct := c;
      }
      if seenH && seenJ {
        requiredScore := requiredScore + 1;
      }
      if seenH && seenJ && |hContact| == 1 {
        correct := -1;
      }
      matched := correct == requiredScore;
    }
  }
}
