/** The input of the arrangement search: contact lines, the topology line, and
    the checks that stop the program before any layout is attempted. */
module Contacts {
  import Tokenize

  /**
   * One line of the input file, already classified. A contact line names
   * two residues a, b and the helices c, d (counted from 1) they belong to;
   * the topology line carries the comma-separated helix boundary list.
   */
  datatype InputLine =
    | ContactLine(a: int, b: int, c: int, d: int)
    | TopologyLine(field: string)
    | OtherLine

  /** An entry of residues_to_helices: residue pair (a, b) of helices (c, d). */
  datatype ResidueContact = ResidueContact(residues: (int, int), helices: (int, int))

  /** The edge list after one more line: a contact's helix pair, counted from 0, is added unless present. */
  function AddEdge(es: seq<(int, int)>, line: InputLine): seq<(int, int)> {
    match line
    case ContactLine(_, _, c, d) => if (c - 1, d - 1) in es then es else es + [(c - 1, d - 1)]
    case _ => es
  }

  /** The contact edges of the first n lines, each kept once, in order of first appearance. */
  function EdgesUpTo(lines: seq<InputLine>, n: nat): seq<(int, int)>
    requires n <= |lines|
  {
    if n == 0 then [] else AddEdge(EdgesUpTo(lines, n - 1), lines[n - 1])
  }

  function Edges(lines: seq<InputLine>): seq<(int, int)> {
    EdgesUpTo(lines, |lines|)
  }

  /** The pairs (h1[i], h2[i]). */
  function Zip(h1: seq<int>, h2: seq<int>): (ps: seq<(int, int)>)
    requires |h1| == |h2|
    ensures |ps| == |h1|
  {
    if h1 == [] then [] else Zip(h1[..|h1| - 1], h2[..|h2| - 1]) + [(h1[|h1| - 1], h2[|h2| - 1])]
  }

  lemma ZipAppend(h1: seq<int>, h2: seq<int>, c: int, d: int)
    requires |h1| == |h2|
    ensures Zip(h1 + [c], h2 + [d]) == Zip(h1, h2) + [(c, d)]
  {
  }

  lemma ZipContains(h1: seq<int>, h2: seq<int>, e: (int, int))
    requires |h1| == |h2|
    ensures e in Zip(h1, h2) <==> exists i :: 0 <= i < |h1| && (h1[i], h2[i]) == e
  {
    if e in Zip(h1, h2) {
      var i :| 0 <= i < |h1| && Zip(h1, h2)[i] == e;
    }
  }

  predicate DistinctPairs(es: seq<(int, int)>) {
    forall i, k :: 0 <= i < k < |es| ==> es[i] != es[k]
  }

  /** The stored pairs are pairwise distinct, and they are exactly the helix pairs of the contact lines. */
  lemma {:induction false} EdgesDistinctAndComplete(lines: seq<InputLine>, n: nat)
    requires n <= |lines|
    ensures DistinctPairs(EdgesUpTo(lines, n))
    ensures forall e :: e in EdgesUpTo(lines, n) <==>
      exists i :: 0 <= i < n && lines[i].ContactLine? && e == (lines[i].c - 1, lines[i].d - 1)
  {
    if n > 0 {
      EdgesDistinctAndComplete(lines, n - 1);
      var es := EdgesUpTo(lines, n - 1);
      forall e
        ensures e in EdgesUpTo(lines, n) <==>
          exists i :: 0 <= i < n && lines[i].ContactLine? && e == (lines[i].c - 1, lines[i].d - 1)
      {
        if e in EdgesUpTo(lines, n) && e !in es {
          assert lines[n - 1].ContactLine? && e == (lines[n - 1].c - 1, lines[n - 1].d - 1);
        }
      }
    }
  }

  /** The residue-contact entries after one more line. */
  function AddResidues(m: seq<ResidueContact>, line: InputLine): seq<ResidueContact> {
    match line
    case ContactLine(a, b, c, d) => Insert(m, ResidueContact((a, b), (c, d)))
    case _ => m
  }

  /** The residue-contact entries after the first n lines: a residue pair seen before keeps its first entry. */
  function ResidueMapUpTo(start: seq<ResidueContact>, lines: seq<InputLine>, n: nat): seq<ResidueContact>
    requires n <= |lines|
  {
    if n == 0 then start else AddResidues(ResidueMapUpTo(start, lines, n - 1), lines[n - 1])
  }

  predicate HasKey(m: seq<ResidueContact>, key: (int, int)) {
    exists i :: 0 <= i < |m| && m[i].residues == key
  }

  /** map::insert: a new key is added, an existing key keeps its value. */
  function Insert(m: seq<ResidueContact>, e: ResidueContact): (r: seq<ResidueContact>)
    ensures HasKey(m, e.residues) ==> r == m
    ensures !HasKey(m, e.residues) ==> r == m + [e]
  {
    if exists i :: 0 <= i < |m| && m[i].residues == e.residues then m else m + [e]
  }

  predicate DistinctKeys(m: seq<ResidueContact>) {
    forall i, k :: 0 <= i < k < |m| ==> m[i].residues != m[k].residues
  }

  /**
   * Reading keeps the residue keys distinct, never changes an entry already
   * present, and leaves every contact line's residue pair with an entry.
   */
  lemma {:induction false} ResidueMapKeys(start: seq<ResidueContact>, lines: seq<InputLine>, n: nat)
    requires n <= |lines| && DistinctKeys(start)
    ensures DistinctKeys(ResidueMapUpTo(start, lines, n))
    ensures start <= ResidueMapUpTo(start, lines, n)
    ensures forall i :: 0 <= i < n && lines[i].ContactLine? ==>
      HasKey(ResidueMapUpTo(start, lines, n), (lines[i].a, lines[i].b))
  {
    if n > 0 {
      ResidueMapKeys(start, lines, n - 1);
      var m := ResidueMapUpTo(start, lines, n - 1);
      var r := ResidueMapUpTo(start, lines, n);
      assert m <= r;
      forall i | 0 <= i < n && lines[i].ContactLine?
        ensures HasKey(r, (lines[i].a, lines[i].b))
      {
        if i < n - 1 {
          var w :| 0 <= w < |m| && m[w].residues == (lines[i].a, lines[i].b);
          assert r[w] == m[w];
        } else if !HasKey(m, (lines[i].a, lines[i].b)) {
          assert r[|m|].residues == (lines[i].a, lines[i].b);
        }
      }
    }
  }

  /** The boundary list after one more line: a topology line's tokens are appended. */
  function AddBoundaries(bs: seq<int>, line: InputLine): seq<int> {
    match line
    case TopologyLine(field) => bs + Tokenize.Tokens(field)
    case _ => bs
  }

  /** The boundary list after the topology lines among the first n lines are tokenized onto it. */
  function BoundariesUpTo(start: seq<int>, lines: seq<InputLine>, n: nat): seq<int>
    requires n <= |lines|
  {
    if n == 0 then start else AddBoundaries(BoundariesUpTo(start, lines, n - 1), lines[n - 1])
  }

  /** Why the program stops before drawing anything. */
  datatype InputError = NoContacts | UnevenBoundaries | NoHelices

  datatype Result<T> = Ok(value: T) | Err(error: InputError)

  /**
   * The checks after reading, in the source's order: some contact edge, an
   * even number of boundaries, and at least one helix; then the helix count
   * is half the boundary count.
   */
  function Validate(edges: nat, boundaries: seq<int>): (r: Result<nat>)
    ensures r.Ok? <==> edges > 0 && |boundaries| % 2 == 0 && |boundaries| >= 2
    ensures r.Ok? ==> r.value >= 1 && 2 * r.value == |boundaries|
    ensures edges == 0 ==> r == Err(NoContacts)
    ensures edges > 0 && |boundaries| % 2 == 1 ==> r == Err(UnevenBoundaries)
    ensures edges > 0 && boundaries == [] ==> r == Err(NoHelices)
  {
    if edges == 0 then Err(NoContacts)
    else if |boundaries| % 2 == 1 then Err(UnevenBoundaries)
    else
      var total := |boundaries| / 2;
      if total == 0 then Err(NoHelices) else Ok(total)
  }

  /** The duplicate test of the reading loop: how often (c, d) already occurs as (h1[i], h2[i]). */
  method CountPair(h1: seq<int>, h2: seq<int>, c: int, d: int) returns (tag: nat)
    requires |h1| == |h2|
    ensures tag == 0 <==> forall i :: 0 <= i < |h1| ==> (h1[i], h2[i]) != (c, d)
  {
    tag := 0;
    var i := 0;
    while i < |h1|
      invariant 0 <= i <= |h1|
      invariant tag == 0 <==> forall k :: 0 <= k < i ==> (h1[k], h2[k]) != (c, d)
    {
      if h1[i] == c && h2[i] == d {
        tag := tag + 1;
      }
      i := i + 1;
    }
  }
}
