/** The grid expander of Resolver.kt (`patterns`, `generatePattern`):
    given one list of candidate lines per row (or per column), every grid
    that picks one candidate for each, built by a depth-first search that
    pushes a candidate on a working list, recurses, and pops it again. */
module Expander {
  import opened Seqs

  /** Every way to pick one line from each candidate list, in the order
      the search records them: by the first list's candidate, then
      recursively by the picks from the remaining lists. */
  function Product(positions: seq<seq<Line>>): seq<Grid>
    decreases |positions|, 1, 0
  {
    if positions == [] then [[]] else Choices(positions, |positions[0]|)
  }

  /** The picks that take one of the first `c` candidates of the first
      list. */
  function Choices(positions: seq<seq<Line>>, c: nat): seq<Grid>
    requires positions != [] && c <= |positions[0]|
    decreases |positions|, 0, c
  {
    if c == 0 then []
    else Choices(positions, c - 1) + Prefixed([positions[0][c - 1]], Product(positions[1..]))
  }

  /** `g` takes one candidate from each list, in order. */
  predicate Picks(g: Grid, positions: seq<seq<Line>>) {
    |g| == |positions| && forall i :: 0 <= i < |g| ==> g[i] in positions[i]
  }

  predicate AllPick(s: seq<Grid>, positions: seq<seq<Line>>) {
    forall g :: g in s ==> Picks(g, positions)
  }

  /** The number of grids the expansion yields: the product of the list
      sizes. */
  function Count(positions: seq<seq<Line>>): nat {
    if positions == [] then 1 else |positions[0]| * Count(positions[1..])
  }

  // ---------------------------------------------------------------------
  // What the expansion is: its size, soundness, completeness, no repetition.

  lemma {:induction false} ProductSize(positions: seq<seq<Line>>)
    ensures |Product(positions)| == Count(positions)
    decreases |positions|, 1, 0
  {
    if positions != [] {
      ChoicesSize(positions, |positions[0]|);
    }
  }

  lemma {:induction false} ChoicesSize(positions: seq<seq<Line>>, c: nat)
    requires positions != [] && c <= |positions[0]|
    ensures |Choices(positions, c)| == c * Count(positions[1..])
    decreases |positions|, 0, c
  {
    if c > 0 {
      var n := Count(positions[1..]);
      ChoicesSize(positions, c - 1);
      ProductSize(positions[1..]);
      assert |Choices(positions, c)| == (c - 1) * n + n;
      assert (c - 1) * n + n == c * n;
    }
  }

  /** A candidate list with no line in it leaves no grid. */
  lemma NoCandidate(positions: seq<seq<Line>>, i: nat)
    requires i < |positions| && positions[i] == []
    ensures Product(positions) == []
  {
    ProductSize(positions);
    CountZero(positions, i);
  }

  lemma {:induction false} CountZero(positions: seq<seq<Line>>, i: nat)
    requires i < |positions| && positions[i] == []
    ensures Count(positions) == 0
  {
    if i > 0 {
      CountZero(positions[1..], i - 1);
    }
  }

  /** A pick of the first list's `c`-th candidate followed by picks of the
      rest is a pick of all lists. */
  lemma PrefixedPicks(positions: seq<seq<Line>>, c: nat)
    requires positions != [] && c < |positions[0]|
    requires AllPick(Product(positions[1..]), positions[1..])
    ensures AllPick(Prefixed([positions[0][c]], Product(positions[1..])), positions)
  {
    var rest := Product(positions[1..]);
    forall g | g in Prefixed([positions[0][c]], rest)
      ensures Picks(g, positions)
    {
      var k :| 0 <= k < |rest| && g == [positions[0][c]] + rest[k];
      assert Picks(rest[k], positions[1..]);
      forall i | 0 <= i < |g|
        ensures g[i] in positions[i]
      {
        if i > 0 {
          assert g[i] == rest[k][i - 1];
        }
      }
    }
  }

  /** Soundness: every grid of the expansion picks one candidate per
      list. */
  lemma {:induction false} ProductSound(positions: seq<seq<Line>>)
    ensures AllPick(Product(positions), positions)
    decreases |positions|, 1, 0
  {
    if positions != [] {
      ChoicesSound(positions, |positions[0]|);
    }
  }

  lemma {:induction false} ChoicesSound(positions: seq<seq<Line>>, c: nat)
    requires positions != [] && c <= |positions[0]|
    ensures AllPick(Choices(positions, c), positions)
    decreases |positions|, 0, c
  {
    if c > 0 {
      ChoicesSound(positions, c - 1);
      ProductSound(positions[1..]);
      PrefixedPicks(positions, c - 1);
    }
  }

  /** Completeness: every grid that picks one candidate per list is in the
      expansion. */
  lemma {:induction false} ProductComplete(positions: seq<seq<Line>>, g: Grid)
    requires Picks(g, positions)
    ensures g in Product(positions)
    decreases |positions|
  {
    if positions != [] {
      var rest := g[1..];
      assert Picks(rest, positions[1..]) by {
        forall i | 0 <= i < |rest|
          ensures rest[i] in positions[1..][i]
        {
          assert rest[i] == g[i + 1];
        }
      }
      ProductComplete(positions[1..], rest);
      var c :| 0 <= c < |positions[0]| && positions[0][c] == g[0];
      PrefixedMember([g[0]], Product(positions[1..]), rest);
      assert [g[0]] + rest == g;
      ChoicesGrow(positions, c, |positions[0]|);
    }
  }

  lemma {:induction false} ChoicesGrow(positions: seq<seq<Line>>, c: nat, k: nat)
    requires positions != [] && c < k <= |positions[0]|
    ensures forall g :: g in Prefixed([positions[0][c]], Product(positions[1..])) ==> g in Choices(positions, k)
    decreases k
  {
    if c < k - 1 {
      ChoicesGrow(positions, c, k - 1);
    }
  }

  /** Every grid of the chosen first line starts with that line. */
  predicate AllStartWith(s: seq<Grid>, x: Line) {
    forall g :: g in s ==> g != [] && g[0] == x
  }

  /** When no list repeats a candidate, no grid is expanded twice. */
  lemma {:induction false} ProductDistinct(positions: seq<seq<Line>>)
    requires forall i :: 0 <= i < |positions| ==> Distinct(positions[i])
    ensures Distinct(Product(positions))
    decreases |positions|, 1, 0
  {
    if positions != [] {
      ChoicesDistinct(positions, |positions[0]|);
    }
  }

  lemma {:induction false} ChoicesDistinct(positions: seq<seq<Line>>, c: nat)
    requires positions != [] && c <= |positions[0]|
    requires forall i :: 0 <= i < |positions| ==> Distinct(positions[i])
    ensures Distinct(Choices(positions, c))
    ensures forall g :: g in Choices(positions, c) ==> g != [] && g[0] in positions[0][..c]
    decreases |positions|, 0, c
  {
    if c > 0 {
      var x := positions[0][c - 1];
      var rest := Product(positions[1..]);
      ChoicesDistinct(positions, c - 1);
      ProductDistinct(positions[1..]);
      DistinctPrefixed([x], rest);
      assert AllStartWith(Prefixed([x], rest), x);
      forall g | g in Choices(positions, c - 1)
        ensures g !in Prefixed([x], rest)
      {
        var k :| 0 <= k < c - 1 && positions[0][k] == g[0];
        assert positions[0][k] != positions[0][c - 1];
      }
      DistinctAppend(Choices(positions, c - 1), Prefixed([x], rest));
      assert positions[0][..c] == positions[0][..c - 1] + [x];
    }
  }

  // ---------------------------------------------------------------------
  // The depth-first search over a working list.

  /** The working list `currentPattern` of `generatePattern`: the
      candidates picked so far, one per list already visited. */
  class PatternStack {
    var rows: seq<Line>

    constructor ()
      ensures rows == []
    {
      rows := [];
    }
  }

  /** With nothing left to pick, the one recorded grid is the working
      list. */
  lemma Finished(rows: seq<Line>)
    ensures Prefixed(rows, Product([])) == [rows]
  {
    assert rows + [] == rows;
  }

  /** Recording the grids of one more candidate of the current list
      extends the recorded grids by that candidate's picks. */
  lemma NextChoice(before: seq<Line>, positions: seq<seq<Line>>, c: nat,
                   pre: seq<Grid>, acc: seq<Grid>, out: seq<Grid>)
    requires positions != [] && c < |positions[0]|
    requires acc == pre + Prefixed(before, Choices(positions, c))
    requires out == acc + Prefixed(before + [positions[0][c]], Product(positions[1..]))
    ensures out == pre + Prefixed(before, Choices(positions, c + 1))
  {
    var rest := Product(positions[1..]);
    PrefixedPrefixed(before, [positions[0][c]], rest);
    PrefixedAppend(before, Choices(positions, c), Prefixed([positions[0][c]], rest));
  }

  /** `generatePattern`: extends the working list with one candidate of
      each list from `currentPosition` on, appending every completed grid
      to `patterns`, and leaves the working list as it found it. */
  method GeneratePattern(positions: seq<seq<Line>>, currentPosition: nat,
                         currentPattern: PatternStack, patterns: seq<Grid>)
    returns (out: seq<Grid>)
    modifies currentPattern
    ensures currentPattern.rows == old(currentPattern.rows)
    ensures var from := if currentPosition <= |positions| then currentPosition else |positions|;
      out == patterns + Prefixed(old(currentPattern.rows), Product(positions[from..]))
    decreases |positions| - currentPosition
  {
    ghost var before := currentPattern.rows;
    if currentPosition >= |positions| {
      out := patterns + [currentPattern.rows];
      assert positions[|positions|..] == [];
      Finished(before);
      return;
    }
    ghost var ps := positions[currentPosition..];
    assert ps[1..] == positions[currentPosition + 1..];
    var currentCandidates := positions[currentPosition];
    out := patterns;
    for c := 0 to |currentCandidates|
      invariant currentPattern.rows == before
      invariant out == patterns + Prefixed(before, Choices(ps, c))
    {
      var candidate := currentCandidates[c];
      currentPattern.rows := currentPattern.rows + [candidate];
      ghost var acc := out;
      out := GeneratePattern(positions, currentPosition + 1, currentPattern, out);
      NextChoice(before, ps, c, patterns, acc, out);
      currentPattern.rows := currentPattern.rows[..|currentPattern.rows| - 1];
      assert currentPattern.rows == before;
    }
  }

  /** `patterns`: every grid that picks one candidate per list, each grid
      once when no list repeats a candidate. */
  method Patterns(positions: seq<seq<Line>>) returns (patterns: seq<Grid>)
    ensures patterns == Product(positions)
    ensures forall g :: g in patterns <==> Picks(g, positions)
    ensures |patterns| == Count(positions)
  {
    var currentPattern := new PatternStack();
    patterns := GeneratePattern(positions, 0, currentPattern, []);
    assert positions[0..] == positions;
    PrefixedNil(Product(positions));
    ProductSound(positions);
    forall g | Picks(g, positions)
      ensures g in patterns
    {
      ProductComplete(positions, g);
    }
    ProductSize(positions);
  }
}
