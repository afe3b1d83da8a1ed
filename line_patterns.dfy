/** The line-pattern enumerator of Resolver.kt (`generatePaintedPatterns`,
    `generatePatterns`): a backtracking search that paints each run in
    turn at every start position on a scratch boolean array, records the
    array once every run is placed, and unpaints before moving on. */
module LinePatterns {
  import opened Seqs
  import opened RunLength

  /** Every filling of `m` cells whose runs are `hs`, in the order in which
      the search records them: by the start of the first run, then
      recursively by the fillings of what follows it. */
  function Tails(m: nat, hs: seq<int>): seq<Line>
    requires AllPositive(hs)
    decreases |hs|, 1, 0
  {
    if hs == [] then [Fill(m, false)] else Placements(m, hs, m)
  }

  /** The fillings whose first run starts at one of the positions 0 .. k-1. */
  function Placements(m: nat, hs: seq<int>, k: nat): seq<Line>
    requires AllPositive(hs) && hs != []
    decreases |hs|, 0, k
  {
    if k == 0 then [] else Placements(m, hs, k - 1) + Placed(m, hs, k - 1)
  }

  /** The cells a filling starts with when its first run, of length `h`,
      starts at `j`: `j` gaps, the run, and the gap after the run unless
      the run ends the line. */
  function Head(m: nat, j: nat, h: nat): Line {
    Fill(j, false) + Fill(h, true) + Fill(if j + h < m then 1 else 0, false)
  }

  /** The fillings whose first run starts at position `j`. */
  function Placed(m: nat, hs: seq<int>, j: nat): seq<Line>
    requires AllPositive(hs) && hs != []
    decreases |hs|, 0, 0
  {
    var h := hs[0];
    if j + h > m then []
    else Prefixed(Head(m, j, h), Tails(m - |Head(m, j, h)|, hs[1..]))
  }

  // ---------------------------------------------------------------------
  // What the fillings are: soundness, completeness, no repetition.

  /** `x` is a filling of `m` cells with the runs `hs`. */
  predicate Fits(x: Line, m: nat, hs: seq<int>) {
    |x| == m && Rle(x) == hs
  }

  predicate AllFit(s: seq<Line>, m: nat, hs: seq<int>) {
    forall x :: x in s ==> Fits(x, m, hs)
  }

  /** Every line of `s` starts with exactly `j` unpainted cells. */
  predicate AllGapsAre(s: seq<Line>, j: nat) {
    forall x :: x in s ==> Leading(x, false) == j
  }

  /** Every line of `s` starts with fewer than `k` unpainted cells. */
  predicate AllGapsBelow(s: seq<Line>, k: nat) {
    forall x :: x in s ==> Leading(x, false) < k
  }

  lemma AllFitAppend(a: seq<Line>, b: seq<Line>, m: nat, hs: seq<int>)
    requires AllFit(a, m, hs) && AllFit(b, m, hs)
    ensures AllFit(a + b, m, hs)
  {
  }

  lemma GapsAppend(a: seq<Line>, b: seq<Line>, k: nat)
    requires k >= 1 && AllGapsBelow(a, k - 1) && AllGapsAre(b, k - 1)
    ensures AllGapsBelow(a + b, k)
  {
  }

  /** The fillings of `Placed(m, hs, j)` fit and start with `j` gaps. */
  lemma {:induction false} PlacedSound(m: nat, hs: seq<int>, j: nat)
    requires AllPositive(hs) && hs != []
    ensures AllFit(Placed(m, hs, j), m, hs) && AllGapsAre(Placed(m, hs, j), j)
    decreases |hs|, 0, 0
  {
    var h := hs[0];
    if j + h <= m {
      var head := Head(m, j, h);
      var rest := Tails(m - |head|, hs[1..]);
      TailsSound(m - |head|, hs[1..]);
      forall k | 0 <= k < |rest|
        ensures Fits(head + rest[k], m, hs) && Leading(head + rest[k], false) == j
      {
        HeadThenTail(m, j, hs, rest[k]);
      }
      PrefixedSound(head, rest, m, hs, j);
    }
  }

  lemma PrefixedSound(head: Line, rest: seq<Line>, m: nat, hs: seq<int>, j: nat)
    requires forall k :: 0 <= k < |rest| ==>
      Fits(head + rest[k], m, hs) && Leading(head + rest[k], false) == j
    ensures AllFit(Prefixed(head, rest), m, hs) && AllGapsAre(Prefixed(head, rest), j)
  {
  }

  /** One filling of a placement: the head followed by a filling of the
      rest of the runs. */
  lemma HeadThenTail(m: nat, j: nat, hs: seq<int>, t: Line)
    requires AllPositive(hs) && hs != [] && j + hs[0] <= m
    requires Fits(t, m - |Head(m, j, hs[0])|, hs[1..])
    ensures Fits(Head(m, j, hs[0]) + t, m, hs)
    ensures Leading(Head(m, j, hs[0]) + t, false) == j
  {
    var h := hs[0];
    var g := if j + h < m then 1 else 0;
    var x := Head(m, j, h) + t;
    assert x == Fill(j, false) + (Fill(h, true) + (Fill(g, false) + t));
    RleLeadingGap(j, Fill(h, true) + (Fill(g, false) + t));
    if g == 1 {
      RleRun(h, Fill(g, false) + t);
      RleLeadingGap(1, t);
    } else {
      assert Fill(g, false) + t == [];
      RleRun(h, []);
    }
    assert hs == [h] + hs[1..];
    assert x[j];
  }

  /** The fillings of `Placements(m, hs, k)` fit and start with fewer than
      `k` gaps. */
  lemma {:induction false} PlacementsSound(m: nat, hs: seq<int>, k: nat)
    requires AllPositive(hs) && hs != []
    ensures AllFit(Placements(m, hs, k), m, hs) && AllGapsBelow(Placements(m, hs, k), k)
    decreases |hs|, 0, k
  {
    if k > 0 {
      PlacementsSound(m, hs, k - 1);
      PlacedSound(m, hs, k - 1);
      AllFitAppend(Placements(m, hs, k - 1), Placed(m, hs, k - 1), m, hs);
      GapsAppend(Placements(m, hs, k - 1), Placed(m, hs, k - 1), k);
    }
  }

  /** Soundness: every enumerated filling has length `m` and re-encodes to
      `hs`. */
  lemma {:induction false} TailsSound(m: nat, hs: seq<int>)
    requires AllPositive(hs)
    ensures AllFit(Tails(m, hs), m, hs)
    decreases |hs|, 1, 0
  {
    if hs == [] {
      RleEmptyIff(Fill(m, false));
    } else {
      PlacementsSound(m, hs, m);
    }
  }

  lemma {:induction false} PlacementsGrow(m: nat, hs: seq<int>, j: nat, k: nat)
    requires AllPositive(hs) && hs != []
    requires j < k
    ensures forall x :: x in Placed(m, hs, j) ==> x in Placements(m, hs, k)
  {
    if j < k - 1 {
      PlacementsGrow(m, hs, j, k - 1);
    }
  }

  /** A line whose runs are non-empty is its first run's head followed by a
      line holding the remaining runs. */
  lemma SplitFirstRun(t: Line, hs: seq<int>) returns (j: nat, rest: Line)
    requires hs != [] && Rle(t) == hs
    ensures j + hs[0] <= |t|
    ensures t == Head(|t|, j, hs[0]) + rest
    ensures Rle(rest) == hs[1..]
  {
    j := Leading(t, false);
    var u := t[j..];
    GapSplit(t);
    RunSplit(u);
    var h := LeadingRun(u);
    var v := u[h..];
    var g := if h < |u| then 1 else 0;
    rest := v[g..];
    assert h == hs[0] && Rle(v) == hs[1..];
    FillPrefix(v, g, false);
    RleLeadingGap(g, rest);
    Regroup(Fill(j, false), Fill(h, true), Fill(g, false), rest);
  }

  /** Completeness: every line of length `m` whose runs are `hs` is
      enumerated. */
  lemma {:induction false} TailsComplete(m: nat, hs: seq<int>, t: Line)
    requires AllPositive(hs)
    requires |t| == m && Rle(t) == hs
    ensures t in Tails(m, hs)
    decreases |hs|
  {
    if hs == [] {
      RleEmptyIff(t);
      assert t == Fill(m, false);
    } else {
      var j, rest := SplitFirstRun(t, hs);
      var head := Head(m, j, hs[0]);
      TailsComplete(m - |head|, hs[1..], rest);
      PrefixedMember(head, Tails(m - |head|, hs[1..]), rest);
      assert t in Placed(m, hs, j);
      PlacementsGrow(m, hs, j, m);
    }
  }

  /** No filling is enumerated twice. */
  lemma {:induction false} TailsDistinct(m: nat, hs: seq<int>)
    requires AllPositive(hs)
    ensures Distinct(Tails(m, hs))
    decreases |hs|, 1, 0
  {
    if hs != [] {
      PlacementsDistinct(m, hs, m);
    }
  }

  lemma {:induction false} PlacementsDistinct(m: nat, hs: seq<int>, k: nat)
    requires AllPositive(hs) && hs != []
    ensures Distinct(Placements(m, hs, k))
    decreases |hs|, 0, k
  {
    if k > 0 {
      PlacementsDistinct(m, hs, k - 1);
      PlacedDistinct(m, hs, k - 1);
      PlacementsSound(m, hs, k - 1);
      PlacedSound(m, hs, k - 1);
      DistinctAppend(Placements(m, hs, k - 1), Placed(m, hs, k - 1));
    }
  }

  lemma {:induction false} PlacedDistinct(m: nat, hs: seq<int>, j: nat)
    requires AllPositive(hs) && hs != []
    ensures Distinct(Placed(m, hs, j))
    decreases |hs|, 0, 0
  {
    var h := hs[0];
    if j + h <= m {
      var head := Head(m, j, h);
      TailsDistinct(m - |head|, hs[1..]);
      DistinctPrefixed(head, Tails(m - |head|, hs[1..]));
    }
  }

  /** A line too short for the runs packed with single gaps has no
      filling: the enumeration is empty rather than an error. */
  lemma TailsTooShort(m: nat, hs: seq<int>)
    requires AllPositive(hs)
    ensures MinLength(hs) > m ==> Tails(m, hs) == []
  {
    TailsSound(m, hs);
    if Tails(m, hs) != [] {
      var t := Tails(m, hs)[0];
      assert Fits(t, m, hs);
      RleMinLength(t);
    }
  }

  // ---------------------------------------------------------------------
  // The backtracking search over a scratch array.

  /** No cell from `from` on is painted. */
  predicate Unpainted(s: Line, from: nat) {
    forall k :: from <= k < |s| ==> !s[k]
  }

  /** `b` is `a` with cells `[from, to)` set to `v`. */
  predicate Overwritten(a: Line, b: Line, from: nat, to: nat, v: bool) {
    |a| == |b| && forall k :: 0 <= k < |a| ==> b[k] == (if from <= k < to then v else a[k])
  }

  /** Where the search for the next run resumes after a run on `[i, to)`:
      one cell past the gap, or the end of the line. */
  function Resume(to: nat, size: nat): nat {
    if to + 1 <= size then to + 1 else size
  }

  /** The scratch array with cells `[i, i + h)` painted, cut where the
      search resumes, is what it was before the first run was placed
      followed by the head of a placement at `i - start`. */
  lemma PaintedHead(before: Line, painted: Line, start: nat, i: nat, h: nat)
    requires start <= i && i + h <= |before|
    requires Unpainted(before, start) && Overwritten(before, painted, i, i + h, true)
    ensures painted[..Resume(i + h, |before|)] == before[..start] + Head(|before| - start, i - start, h)
    ensures Unpainted(painted, i + h)
  {
    var resume := Resume(i + h, |before|);
    var head := Head(|before| - start, i - start, h);
    assert |head| == resume - start;
    forall k | 0 <= k < resume
      ensures painted[..resume][k] == (before[..start] + head)[k]
    {
      if k >= start {
        assert head[k - start] == (i <= k < i + h);
      }
    }
  }

  /** Recording the fillings of one more start position extends the
      recorded list by the next placement. */
  lemma NextPlacement(p: Line, m: nat, hs: seq<int>, j: nat, pre: seq<Line>, acc: seq<Line>, out: seq<Line>)
    requires AllPositive(hs) && hs != [] && j + hs[0] <= m
    requires acc == pre + Prefixed(p, Placements(m, hs, j))
    requires out == acc + Prefixed(p + Head(m, j, hs[0]), Tails(m - |Head(m, j, hs[0])|, hs[1..]))
    ensures out == pre + Prefixed(p, Placements(m, hs, j + 1))
  {
    var head := Head(m, j, hs[0]);
    var rest := Tails(m - |head|, hs[1..]);
    PrefixedPrefixed(p, head, rest);
    PrefixedAppend(p, Placements(m, hs, j), Placed(m, hs, j));
  }

  /** One turn of the search loop that places the first run at `i`: the
      patterns the recursive search appended on the painted array are the
      fillings of the placement at `i - start`. */
  lemma PlaceStep(before: Line, painted: Line, start: nat, i: nat, hs: seq<int>,
                  pre: seq<Line>, acc: seq<Line>, out: seq<Line>)
    requires AllPositive(hs) && hs != [] && start <= i && i + hs[0] <= |before|
    requires Unpainted(before, start) && Overwritten(before, painted, i, i + hs[0], true)
    requires acc == pre + Prefixed(before[..start], Placements(|before| - start, hs, i - start))
    requires out == acc + Prefixed(painted[..Resume(i + hs[0], |before|)],
                                   Tails(|before| - Resume(i + hs[0], |before|), hs[1..]))
    ensures out == pre + Prefixed(before[..start], Placements(|before| - start, hs, i - start + 1))
  {
    PaintedHead(before, painted, start, i, hs[0]);
    NextPlacement(before[..start], |before| - start, hs, i - start, pre, acc, out);
  }

  /** Unpainting the run just painted gives the array back. */
  lemma Restored(before: Line, painted: Line, after: Line, start: nat, i: nat, h: nat)
    requires start <= i && Unpainted(before, start)
    requires Overwritten(before, painted, i, i + h, true)
    requires Overwritten(painted, after, i, i + h, false)
    ensures after == before
  {
  }

  /** A start position from which the first run overhangs the line adds
      no filling. */
  lemma NoPlacement(m: nat, hs: seq<int>, j: nat)
    requires AllPositive(hs) && hs != [] && j + hs[0] > m
    ensures Placements(m, hs, j + 1) == Placements(m, hs, j)
  {
    assert Placements(m, hs, j) + [] == Placements(m, hs, j);
  }

  /** With no run left, the only filling of the cells from `done` on
      leaves them unpainted, so the one recorded pattern is the array. */
  lemma Completed(before: Line, done: nat)
    requires done <= |before| && Unpainted(before, done)
    ensures Prefixed(before[..done], Tails(|before| - done, [])) == [before]
  {
    assert before[done..] == Fill(|before| - done, false);
    assert before == before[..done] + before[done..];
  }

  /** The two `for (j in i until i + currentValue)` loops of
      `generatePatterns`: sets cells `[from, to)` to `v`, nothing else. */
  method SetRun(a: array<bool>, from: nat, to: nat, v: bool)
    requires from <= to <= a.Length
    modifies a
    ensures Overwritten(old(a[..]), a[..], from, to, v)
  {
    for j := from to to
      invariant forall k :: 0 <= k < a.Length ==> a[k] == (if from <= k < j then v else old(a[k]))
    {
      a[j] := v;
    }
  }

  /** `generatePatterns`: places the runs `numbers[currentIndex..]` from
      cell `startIndex` on, painting each run on `currentPattern` and
      unpainting it after the recursive search, and appends every completed
      pattern to `patterns`. The cells before `startIndex` hold the runs
      already placed; the cells from `startIndex` on are unpainted. On
      return the scratch array is as it was, and exactly the fillings of
      the remaining cells, in search order, have been appended. */
  method GeneratePatterns(size: nat, numbers: seq<int>, startIndex: nat, currentIndex: nat,
                          currentPattern: array<bool>, patterns: seq<Line>)
    returns (out: seq<Line>)
    requires AllPositive(numbers) && currentIndex <= |numbers|
    requires currentPattern.Length == size && startIndex <= size + 1
    requires Unpainted(currentPattern[..], startIndex)
    modifies currentPattern
    ensures currentPattern[..] == old(currentPattern[..])
    ensures var done := if startIndex <= size then startIndex else size;
      out == patterns + Prefixed(old(currentPattern[..done]), Tails(size - done, numbers[currentIndex..]))
    decreases |numbers| - currentIndex
  {
    ghost var done := if startIndex <= size then startIndex else size;
    ghost var before := currentPattern[..];
    ghost var hs := numbers[currentIndex..];
    if currentIndex == |numbers| {
      out := patterns + [currentPattern[..]];
      Completed(before, done);
      return;
    }
    assert hs[1..] == numbers[currentIndex + 1..];
    out := patterns;
    var i := startIndex;
    while i < size
      invariant startIndex <= i && (i <= size || i == startIndex)
      invariant currentPattern[..] == before
      invariant out == patterns + Prefixed(before[..done], Placements(size - done, hs, i - startIndex))
    {
      // paint the current run at `i`
      var currentValue := numbers[currentIndex];
      if i + currentValue <= size {
        SetRun(currentPattern, i, i + currentValue, true);
        ghost var painted := currentPattern[..];
        PaintedHead(before, painted, startIndex, i, currentValue);
        ghost var acc := out;
        out := GeneratePatterns(size, numbers, i + currentValue + 1, currentIndex + 1, currentPattern, out);
        PlaceStep(before, painted, startIndex, i, hs, patterns, acc, out);
        // unpaint it
        SetRun(currentPattern, i, i + currentValue, false);
        Restored(before, painted, currentPattern[..], startIndex, i, currentValue);
      } else {
        NoPlacement(size - done, hs, i - startIndex);
      }
      i := i + 1;
    }
  }

  /** `generatePaintedPatterns`: every line of `size` cells whose runs are
      `numbers`, each once, in search order. */
  method GeneratePaintedPatterns(size: nat, numbers: seq<int>) returns (patterns: seq<Line>)
    requires AllPositive(numbers)
    ensures patterns == Tails(size, numbers)
    ensures forall t :: t in patterns <==> |t| == size && Rle(t) == numbers
    ensures Distinct(patterns)
    ensures numbers == [] ==> patterns == [Fill(size, false)]
    ensures MinLength(numbers) > size ==> patterns == []
  {
    var currentPattern := new bool[size](_ => false);
    ghost var none := currentPattern[..0];
    patterns := GeneratePatterns(size, numbers, 0, 0, currentPattern, []);
    assert numbers[0..] == numbers && none == [];
    PrefixedNil(Tails(size, numbers));
    TailsSound(size, numbers);
    forall t | |t| == size && Rle(t) == numbers
      ensures t in patterns
    {
      TailsComplete(size, numbers, t);
    }
    TailsDistinct(size, numbers);
    TailsTooShort(size, numbers);
  }
}
