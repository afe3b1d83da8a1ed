/** The puzzle generator of LogicCreator.kt: a sampled square grid is
    accepted when enough of its row and column hints force a painted cell
    (the density filter) and its hints have at most one solution. */
module Creator {
  import opened Seqs
  import opened RunLength
  import opened LinePatterns
  import opened Transposer
  import opened Resolver
  import opened Cells

  datatype Option<T> = None | Some(value: T)

  // ---------------------------------------------------------------------
  // The density filter.

  /** `reduce { acc, i -> acc + i + 1 }` carried on from `acc` over
      `rest`. */
  function ReduceFrom(acc: int, rest: seq<int>): int
    decreases |rest|
  {
    if rest == [] then acc else ReduceFrom(acc + rest[0] + 1, rest[1..])
  }

  /** The `reduce` of `firstPaintable`: the first hint, then each further
      hint plus one gap. */
  function Reduce(hints: seq<int>): (total: int)
    requires hints != []
    ensures total == MinLength(hints)
  {
    ReduceSum(hints[0], hints[1..]);
    assert hints == [hints[0]] + hints[1..];
    SumAppend([hints[0]], hints[1..]);
    ReduceFrom(hints[0], hints[1..])
  }

  lemma {:induction false} ReduceSum(acc: int, rest: seq<int>)
    ensures ReduceFrom(acc, rest) == acc + Sum(rest) + |rest|
    decreases |rest|
  {
    if rest != [] {
      ReduceSum(acc + rest[0] + 1, rest[1..]);
    }
  }

  /** `firstPaintable`: a line whose hints are packed with single gaps
      leaves `margin` free cells; it is eligible when some hint is longer
      than that margin. An empty hint list is never eligible. */
  function FirstPaintable(hints: seq<int>, dataSize: int): (eligible: bool)
    ensures eligible <==>
      hints != [] && exists i :: 0 <= i < |hints| && hints[i] > dataSize - MinLength(hints)
  {
    if hints == [] then false
    else
      var margin := dataSize - Reduce(hints);
      exists i :: 0 <= i < |hints| && hints[i] > margin
  }

  /** A line packed exactly (margin zero) is always eligible. */
  lemma PackedEligible(hints: seq<int>, dataSize: int)
    requires hints != [] && AllPositive(hints) && MinLength(hints) == dataSize
    ensures FirstPaintable(hints, dataSize)
  {
    assert hints[0] > dataSize - MinLength(hints);
  }

  /** The first run of a line with hints `hs` starts at `j`, no later than
      the margin, and the rest of the line after it and its gap has the
      remaining hints with a margin `j` smaller. */
  lemma FirstRunShift(t: Line, hs: seq<int>) returns (j: nat, rest: Line)
    requires hs != [] && Rle(t) == hs
    ensures t == Head(|t|, j, hs[0]) + rest && Rle(rest) == hs[1..]
    ensures j <= |t| - MinLength(hs)
    ensures forall p :: j <= p < j + hs[0] ==> 0 <= p < |t| && t[p]
    ensures |hs| > 1 ==>
      |Head(|t|, j, hs[0])| == j + hs[0] + 1
      && |rest| - MinLength(hs[1..]) == |t| - MinLength(hs) - j
  {
    j, rest := SplitFirstRun(t, hs);
    var h := hs[0];
    var head := Head(|t|, j, h);
    RleMinLength(rest);
    assert hs == [h] + hs[1..];
    SumAppend([h], hs[1..]);
    if |hs| > 1 {
      assert Rle([]) == [];
      assert rest != [];
      assert |head| == j + h + 1;
    }
    forall p | j <= p < j + h
      ensures 0 <= p < |t| && t[p]
    {
      assert head[p] == Fill(h, true)[p - j];
    }
  }

  /** Why the filter works: when hint `i` is longer than the margin, the
      cell `margin` past the leftmost start of run `i` is painted in every
      line of those hints. */
  lemma {:induction false} ForcedCell(t: Line, hs: seq<int>, i: nat)
    requires Rle(t) == hs && i < |hs|
    requires hs[i] > |t| - MinLength(hs)
    ensures 0 <= Sum(hs[..i]) + i + (|t| - MinLength(hs)) < |t|
    ensures t[Sum(hs[..i]) + i + (|t| - MinLength(hs))]
    decreases i
  {
    var margin := |t| - MinLength(hs);
    var j, rest := FirstRunShift(t, hs);
    var h := hs[0];
    if i == 0 {
      assert hs[..0] == [];
      assert j <= margin < j + h;
    } else {
      var head := Head(|t|, j, h);
      assert hs[1..][i - 1] == hs[i];
      ForcedCell(rest, hs[1..], i - 1);
      var p := Sum(hs[1..][..i - 1]) + (i - 1) + (margin - j);
      assert hs[..i] == [h] + hs[1..][..i - 1];
      SumAppend([h], hs[1..][..i - 1]);
      assert Sum(hs[..i]) + i + margin == |head| + p;
      assert t[|head| + p] == rest[p];
    }
  }

  /** Cell `k` is painted in every line of `dataSize` cells with these
      hints. */
  predicate ForcedAt(dataSize: nat, hints: seq<int>, k: int)
    requires AllPositive(hints)
  {
    forall t :: t in Tails(dataSize, hints) ==> 0 <= k < |t| && t[k]
  }

  /** A line that has any solution and is eligible has a cell that every
      solution paints. */
  lemma EligibleForces(hints: seq<int>, dataSize: nat)
    requires AllPositive(hints) && MinLength(hints) <= dataSize
    requires FirstPaintable(hints, dataSize)
    ensures exists k :: 0 <= k < dataSize && ForcedAt(dataSize, hints, k)
  {
    var margin := dataSize - MinLength(hints);
    var i :| 0 <= i < |hints| && hints[i] > margin;
    var k := Sum(hints[..i]) + i + margin;
    PrefixSumBound(hints, i);
    TailsSound(dataSize, hints);
    forall t | t in Tails(dataSize, hints)
      ensures 0 <= k < |t| && t[k]
    {
      assert Fits(t, dataSize, hints);
      ForcedCell(t, hints, i);
    }
    assert ForcedAt(dataSize, hints, k);
  }

  lemma PrefixSumBound(hints: seq<int>, i: nat)
    requires AllPositive(hints) && i < |hints|
    ensures 0 <= Sum(hints[..i]) + i
    ensures Sum(hints[..i]) + i + hints[i] <= MinLength(hints)
  {
    assert hints == hints[..i] + [hints[i]] + hints[i + 1..];
    SumAppend(hints[..i] + [hints[i]], hints[i + 1..]);
    SumAppend(hints[..i], [hints[i]]);
    SumNonNegative(hints[..i]);
    SumNonNegative(hints[i + 1..]);
  }

  lemma {:induction false} SumNonNegative(hs: seq<int>)
    requires AllPositive(hs)
    ensures Sum(hs) >= |hs|
  {
    if hs != [] {
      SumNonNegative(hs[1..]);
    }
  }

  /** The hint lists that pass `firstPaintable`, in order: the
      `filter` of `paintableRate`. */
  function Eligible(hintsList: seq<seq<int>>, dataSize: int): (r: seq<seq<int>>)
    ensures |r| <= |hintsList|
    ensures forall h :: h in r <==> h in hintsList && FirstPaintable(h, dataSize)
    ensures forall h :: multiset(r)[h] == if FirstPaintable(h, dataSize) then multiset(hintsList)[h] else 0
  {
    if hintsList == [] then []
    else
      assert hintsList == [hintsList[0]] + hintsList[1..];
      (if FirstPaintable(hintsList[0], dataSize) then [hintsList[0]] else [])
      + Eligible(hintsList[1..], dataSize)
  }

  /** `paintableRate() < MinimumPaintableRate` with the rate 0.3: fewer than
      three in ten of `dataSize` lines are eligible. */
  predicate RateTooLow(hintsList: seq<seq<int>>, dataSize: int) {
    10 * |Eligible(hintsList, dataSize)| < 3 * dataSize
  }

  /** Lists in which every line is eligible pass the filter, for any
      positive size they count. */
  lemma {:induction false} AllEligible(hintsList: seq<seq<int>>, dataSize: int)
    requires forall i :: 0 <= i < |hintsList| ==> FirstPaintable(hintsList[i], dataSize)
    ensures |Eligible(hintsList, dataSize)| == |hintsList|
  {
    if hintsList != [] {
      AllEligible(hintsList[1..], dataSize);
    }
  }

  // ---------------------------------------------------------------------
  // Acceptance.

  /** The accept rule of `createAndTestify` on the hints of a grid of
      `dataSize` rows and columns. */
  predicate Accepts(dataSize: nat, candidate: Grid)
    requires Rect(candidate, dataSize, dataSize) && dataSize >= 1
  {
    var rowHints := RowHints(candidate);
    var columnHints := ColumnHints(candidate, dataSize);
    !RateTooLow(rowHints, dataSize) && !RateTooLow(columnHints, dataSize)
    && |SolutionSet(rowHints, columnHints)| <= 1
  }

  lemma Singleton<T>(s: set<T>, x: T)
    requires x in s && |s| <= 1
    ensures s == {x}
  {
    var r := s - {x};
    assert s == r + {x};
    assert |s| == |r| + 1;
    assert r == {};
  }

  /** An accepted grid is the one and only solution of its own hints. */
  lemma AcceptedIsUnique(dataSize: nat, candidate: Grid)
    requires Rect(candidate, dataSize, dataSize) && dataSize >= 1
    requires Accepts(dataSize, candidate)
    ensures SolutionSet(RowHints(candidate), ColumnHints(candidate, dataSize)) == {candidate}
    ensures forall g :: Solves(g, RowHints(candidate), ColumnHints(candidate, dataSize)) <==> g == candidate
  {
    var rowHints := RowHints(candidate);
    var columnHints := ColumnHints(candidate, dataSize);
    OwnHintsSolved(candidate, dataSize);
    Singleton(SolutionSet(rowHints, columnHints), candidate);
    forall g ensures Solves(g, rowHints, columnHints) <==> g == candidate {
      SolutionSetIsSolutions(rowHints, columnHints, g);
    }
  }

  /** `createAndTestify` on the sampled grid `candidate`: computes the cells
      and their hints, rejects a grid whose row or column hints are too
      rarely eligible or whose hints have more than one solution, and
      otherwise returns the grid unchanged. */
  method CreateAndTestify(dataSize: nat, candidate: Grid) returns (r: Option<Grid>)
    requires Rect(candidate, dataSize, dataSize) && dataSize >= 1
    ensures r.Some? <==> Accepts(dataSize, candidate)
    ensures r.Some? ==> r.value == candidate
  {
    var data := FromLogicData(candidate);
    HintsOfCells(candidate, dataSize, dataSize);
    var rowHints := ToRowHints(data);
    var columnHints := ToColumnHints(data);
    assert rowHints == RowHints(candidate);
    assert columnHints == ColumnHints(candidate, dataSize);
    if RateTooLow(rowHints, dataSize) {
      return None;
    }
    if RateTooLow(columnHints, dataSize) {
      return None;
    }
    var solutions := Resolve(rowHints, columnHints);
    if |solutions| > 1 {
      return None;
    }
    return Some(candidate);
  }

  /** Every sample is a grid of `dataSize` rows and columns. */
  predicate AllSquare(samples: seq<Grid>, dataSize: nat) {
    forall i :: 0 <= i < |samples| ==> Rect(samples[i], dataSize, dataSize)
  }

  /** The first sample the accept rule takes, if any. */
  function FirstAccepted(dataSize: nat, samples: seq<Grid>): Option<Grid>
    requires AllSquare(samples, dataSize) && dataSize >= 1
  {
    if samples == [] then None
    else if Accepts(dataSize, samples[0]) then Some(samples[0])
    else FirstAccepted(dataSize, samples[1..])
  }

  /** What `create` hands out is an accepted sample, and the unique
      solution of its own hints; nothing is handed out only when no sample
      is accepted. */
  lemma {:induction false} FirstAcceptedSound(dataSize: nat, samples: seq<Grid>)
    requires AllSquare(samples, dataSize) && dataSize >= 1
    ensures FirstAccepted(dataSize, samples).Some? ==>
      var g := FirstAccepted(dataSize, samples).value;
      g in samples && Rect(g, dataSize, dataSize) && Accepts(dataSize, g)
      && SolutionSet(RowHints(g), ColumnHints(g, dataSize)) == {g}
    ensures FirstAccepted(dataSize, samples).None? <==>
      forall i :: 0 <= i < |samples| ==> !Accepts(dataSize, samples[i])
  {
    if samples != [] {
      FirstAcceptedSound(dataSize, samples[1..]);
      if Accepts(dataSize, samples[0]) {
        AcceptedIsUnique(dataSize, samples[0]);
      } else {
        assert forall i :: 1 <= i < |samples| ==> samples[i] == samples[1..][i - 1];
      }
    }
  }

  /** `create`: tests sampled grids in turn until one is accepted. The
      random sampler is the sequence `samples` of grids it would draw; the
      result is `None` only when that sequence runs out. */
  method Create(dataSize: nat, samples: seq<Grid>) returns (candidate: Option<Grid>)
    requires AllSquare(samples, dataSize) && dataSize >= 1
    ensures candidate == FirstAccepted(dataSize, samples)
  {
    candidate := None;
    var drawn := 0;
    while candidate == None && drawn < |samples|
      invariant drawn <= |samples|
      invariant candidate == None ==> FirstAccepted(dataSize, samples) == FirstAccepted(dataSize, samples[drawn..])
      invariant candidate != None ==> candidate == FirstAccepted(dataSize, samples)
    {
      candidate := CreateAndTestify(dataSize, samples[drawn]);
      assert samples[drawn..][1..] == samples[drawn + 1..];
      drawn := drawn + 1;
    }
    if candidate == None {
      assert samples[drawn..] == [];
    }
  }
}
