/** Run-length hints of a line: the encoding `toHints` computes for a row or
    a column (Cell.kt), and the facts about it the enumerator and the
    solver rely on. */
module RunLength {
  import opened Seqs

  /** Number of cells holding `b` that the line starts with. */
  function Leading(line: Line, b: bool): (r: nat)
    ensures r <= |line|
    ensures forall i :: 0 <= i < r ==> line[i] == b
    ensures r < |line| ==> line[r] != b
  {
    if line == [] || line[0] != b then 0 else 1 + Leading(line[1..], b)
  }

  /** Length of the run of painted cells the line starts with. */
  function LeadingRun(line: Line): (r: nat)
    ensures r <= |line|
    ensures forall i :: 0 <= i < r ==> line[i]
    ensures r < |line| ==> !line[r]
  {
    Leading(line, true)
  }

  /** The hints of a line: one entry per maximal run of painted cells,
      holding the run's length, in scan order. Unpainted cells give
      nothing. This is the reference the scanning loop of `toHints` and
      the pattern enumerator are both proved against. */
  function Rle(line: Line): (hs: seq<int>)
    ensures AllPositive(hs)
    ensures |hs| <= |line|
    decreases |line|
  {
    if line == [] then []
    else if !line[0] then Rle(line[1..])
    else
      var h := LeadingRun(line);
      [h] + Rle(line[h..])
  }

  /** Number of painted cells. */
  function CountPainted(line: Line): nat {
    if line == [] then 0 else (if line[0] then 1 else 0) + CountPainted(line[1..])
  }

  /** What the loop of `toHints` emits for the rest `line` of a scan when
      `run` painted cells are pending: a painted cell extends the pending
      run, an unpainted one flushes it, and the end of the line flushes it. */
  function Scan(line: Line, run: nat): seq<int> {
    if line == [] then (if run > 0 then [run] else [])
    else if line[0] then Scan(line[1..], run + 1)
    else (if run > 0 then [run] else []) + Scan(line[1..], 0)
  }

  /** A painted first cell belongs to the leading run: the run is one
      longer than the rest's, and ends at the same place. */
  lemma LeadingRunStep(line: Line)
    requires line != [] && line[0]
    ensures LeadingRun(line) == 1 + LeadingRun(line[1..])
    ensures line[LeadingRun(line)..] == line[1..][LeadingRun(line[1..])..]
  {
    assert Leading(line, true) == 1 + Leading(line[1..], true);
  }

  /** The scan with a pending run agrees with the maximal-run hints: the
      pending run joins the line's leading run into one hint. */
  lemma {:induction false} ScanIsRle(line: Line, run: nat)
    ensures Scan(line, run) ==
      if run == 0 then Rle(line)
      else [run + LeadingRun(line)] + Rle(line[LeadingRun(line)..])
    decreases |line|
  {
    if line == [] {
    } else if line[0] {
      ScanIsRle(line[1..], run + 1);
      LeadingRunStep(line);
    } else {
      ScanIsRle(line[1..], 0);
      assert line[0..] == line;
    }
  }

  /** Unpainted cells in front of a line do not change its hints. */
  lemma {:induction false} RleLeadingGap(j: nat, s: Line)
    ensures Rle(Fill(j, false) + s) == Rle(s)
  {
    if j == 0 {
      assert Fill(0, false) + s == s;
    } else {
      var x := Fill(j, false) + s;
      assert x[1..] == Fill(j - 1, false) + s;
      RleLeadingGap(j - 1, s);
    }
  }

  /** A run of `h` painted cells, ended by the end of the line or by an
      unpainted cell, contributes exactly the hint `h`. */
  lemma RleRun(h: nat, s: Line)
    requires h >= 1
    requires s == [] || !s[0]
    ensures Rle(Fill(h, true) + s) == [h] + Rle(s)
  {
    var x := Fill(h, true) + s;
    assert x[h..] == s;
    assert forall i :: 0 <= i < h ==> x[i];
    assert h < |x| ==> !x[h];
    assert LeadingRun(x) == h;
  }

  /** A line is its leading gap followed by the rest, and the gap does not
      change its hints; if it has hints, the gap is not the whole line. */
  lemma GapSplit(t: Line)
    ensures t == Fill(Leading(t, false), false) + t[Leading(t, false)..]
    ensures Rle(t) == Rle(t[Leading(t, false)..])
    ensures Rle(t) != [] ==> Leading(t, false) < |t|
  {
    var j := Leading(t, false);
    FillPrefix(t, j, false);
    RleLeadingGap(j, t[j..]);
    RleEmptyIff(t);
  }

  /** A line that starts painted is its leading run followed by the rest,
      and the run is its first hint. */
  lemma RunSplit(u: Line)
    requires u != [] && u[0]
    ensures u == Fill(LeadingRun(u), true) + u[LeadingRun(u)..]
    ensures Rle(u) == [LeadingRun(u)] + Rle(u[LeadingRun(u)..])
  {
    var h := LeadingRun(u);
    FillPrefix(u, h, true);
  }

  /** A line has no hints exactly when nothing in it is painted. */
  lemma {:induction false} RleEmptyIff(line: Line)
    ensures Rle(line) == [] <==> forall i :: 0 <= i < |line| ==> !line[i]
    decreases |line|
  {
    if line != [] && !line[0] {
      RleEmptyIff(line[1..]);
      assert forall i :: 1 <= i < |line| ==> line[i] == line[1..][i - 1];
    }
  }

  lemma {:induction false} CountPaintedRun(line: Line, k: nat)
    requires k <= |line|
    requires forall i :: 0 <= i < k ==> line[i]
    ensures CountPainted(line) == k + CountPainted(line[k..])
  {
    if k == 0 {
      assert line[0..] == line;
    } else {
      CountPaintedRun(line[1..], k - 1);
      assert line[1..][k - 1..] == line[k..];
    }
  }

  /** The hints add up to the number of painted cells. */
  lemma {:induction false} RleSum(line: Line)
    ensures Sum(Rle(line)) == CountPainted(line)
    decreases |line|
  {
    if line == [] {
    } else if !line[0] {
      RleSum(line[1..]);
    } else {
      var h := LeadingRun(line);
      RleSum(line[h..]);
      CountPaintedRun(line, h);
    }
  }

  /** A line is at least as long as its runs packed with one gap each. */
  lemma {:induction false} RleMinLength(line: Line)
    ensures MinLength(Rle(line)) <= |line|
    decreases |line|
  {
    if line == [] {
    } else if !line[0] {
      RleMinLength(line[1..]);
    } else {
      var h := LeadingRun(line);
      var rest := Rle(line[h..]);
      assert Rle(line) == [h] + rest;
      assert ([h] + rest)[1..] == rest;
      assert Sum([h] + rest) == h + Sum(rest);
      if rest == [] {
        assert MinLength(Rle(line)) == h;
      } else {
        assert line[h..] != [] && !line[h..][0];
        assert Rle(line[h..]) == Rle(line[h + 1..]) by {
          assert line[h..][1..] == line[h + 1..];
        }
        RleMinLength(line[h + 1..]);
        assert MinLength(Rle(line)) == h + 1 + MinLength(rest);
      }
    }
  }
}
