/**
 The penalty of one row or column. The source scans the line once, with a run length and a
 history of seven runs; here that scan is proved to compute a count stated on the cells.
 */
module LinePenalty {
  const PENALTY_N1 := 3
  const PENALTY_N3 := 40

  // ----- What is counted -----

  /** The colour of a cell; everything outside the line is white. */
  predicate Black(line: seq<bool>, i: int)
  {
    0 <= i < |line| && line[i]
  }

  predicate Uniform(line: seq<bool>, from: int, to: int, colour: bool)
  {
    forall i :: from <= i < to ==> Black(line, i) == colour
  }

  /** Black, white, black, white, black in the ratio 1:1:3:1:1, n cells a unit, from cell p. */
  predicate Core(line: seq<bool>, p: int, n: int)
  {
    && n >= 1
    && Uniform(line, p, p + n, true)
    && Uniform(line, p + n, p + 2 * n, false)
    && Uniform(line, p + 2 * n, p + 5 * n, true)
    && Uniform(line, p + 5 * n, p + 6 * n, false)
    && Uniform(line, p + 6 * n, p + 7 * n, true)
  }

  /** A core with a quiet zone of `before` units in front and `after` units behind. */
  predicate Finder(line: seq<bool>, p: int, n: int, before: nat, after: nat)
  {
    && Core(line, p, n)
    && Uniform(line, p - before * n, p, false)
    && Uniform(line, p + 7 * n, p + 7 * n + after * n, false)
  }

  /** The finder-like patterns, as pairs of start and unit, that end before cell `limit`. */
  ghost function Finders(line: seq<bool>, before: nat, after: nat, limit: int): set<(int, int)>
  {
    set p, n | 0 <= p < |line| && 1 <= n <= |line| && p + 7 * n < limit && Finder(line, p, n, before, after) :: (p, n)
  }

  /** Every pattern counts once for each side on which its quiet zone has four units. */
  ghost function FinderCount(line: seq<bool>): nat
  {
    |Finders(line, 4, 1, |line| + 1)| + |Finders(line, 1, 4, |line| + 1)|
  }

  /** The lengths of the maximal runs of equal cells, in order. */
  function Runs(line: seq<bool>): (runs: seq<nat>)
    ensures |line| > 0 ==> |runs| > 0
  {
    var m := |line| - 1;
    if m < 0 then []
    else
      var before := Runs(line[..m]);
      if m > 0 && line[m] == line[m - 1] then before[..|before| - 1] + [before[|before| - 1] + 1]
      else before + [1]
  }

  /** The runs cut the line into nonempty stretches of one colour, between cells that differ. */
  ghost predicate Describes(runs: seq<nat>, line: seq<bool>)
    decreases |runs|
  {
    if |line| == 0 then |runs| == 0
    else
      |runs| > 0 &&
      var last, m := runs[|runs| - 1], |line|;
      && 1 <= last <= m && Uniform(line, m - last, m, line[m - 1])
      && (last < m ==> line[m - last - 1] != line[m - 1])
      && Describes(runs[..|runs| - 1], line[..m - last])
  }

  lemma RunsUnfold(line: seq<bool>, before: seq<nat>)
    requires |line| > 0 && before == Runs(line[..|line| - 1])
    ensures |line| > 1 ==> |before| > 0
    ensures |line| > 1 && line[|line| - 1] == line[|line| - 2] ==>
      Runs(line) == before[..|before| - 1] + [before[|before| - 1] + 1]
    ensures |line| == 1 || line[|line| - 1] != line[|line| - 2] ==> Runs(line) == before + [1]
  {
  }

  lemma LongerRun(line: seq<bool>, before: seq<nat>)
    requires |line| >= 2 && line[|line| - 1] == line[|line| - 2] && |before| > 0
    requires Describes(before, line[..|line| - 1])
    ensures Describes(before[..|before| - 1] + [before[|before| - 1] + 1], line)
  {
    var m, last := |line| - 1, before[|before| - 1];
    var init, runs := line[..m], before[..|before| - 1] + [last + 1];
    assert runs[..|runs| - 1] == before[..|before| - 1];
    assert line[..m - last] == init[..m - last];
    forall i | m - last <= i < m + 1 ensures Black(line, i) == line[m] {
      if i < m { assert Black(init, i) == init[m - 1]; }
    }
  }

  lemma NewRun(line: seq<bool>, before: seq<nat>)
    requires |line| >= 1 && (|line| >= 2 ==> line[|line| - 1] != line[|line| - 2])
    requires Describes(before, line[..|line| - 1])
    ensures Describes(before + [1], line)
  {
    assert (before + [1])[..|before|] == before;
  }

  lemma {:induction false} RunsAreMaximal(line: seq<bool>)
    ensures Describes(Runs(line), line)
  {
    if |line| > 0 {
      var before := Runs(line[..|line| - 1]);
      RunsAreMaximal(line[..|line| - 1]);
      RunsUnfold(line, before);
      if |line| > 1 && line[|line| - 1] == line[|line| - 2] {
        LongerRun(line, before);
      } else {
        NewRun(line, before);
      }
    }
  }

  function RunScore(runs: seq<nat>): nat
  {
    if |runs| == 0 then 0
    else
      var last := runs[|runs| - 1];
      RunScore(runs[..|runs| - 1]) + if last >= 5 then last - 2 else 0
  }

  /** Three points for a run of five, one more for each further cell; forty for each finder side. */
  ghost function LineScore(line: seq<bool>): nat
  {
    RunScore(Runs(line)) + 40 * FinderCount(line)
  }

  // ----- The history of runs -----

  /** The start of the j-th last run, when the runs so far end at `end`. */
  function RunStart(end: int, history: seq<nat>, j: nat): int
    requires j <= |history|
  {
    if j == 0 then end else RunStart(end, history, j - 1) - history[j - 1]
  }

  /** The history holds the last seven maximal runs before `end`, the latest of the given colour. */
  ghost predicate Remembers(line: seq<bool>, end: int, history: seq<nat>, colour: bool)
  {
    && |history| == 7
    && (end > -|line| ==> history[0] > 0)
    && forall j :: 0 <= j < 7 ==>
         RunIsMaximal(line, RunStart(end, history, j), RunStart(end, history, j + 1), colour == (j % 2 == 0))
  }

  /** A run from `start` to `end`; at the start of the padding there is nothing before it. */
  ghost predicate RunIsMaximal(line: seq<bool>, end: int, start: int, colour: bool)
  {
    && -|line| <= start <= end
    && Uniform(line, start, end, colour)
    && (start > -|line| ==> Black(line, start - 1) != colour)
  }

  lemma {:induction false} RunStartShift(end: int, history: seq<nat>, len: nat, j: nat)
    requires |history| == 7 && j <= 6
    ensures RunStart(end + len, [len] + history[..6], j + 1) == RunStart(end, history, j)
  {
    if j > 0 { RunStartShift(end, history, len, j - 1); }
  }

  /** Before the scan there are no runs. */
  lemma NothingToRemember(line: seq<bool>, colour: bool)
    ensures Remembers(line, -|line|, [0, 0, 0, 0, 0, 0, 0], colour)
  {
    NoRuns(line, -|line|, [0, 0, 0, 0, 0, 0, 0], colour);
  }

  lemma NoRuns(line: seq<bool>, end: int, zeros: seq<nat>, colour: bool)
    requires end == -|line| && |zeros| == 7 && forall i :: 0 <= i < 7 ==> zeros[i] == 0
    ensures Remembers(line, end, zeros, colour)
  {
    forall j | 0 <= j <= 7 ensures RunStart(end, zeros, j) == end {
      AllZero(end, zeros, j);
    }
  }

  lemma {:induction false} AllZero(end: int, history: seq<nat>, j: nat)
    requires j <= |history| && forall i :: 0 <= i < |history| ==> history[i] == 0
    ensures RunStart(end, history, j) == end
  {
    if j > 0 { AllZero(end, history, j - 1); }
  }

  /** Adding a finished run of the other colour. */
  lemma RememberRun(line: seq<bool>, end: int, history: seq<nat>, colour: bool, len: nat)
    requires Remembers(line, end, history, colour) && len > 0
    requires Uniform(line, end, end + len, !colour)
    ensures Remembers(line, end + len, [len] + history[..6], !colour)
  {
    hide Black;
    var next := [len] + history[..6];
    LatestRun(line, end, history, colour);
    forall j | 0 <= j < 7
      ensures RunIsMaximal(line, RunStart(end + len, next, j), RunStart(end + len, next, j + 1),
        !colour == (j % 2 == 0))
    {
      RunStartShift(end, history, len, j);
      if j == 0 {
        RunStartZero(end + len, next);
        RunStartZero(end, history);
      } else {
        RunStartShift(end, history, len, j - 1);
        assert RunIsMaximal(line, RunStart(end, history, j - 1), RunStart(end, history, j),
          colour == ((j - 1) % 2 == 0));
      }
    }
  }

  lemma RunStartZero(end: int, history: seq<nat>)
    ensures RunStart(end, history, 0) == end
  {
  }

  lemma LatestRun(line: seq<bool>, end: int, history: seq<nat>, colour: bool)
    requires Remembers(line, end, history, colour)
    ensures end >= -|line|
    ensures end > -|line| ==> Black(line, end - 1) == colour
  {
    RunStartZero(end, history);
    assert RunStart(end, history, 1) == end - history[0];
    assert RunIsMaximal(line, RunStart(end, history, 0), RunStart(end, history, 1), colour == (0 % 2 == 0));
  }

  // ----- One finder test -----

  /** The source's test on the history, right after a white run was added. */
  predicate HistoryCore(h: seq<nat>)
    requires |h| == 7
  {
    var n := h[1];
    n > 0 && h[2] == n && h[3] == n * 3 && h[4] == n && h[5] == n
  }

  /** Two descriptions of the run that ends at `end` agree. */
  lemma SameRun(line: seq<bool>, end: int, start: int, colour: bool, n: int)
    requires RunIsMaximal(line, end, start, colour)
    requires n >= 1 && end - n >= 0 && Uniform(line, end - n, end, colour) && Black(line, end - n - 1) != colour
    ensures start == end - n
  {
  }

  /** The cells of the seven runs, spelled out. */
  lemma SevenRuns(line: seq<bool>, end: int, h: seq<nat>)
    requires Remembers(line, end, h, false)
    ensures var s1 := end - h[0];
            var s2 := s1 - h[1];
            var s3 := s2 - h[2];
            var s4 := s3 - h[3];
            var s5 := s4 - h[4];
            var s6 := s5 - h[5];
            && RunIsMaximal(line, end, s1, false) && RunIsMaximal(line, s1, s2, true)
            && RunIsMaximal(line, s2, s3, false) && RunIsMaximal(line, s3, s4, true)
            && RunIsMaximal(line, s4, s5, false) && RunIsMaximal(line, s5, s6, true)
            && RunIsMaximal(line, s6, s6 - h[6], false)
  {
    hide RunIsMaximal;
    FirstRuns(end, h);
    assert forall j :: 0 <= j < 7 ==>
      RunIsMaximal(line, RunStart(end, h, j), RunStart(end, h, j + 1), false == (j % 2 == 0));
    assert 1 % 2 == 1 && 3 % 2 == 1 && 5 % 2 == 1;
  }

  lemma FirstRuns(end: int, h: seq<nat>)
    requires |h| == 7
    ensures RunStart(end, h, 0) == end && RunStart(end, h, 1) == end - h[0]
    ensures RunStart(end, h, 2) == end - h[0] - h[1]
    ensures RunStart(end, h, 3) == end - h[0] - h[1] - h[2]
    ensures RunStart(end, h, 4) == end - h[0] - h[1] - h[2] - h[3]
    ensures RunStart(end, h, 5) == end - h[0] - h[1] - h[2] - h[3] - h[4]
    ensures RunStart(end, h, 6) == end - h[0] - h[1] - h[2] - h[3] - h[4] - h[5]
    ensures RunStart(end, h, 7) == end - h[0] - h[1] - h[2] - h[3] - h[4] - h[5] - h[6]
  {
    assert RunStart(end, h, 3) == RunStart(end, h, 2) - h[2];
    assert RunStart(end, h, 5) == RunStart(end, h, 4) - h[4];
  }

  /** The white run that has just ended is followed by a black cell, or is the padding. */
  ghost predicate WhiteRunEnds(line: seq<bool>, end: int)
  {
    Black(line, end) || end == 2 * |line|
  }

  /** A pattern that ends where the latest white run starts is exactly what the history shows. */
  lemma FinderIsHistory(line: seq<bool>, end: int, h: seq<nat>, p: int, n: int, before: nat, after: nat)
    requires |line| > 0 && Remembers(line, end, h, false) && WhiteRunEnds(line, end)
    requires 1 <= before <= 4 && 1 <= after <= 4
    requires p >= 0 && n >= 1 && p + 7 * n == end - h[0]
    ensures Finder(line, p, n, before, after) ==> HistoryCore(h) && n == h[1] && h[6] >= before * n && h[0] >= after * n
  {
    if Finder(line, p, n, before, after) {
      SevenRuns(line, end, h);
      FinderRatios(line, end, h, p, n, before, after);
    }
  }

  lemma FinderRatios(line: seq<bool>, end: int, h: seq<nat>, p: int, n: int, before: nat, after: nat)
    requires |line| > 0 && |h| == 7 && Remembers(line, end, h, false) && WhiteRunEnds(line, end)
    requires 1 <= before <= 4 && 1 <= after <= 4
    requires p >= 0 && n >= 1 && p + 7 * n == end - h[0] && Finder(line, p, n, before, after)
    ensures HistoryCore(h) && n == h[1] && h[6] >= before * n && h[0] >= after * n
  {
    hide Remembers, RunIsMaximal, Finder, Black, Uniform, WhiteRunEnds;
    SevenRuns(line, end, h);
    EdgesOf(line, p, n, before, after);
    CoreOf(line, p, n, before, after);
    var s1 := end - h[0];
    SameRun(line, s1, s1 - h[1], true, n);
    SameRun(line, s1 - n, s1 - n - h[2], false, n);
    SameRun(line, s1 - 2 * n, s1 - 2 * n - h[3], true, 3 * n);
    SameRun(line, s1 - 5 * n, s1 - 5 * n - h[4], false, n);
    SameRun(line, s1 - 6 * n, s1 - 6 * n - h[5], true, n);
    QuietZones(line, end, h, p, n, before, after);
  }

  lemma CoreOf(line: seq<bool>, p: int, n: int, before: nat, after: nat)
    requires Finder(line, p, n, before, after)
    ensures Core(line, p, n)
  {
  }

  /** The edges between the runs of a pattern, and that it lies inside the line. */
  lemma EdgesOf(line: seq<bool>, p: int, n: int, before: nat, after: nat)
    requires before >= 1 && after >= 1 && Finder(line, p, n, before, after)
    ensures Black(line, p + 6 * n - 1) == false && Black(line, p + 5 * n - 1) && Black(line, p + 2 * n - 1) == false
    ensures Black(line, p + n - 1) && Black(line, p - 1) == false
    ensures 0 <= p && p + 7 * n <= |line|
  {
    assert before * n >= n by { assert (before - 1) * n >= 0; }
    assert Black(line, p) && Black(line, p + 7 * n - 1);
  }

  lemma QuietZones(line: seq<bool>, end: int, h: seq<nat>, p: int, n: int, before: nat, after: nat)
    requires |line| > 0 && WhiteRunEnds(line, end) && |h| == 7
    requires 1 <= before <= 4 && 1 <= after <= 4
    requires Finder(line, p, n, before, after) && p + 7 * n == end - h[0]
    requires RunIsMaximal(line, p, p - h[6], false)
    ensures h[6] >= before * n && h[0] >= after * n
  {
    EdgesOf(line, p, n, before, after);
    ScaleBound(before, n);
    ScaleBound(after, n);
  }

  lemma ScaleBound(k: nat, n: nat)
    requires k <= 4
    ensures k * n <= 4 * n
  {
  }

  /** Conversely, what the history shows is a pattern. */
  lemma HistoryIsFinder(line: seq<bool>, end: int, h: seq<nat>, before: nat, after: nat)
    requires |h| == 7 && Remembers(line, end, h, false) && HistoryCore(h) && before >= 1 && after >= 1
    requires h[6] >= before * h[1] && h[0] >= after * h[1]
    ensures Finder(line, end - h[0] - 7 * h[1], h[1], before, after)
    ensures 0 <= end - h[0] - 7 * h[1] && end - h[0] <= |line|
  {
    hide Remembers;
    SevenRuns(line, end, h);
    var n := h[1];
    var p := end - h[0] - 7 * n;
    assert Black(line, p) && Black(line, p + 7 * n - 1);
  }

  lemma FindersMember(line: seq<bool>, before: nat, after: nat, limit: int, p: int, n: int)
    ensures (p, n) in Finders(line, before, after, limit)
      <==> 0 <= p < |line| && 1 <= n <= |line| && p + 7 * n < limit && Finder(line, p, n, before, after)
  {
  }

  /** While a black run passes, no pattern ends. */
  lemma BlackRunAddsNone(line: seq<bool>, before: nat, after: nat, start: int, end: int)
    requires start <= end && Uniform(line, start, end, true) && after >= 1
    ensures Finders(line, before, after, end) == Finders(line, before, after, start)
  {
    hide Finder;
    forall p: int, n: int | (p, n) in Finders(line, before, after, end)
      ensures (p, n) in Finders(line, before, after, start)
    {
      FindersMember(line, before, after, end, p, n);
      FindersMember(line, before, after, start, p, n);
      WhiteAfter(line, p, n, before, after);
    }
    forall p: int, n: int | (p, n) in Finders(line, before, after, start)
      ensures (p, n) in Finders(line, before, after, end)
    {
      FindersMember(line, before, after, start, p, n);
      FindersMember(line, before, after, end, p, n);
    }
  }

  lemma WhiteAfter(line: seq<bool>, p: int, n: int, before: nat, after: nat)
    requires after >= 1 && Finder(line, p, n, before, after)
    ensures !Black(line, p + 7 * n) && Black(line, p + 7 * n - 1)
  {
    assert after * n >= n by { assert (after - 1) * n >= 0; }
  }

  /** A pattern that ends within the latest white run ends at its start. */
  lemma EndsAtRunStart(line: seq<bool>, end: int, h: seq<nat>, p: int, n: int, before: nat, after: nat)
    requires |h| == 7 && Remembers(line, end, h, false) && after >= 1
    requires Finder(line, p, n, before, after) && end - h[0] <= p + 7 * n < end
    ensures p + 7 * n == end - h[0]
  {
    hide Finder;
    WhiteAfter(line, p, n, before, after);
    SevenRuns(line, end, h);
  }

  /** The pattern in front of the latest white run, as the history shows it. */
  predicate Shows(h: seq<nat>, before: nat, after: nat)
    requires |h| == 7
  {
    HistoryCore(h) && h[6] >= before * h[1] && h[0] >= after * h[1]
  }

  /** Which patterns a white run adds: the one that the history shows, if any. */
  lemma NewFinder(line: seq<bool>, before: nat, after: nat, end: int, h: seq<nat>, p: int, n: int)
    requires |line| > 0 && |h| == 7 && Remembers(line, end, h, false) && WhiteRunEnds(line, end)
    requires 1 <= before <= 4 && 1 <= after <= 4
    ensures (p, n) in Finders(line, before, after, end)
      <==> (p, n) in Finders(line, before, after, end - h[0])
           || (Shows(h, before, after) && n == h[1] && p == end - h[0] - 7 * n)
  {
    hide Finder, Remembers, HistoryCore, WhiteRunEnds;
    FindersMember(line, before, after, end, p, n);
    FindersMember(line, before, after, end - h[0], p, n);
    if (p, n) in Finders(line, before, after, end) && p + 7 * n >= end - h[0] {
      EndsAtRunStart(line, end, h, p, n, before, after);
      FinderIsHistory(line, end, h, p, n, before, after);
    }
    if Shows(h, before, after) && n == h[1] && p == end - h[0] - 7 * n {
      HistoryIsFinder(line, end, h, before, after);
      UnitPositive(h, after);
    }
  }

  lemma UnitPositive(h: seq<nat>, after: nat)
    requires |h| == 7 && HistoryCore(h) && after >= 1 && h[0] >= after * h[1]
    ensures h[1] >= 1 && h[0] >= 1
  {
    assert after * h[1] >= h[1] by { assert (after - 1) * h[1] >= 0; }
  }

  /** A white run adds one pattern if the history shows one, and none otherwise. */
  lemma WhiteRunAdds(line: seq<bool>, before: nat, after: nat, end: int, h: seq<nat>)
    requires |line| > 0 && |h| == 7 && Remembers(line, end, h, false) && WhiteRunEnds(line, end)
    requires 1 <= before <= 4 && 1 <= after <= 4
    ensures |Finders(line, before, after, end)|
      == |Finders(line, before, after, end - h[0])| + if Shows(h, before, after) then 1 else 0
  {
    hide Finders, Remembers, Shows, WhiteRunEnds;
    var p := end - h[0] - 7 * h[1];
    var earlier, now := Finders(line, before, after, end - h[0]), Finders(line, before, after, end);
    var expected := if Shows(h, before, after) then earlier + {(p, h[1] as int)} else earlier;
    forall x: (int, int) ensures x in now <==> x in expected {
      NewFinder(line, before, after, end, h, x.0, x.1);
    }
    assert now == expected;
    NotEarlier(line, before, after, end - h[0], h[1]);
  }

  lemma NotEarlier(line: seq<bool>, before: nat, after: nat, limit: int, n: int)
    ensures (limit - 7 * n, n) !in Finders(line, before, after, limit)
  {
  }

  // ----- The scan -----

  lemma {:induction false} LastRun(line: seq<bool>, x: nat, run: nat)
    requires 1 <= run <= x <= |line|
    requires Uniform(line, x - run, x, line[x - 1]) && (run < x ==> line[x - run - 1] != line[x - 1])
    ensures var runs := Runs(line[..x]); |runs| > 0 && runs[|runs| - 1] == run
  {
    var prefix := line[..x];
    assert prefix[..x - 1] == line[..x - 1];
    if run > 1 {
      assert Black(line, x - 2) == line[x - 1];
      LastRun(line, x - 1, run - 1);
    }
  }

  function RunPoints(run: nat): nat
  {
    if run == 5 then 3 else if run > 5 then 1 else 0
  }

  /** One more cell of the same colour lengthens the last run; another colour starts a run. */
  lemma ScoreStep(line: seq<bool>, x: nat, run: nat)
    requires x < |line| && run <= x && (x > 0 ==> run > 0)
    requires x > 0 ==> Uniform(line, x - run, x, line[x - 1]) && (run < x ==> line[x - run - 1] != line[x - 1])
    ensures x > 0 && line[x] == line[x - 1] ==>
      RunScore(Runs(line[..x + 1])) == RunScore(Runs(line[..x])) + RunPoints(run + 1)
    ensures x == 0 || line[x] != line[x - 1] ==> RunScore(Runs(line[..x + 1])) == RunScore(Runs(line[..x]))
  {
    assert line[..x + 1][..x] == line[..x];
    var before := Runs(line[..x]);
    if x > 0 && line[x] == line[x - 1] {
      LastRun(line, x, run);
      assert (before[..|before| - 1] + [run + 1])[..|before| - 1] == before[..|before| - 1];
    } else {
      assert (before + [1])[..|before|] == before;
    }
  }

  /** The source's finderPenaltyAddHistory: pop the last, push to the front. */
  method FinderPenaltyAddHistory(currentRunLength: nat, history: seq<nat>) returns (next: seq<nat>)
    requires |history| == 7
    ensures next == [currentRunLength] + history[..6]
  {
    next := history[..|history| - 1];
    next := [currentRunLength] + next;
  }

  /** The source's assertion holds: no black run is longer than the line. */
  lemma BlackRunFits(line: seq<bool>, end: int, h: seq<nat>)
    requires |h| == 7 && Remembers(line, end, h, false)
    ensures h[1] <= |line|
  {
    hide Remembers;
    SevenRuns(line, end, h);
    var s1 := end - h[0];
    if h[1] > 0 {
      assert Black(line, s1 - 1) && Black(line, s1 - h[1]);
    }
  }

  method FinderPenaltyCountPatterns(history: seq<nat>, size: nat) returns (count: nat)
    requires |history| == 7 && history[1] <= size * 3
    ensures count == (if Shows(history, 1, 4) then 1 else 0) + (if Shows(history, 4, 1) then 1 else 0)
  {
    var n := history[1];
    assert !(n > size * 3);
    var core := n > 0 && history[2] == n && history[3] == n * 3 && history[4] == n && history[5] == n;
    count := (if core && history[0] >= n * 4 && history[6] >= n then 1 else 0)
      + (if core && history[6] >= n * 4 && history[0] >= n then 1 else 0);
  }

  /** The patterns that end before a cell, each side counted. */
  ghost function CountBefore(line: seq<bool>, limit: int): nat
  {
    |Finders(line, 4, 1, limit)| + |Finders(line, 1, 4, limit)|
  }

  /** What the scan knows after x cells: the current run and what came before it. */
  ghost predicate Scanning(line: seq<bool>, x: nat, runColor: bool, runX: nat, padRun: nat, history: seq<nat>)
  {
    && x <= |line| && |history| == 7 && runX <= x && runX + padRun > 0
    && (padRun == 0 || (padRun == |line| && runX == x))
    && Uniform(line, x - runX - padRun, x, runColor)
    && Remembers(line, x - runX - padRun, history, !runColor)
    && (x > 0 && padRun == 0 ==> runX > 0 && line[x - 1] == runColor)
    && (padRun > 0 ==> !runColor)
  }

  lemma ScanSame(line: seq<bool>, x: nat, runColor: bool, runX: nat, padRun: nat, history: seq<nat>)
    requires Scanning(line, x, runColor, runX, padRun, history) && x < |line| && line[x] == runColor
    ensures Scanning(line, x + 1, runColor, runX + 1, padRun, history)
    ensures RunScore(Runs(line[..x + 1])) == RunScore(Runs(line[..x])) + RunPoints(runX + 1)
  {
    hide Remembers, Runs, RunScore;
    ScanGivesRun(line, x, runColor, runX, padRun, history);
    ScoreStep(line, x, runX);
    if x == 0 { FirstCell(line); }
  }

  lemma FirstCell(line: seq<bool>)
    requires |line| > 0
    ensures RunScore(Runs(line[..1])) == RunScore(Runs(line[..0])) == 0
  {
    assert line[..1][..0] == [];
    assert Runs(line[..1]) == [1];
    assert [1 as nat][..0] == [];
  }

  /** The run length of the scan is that of the last maximal run of the cells read. */
  lemma ScanGivesRun(line: seq<bool>, x: nat, runColor: bool, runX: nat, padRun: nat, history: seq<nat>)
    requires Scanning(line, x, runColor, runX, padRun, history)
    ensures x > 0 ==> runX > 0 && line[x - 1] == runColor && Uniform(line, x - runX, x, line[x - 1])
    ensures x > 0 && runX < x ==> line[x - runX - 1] != line[x - 1]
  {
    hide Remembers;
    LatestRun(line, x - runX - padRun, history, !runColor);
    if x > 0 && padRun > 0 { assert Black(line, x - 1) == runColor; }
  }

  /** A run of the other colour starts: the finished run moves into the history. */
  lemma ScanSwitch(line: seq<bool>, x: nat, runColor: bool, runX: nat, padRun: nat, history: seq<nat>)
    requires Scanning(line, x, runColor, runX, padRun, history) && x < |line| && line[x] != runColor
    ensures Scanning(line, x + 1, line[x], 1, 0, [runX + padRun] + history[..6])
    ensures Remembers(line, x, [runX + padRun] + history[..6], runColor)
    ensures RunScore(Runs(line[..x + 1])) == RunScore(Runs(line[..x]))
  {
    hide Remembers, Runs, RunScore;
    ScanGivesRun(line, x, runColor, runX, padRun, history);
    RememberRun(line, x - runX - padRun, history, !runColor, runX + padRun);
    ScoreStep(line, x, runX);
    if x == 0 { FirstCell(line); }
  }

  /** How the pattern count moves when a run ends at `end`. */
  lemma CountStep(line: seq<bool>, end: int, h: seq<nat>, colour: bool)
    requires |line| > 0 && |h| == 7 && Remembers(line, end, h, colour)
    requires !colour ==> WhiteRunEnds(line, end)
    ensures CountBefore(line, end) == CountBefore(line, end - h[0])
      + if colour then 0 else (if Shows(h, 1, 4) then 1 else 0) + (if Shows(h, 4, 1) then 1 else 0)
  {
    hide Finders, Remembers, Shows;
    if colour {
      BlackRun(line, end, h);
      BlackRunAddsNone(line, 4, 1, end - h[0], end);
      BlackRunAddsNone(line, 1, 4, end - h[0], end);
    } else {
      WhiteRunAdds(line, 4, 1, end, h);
      WhiteRunAdds(line, 1, 4, end, h);
    }
  }

  lemma BlackRun(line: seq<bool>, end: int, h: seq<nat>)
    requires |h| == 7 && Remembers(line, end, h, true)
    ensures Uniform(line, end - h[0], end, true)
  {
    FirstRuns(end, h);
    assert RunIsMaximal(line, RunStart(end, h, 0), RunStart(end, h, 1), true == (0 % 2 == 0));
  }

  lemma CountEnds(line: seq<bool>)
    requires |line| > 0
    ensures CountBefore(line, -|line|) == 0
    ensures CountBefore(line, 2 * |line|) == FinderCount(line)
  {
    hide Finder;
    NoneEarly(line, 4, 1);
    NoneEarly(line, 1, 4);
    NoneLate(line, 4, 1);
    NoneLate(line, 1, 4);
  }

  lemma NoneEarly(line: seq<bool>, before: nat, after: nat)
    ensures |Finders(line, before, after, -|line|)| == 0
  {
    assert Finders(line, before, after, -|line|) == {};
  }

  lemma NoneLate(line: seq<bool>, before: nat, after: nat)
    requires |line| > 0 && before >= 1 && after >= 1
    ensures Finders(line, before, after, 2 * |line|) == Finders(line, before, after, |line| + 1)
  {
    hide Finder;
    forall x: (int, int)
      ensures x in Finders(line, before, after, 2 * |line|) <==> x in Finders(line, before, after, |line| + 1)
    {
      FindersMember(line, before, after, 2 * |line|, x.0, x.1);
      FindersMember(line, before, after, |line| + 1, x.0, x.1);
      if Finder(line, x.0, x.1, before, after) { EdgesOf(line, x.0, x.1, before, after); }
    }
  }

  /** The source's finderPenaltyTerminateAndCount. */
  method FinderPenaltyTerminateAndCount(line: seq<bool>, runColor: bool, runX: nat, padRun: nat, history: seq<nat>)
    returns (count: nat)
    requires |line| > 0 && Scanning(line, |line|, runColor, runX, padRun, history)
    ensures CountBefore(line, |line| - runX - padRun) + count == FinderCount(line)
  {
    hide Remembers, Finders, Shows, CountBefore, FinderCount, WhiteRunEnds;
    var runHistory := history;
    var currentRunLength := runX + padRun;
    ghost var start := |line| - runX - padRun;
    if runColor {
      RememberRun(line, start, runHistory, false, currentRunLength);
      runHistory := FinderPenaltyAddHistory(currentRunLength, runHistory);
      CountStep(line, |line|, runHistory, true);
      currentRunLength := 0;
      start := |line|;
    }
    currentRunLength := currentRunLength + |line|;
    WhiteToTheEnd(line, start, if runColor then |line| else runX + padRun);
    RememberRun(line, start, runHistory, true, currentRunLength);
    runHistory := FinderPenaltyAddHistory(currentRunLength, runHistory);
    PaddingEnds(line);
    CountStep(line, 2 * |line|, runHistory, false);
    CountEnds(line);
    BlackRunFits(line, 2 * |line|, runHistory);
    count := FinderPenaltyCountPatterns(runHistory, |line|);
  }

  lemma PaddingEnds(line: seq<bool>)
    ensures WhiteRunEnds(line, 2 * |line|)
  {
  }

  lemma WhiteToTheEnd(line: seq<bool>, start: int, len: int)
    requires start == |line| || (start + len == |line| && Uniform(line, start, |line|, false))
    ensures Uniform(line, start, 2 * |line|, false)
  {
  }

  /** The scan of one row or column. */
  method ScoreLine(line: seq<bool>) returns (result: nat)
    requires |line| > 0
    ensures result == LineScore(line)
  {
    hide Remembers, Finders, Shows, CountBefore, FinderCount, Runs, RunScore, WhiteRunEnds;
    result := 0;
    var runColor := false;
    var runX: nat, padRun: nat := 0, |line|;
    var runHistory: seq<nat> := [0, 0, 0, 0, 0, 0, 0];
    NothingToRemember(line, true);
    CountEnds(line);
    EmptyScore(line);
    for x := 0 to |line|
      invariant Scanning(line, x, runColor, runX, padRun, runHistory)
      invariant result == RunScore(Runs(line[..x])) + 40 * CountBefore(line, x - runX - padRun)
    {
      if line[x] == runColor {
        ScanSame(line, x, runColor, runX, padRun, runHistory);
        runX := runX + 1;
        if runX == 5 {
          result := result + PENALTY_N1;
        } else if runX > 5 {
          result := result + 1;
        }
      } else {
        ScanSwitch(line, x, runColor, runX, padRun, runHistory);
        runHistory := FinderPenaltyAddHistory(runX + padRun, runHistory);
        BlackCellEnds(line, x, runColor);
        CountStep(line, x, runHistory, runColor);
        padRun := 0;
        if !runColor {
          BlackRunFits(line, x, runHistory);
          var count := FinderPenaltyCountPatterns(runHistory, |line|);
          result := result + count * PENALTY_N3;
        }
        runColor := line[x];
        runX := 1;
      }
    }
    var count := FinderPenaltyTerminateAndCount(line, runColor, runX, padRun, runHistory);
    result := result + count * PENALTY_N3;
    assert line[..|line|] == line;
  }

  lemma EmptyScore(line: seq<bool>)
    ensures RunScore(Runs(line[..0])) == 0
  {
  }

  lemma BlackCellEnds(line: seq<bool>, x: nat, runColor: bool)
    requires x < |line| && line[x] != runColor
    ensures !runColor ==> WhiteRunEnds(line, x)
  {
  }
}
