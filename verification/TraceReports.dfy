/** What `sequenceDifferences` reports of single lines, and the order of its entries. */
module TraceReports {
  import opened InsertionMaps
  import opened Lcs
  import opened Sequences
  import opened TraceDiff

  // ----- one line against one -----

  lemma SingleHunk(a: Line, b: Line)
    requires a != b
    ensures HunksOf([a], [b]) == [Hunk([a], [b])]
  {
    assert [a][1..] == [] && [b][1..] == [];
    assert Walk([], [b]) == [Add(b)] + Walk([], [b][1..]);
    assert [Add(b)] + Walk([], []) == [Add(b)] && [Drop(a)] + [Add(b)] == [Drop(a), Add(b)];
    assert Walk([a], [b]) == [Drop(a)] + Walk([], [b]);
    GatherTwo(a, b);
  }

  lemma GatherTwo(a: Line, b: Line)
    ensures Gather([Drop(a), Add(b)], NoLines) == [Hunk([a], [b])]
  {
    assert [Drop(a), Add(b)][1..] == [Add(b)] && [Add(b)][1..] == [];
    assert NoLines.removed + [a] == [a] && NoLines.added + [b] == [b];
    assert Gather([Add(b)], Hunk([a], [])) == Gather([], Hunk([a], [b]));
  }

  lemma NothingMoves(a: Line, b: Line)
    requires a != b
    ensures Settled([a], [b]) == Moves([Hunk([a], [b])], [b], [])
  {
    SingleHunk(a, b);
    var m := Moves([Hunk([a], [b])], [b], []);
    assert [Hunk([a], [b])][1..] == [] && AllAdded([]) == [] && AllAdded([Hunk([a], [b])]) == [b];
    assert [a][..0] == [] && MoveLines(m, 0, []) == m && MoveLines(m, 0, [a]) == MoveLine(m, 0, a) == m;
    assert MoveRuns(m, 0) == m && MoveRuns(m, 1) == MoveLines(m, 0, [a]);
  }

  /** Two different single lines: one change if they have one identity and pairing is asked for, else
      the old line and then the new one. */
  lemma SingleLines(a: Line, b: Line, pair: bool)
    requires a != b
    ensures Differences([a], [b], pair) ==
      if pair && Identity(a) == Identity(b) then [Changed(a, b)] else [WasRemoved(a), WasAdded(b)]
  {
    NothingMoves(a, b);
    var run := Hunk([a], [b]);
    SingleReport(a, b, pair);
    assert ReportRuns([run], pair, 0) == [] && [] + ReportRun(run, pair) == ReportRun(run, pair);
    assert ReportRuns([run], pair, 1) == ReportRun(run, pair);
    assert ReportRun(run, pair) + MovedLines([]) == ReportRun(run, pair);
  }

  lemma SingleReport(a: Line, b: Line, pair: bool)
    ensures ReportRun(Hunk([a], [b]), pair) ==
      if pair && Identity(a) == Identity(b) then [Changed(a, b)] else [WasRemoved(a), WasAdded(b)]
  {
    var p := PairOne(a, [b], pair);
    assert [a][1..] == [] && [b][1..] == [] && [b][..0] + [b][1..] == [];
    assert PartnerOf([b], a) == if Identity(b) == Identity(a) then 0 else PartnerOf([], a) + 1;
    assert Found([a], [b], pair) == [p.entry] + Found([], p.rest, pair);
    assert Unpaired([a], [b], pair) == Unpaired([], p.rest, pair) == p.rest;
    assert Additions([b]) == [WasAdded(b)] + Additions([]);
  }

  /** So two requests of one method and path that differ in query, body or status are one change, and
      two of different ones are not. */
  lemma ChangedIffSameRequest(a: Line, verb: string, path: string, b: Line, verb': string, path': string)
    requires Requests(a, verb, path) && Requests(b, verb', path') && a != b
    ensures Differences([a], [b], true) == [Changed(a, b)] <==> verb == verb' && path == path'
  {
    SameIdentityIff(a, verb, path, b, verb', path');
    SingleLines(a, b, true);
  }

  // ----- the order of the report -----

  function BaseOfEntry(d: Difference): seq<Line> {
    match d case WasRemoved(l) => [l] case Changed(l, _) => [l] case Moved(l) => [l] case WasAdded(_) => []
  }

  function AddedOfEntry(d: Difference): seq<Line> { if d.WasAdded? then [d.final] else [] }

  /** The base lines of the entries. */
  function BaseLines(ds: seq<Difference>): seq<Line> {
    if ds == [] then [] else BaseOfEntry(ds[0]) + BaseLines(ds[1..])
  }

  /** The final lines of those that only add. */
  function AddedLines(ds: seq<Difference>): seq<Line> {
    if ds == [] then [] else AddedOfEntry(ds[0]) + AddedLines(ds[1..])
  }

  lemma EntryLines(d: Difference, rest: seq<Difference>)
    ensures BaseLines([d] + rest) == BaseOfEntry(d) + BaseLines(rest)
    ensures AddedLines([d] + rest) == AddedOfEntry(d) + AddedLines(rest)
  {
    assert ([d] + rest)[1..] == rest;
  }

  lemma {:induction false} LinesAdd(a: seq<Difference>, b: seq<Difference>)
    ensures BaseLines(a + b) == BaseLines(a) + BaseLines(b) && AddedLines(a + b) == AddedLines(a) + AddedLines(b)
  {
    if a == [] {
      assert a + b == b;
      AddNothing(BaseLines(b));
      AddNothing(AddedLines(b));
    } else {
      assert a + b == [a[0]] + (a[1..] + b);
      EntryLines(a[0], a[1..] + b);
      LinesAdd(a[1..], b);
      ConcatAssociates(BaseOfEntry(a[0]), BaseLines(a[1..]), BaseLines(b));
      ConcatAssociates(AddedOfEntry(a[0]), AddedLines(a[1..]), AddedLines(b));
    }
  }

  lemma {:induction false} RemoveInOrder(s: seq<Line>, x: Line)
    ensures Subsequence(Remove(s, x), s)
  {
    if s != [] {
      if s[0] == x {
        SubsequenceOfItself(s[1..]);
        SubsequenceOfLater(s[1..], [s[0]], s[1..]);
        assert [s[0]] + s[1..] == s;
      } else {
        RemoveInOrder(s[1..], x);
        assert ([s[0]] + Remove(s[1..], x))[1..] == Remove(s[1..], x);
      }
    }
  }

  /** Both sides of each run hold what they held, in the same order, or less. */
  ghost predicate Shrunk(after: seq<Hunk>, before: seq<Hunk>) {
    |after| == |before| && forall k {:trigger ShrunkAt(after, before, k)} :: 0 <= k < |after| ==> ShrunkAt(after, before, k)
  }

  ghost predicate ShrunkAt(after: seq<Hunk>, before: seq<Hunk>, k: nat)
    requires k < |after| == |before|
  {
    Subsequence(after[k].removed, before[k].removed) && Subsequence(after[k].added, before[k].added)
  }

  lemma ShrunkFurther(a: seq<Hunk>, b: seq<Hunk>, c: seq<Hunk>)
    requires Shrunk(a, b) && Shrunk(b, c)
    ensures Shrunk(a, c)
  {
    forall k | 0 <= k < |a| ensures ShrunkAt(a, c, k) {
      assert ShrunkAt(a, b, k) && ShrunkAt(b, c, k);
      SubsequenceOfSubsequence(a[k].removed, b[k].removed, c[k].removed);
      SubsequenceOfSubsequence(a[k].added, b[k].added, c[k].added);
    }
  }

  lemma NotShrunk(runs: seq<Hunk>)
    ensures Shrunk(runs, runs)
  {
    forall k | 0 <= k < |runs| ensures ShrunkAt(runs, runs, k) {
      SubsequenceOfItself(runs[k].removed);
      SubsequenceOfItself(runs[k].added);
    }
  }

  lemma ShrunkInOne(runs: seq<Hunk>, at: nat, h: Hunk)
    requires at < |runs| && Subsequence(h.removed, runs[at].removed) && Subsequence(h.added, runs[at].added)
    ensures Shrunk(runs[at := h], runs)
  {
    var after := runs[at := h];
    NotShrunk(runs);
    forall k | 0 <= k < |runs| ensures ShrunkAt(after, runs, k) { assert ShrunkAt(runs, runs, k); }
  }

  lemma MoveLineShrinks(m: Moves, own: nat, line: Line)
    requires own < |m.runs|
    ensures Shrunk(MoveLine(m, own, line).runs, m.runs)
  {
    NotShrunk(m.runs);
    if line in m.everyAdded {
      var taken := TakenRemoved(m.runs, own, line);
      RemoveInOrder(m.runs[own].removed, line);
      SubsequenceOfItself(m.runs[own].added);
      ShrunkInOne(m.runs, own, m.runs[own].(removed := Remove(m.runs[own].removed, line)));
      var home := HomeFrom(taken, own, line, 0);
      RemoveInOrder(taken[home].added, line);
      SubsequenceOfItself(taken[home].removed);
      ShrunkInOne(taken, home, taken[home].(added := Remove(taken[home].added, line)));
      ShrunkFurther(MoveLine(m, own, line).runs, taken, m.runs);
    }
  }

  /** The lines moved by one run, in the order they are tried, and the runs left over. */
  lemma {:induction false} MoveLinesInOrder(m: Moves, own: nat, lines: seq<Line>) returns (picked: seq<Line>)
    requires own < |m.runs|
    ensures MoveLines(m, own, lines).moved == m.moved + picked && Subsequence(picked, lines)
    ensures Shrunk(MoveLines(m, own, lines).runs, m.runs)
    ensures forall k :: 0 <= k < |m.runs| && k != own ==> MoveLines(m, own, lines).runs[k].removed == m.runs[k].removed
  {
    if lines == [] {
      picked := [];
      NotShrunk(m.runs);
    } else {
      var (init, line) := (lines[..|lines| - 1], lines[|lines| - 1]);
      var b := MoveLines(m, own, init);
      var before := MoveLinesInOrder(m, own, init);
      MoveLineShrinks(b, own, line);
      ShrunkFurther(MoveLines(m, own, lines).runs, b.runs, m.runs);
      MoveLineTouches(b, own, line);
      var last := if line in b.everyAdded then [line] else [];
      picked := before + last;
      SubsequenceOfItself([line]);
      assert Subsequence([], [line]);
      SubsequencesJoin(before, init, last, [line]);
      assert init + [line] == lines;
      ConcatAssociates(m.moved, before, last);
      AddNothing(b.moved);
    }
  }

  lemma {:induction false} RemovedOneMore(runs: seq<Hunk>, n: nat)
    requires 0 < n <= |runs|
    ensures AllRemoved(runs[..n]) == AllRemoved(runs[..n - 1]) + runs[n - 1].removed
    ensures AllAdded(runs[..n]) == AllAdded(runs[..n - 1]) + runs[n - 1].added
  {
    if n == 1 {
      assert runs[..1][1..] == [] && runs[..0] == [];
      AddNothing(runs[0].removed);
      AddNothing(runs[0].added);
    } else {
      RemovedOneMore(runs[1..], n - 1);
      assert runs[1..][..n - 1] == runs[..n][1..] && runs[1..][..n - 2] == runs[..n - 1][1..];
      ConcatAssociates(runs[0].removed, AllRemoved(runs[..n - 1][1..]), runs[n - 1].removed);
      ConcatAssociates(runs[0].added, AllAdded(runs[..n - 1][1..]), runs[n - 1].added);
    }
  }

  lemma {:induction false} MoveRunsInOrder(m: Moves, n: nat) returns (picked: seq<Line>)
    requires n <= |m.runs|
    ensures MoveRuns(m, n).moved == m.moved + picked && Subsequence(picked, AllRemoved(m.runs[..n]))
    ensures Shrunk(MoveRuns(m, n).runs, m.runs)
    ensures forall k :: n <= k < |m.runs| ==> MoveRuns(m, n).runs[k].removed == m.runs[k].removed
  {
    if n == 0 {
      picked := [];
      NotShrunk(m.runs);
    } else {
      var b := MoveRuns(m, n - 1);
      var lines := m.runs[n - 1].removed;
      var before := MoveRunsInOrder(m, n - 1);
      var last := MoveLinesInOrder(b, n - 1, lines);
      ShrunkFurther(MoveRuns(m, n).runs, b.runs, m.runs);
      picked := before + last;
      SubsequencesJoin(before, AllRemoved(m.runs[..n - 1]), last, lines);
      RemovedOneMore(m.runs, n);
      ConcatAssociates(m.moved, before, last);
    }
  }

  lemma {:induction false} ShrunkSides(a: seq<Hunk>, b: seq<Hunk>)
    requires Shrunk(a, b)
    ensures Subsequence(AllRemoved(a), AllRemoved(b)) && Subsequence(AllAdded(a), AllAdded(b))
  {
    if a != [] {
      assert ShrunkAt(a, b, 0);
      forall k | 0 <= k < |a| - 1 ensures ShrunkAt(a[1..], b[1..], k) { assert ShrunkAt(a, b, k + 1); }
      ShrunkSides(a[1..], b[1..]);
      SubsequencesJoin(a[0].removed, b[0].removed, AllRemoved(a[1..]), AllRemoved(b[1..]));
      SubsequencesJoin(a[0].added, b[0].added, AllAdded(a[1..]), AllAdded(b[1..]));
    }
  }

  lemma WithoutInOrder(s: seq<Line>, at: nat)
    requires at < |s|
    ensures Subsequence(s[..at] + s[at + 1..], s)
  {
    SubsequenceOfItself(s[..at]);
    SubsequenceOfItself(s[at + 1..]);
    SubsequenceOfLater(s[at + 1..], [s[at]], s[at + 1..]);
    SubsequencesJoin(s[..at], s[..at], s[at + 1..], [s[at]] + s[at + 1..]);
    Rejoined(s, at);
  }

  lemma Rejoined(s: seq<Line>, at: nat)
    requires at < |s|
    ensures s[..at] + ([s[at]] + s[at + 1..]) == s
  {}

  lemma {:induction false} FoundLines(removed: seq<Line>, added: seq<Line>, pair: bool)
    ensures BaseLines(Found(removed, added, pair)) == removed && AddedLines(Found(removed, added, pair)) == []
    ensures Subsequence(Unpaired(removed, added, pair), added)
    ensures forall d :: d in Found(removed, added, pair) ==> !d.Moved?
  {
    SubsequenceOfItself(added);
    if removed != [] {
      var p := PairOne(removed[0], added, pair);
      var at := if pair then PartnerOf(added, removed[0]) else |added|;
      FoundLines(removed[1..], p.rest, pair);
      if at < |added| { WithoutInOrder(added, at); }
      SubsequenceOfSubsequence(Unpaired(removed[1..], p.rest, pair), p.rest, added);
      EntryLines(p.entry, Found(removed[1..], p.rest, pair));
      HeadAndTail(removed);
      AddNothing(AddedLines(Found(removed[1..], p.rest, pair)));
    }
  }

  lemma {:induction false} AdditionLines(lines: seq<Line>)
    ensures BaseLines(Additions(lines)) == [] && AddedLines(Additions(lines)) == lines
    ensures forall d :: d in Additions(lines) ==> !d.Moved?
  {
    if lines != [] {
      AdditionLines(lines[1..]);
      EntryLines(WasAdded(lines[0]), Additions(lines[1..]));
      HeadAndTail(lines);
    }
  }

  lemma RunLines(run: Hunk, pair: bool)
    ensures BaseLines(ReportRun(run, pair)) == run.removed && Subsequence(AddedLines(ReportRun(run, pair)), run.added)
    ensures forall d :: d in ReportRun(run, pair) ==> !d.Moved?
  {
    var left := Unpaired(run.removed, run.added, pair);
    FoundLines(run.removed, run.added, pair);
    AdditionLines(left);
    LinesAdd(Found(run.removed, run.added, pair), Additions(left));
    AddNothing(run.removed);
    AddNothing(left);
  }

  lemma {:induction false} RunsLines(runs: seq<Hunk>, pair: bool, n: nat)
    requires n <= |runs|
    ensures BaseLines(ReportRuns(runs, pair, n)) == AllRemoved(runs[..n])
    ensures Subsequence(AddedLines(ReportRuns(runs, pair, n)), AllAdded(runs[..n]))
    ensures forall d :: d in ReportRuns(runs, pair, n) ==> !d.Moved?
  {
    if n > 0 {
      RunsLines(runs, pair, n - 1);
      RunLines(runs[n - 1], pair);
      RemovedOneMore(runs, n);
      LinesAdd(ReportRuns(runs, pair, n - 1), ReportRun(runs[n - 1], pair));
      SubsequencesJoin(AddedLines(ReportRuns(runs, pair, n - 1)), AllAdded(runs[..n - 1]),
                       AddedLines(ReportRun(runs[n - 1], pair)), runs[n - 1].added);
    }
  }

  lemma LinesOfMove(line: Line)
    ensures BaseLines([Moved(line)]) == [line]
  {
    EntryLines(Moved(line), []);
    AddNothing([Moved(line)]);
    AddNothing([line]);
  }

  lemma {:induction false} MovedLinesAre(lines: seq<Line>)
    ensures BaseLines(MovedLines(lines)) == lines && forall d :: d in MovedLines(lines) ==> d.Moved?
  {
    if lines != [] {
      var (init, last) := (lines[..|lines| - 1], lines[|lines| - 1]);
      MovedLinesAre(init);
      LinesAdd(MovedLines(init), [Moved(last)]);
      LinesOfMove(last);
      assert init + [last] == lines;
    }
  }

  /** The report is in order: the moves come last and in the base's order, and before them what the base
      lost is in its order and what the final side alone has is in its own. */
  lemma ReportInOrder(base: seq<Line>, final: seq<Line>, pair: bool) returns (found: seq<Difference>, moves: seq<Difference>)
    ensures Differences(base, final, pair) == found + moves
    ensures (forall d :: d in found ==> !d.Moved?) && forall d :: d in moves ==> d.Moved?
    ensures Subsequence(BaseLines(found), base) && Subsequence(AddedLines(found), final) && Subsequence(BaseLines(moves), base)
  {
    var (runs, m) := (HunksOf(base, final), Settled(base, final));
    var picked := MoveRunsInOrder(Moves(runs, AllAdded(runs), []), |runs|);
    AddNothing(picked);
    assert runs[..|runs|] == runs && m.runs[..|m.runs|] == m.runs;
    SidesInOrder(base, final);
    found, moves := ReportRuns(m.runs, pair, |m.runs|), MovedLines(m.moved);
    RunsLines(m.runs, pair, |m.runs|);
    MovedLinesAre(m.moved);
    ShrunkSides(m.runs, runs);
    SubsequenceOfSubsequence(AllRemoved(m.runs), AllRemoved(runs), base);
    SubsequenceOfSubsequence(AddedLines(found), AllAdded(m.runs), AllAdded(runs));
    SubsequenceOfSubsequence(AddedLines(found), AllAdded(runs), final);
    SubsequenceOfSubsequence(m.moved, AllRemoved(runs), base);
  }

  lemma SidesInOrder(base: seq<Line>, final: seq<Line>)
    ensures Subsequence(AllRemoved(HunksOf(base, final)), base) && Subsequence(AllAdded(HunksOf(base, final)), final)
  {
    var script := Walk(base, final);
    WalkSpells(base, final);
    GatherHolds(script, NoLines);
    DroppedInOrder(script);
    AddNothing(Dropped(script));
    AddNothing(Added(script));
  }
}
