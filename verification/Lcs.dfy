/** `hunks`: the longest-common-subsequence table, filled bottom-up, and the walk through it. */
module Lcs {
  import opened Numbers
  import opened Sequences

  type Line = string

  /** The table is a `Uint32Array`; an ECMAScript array has fewer than 2^32 elements. */
  const TWO_32 := 0x1_0000_0000
  type uint32 = x: int | 0 <= x < TWO_32

  datatype Edit = Keep(line: Line) | Drop(line: Line) | Add(line: Line)

  datatype Hunk = Hunk(removed: seq<Line>, added: seq<Line>)

  const NoLines := Hunk([], [])

  // ----- the reference: common subsequences -----

  /** `s` can be read off `t` from left to right. */
  ghost predicate Subsequence(s: seq<Line>, t: seq<Line>) {
    s == [] || (t != [] && ((s[0] == t[0] && Subsequence(s[1..], t[1..])) || Subsequence(s, t[1..])))
  }

  ghost predicate Common(s: seq<Line>, a: seq<Line>, b: seq<Line>) {
    Subsequence(s, a) && Subsequence(s, b)
  }

  function LcsLength(a: seq<Line>, b: seq<Line>): (n: nat)
    ensures n <= |a| && n <= |b|
  {
    if a == [] || b == [] then 0
    else if a[0] == b[0] then LcsLength(a[1..], b[1..]) + 1
    else Max(LcsLength(a[1..], b), LcsLength(a, b[1..]))
  }

  lemma {:induction false} SubsequenceWeakens(s: seq<Line>, t: seq<Line>)
    requires s != [] && Subsequence(s, t)
    ensures Subsequence(s[1..], t)
    decreases t
  {
    if s[0] == t[0] && Subsequence(s[1..], t[1..]) {
      if s[1..] != [] {}
    } else {
      SubsequenceWeakens(s, t[1..]);
    }
  }

  /** A subsequence that does not start with the first line does without it. */
  lemma SubsequenceSkips(s: seq<Line>, t: seq<Line>)
    requires s != [] && Subsequence(s, t)
    ensures t != [] && (s[0] != t[0] ==> Subsequence(s, t[1..])) && Subsequence(s[1..], t[1..])
  {
    if !(s[0] == t[0] && Subsequence(s[1..], t[1..])) {
      SubsequenceWeakens(s, t[1..]);
    }
  }

  /** No common subsequence is longer. */
  lemma {:induction false} NoneLonger(s: seq<Line>, a: seq<Line>, b: seq<Line>)
    requires Common(s, a, b)
    ensures |s| <= LcsLength(a, b)
    decreases |a| + |b|
  {
    if s != [] {
      SubsequenceSkips(s, a);
      SubsequenceSkips(s, b);
      if a[0] == b[0] {
        NoneLonger(s[1..], a[1..], b[1..]);
      } else if s[0] != a[0] {
        NoneLonger(s, a[1..], b);
      } else {
        NoneLonger(s, a, b[1..]);
      }
    }
  }

  /** And one is as long. */
  lemma {:induction false} SomeAsLong(a: seq<Line>, b: seq<Line>) returns (s: seq<Line>)
    ensures Common(s, a, b) && |s| == LcsLength(a, b)
    decreases |a| + |b|
  {
    if a == [] || b == [] {
      s := [];
    } else if a[0] == b[0] {
      var rest := SomeAsLong(a[1..], b[1..]);
      s := [a[0]] + rest;
      assert s[1..] == rest;
    } else if LcsLength(a[1..], b) >= LcsLength(a, b[1..]) {
      s := SomeAsLong(a[1..], b);
    } else {
      s := SomeAsLong(a, b[1..]);
    }
  }

  // ----- the table -----

  function Cell(width: nat, i: nat, j: nat): nat { i * width + j }

  lemma CellInside(width: nat, rows: nat, i: nat, j: nat)
    requires i < rows && j < width
    ensures Cell(width, i, j) < rows * width
  {
    assert (i + 1) * width <= rows * width;
  }

  lemma CellsApart(width: nat, i: nat, j: nat, i': nat, j': nat)
    requires j < width && j' < width && (i != i' || j != j')
    ensures Cell(width, i, j) != Cell(width, i', j')
  {
    if i < i' {
      assert (i + 1) * width <= i' * width;
    } else if i' < i {
      assert (i' + 1) * width <= i * width;
    }
  }

  /** Every cell from (i, j) on, reading backwards, holds the length for its suffixes. */
  ghost predicate Filled(table: seq<uint32>, base: seq<Line>, final: seq<Line>, i: int, j: int)
    requires |table| == (|base| + 1) * (|final| + 1)
  {
    forall i': nat, j': nat {:trigger Cell(|final| + 1, i', j')} ::
      i' <= |base| && j' <= |final| && (i' > i || (i' == i && j' > j) || j' == |final|) ==>
        Cell(|final| + 1, i', j') < |table|
        && table[Cell(|final| + 1, i', j')] == LcsLength(base[i'..], final[j'..])
  }

  method FillTable(base: seq<Line>, final: seq<Line>) returns (table: array<uint32>)
    requires |base| < TWO_32 && |final| < TWO_32
    ensures fresh(table) && table.Length == (|base| + 1) * (|final| + 1)
    ensures Filled(table[..], base, final, -1, -1)
  {
    var width := |final| + 1;
    table := new uint32[(|base| + 1) * width](_ => 0);
    forall i': nat, j': nat | i' <= |base| && j' <= |final| ensures Cell(width, i', j') < table.Length {
      CellInside(width, |base| + 1, i', j');
    }
    var i := |base| - 1;
    while i >= 0
      invariant -1 <= i < |base|
      invariant Filled(table[..], base, final, i, |final|)
    {
      var j := |final| - 1;
      while j >= 0
        invariant -1 <= j < |final|
        invariant Filled(table[..], base, final, i, j)
      {
        FillCell(table, base, final, i, j);
        j := j - 1;
      }
      i := i - 1;
    }
  }

  method FillCell(table: array<uint32>, base: seq<Line>, final: seq<Line>, i: nat, j: nat)
    requires |base| < TWO_32 && |final| < TWO_32 && i < |base| && j < |final|
    requires table.Length == (|base| + 1) * (|final| + 1) && Filled(table[..], base, final, i, j)
    modifies table
    ensures Filled(table[..], base, final, i, j - 1)
  {
    var width := |final| + 1;
    CellInside(width, |base| + 1, i, j);
    ghost var before := table[..];
    assert base[i..][1..] == base[i + 1..] && final[j..][1..] == final[j + 1..];
    assert Cell(width, i + 1, j + 1) < table.Length && Cell(width, i + 1, j) < table.Length && Cell(width, i, j + 1) < table.Length;
    var length: uint32;
    if base[i] == final[j] {
      length := table[Cell(width, i + 1, j + 1)] + 1;
    } else {
      var below, right := table[Cell(width, i + 1, j)], table[Cell(width, i, j + 1)];
      length := if below >= right then below else right;
    }
    table[Cell(width, i, j)] := length;
    forall i': nat, j': nat |
      i' <= |base| && j' <= |final| && (i' > i || (i' == i && j' > j - 1) || j' == |final|)
      ensures Cell(width, i', j') < table.Length
      ensures table[..][Cell(width, i', j')] == LcsLength(base[i'..], final[j'..])
    {
      CellInside(width, |base| + 1, i', j');
      if i' != i || j' != j {
        CellsApart(width, i, j, i', j');
        assert before[Cell(width, i', j')] == LcsLength(base[i'..], final[j'..]);
      }
    }
  }

  // ----- edit scripts -----

  function BaseOf(script: seq<Edit>): seq<Line> {
    if script == [] then [] else (if script[0].Add? then [] else [script[0].line]) + BaseOf(script[1..])
  }

  function FinalOf(script: seq<Edit>): seq<Line> {
    if script == [] then [] else (if script[0].Drop? then [] else [script[0].line]) + FinalOf(script[1..])
  }

  function Kept(script: seq<Edit>): seq<Line> {
    if script == [] then [] else (if script[0].Keep? then [script[0].line] else []) + Kept(script[1..])
  }

  function Dropped(script: seq<Edit>): seq<Line> {
    if script == [] then [] else (if script[0].Drop? then [script[0].line] else []) + Dropped(script[1..])
  }

  function Added(script: seq<Edit>): seq<Line> {
    if script == [] then [] else (if script[0].Add? then [script[0].line] else []) + Added(script[1..])
  }

  /** The walk: keep what both sides share, else drop while that loses no common line, else add. */
  function Walk(a: seq<Line>, b: seq<Line>): seq<Edit>
    decreases |a| + |b|
  {
    if a == [] && b == [] then []
    else if a != [] && b != [] && a[0] == b[0] then [Keep(a[0])] + Walk(a[1..], b[1..])
    else if a != [] && (b == [] || LcsLength(a[1..], b) >= LcsLength(a, b[1..])) then [Drop(a[0])] + Walk(a[1..], b)
    else [Add(b[0])] + Walk(a, b[1..])
  }

  /** The walk spells both sides, and keeps a longest common subsequence. */
  lemma {:induction false} WalkSpells(a: seq<Line>, b: seq<Line>)
    ensures BaseOf(Walk(a, b)) == a && FinalOf(Walk(a, b)) == b
    ensures |Kept(Walk(a, b))| == LcsLength(a, b)
    decreases |a| + |b|
  {
    if a != [] || b != [] {
      var script := Walk(a, b);
      Prepended(script[0], script[1..]);
      HeadAndTail(a);
      HeadAndTail(b);
      HeadAndTail(script);
      match script[0] {
        case Keep(_) => WalkSpells(a[1..], b[1..]);
        case Drop(_) => WalkSpells(a[1..], b);
        case Add(_) => WalkSpells(a, b[1..]);
      }
    }
  }

  lemma HeadAndTail<T>(s: seq<T>)
    ensures s != [] ==> [s[0]] + s[1..] == s
  {}

  lemma Prepended(e: Edit, rest: seq<Edit>)
    ensures BaseOf([e] + rest) == (if e.Add? then [] else [e.line]) + BaseOf(rest)
    ensures FinalOf([e] + rest) == (if e.Drop? then [] else [e.line]) + FinalOf(rest)
    ensures Kept([e] + rest) == (if e.Keep? then [e.line] else []) + Kept(rest)
  {
    assert ([e] + rest)[1..] == rest;
  }

  lemma {:induction false} ScriptCounts(script: seq<Edit>)
    ensures |BaseOf(script)| == |Kept(script)| + |Dropped(script)|
    ensures |FinalOf(script)| == |Kept(script)| + |Added(script)|
    ensures multiset(BaseOf(script)) == multiset(Kept(script)) + multiset(Dropped(script))
    ensures multiset(FinalOf(script)) == multiset(Kept(script)) + multiset(Added(script))
  {
    if script != [] { ScriptCounts(script[1..]); }
  }

  lemma {:induction false} KeptIsCommon(script: seq<Edit>)
    ensures Common(Kept(script), BaseOf(script), FinalOf(script))
  {
    if script != [] {
      var (s, a, b) := (Kept(script), BaseOf(script), FinalOf(script));
      KeptIsCommon(script[1..]);
      match script[0] {
        case Keep(_) => assert s[1..] == Kept(script[1..]) && a[1..] == BaseOf(script[1..]) && b[1..] == FinalOf(script[1..]);
        case Drop(_) => assert s == Kept(script[1..]) && a[1..] == BaseOf(script[1..]) && b == FinalOf(script[1..]);
        case Add(_) => assert s == Kept(script[1..]) && a == BaseOf(script[1..]) && b[1..] == FinalOf(script[1..]);
      }
    }
  }

  /** The walk is minimal: no other script between the same sides drops or adds fewer lines. */
  lemma WalkIsMinimal(script: seq<Edit>)
    ensures var walk := Walk(BaseOf(script), FinalOf(script));
      |Dropped(walk)| <= |Dropped(script)| && |Added(walk)| <= |Added(script)|
  {
    var (a, b) := (BaseOf(script), FinalOf(script));
    WalkSpells(a, b);
    ScriptCounts(Walk(a, b));
    ScriptCounts(script);
    KeptIsCommon(script);
    NoneLonger(Kept(script), a, b);
  }

  function Rank(e: Edit): nat { if e.Keep? then 0 else if e.Drop? then 1 else 2 }

  /** The first place where two scripts differ has the smaller rank in the first one. */
  ghost predicate Precedes(s: seq<Edit>, t: seq<Edit>) {
    s == [] || (t != [] && (Rank(s[0]) < Rank(t[0]) || (s[0] == t[0] && Precedes(s[1..], t[1..]))))
  }

  ghost predicate KeepsMost(script: seq<Edit>, a: seq<Line>, b: seq<Line>) {
    BaseOf(script) == a && FinalOf(script) == b && |Kept(script)| == LcsLength(a, b)
  }

  /** Among all scripts that keep as many lines, the walk keeps a line wherever it can, and drops
      before it adds. */
  lemma {:induction false} WalkIsFirst(script: seq<Edit>, a: seq<Line>, b: seq<Line>)
    requires KeepsMost(script, a, b)
    ensures Precedes(Walk(a, b), script)
    decreases |a| + |b|
  {
    if a != [] || b != [] {
      var rest := script[1..];
      KeptIsCommon(rest);
      NoneLonger(Kept(rest), BaseOf(rest), FinalOf(rest));
      match script[0] {
        case Keep(_) => AfterKeep(script, a, b); WalkIsFirst(rest, a[1..], b[1..]);
        case Drop(_) =>
          AfterDrop(script, a, b);
          if !(b != [] && a[0] == b[0]) { WalkIsFirst(rest, a[1..], b); }
        case Add(_) =>
          AfterAdd(script, a, b);
          if Walk(a, b)[0].Add? { WalkIsFirst(rest, a, b[1..]); }
      }
    }
  }

  lemma AfterKeep(script: seq<Edit>, a: seq<Line>, b: seq<Line>)
    requires KeepsMost(script, a, b) && script != [] && script[0].Keep?
    ensures a != [] && b != [] && a[0] == b[0] == script[0].line && KeepsMost(script[1..], a[1..], b[1..])
  {
    Prepended(script[0], script[1..]);
    assert [script[0]] + script[1..] == script;
  }

  lemma AfterDrop(script: seq<Edit>, a: seq<Line>, b: seq<Line>)
    requires KeepsMost(script, a, b) && script != [] && script[0].Drop?
    requires |Kept(script[1..])| <= LcsLength(BaseOf(script[1..]), FinalOf(script[1..]))
    ensures a != [] && a[0] == script[0].line && BaseOf(script[1..]) == a[1..] && FinalOf(script[1..]) == b
    ensures b == [] || a[0] != b[0] ==> KeepsMost(script[1..], a[1..], b)
  {
    Prepended(script[0], script[1..]);
    assert [script[0]] + script[1..] == script && [] + FinalOf(script[1..]) == b && [] + Kept(script[1..]) == Kept(script[1..]);
  }

  lemma AfterAdd(script: seq<Edit>, a: seq<Line>, b: seq<Line>)
    requires KeepsMost(script, a, b) && script != [] && script[0].Add?
    requires |Kept(script[1..])| <= LcsLength(BaseOf(script[1..]), FinalOf(script[1..]))
    ensures b != [] && b[0] == script[0].line && BaseOf(script[1..]) == a && FinalOf(script[1..]) == b[1..]
    ensures a == [] || a[0] != b[0] ==> KeepsMost(script[1..], a, b[1..])
  {
    Prepended(script[0], script[1..]);
    assert [script[0]] + script[1..] == script && [] + BaseOf(script[1..]) == a && [] + Kept(script[1..]) == Kept(script[1..]);
  }

  // ----- hunks: the runs between kept lines -----

  function Closed(run: Hunk): seq<Hunk> {
    if |run.removed| > 0 || |run.added| > 0 then [run] else []
  }

  /** The runs of a script, the first of them already begun. */
  function Gather(script: seq<Edit>, run: Hunk): seq<Hunk>
    decreases script
  {
    if script == [] then Closed(run) else
      match script[0]
      case Keep(_) => Closed(run) + Gather(script[1..], NoLines)
      case Drop(line) => Gather(script[1..], run.(removed := run.removed + [line]))
      case Add(line) => Gather(script[1..], run.(added := run.added + [line]))
  }

  function HunksOf(base: seq<Line>, final: seq<Line>): seq<Hunk> {
    Gather(Walk(base, final), NoLines)
  }

  function AllRemoved(runs: seq<Hunk>): seq<Line> {
    if runs == [] then [] else runs[0].removed + AllRemoved(runs[1..])
  }

  function AllAdded(runs: seq<Hunk>): seq<Line> {
    if runs == [] then [] else runs[0].added + AllAdded(runs[1..])
  }

  /** A run that is closed stands before the rest, unless it is empty. */
  lemma ClosedThen(run: Hunk, rest: seq<Hunk>)
    ensures AllRemoved(Closed(run) + rest) == run.removed + AllRemoved(rest)
    ensures AllAdded(Closed(run) + rest) == run.added + AllAdded(rest)
  {
    if Closed(run) == [] {
      assert Closed(run) + rest == rest;
    } else {
      assert (Closed(run) + rest)[1..] == rest;
    }
  }

  lemma {:induction false} GatherRemoves(script: seq<Edit>, run: Hunk)
    ensures AllRemoved(Gather(script, run)) == run.removed + Dropped(script)
    decreases script
  {
    if script == [] {
      ClosedThen(run, []);
      assert Closed(run) + [] == Closed(run);
    } else {
      var rest := script[1..];
      match script[0] {
        case Keep(_) =>
          GatherRemoves(rest, NoLines);
          ClosedThen(run, Gather(rest, NoLines));
          assert [] + Dropped(rest) == Dropped(rest);
        case Drop(line) =>
          GatherRemoves(rest, run.(removed := run.removed + [line]));
          assert run.removed + [line] + Dropped(rest) == run.removed + ([line] + Dropped(rest));
        case Add(line) =>
          GatherRemoves(rest, run.(added := run.added + [line]));
          assert [] + Dropped(rest) == Dropped(rest);
      }
    }
  }

  lemma {:induction false} GatherAdds(script: seq<Edit>, run: Hunk)
    ensures AllAdded(Gather(script, run)) == run.added + Added(script)
    decreases script
  {
    if script == [] {
      ClosedThen(run, []);
      assert Closed(run) + [] == Closed(run);
    } else {
      var rest := script[1..];
      match script[0] {
        case Keep(_) =>
          GatherAdds(rest, NoLines);
          ClosedThen(run, Gather(rest, NoLines));
          assert [] + Added(rest) == Added(rest);
        case Drop(line) =>
          GatherAdds(rest, run.(removed := run.removed + [line]));
          assert [] + Added(rest) == Added(rest);
        case Add(line) =>
          GatherAdds(rest, run.(added := run.added + [line]));
          assert run.added + [line] + Added(rest) == run.added + ([line] + Added(rest));
      }
    }
  }

  lemma {:induction false} GatherNonEmpty(script: seq<Edit>, run: Hunk, h: Hunk)
    requires h in Gather(script, run)
    ensures h != NoLines
    decreases script
  {
    if script != [] {
      match script[0] {
        case Keep(_) => if h !in Closed(run) { GatherNonEmpty(script[1..], NoLines, h); }
        case Drop(line) => GatherNonEmpty(script[1..], run.(removed := run.removed + [line]), h);
        case Add(line) => GatherNonEmpty(script[1..], run.(added := run.added + [line]), h);
      }
    }
  }

  /** The runs hold exactly the dropped and the added lines, in order, and none is empty. */
  lemma GatherHolds(script: seq<Edit>, run: Hunk)
    ensures AllRemoved(Gather(script, run)) == run.removed + Dropped(script)
    ensures AllAdded(Gather(script, run)) == run.added + Added(script)
    ensures forall h :: h in Gather(script, run) ==> h != NoLines
  {
    GatherRemoves(script, run);
    GatherAdds(script, run);
    forall h | h in Gather(script, run) ensures h != NoLines { GatherNonEmpty(script, run, h); }
  }

  /** The hunks drop and add exactly what a longest common subsequence leaves over. */
  lemma HunksAreMinimal(base: seq<Line>, final: seq<Line>)
    ensures |AllRemoved(HunksOf(base, final))| == |base| - LcsLength(base, final)
    ensures |AllAdded(HunksOf(base, final))| == |final| - LcsLength(base, final)
    ensures forall h :: h in HunksOf(base, final) ==> h != NoLines
  {
    var script := Walk(base, final);
    GatherHolds(script, NoLines);
    WalkSpells(base, final);
    ScriptCounts(script);
    assert NoLines.removed + Dropped(script) == Dropped(script) && NoLines.added + Added(script) == Added(script);
  }

  /** The gaps between the runs, with the runs' removed lines, and with their added ones. */
  function WovenBase(gaps: seq<seq<Line>>, runs: seq<Hunk>): seq<Line>
    requires |gaps| == |runs| + 1
  {
    if runs == [] then gaps[0] else gaps[0] + (runs[0].removed + WovenBase(gaps[1..], runs[1..]))
  }

  function WovenFinal(gaps: seq<seq<Line>>, runs: seq<Hunk>): seq<Line>
    requires |gaps| == |runs| + 1
  {
    if runs == [] then gaps[0] else gaps[0] + (runs[0].added + WovenFinal(gaps[1..], runs[1..]))
  }

  /** Two runs are never next to each other. */
  ghost predicate Parted(gaps: seq<seq<Line>>) { forall i :: 0 < i < |gaps| - 1 ==> gaps[i] != [] }

  lemma KeepBefore(line: Line, gaps: seq<seq<Line>>, runs: seq<Hunk>)
    requires |gaps| == |runs| + 1 && Parted(gaps)
    ensures var more := [[line] + gaps[0]] + gaps[1..];
      && Parted(more) && WovenBase(more, runs) == [line] + WovenBase(gaps, runs)
      && WovenFinal(more, runs) == [line] + WovenFinal(gaps, runs)
  {
    var more := [[line] + gaps[0]] + gaps[1..];
    assert more[1..] == gaps[1..];
    if runs != [] {
      ConcatAssociates([line], gaps[0], runs[0].removed + WovenBase(gaps[1..], runs[1..]));
      ConcatAssociates([line], gaps[0], runs[0].added + WovenFinal(gaps[1..], runs[1..]));
    }
    forall i | 0 < i < |more| - 1 ensures more[i] != [] { assert more[i] == gaps[i]; }
  }

  lemma RunBefore(run: Hunk, gaps: seq<seq<Line>>, runs: seq<Hunk>)
    requires |gaps| == |runs| + 1 && Parted(gaps) && (runs != [] ==> gaps[0] != [])
    ensures Parted([[]] + gaps)
    ensures WovenBase([[]] + gaps, [run] + runs) == run.removed + WovenBase(gaps, runs)
    ensures WovenFinal([[]] + gaps, [run] + runs) == run.added + WovenFinal(gaps, runs)
  {
    assert ([[]] + gaps)[1..] == gaps && ([run] + runs)[1..] == runs;
    forall i | 0 < i < |gaps| ensures ([[]] + gaps)[i] == gaps[i - 1] {}
  }

  /** A kept line closes the run before it, if there is one. */
  lemma CloseBefore(run: Hunk, line: Line, after: seq<seq<Line>>, rest: seq<Hunk>) returns (gaps: seq<seq<Line>>)
    requires |after| == |rest| + 1 && Parted(after)
    ensures |gaps| == |Closed(run) + rest| + 1 && Parted(gaps)
    ensures WovenBase(gaps, Closed(run) + rest) == run.removed + ([line] + WovenBase(after, rest))
    ensures WovenFinal(gaps, Closed(run) + rest) == run.added + ([line] + WovenFinal(after, rest))
  {
    KeepBefore(line, after, rest);
    gaps := [[line] + after[0]] + after[1..];
    if Closed(run) == [] {
      assert Closed(run) + rest == rest;
      AddNothing([line] + WovenBase(after, rest));
      AddNothing([line] + WovenFinal(after, rest));
    } else {
      RunBefore(run, gaps, rest);
      gaps := [[]] + gaps;
    }
  }

  lemma AddNothing<T>(s: seq<T>)
    ensures [] + s == s && s + [] == s
  {}

  lemma {:induction false} GatherWoven(script: seq<Edit>, run: Hunk) returns (gaps: seq<seq<Line>>)
    ensures |gaps| == |Gather(script, run)| + 1 && Parted(gaps)
    ensures WovenBase(gaps, Gather(script, run)) == run.removed + BaseOf(script)
    ensures WovenFinal(gaps, Gather(script, run)) == run.added + FinalOf(script)
    decreases script
  {
    if script == [] {
      gaps := if run == NoLines then [[]] else [[], []];
      assert run == NoLines <==> Closed(run) == [];
      assert gaps[1..] == if run == NoLines then [] else [[]];
    } else {
      var rest := script[1..];
      match script[0] {
        case Keep(line) =>
          var after := GatherWoven(rest, NoLines);
          AddNothing(BaseOf(rest));
          AddNothing(FinalOf(rest));
          gaps := CloseBefore(run, line, after, Gather(rest, NoLines));
        case Drop(line) =>
          gaps := GatherWoven(rest, run.(removed := run.removed + [line]));
          ConcatAssociates(run.removed, [line], BaseOf(rest));
          AddNothing(FinalOf(rest));
        case Add(line) =>
          gaps := GatherWoven(rest, run.(added := run.added + [line]));
          ConcatAssociates(run.added, [line], FinalOf(rest));
          AddNothing(BaseOf(rest));
      }
    }
  }

  /** The hunks are the runs between the lines that both sides share: with the same gaps between them
      their removed lines make the base and their added ones the final side, and no two of them are
      next to each other. */
  lemma HunksAreRuns(base: seq<Line>, final: seq<Line>) returns (gaps: seq<seq<Line>>)
    ensures |gaps| == |HunksOf(base, final)| + 1 && Parted(gaps)
    ensures WovenBase(gaps, HunksOf(base, final)) == base && WovenFinal(gaps, HunksOf(base, final)) == final
  {
    gaps := GatherWoven(Walk(base, final), NoLines);
    WalkSpells(base, final);
    assert [] + base == base && [] + final == final;
  }

  lemma {:induction false} SubsequenceOfLater(s: seq<Line>, r: seq<Line>, t: seq<Line>)
    requires Subsequence(s, t)
    ensures Subsequence(s, r + t)
  {
    if r == [] {
      assert r + t == t;
    } else {
      assert (r + t)[1..] == r[1..] + t;
      SubsequenceOfLater(s, r[1..], t);
    }
  }

  lemma {:induction false} SubsequenceOfItself(s: seq<Line>)
    ensures Subsequence(s, s)
  {
    if s != [] { SubsequenceOfItself(s[1..]); }
  }

  lemma {:induction false} SubsequenceOfSubsequence(s: seq<Line>, t: seq<Line>, u: seq<Line>)
    requires Subsequence(s, t) && Subsequence(t, u)
    ensures Subsequence(s, u)
    decreases u
  {
    if s != [] {
      SubsequenceSkips(s, t);
      if t[0] == u[0] && Subsequence(t[1..], u[1..]) {
        if s[0] == t[0] {
          SubsequenceOfSubsequence(s[1..], t[1..], u[1..]);
        } else {
          SubsequenceOfSubsequence(s, t[1..], u[1..]);
        }
      } else {
        SubsequenceOfSubsequence(s, t, u[1..]);
      }
    }
  }

  lemma {:induction false} SubsequencesJoin(s: seq<Line>, t: seq<Line>, s': seq<Line>, t': seq<Line>)
    requires Subsequence(s, t) && Subsequence(s', t')
    ensures Subsequence(s + s', t + t')
    decreases t
  {
    if s == [] {
      assert s + s' == s';
      SubsequenceOfLater(s', t, t');
    } else {
      assert (s + s')[1..] == s[1..] + s' && (t + t')[1..] == t[1..] + t';
      if s[0] == t[0] && Subsequence(s[1..], t[1..]) {
        SubsequencesJoin(s[1..], t[1..], s', t');
      } else {
        SubsequencesJoin(s, t[1..], s', t');
      }
    }
  }

  lemma {:induction false} DroppedInOrder(script: seq<Edit>)
    ensures Subsequence(Dropped(script), BaseOf(script)) && Subsequence(Added(script), FinalOf(script))
  {
    if script != [] {
      var (e, rest) := (script[0], script[1..]);
      DroppedInOrder(rest);
      SubsequenceOfItself([e.line]);
      assert Subsequence([], [e.line]);
      SubsequencesJoin(if e.Drop? then [e.line] else [], if e.Add? then [] else [e.line], Dropped(rest), BaseOf(rest));
      SubsequencesJoin(if e.Add? then [e.line] else [], if e.Drop? then [] else [e.line], Added(rest), FinalOf(rest));
    }
  }

  lemma {:induction false} SubsequenceBegins(x: Line, s: seq<Line>, r: seq<Line>, t: seq<Line>)
    requires x in r && Subsequence(s, t)
    ensures Subsequence([x] + s, r + t)
  {
    assert (r + t)[1..] == r[1..] + t && ([x] + s)[1..] == s;
    if r[0] == x {
      SubsequenceOfLater(s, r[1..], t);
    } else {
      SubsequenceBegins(x, s, r[1..], t);
    }
  }

  /** A line on both sides of a run would make a longer common subsequence. */
  lemma SharedLineLengthens(run: Hunk, a: seq<Line>, b: seq<Line>, x: Line)
    requires x in run.removed && x in run.added
    ensures LcsLength(run.removed + a, run.added + b) > LcsLength(a, b)
  {
    var s := SomeAsLong(a, b);
    SubsequenceBegins(x, s, run.removed, a);
    SubsequenceBegins(x, s, run.added, b);
    NoneLonger([x] + s, run.removed + a, run.added + b);
  }

  ghost predicate OneSided(run: Hunk) { forall x :: x in run.removed ==> x !in run.added }

  lemma RunIsOneSided(a: seq<Line>, b: seq<Line>, run: Hunk)
    requires LcsLength(run.removed + a, run.added + b) == LcsLength(a, b)
    ensures OneSided(run)
  {
    forall x | x in run.removed ensures x !in run.added {
      if x in run.added { SharedLineLengthens(run, a, b, x); }
    }
  }

  /** What the walk's first step says about the two sides. */
  lemma WalkStep(a: seq<Line>, b: seq<Line>)
    requires a != [] || b != []
    ensures Walk(a, b) != []
    ensures var rest := Walk(a, b)[1..];
      match Walk(a, b)[0]
      case Keep(_) => a != [] && b != [] && rest == Walk(a[1..], b[1..])
      case Drop(line) => a != [] && line == a[0] && LcsLength(a, b) == LcsLength(a[1..], b) && rest == Walk(a[1..], b)
      case Add(line) => b != [] && line == b[0] && LcsLength(a, b) == LcsLength(a, b[1..]) && rest == Walk(a, b[1..])
  {}

  lemma {:induction false} RunsAreOneSided(a: seq<Line>, b: seq<Line>, run: Hunk, h: Hunk)
    requires LcsLength(run.removed + a, run.added + b) == LcsLength(a, b) && h in Gather(Walk(a, b), run)
    ensures OneSided(h)
    decreases |a| + |b|
  {
    RunIsOneSided(a, b, run);
    if a != [] || b != [] {
      WalkStep(a, b);
      match Walk(a, b)[0] {
        case Keep(_) =>
          assert [] + a[1..] == a[1..] && [] + b[1..] == b[1..];
          if h !in Closed(run) { RunsAreOneSided(a[1..], b[1..], NoLines, h); }
        case Drop(line) =>
          assert run.removed + [line] + a[1..] == run.removed + a;
          RunsAreOneSided(a[1..], b, run.(removed := run.removed + [line]), h);
        case Add(line) =>
          assert run.added + [line] + b[1..] == run.added + b;
          RunsAreOneSided(a, b[1..], run.(added := run.added + [line]), h);
      }
    }
  }

  /** No hunk removes and adds the same line, so a moved line always has its home in another
      hunk. */
  lemma HunksAreOneSided(base: seq<Line>, final: seq<Line>)
    ensures forall h :: h in HunksOf(base, final) ==> OneSided(h)
  {
    assert [] + base == base && [] + final == final;
    forall h | h in HunksOf(base, final) ensures OneSided(h) { RunsAreOneSided(base, final, NoLines, h); }
  }

  lemma SuffixStep(s: seq<Line>, i: nat)
    requires i < |s|
    ensures s[i..] != [] && s[i..][0] == s[i] && s[i..][1..] == s[i + 1..]
  {}

  method Hunks(base: seq<Line>, final: seq<Line>) returns (runs: seq<Hunk>)
    requires |base| < TWO_32 && |final| < TWO_32
    ensures runs == HunksOf(base, final)
  {
    var table := FillTable(base, final);
    var width := |final| + 1;
    runs := [];
    var run := NoLines;
    var i, j := 0, 0;
    while i < |base| || j < |final|
      invariant 0 <= i <= |base| && 0 <= j <= |final|
      invariant Filled(table[..], base, final, -1, -1)
      invariant runs + Gather(Walk(base[i..], final[j..]), run) == HunksOf(base, final)
      decreases |base| - i + |final| - j
    {
      if i < |base| { SuffixStep(base, i); }
      if j < |final| { SuffixStep(final, j); }
      if i < |base| && j < |final| {
        assert Cell(width, i + 1, j) < table.Length && Cell(width, i, j + 1) < table.Length;
      }
      if i < |base| && j < |final| && base[i] == final[j] {
        runs := runs + Closed(run);
        run := NoLines;
        i, j := i + 1, j + 1;
      } else if i < |base| && (j == |final| || table[Cell(width, i + 1, j)] >= table[Cell(width, i, j + 1)]) {
        run := run.(removed := run.removed + [base[i]]);
        i := i + 1;
      } else {
        run := run.(added := run.added + [final[j]]);
        j := j + 1;
      }
    }
    runs := runs + Closed(run);
  }
}
