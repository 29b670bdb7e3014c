/** `sequenceDifferences`: moves taken out of the hunks, then what is left paired or reported. */
module TraceDiff {
  import opened InsertionMaps
  import opened Lcs
  import opened Sequences
  import opened Strings

  datatype Difference =
    | WasRemoved(base: Line)
    | WasAdded(final: Line)
    | Changed(base: Line, final: Line)
    | Moved(line: Line)

  // ----- taking moves out -----

  datatype Moves = Moves(runs: seq<Hunk>, everyAdded: seq<Line>, moved: seq<Line>)

  /** The first other run that adds the line, else the run itself. */
  function HomeFrom(runs: seq<Hunk>, own: nat, line: Line, from: nat): (home: nat)
    requires own < |runs| && from <= |runs|
    ensures home < |runs|
    ensures home == own || (line in runs[home].added && forall k :: from <= k < home && k != own ==> line !in runs[k].added)
    ensures home == own ==> forall k :: from <= k < |runs| && k != own ==> line !in runs[k].added
    decreases |runs| - from
  {
    if from == |runs| then own
    else if from != own && line in runs[from].added then from
    else HomeFrom(runs, own, line, from + 1)
  }

  /** One removed line of run `own`: when it was added anywhere, it moved. */
  function MoveLine(m: Moves, own: nat, line: Line): (r: Moves)
    requires own < |m.runs|
    ensures |r.runs| == |m.runs|
  {
    if line !in m.everyAdded then m else
      var taken := m.runs[own := m.runs[own].(removed := Remove(m.runs[own].removed, line))];
      var home := HomeFrom(taken, own, line, 0);
      Moves(taken[home := taken[home].(added := Remove(taken[home].added, line))],
            Remove(m.everyAdded, line), m.moved + [line])
  }

  function MoveLines(m: Moves, own: nat, lines: seq<Line>): (r: Moves)
    requires own < |m.runs|
    ensures |r.runs| == |m.runs|
  {
    if lines == [] then m else MoveLine(MoveLines(m, own, lines[..|lines| - 1]), own, lines[|lines| - 1])
  }

  /** The first `n` runs, each by a copy of its removed lines. */
  function MoveRuns(m: Moves, n: nat): (r: Moves)
    requires n <= |m.runs|
    ensures |r.runs| == |m.runs|
  {
    if n == 0 then m else
      var before := MoveRuns(m, n - 1);
      MoveLines(before, n - 1, before.runs[n - 1].removed)
  }

  // ----- reporting what is left -----

  function UpTo(s: string, c: char): string {
    if s == [] || s[0] == c then [] else [s[0]] + UpTo(s[1..], c)
  }

  function After1(s: string, c: char): string {
    if s == [] then [] else if s[0] == c then s[1..] else After1(s[1..], c)
  }

  /** A request line's method and path, without its query. */
  function Identity(line: Line): string {
    UpTo(line, ' ') + " " + UpTo(UpTo(After1(line, ' '), ' '), '?')
  }

  /** The line is a request of this method and path: a query and whatever follows a blank may come
      after the path. A line without a blank is all method. */
  ghost predicate Requests(line: Line, verb: string, path: string) {
    && ' ' !in verb && ' ' !in path && '?' !in path
    && ((line == verb && path == "") || exists tail: string :: IsTail(tail) && line == verb + " " + path + tail)
  }

  predicate IsTail(tail: string) { tail == "" || tail[0] == ' ' || tail[0] == '?' }

  lemma {:induction false} UpToFirst(s: string, c: char, tail: string)
    requires c !in s
    ensures UpTo(s, c) == s && UpTo(s + [c] + tail, c) == s && After1(s + [c] + tail, c) == tail && After1(s, c) == ""
  {
    var all := s + [c] + tail;
    if s == "" {
      assert all[1..] == tail;
    } else {
      UpToFirst(s[1..], c, tail);
      assert all[1..] == s[1..] + [c] + tail && [s[0]] + s[1..] == s;
    }
  }

  /** The path is what a blank and a question mark leave of what follows the method. */
  lemma PathOfTail(path: string, tail: string)
    requires ' ' !in path && '?' !in path && IsTail(tail)
    ensures UpTo(UpTo(path + tail, ' '), '?') == path
  {
    UpToPast(path, tail);
    var query := UpTo(tail, ' ');
    assert tail != "" ==> query == if tail[0] == ' ' then "" else ['?'] + UpTo(tail[1..], ' ');
    PathOfQuery(path, query);
  }

  lemma PathOfQuery(path: string, query: string)
    requires '?' !in path && (query == "" || query[0] == '?')
    ensures UpTo(path + query, '?') == path
  {
    if query == "" {
      assert path + query == path;
      UpToFirst(path, '?', "");
    } else {
      MarkedQuery(path, query);
      UpToFirst(path, '?', query[1..]);
    }
  }

  lemma MarkedQuery(path: string, query: string)
    requires query != "" && query[0] == '?'
    ensures path + query == path + ['?'] + query[1..]
  {}

  lemma {:induction false} UpToPast(path: string, tail: string)
    requires ' ' !in path
    ensures UpTo(path + tail, ' ') == path + UpTo(tail, ' ')
  {
    if path == "" {
      assert path + tail == tail && path + UpTo(tail, ' ') == UpTo(tail, ' ');
    } else {
      UpToPast(path[1..], tail);
      assert (path + tail)[1..] == path[1..] + tail;
      assert [path[0]] + (path[1..] + UpTo(tail, ' ')) == path + UpTo(tail, ' ');
    }
  }

  lemma IdentityOfRequest(line: Line, verb: string, path: string)
    requires Requests(line, verb, path)
    ensures Identity(line) == verb + " " + path
  {
    if line == verb && path == "" {
      UpToFirst(verb, ' ', "");
    } else {
      var tail :| IsTail(tail) && line == verb + " " + path + tail;
      assert line == verb + [' '] + (path + tail);
      UpToFirst(verb, ' ', path + tail);
      PathOfTail(path, tail);
    }
  }

  /** Two lines have one identity exactly when they are requests of one method and one path,
      whatever their queries, bodies and statuses. */
  lemma SameIdentityIff(a: Line, verb: string, path: string, b: Line, verb': string, path': string)
    requires Requests(a, verb, path) && Requests(b, verb', path')
    ensures Identity(a) == Identity(b) <==> verb == verb' && path == path'
  {
    IdentityOfRequest(a, verb, path);
    IdentityOfRequest(b, verb', path');
    if verb + " " + path == verb' + " " + path' { LastSeparator(verb, path, verb', path', ' '); }
  }

  /** Every line is a request of some method and path. */
  lemma EveryLineRequests(line: Line) returns (verb: string, path: string)
    ensures Requests(line, verb, path)
  {
    verb := UpTo(line, ' ');
    var rest := CutAt(line, ' ');
    if rest == "" {
      path := "";
      assert line == verb;
    } else {
      var tail;
      path, tail := EveryRestIsPath(rest[1..]);
      assert rest == " " + rest[1..];
      assert line == verb + " " + path + tail;
    }
  }

  lemma EveryRestIsPath(rest: string) returns (path: string, tail: string)
    ensures rest == path + tail && IsTail(tail) && ' ' !in path && '?' !in path
  {
    path := UpTo(UpTo(rest, ' '), '?');
    var after := CutAt(rest, ' ');
    var query := CutAt(UpTo(rest, ' '), '?');
    tail := query + after;
  }

  lemma {:induction false} CutAt(s: string, c: char) returns (rest: string)
    ensures s == UpTo(s, c) + rest && c !in UpTo(s, c) && (rest == "" || rest[0] == c)
    ensures forall d: char :: d !in s ==> d !in UpTo(s, c)
  {
    if s == "" || s[0] == c {
      rest := s;
    } else {
      rest := CutAt(s[1..], c);
      assert s == [s[0]] + (UpTo(s[1..], c) + rest);
    }
  }

  /** The first added line of the same identity, or its length when there is none. */
  function PartnerOf(added: seq<Line>, line: Line): (at: nat)
    ensures at <= |added|
    ensures at < |added| ==> Identity(added[at]) == Identity(line)
    ensures forall k :: 0 <= k < at ==> Identity(added[k]) != Identity(line)
  {
    if added == [] || Identity(added[0]) == Identity(line) then 0 else PartnerOf(added[1..], line) + 1
  }

  /** A removed line's entry, and the added lines left over. */
  datatype Paired = Paired(entry: Difference, rest: seq<Line>)

  function PairOne(line: Line, added: seq<Line>, pair: bool): Paired {
    var at := if pair then PartnerOf(added, line) else |added|;
    if at == |added| then Paired(WasRemoved(line), added) else Paired(Changed(line, added[at]), added[..at] + added[at + 1..])
  }

  /** A run's removed lines, each paired with the first added line of its identity or reported alone. */
  function Found(removed: seq<Line>, added: seq<Line>, pair: bool): seq<Difference> {
    if removed == [] then [] else
      var p := PairOne(removed[0], added, pair);
      [p.entry] + Found(removed[1..], p.rest, pair)
  }

  /** The added lines left over at the end. */
  function Unpaired(removed: seq<Line>, added: seq<Line>, pair: bool): seq<Line> {
    if removed == [] then added else Unpaired(removed[1..], PairOne(removed[0], added, pair).rest, pair)
  }

  function Additions(lines: seq<Line>): seq<Difference> {
    if lines == [] then [] else [WasAdded(lines[0])] + Additions(lines[1..])
  }

  function ReportRun(run: Hunk, pair: bool): seq<Difference> {
    Found(run.removed, run.added, pair) + Additions(Unpaired(run.removed, run.added, pair))
  }

  function ReportRuns(runs: seq<Hunk>, pair: bool, n: nat): seq<Difference>
    requires n <= |runs|
  {
    if n == 0 then [] else ReportRuns(runs, pair, n - 1) + ReportRun(runs[n - 1], pair)
  }

  function MovedLines(lines: seq<Line>): seq<Difference> {
    if lines == [] then [] else MovedLines(lines[..|lines| - 1]) + [Moved(lines[|lines| - 1])]
  }

  function Settled(base: seq<Line>, final: seq<Line>): Moves {
    var runs := HunksOf(base, final);
    MoveRuns(Moves(runs, AllAdded(runs), []), |runs|)
  }

  function Differences(base: seq<Line>, final: seq<Line>, pair: bool): seq<Difference> {
    var m := Settled(base, final);
    ReportRuns(m.runs, pair, |m.runs|) + MovedLines(m.moved)
  }

  // ----- lines are conserved: counts of one line `x` -----

  /** How often all runs remove `x`, and how often they add it. */
  function Rm(runs: seq<Hunk>, x: Line): nat {
    if runs == [] then 0 else Count(runs[0].removed, x) + Rm(runs[1..], x)
  }

  function Ad(runs: seq<Hunk>, x: Line): nat {
    if runs == [] then 0 else Count(runs[0].added, x) + Ad(runs[1..], x)
  }

  function One(line: Line, x: Line): nat { if x == line then 1 else 0 }

  lemma CountSplit<T>(s: seq<T>, t: seq<T>, x: T)
    ensures Count(s + t, x) == Count(s, x) + Count(t, x)
  {}

  lemma {:induction false} SumsOfAll(runs: seq<Hunk>, x: Line)
    ensures Rm(runs, x) == Count(AllRemoved(runs), x) && Ad(runs, x) == Count(AllAdded(runs), x)
  {
    if runs != [] { SumsOfAll(runs[1..], x); }
  }

  lemma {:induction false} RemoveOne(s: seq<Line>, line: Line, x: Line)
    requires line in s
    ensures Count(s, x) == Count(Remove(s, line), x) + One(line, x)
  {
    assert s == [s[0]] + s[1..];
    CountSplit([s[0]], s[1..], x);
    if s[0] != line {
      RemoveOne(s[1..], line, x);
      CountSplit([s[0]], Remove(s[1..], line), x);
    }
  }

  lemma {:induction false} ReplaceRun(runs: seq<Hunk>, k: nat, h: Hunk, x: Line)
    requires k < |runs|
    ensures Rm(runs[k := h], x) + Count(runs[k].removed, x) == Rm(runs, x) + Count(h.removed, x)
    ensures Ad(runs[k := h], x) + Count(runs[k].added, x) == Ad(runs, x) + Count(h.added, x)
  {
    var changed := runs[k := h];
    if k == 0 {
      assert changed[1..] == runs[1..];
    } else {
      assert changed[1..] == runs[1..][k - 1 := h];
      ReplaceRun(runs[1..], k - 1, h, x);
    }
  }

  function TakenRemoved(runs: seq<Hunk>, k: nat, line: Line): seq<Hunk>
    requires k < |runs|
  {
    runs[k := runs[k].(removed := Remove(runs[k].removed, line))]
  }

  function TakenAdded(runs: seq<Hunk>, k: nat, line: Line): seq<Hunk>
    requires k < |runs|
  {
    runs[k := runs[k].(added := Remove(runs[k].added, line))]
  }

  /** Taking a line from one side of a run takes it once from that side's sum only. */
  lemma TakeRemoved(runs: seq<Hunk>, k: nat, line: Line, x: Line)
    requires k < |runs| && line in runs[k].removed
    ensures Rm(runs, x) == Rm(TakenRemoved(runs, k, line), x) + One(line, x)
    ensures Ad(TakenRemoved(runs, k, line), x) == Ad(runs, x)
  {
    RemoveOne(runs[k].removed, line, x);
    ReplaceRun(runs, k, runs[k].(removed := Remove(runs[k].removed, line)), x);
  }

  lemma TakeAdded(runs: seq<Hunk>, k: nat, line: Line, x: Line)
    requires k < |runs| && line in runs[k].added
    ensures Ad(runs, x) == Ad(TakenAdded(runs, k, line), x) + One(line, x)
    ensures Rm(TakenAdded(runs, k, line), x) == Rm(runs, x)
  {
    RemoveOne(runs[k].added, line, x);
    ReplaceRun(runs, k, runs[k].(added := Remove(runs[k].added, line)), x);
  }

  lemma {:induction false} AddedSomewhere(runs: seq<Hunk>, line: Line) returns (k: nat)
    requires Ad(runs, line) > 0
    ensures k < |runs| && line in runs[k].added
  {
    if line in runs[0].added {
      k := 0;
    } else {
      k := AddedSomewhere(runs[1..], line);
      k := k + 1;
    }
  }

  lemma {:induction false} RemovedSomewhere(runs: seq<Hunk>, line: Line) returns (k: nat)
    requires Rm(runs, line) > 0
    ensures k < |runs| && line in runs[k].removed
  {
    if line in runs[0].removed {
      k := 0;
    } else {
      k := RemovedSomewhere(runs[1..], line);
      k := k + 1;
    }
  }

  /** The key invariant: the running list is the multiset sum of every run's added lines. */
  ghost predicate Balanced(m: Moves) {
    forall x :: Count(m.everyAdded, x) == Ad(m.runs, x)
  }

  /** The home of a line that is added somewhere adds it. */
  lemma HomeAdds(m: Moves, own: nat, line: Line)
    requires own < |m.runs| && Balanced(m) && line in m.runs[own].removed && line in m.everyAdded
    ensures var taken := TakenRemoved(m.runs, own, line);
      line in taken[HomeFrom(taken, own, line, 0)].added
  {
    var taken := TakenRemoved(m.runs, own, line);
    TakeRemoved(m.runs, own, line, line);
    assert Count(m.everyAdded, line) > 0;
    var k := AddedSomewhere(taken, line);
  }

  /** One line that moved: each side loses it once. */
  lemma MovedLineCounts(m: Moves, own: nat, line: Line, x: Line)
    requires own < |m.runs| && Balanced(m) && line in m.runs[own].removed && line in m.everyAdded
    ensures var r := MoveLine(m, own, line);
      && r.moved == m.moved + [line]
      && Rm(m.runs, x) == Rm(r.runs, x) + One(line, x)
      && Ad(m.runs, x) == Ad(r.runs, x) + One(line, x)
      && Count(m.everyAdded, x) == Count(r.everyAdded, x) + One(line, x)
      && Count(m.runs[own].removed, x) == Count(r.runs[own].removed, x) + One(line, x)
  {
    var taken := TakenRemoved(m.runs, own, line);
    HomeAdds(m, own, line);
    TakeRemoved(m.runs, own, line, x);
    TakeAdded(taken, HomeFrom(taken, own, line, 0), line, x);
    RemoveOne(m.everyAdded, line, x);
    RemoveOne(m.runs[own].removed, line, x);
  }

  lemma MoveLineTouches(m: Moves, own: nat, line: Line)
    requires own < |m.runs|
    ensures forall k :: 0 <= k < |m.runs| && k != own ==> MoveLine(m, own, line).runs[k].removed == m.runs[k].removed
  {}

  /** What a side has lost has moved. */
  ghost predicate Totals(m: Moves, r: Moves) {
    && (forall x {:trigger Rm(r.runs, x)} :: Rm(r.runs, x) + Count(r.moved, x) == Rm(m.runs, x) + Count(m.moved, x))
    && (forall x {:trigger Ad(r.runs, x)} :: Ad(r.runs, x) + Count(r.moved, x) == Ad(m.runs, x) + Count(m.moved, x))
  }

  lemma TotalsChain(m: Moves, b: Moves, r: Moves)
    requires Totals(m, b) && Totals(b, r)
    ensures Totals(m, r)
  {
    forall x ensures Rm(r.runs, x) + Count(r.moved, x) == Rm(m.runs, x) + Count(m.moved, x) {
      assert Rm(b.runs, x) + Count(b.moved, x) == Rm(m.runs, x) + Count(m.moved, x);
    }
    forall x ensures Ad(r.runs, x) + Count(r.moved, x) == Ad(m.runs, x) + Count(m.moved, x) {
      assert Ad(b.runs, x) + Count(b.moved, x) == Ad(m.runs, x) + Count(m.moved, x);
    }
  }

  /** What moving lines of run `own` keeps: the balance, the totals, the other runs' removed
      lines; and added lines only ever go. */
  ghost predicate Shifted(m: Moves, r: Moves, own: nat) {
    && |r.runs| == |m.runs| && Balanced(r) && Totals(m, r)
    && (forall x {:trigger Count(r.everyAdded, x)} :: Count(r.everyAdded, x) <= Count(m.everyAdded, x))
    && (forall k :: 0 <= k < |m.runs| && k != own ==> r.runs[k].removed == m.runs[k].removed)
  }

  /** Of the run's removed lines at least the unseen ones are there, and what else is there is
      added nowhere any more. */
  ghost predicate Stuck(r: Moves, own: nat, unseen: multiset<Line>)
    requires own < |r.runs|
  {
    forall x {:trigger Count(r.runs[own].removed, x)} ::
      && unseen[x] <= Count(r.runs[own].removed, x)
      && (Count(r.everyAdded, x) > 0 ==> Count(r.runs[own].removed, x) == unseen[x])
  }

  lemma OneMoreMoves(m: Moves, b: Moves, own: nat, line: Line, unseen: multiset<Line>)
    requires own < |m.runs| && Shifted(m, b, own) && Stuck(b, own, unseen + multiset{line})
    ensures Shifted(m, MoveLine(b, own, line), own) && Stuck(MoveLine(b, own, line), own, unseen)
  {
    var r := MoveLine(b, own, line);
    assert Count(b.runs[own].removed, line) > 0;
    MoveLineTouches(b, own, line);
    if line in b.everyAdded {
      forall x
        ensures Count(r.everyAdded, x) == Ad(r.runs, x)
        ensures Rm(r.runs, x) + Count(r.moved, x) == Rm(m.runs, x) + Count(m.moved, x)
        ensures Ad(r.runs, x) + Count(r.moved, x) == Ad(m.runs, x) + Count(m.moved, x)
        ensures Count(r.everyAdded, x) <= Count(m.everyAdded, x)
        ensures unseen[x] <= Count(r.runs[own].removed, x)
        ensures Count(r.everyAdded, x) > 0 ==> Count(r.runs[own].removed, x) == unseen[x]
      {
        MovedLineCounts(b, own, line, x);
        CountSplit(b.moved, [line], x);
      }
    } else {
      assert Count(b.everyAdded, line) == 0;
    }
  }

  lemma {:induction false} MoveLinesBalance(m: Moves, own: nat, lines: seq<Line>)
    requires own < |m.runs| && Balanced(m) && multiset(lines) <= multiset(m.runs[own].removed)
    ensures Shifted(m, MoveLines(m, own, lines), own)
    ensures Stuck(MoveLines(m, own, lines), own, multiset(m.runs[own].removed) - multiset(lines))
  {
    if lines != [] {
      var (init, line) := (lines[..|lines| - 1], lines[|lines| - 1]);
      var all := multiset(m.runs[own].removed);
      assert multiset(lines) == multiset(init) + multiset{line} by { assert lines == init + [line]; }
      MoveLinesBalance(m, own, init);
      assert all - multiset(init) == all - multiset(lines) + multiset{line};
      OneMoreMoves(m, MoveLines(m, own, init), own, line, all - multiset(lines));
    }
  }

  /** Nothing left in the first `n` runs is added anywhere. */
  ghost predicate Clear(r: Moves, n: nat)
    requires n <= |r.runs|
  {
    forall k, x {:trigger Count(r.runs[k].removed, x)} ::
      0 <= k < n && Count(r.runs[k].removed, x) > 0 ==> Count(r.everyAdded, x) == 0
  }

  lemma ClearOneMore(b: Moves, r: Moves, n: nat)
    requires n < |b.runs| && Shifted(b, r, n) && Stuck(r, n, multiset{}) && Clear(b, n)
    ensures Clear(r, n + 1)
  {
    forall k, x | 0 <= k < n + 1 && Count(r.runs[k].removed, x) > 0 ensures Count(r.everyAdded, x) == 0 {
      if k < n {
        assert Count(b.runs[k].removed, x) > 0 && Count(r.everyAdded, x) <= Count(b.everyAdded, x);
      }
    }
  }

  lemma {:induction false} MoveRunsBalance(m: Moves, n: nat)
    requires n <= |m.runs| && Balanced(m)
    ensures var r := MoveRuns(m, n); Balanced(r) && Clear(r, n) && Totals(m, r)
  {
    if n > 0 {
      MoveRunsBalance(m, n - 1);
      var b := MoveRuns(m, n - 1);
      var lines := b.runs[n - 1].removed;
      MoveLinesBalance(b, n - 1, lines);
      assert multiset(lines) - multiset(lines) == multiset{};
      ClearOneMore(b, MoveLines(b, n - 1, lines), n - 1);
      TotalsChain(m, b, MoveLines(b, n - 1, lines));
    }
  }

  /** Moves are maximal: each side is the moved lines and what is left, and no line is left on
      both sides. */
  lemma MovesAreMaximal(base: seq<Line>, final: seq<Line>, x: Line)
    ensures var (m, runs) := (Settled(base, final), HunksOf(base, final));
      && Rm(runs, x) == Rm(m.runs, x) + Count(m.moved, x)
      && Ad(runs, x) == Ad(m.runs, x) + Count(m.moved, x)
      && (Rm(m.runs, x) == 0 || Ad(m.runs, x) == 0)
  {
    var runs := HunksOf(base, final);
    var start := Moves(runs, AllAdded(runs), []);
    forall y ensures Count(start.everyAdded, y) == Ad(start.runs, y) { SumsOfAll(runs, y); }
    MoveRunsBalance(start, |runs|);
    var m := Settled(base, final);
    assert Count(start.moved, x) == 0;
    if Rm(m.runs, x) > 0 {
      var k := RemovedSomewhere(m.runs, x);
      assert Count(m.runs[k].removed, x) > 0;
      assert Count(m.everyAdded, x) == 0;
    }
  }

  // ----- the differences as a whole -----

  /** How often a difference takes `x` from the base, and how often it puts `x` into the final. */
  function BaseUses(d: Difference, x: Line): nat {
    match d
    case WasRemoved(base) => One(base, x)
    case Changed(base, _) => One(base, x)
    case Moved(line) => One(line, x)
    case WasAdded(_) => 0
  }

  function FinalUses(d: Difference, x: Line): nat {
    match d
    case WasAdded(final) => One(final, x)
    case Changed(_, final) => One(final, x)
    case Moved(line) => One(line, x)
    case WasRemoved(_) => 0
  }

  function BaseCount(ds: seq<Difference>, x: Line): nat {
    if ds == [] then 0 else BaseUses(ds[0], x) + BaseCount(ds[1..], x)
  }

  function FinalCount(ds: seq<Difference>, x: Line): nat {
    if ds == [] then 0 else FinalUses(ds[0], x) + FinalCount(ds[1..], x)
  }

  lemma {:induction false} CountsAdd(a: seq<Difference>, b: seq<Difference>, x: Line)
    ensures BaseCount(a + b, x) == BaseCount(a, x) + BaseCount(b, x)
    ensures FinalCount(a + b, x) == FinalCount(a, x) + FinalCount(b, x)
  {
    if a == [] {
      assert a + b == b;
    } else {
      assert (a + b)[1..] == a[1..] + b;
      CountsAdd(a[1..], b, x);
    }
  }

  lemma CountHead(s: seq<Line>, x: Line)
    requires s != []
    ensures Count(s, x) == One(s[0], x) + Count(s[1..], x)
  {
    assert s == [s[0]] + s[1..];
    CountSplit([s[0]], s[1..], x);
  }

  lemma CountWithout(s: seq<Line>, at: nat, x: Line)
    requires at < |s|
    ensures Count(s, x) == One(s[at], x) + Count(s[..at] + s[at + 1..], x)
  {
    assert s == s[..at] + s[at..] && s[at..][1..] == s[at + 1..];
    CountSplit(s[..at], s[at..], x);
    CountHead(s[at..], x);
    CountSplit(s[..at], s[at + 1..], x);
  }

  /** An entry takes its line from the base and what it pairs it with from the added lines. */
  lemma PairCounts(line: Line, added: seq<Line>, pair: bool, x: Line)
    ensures var p := PairOne(line, added, pair);
      BaseUses(p.entry, x) == One(line, x) && FinalUses(p.entry, x) + Count(p.rest, x) == Count(added, x)
  {
    var at := if pair then PartnerOf(added, line) else |added|;
    if at < |added| { CountWithout(added, at, x); }
  }

  lemma EntryCounts(entry: Difference, rest: seq<Difference>, x: Line)
    ensures BaseCount([entry] + rest, x) == BaseUses(entry, x) + BaseCount(rest, x)
    ensures FinalCount([entry] + rest, x) == FinalUses(entry, x) + FinalCount(rest, x)
  {
    assert ([entry] + rest)[1..] == rest;
  }

  lemma {:induction false} ReportCounts(removed: seq<Line>, added: seq<Line>, pair: bool, x: Line)
    ensures BaseCount(Found(removed, added, pair), x) == Count(removed, x)
    ensures FinalCount(Found(removed, added, pair), x) + Count(Unpaired(removed, added, pair), x) == Count(added, x)
  {
    if removed != [] {
      var p := PairOne(removed[0], added, pair);
      CountHead(removed, x);
      PairCounts(removed[0], added, pair, x);
      ReportCounts(removed[1..], p.rest, pair, x);
      EntryCounts(p.entry, Found(removed[1..], p.rest, pair), x);
    }
  }

  lemma {:induction false} AdditionCounts(lines: seq<Line>, x: Line)
    ensures BaseCount(Additions(lines), x) == 0 && FinalCount(Additions(lines), x) == Count(lines, x)
  {
    if lines != [] {
      assert lines == [lines[0]] + lines[1..];
      CountSplit([lines[0]], lines[1..], x);
      AdditionCounts(lines[1..], x);
    }
  }

  lemma {:induction false} MovedCounts(lines: seq<Line>, x: Line)
    ensures BaseCount(MovedLines(lines), x) == Count(lines, x) && FinalCount(MovedLines(lines), x) == Count(lines, x)
  {
    if lines != [] {
      var (init, last) := (lines[..|lines| - 1], lines[|lines| - 1]);
      assert lines == init + [last];
      CountSplit(init, [last], x);
      MovedCounts(init, x);
      CountsAdd(MovedLines(init), [Moved(last)], x);
    }
  }

  lemma {:induction false} SumsStep(runs: seq<Hunk>, n: nat, x: Line)
    requires 0 < n <= |runs|
    ensures Rm(runs[..n], x) == Rm(runs[..n - 1], x) + Count(runs[n - 1].removed, x)
    ensures Ad(runs[..n], x) == Ad(runs[..n - 1], x) + Count(runs[n - 1].added, x)
  {
    if n == 1 {
      assert runs[..1][1..] == [];
    } else {
      SumsStep(runs[1..], n - 1, x);
      assert runs[1..][..n - 1] == runs[..n][1..] && runs[1..][..n - 2] == runs[..n - 1][1..];
    }
  }

  lemma ReportRunCounts(run: Hunk, pair: bool, x: Line)
    ensures BaseCount(ReportRun(run, pair), x) == Count(run.removed, x)
    ensures FinalCount(ReportRun(run, pair), x) == Count(run.added, x)
  {
    var found, left := Found(run.removed, run.added, pair), Unpaired(run.removed, run.added, pair);
    ReportCounts(run.removed, run.added, pair, x);
    AdditionCounts(left, x);
    CountsAdd(found, Additions(left), x);
  }

  lemma {:induction false} ReportRunsCounts(runs: seq<Hunk>, pair: bool, n: nat, x: Line)
    requires n <= |runs|
    ensures BaseCount(ReportRuns(runs, pair, n), x) == Rm(runs[..n], x)
    ensures FinalCount(ReportRuns(runs, pair, n), x) == Ad(runs[..n], x)
  {
    if n > 0 {
      ReportRunsCounts(runs, pair, n - 1, x);
      ReportRunCounts(runs[n - 1], pair, x);
      CountsAdd(ReportRuns(runs, pair, n - 1), ReportRun(runs[n - 1], pair), x);
      SumsStep(runs, n, x);
    }
  }

  /** All that is reported of settled moves. */
  lemma ReportedCounts(m: Moves, pair: bool, x: Line)
    ensures var ds := ReportRuns(m.runs, pair, |m.runs|) + MovedLines(m.moved);
      && BaseCount(ds, x) == Rm(m.runs, x) + Count(m.moved, x)
      && FinalCount(ds, x) == Ad(m.runs, x) + Count(m.moved, x)
  {
    assert m.runs[..|m.runs|] == m.runs;
    ReportRunsCounts(m.runs, pair, |m.runs|, x);
    MovedCounts(m.moved, x);
    CountsAdd(ReportRuns(m.runs, pair, |m.runs|), MovedLines(m.moved), x);
  }

  /** Every line the hunks dropped or added is reported exactly once. */
  lemma DifferencesCount(base: seq<Line>, final: seq<Line>, pair: bool, x: Line)
    ensures BaseCount(Differences(base, final, pair), x) == Rm(HunksOf(base, final), x)
    ensures FinalCount(Differences(base, final, pair), x) == Ad(HunksOf(base, final), x)
  {
    MovesAreMaximal(base, final, x);
    ReportedCounts(Settled(base, final), pair, x);
  }

  lemma HunksCount(base: seq<Line>, final: seq<Line>, x: Line)
    ensures var script := Walk(base, final);
      && Count(base, x) == Count(Kept(script), x) + Rm(HunksOf(base, final), x)
      && Count(final, x) == Count(Kept(script), x) + Ad(HunksOf(base, final), x)
  {
    var script := Walk(base, final);
    WalkSpells(base, final);
    ScriptCounts(script);
    GatherHolds(script, NoLines);
    SumsOfAll(HunksOf(base, final), x);
    assert NoLines.removed + Dropped(script) == Dropped(script) && NoLines.added + Added(script) == Added(script);
  }

  /** Differences are conserved: taking their base lines out of the base, each as often as it is
      reported, and putting their final lines in gives the final side. */
  lemma DifferencesConserve(base: seq<Line>, final: seq<Line>, pair: bool, x: Line)
    ensures var ds := Differences(base, final, pair);
      && BaseCount(ds, x) <= Count(base, x)
      && Count(base, x) - BaseCount(ds, x) + FinalCount(ds, x) == Count(final, x)
  {
    DifferencesCount(base, final, pair, x);
    HunksCount(base, final, x);
  }

  /** The lines reported as moved. */
  function MovedCount(ds: seq<Difference>, x: Line): nat {
    if ds == [] then 0 else (if ds[0] == Moved(x) then 1 else 0) + MovedCount(ds[1..], x)
  }

  /** A line that both sides use is reported as moved as often as both do. */
  lemma MovedAsOftenAsShared(base: seq<Line>, final: seq<Line>, pair: bool, x: Line)
    ensures var ds := Differences(base, final, pair);
      MovedCount(ds, x) == if BaseCount(ds, x) <= FinalCount(ds, x) then BaseCount(ds, x) else FinalCount(ds, x)
  {
    var m := Settled(base, final);
    DifferencesCount(base, final, pair, x);
    MovesAreMaximal(base, final, x);
    ReportsNoMoves(m.runs, pair, |m.runs|, x);
    MovedCountOfMoved(m.moved, x);
    MovedCountAdds(ReportRuns(m.runs, pair, |m.runs|), MovedLines(m.moved), x);
  }

  lemma {:induction false} MovedCountAdds(a: seq<Difference>, b: seq<Difference>, x: Line)
    ensures MovedCount(a + b, x) == MovedCount(a, x) + MovedCount(b, x)
  {
    if a == [] {
      assert a + b == b;
    } else {
      assert (a + b)[1..] == a[1..] + b;
      MovedCountAdds(a[1..], b, x);
    }
  }

  lemma {:induction false} MovedCountOfMoved(lines: seq<Line>, x: Line)
    ensures MovedCount(MovedLines(lines), x) == Count(lines, x)
  {
    if lines != [] {
      var (init, last) := (lines[..|lines| - 1], lines[|lines| - 1]);
      assert lines == init + [last];
      CountSplit(init, [last], x);
      MovedCountOfMoved(init, x);
      MovedCountAdds(MovedLines(init), [Moved(last)], x);
    }
  }

  lemma {:induction false} ReportsNoMoves(runs: seq<Hunk>, pair: bool, n: nat, x: Line)
    requires n <= |runs|
    ensures MovedCount(ReportRuns(runs, pair, n), x) == 0
  {
    if n > 0 {
      ReportsNoMoves(runs, pair, n - 1, x);
      ReportRunNoMoves(runs[n - 1], pair, x);
      MovedCountAdds(ReportRuns(runs, pair, n - 1), ReportRun(runs[n - 1], pair), x);
    }
  }

  lemma ReportRunNoMoves(run: Hunk, pair: bool, x: Line)
    ensures MovedCount(ReportRun(run, pair), x) == 0
  {
    var found, left := Found(run.removed, run.added, pair), Unpaired(run.removed, run.added, pair);
    ReportNoMoves(run.removed, run.added, pair, x);
    AdditionsNoMoves(left, x);
    MovedCountAdds(found, Additions(left), x);
  }

  lemma {:induction false} ReportNoMoves(removed: seq<Line>, added: seq<Line>, pair: bool, x: Line)
    ensures MovedCount(Found(removed, added, pair), x) == 0
  {
    if removed != [] {
      var p := PairOne(removed[0], added, pair);
      ReportNoMoves(removed[1..], p.rest, pair, x);
      MovedCountAdds([p.entry], Found(removed[1..], p.rest, pair), x);
    }
  }

  lemma {:induction false} AdditionsNoMoves(lines: seq<Line>, x: Line)
    ensures MovedCount(Additions(lines), x) == 0
  {
    if lines != [] { AdditionsNoMoves(lines[1..], x); }
  }

  /** A difference uses some line. */
  lemma UsesSome(ds: seq<Difference>) returns (x: Line)
    requires ds != []
    ensures BaseCount(ds, x) + FinalCount(ds, x) > 0
  {
    x := match ds[0] case WasRemoved(l) => l case WasAdded(l) => l case Changed(l, _) => l case Moved(l) => l;
  }

  lemma UnusedMeansNone(ds: seq<Difference>)
    requires forall x :: BaseCount(ds, x) == 0 && FinalCount(ds, x) == 0
    ensures ds == []
  {
    if ds != [] { var x := UsesSome(ds); }
  }

  /** A permutation yields moves only. */
  lemma PermutationOnlyMoves(base: seq<Line>, final: seq<Line>, pair: bool)
    requires multiset(base) == multiset(final)
    ensures Differences(base, final, pair) == MovedLines(Settled(base, final).moved)
  {
    var m := Settled(base, final);
    var reported := ReportRuns(m.runs, pair, |m.runs|);
    assert m.runs[..|m.runs|] == m.runs;
    forall x ensures BaseCount(reported, x) == 0 && FinalCount(reported, x) == 0 {
      HunksCount(base, final, x);
      MovesAreMaximal(base, final, x);
      ReportRunsCounts(m.runs, pair, |m.runs|, x);
    }
    UnusedMeansNone(reported);
    assert [] + MovedLines(m.moved) == MovedLines(m.moved);
  }

  lemma {:induction false} OnlyKeeps(script: seq<Edit>)
    requires Dropped(script) == [] && Added(script) == []
    ensures BaseOf(script) == FinalOf(script)
  {
    if script != [] { OnlyKeeps(script[1..]); }
  }

  lemma {:induction false} LcsOfItself(a: seq<Line>)
    ensures LcsLength(a, a) == |a|
  {
    if a != [] { LcsOfItself(a[1..]); }
  }

  lemma NoCountsNoLines(s: seq<Line>)
    requires forall x :: Count(s, x) == 0
    ensures s == []
  {
    if s != [] { CountHead(s, s[0]); }
  }

  /** The result is empty exactly when both sides are equal. */
  lemma NoDifferencesIffEqual(base: seq<Line>, final: seq<Line>, pair: bool)
    ensures Differences(base, final, pair) == [] <==> base == final
  {
    var (ds, runs) := (Differences(base, final, pair), HunksOf(base, final));
    var script := Walk(base, final);
    WalkSpells(base, final);
    GatherHolds(script, NoLines);
    assert AllRemoved(runs) == Dropped(script) && AllAdded(runs) == Added(script);
    if ds == [] {
      forall x ensures Count(AllRemoved(runs), x) == 0 && Count(AllAdded(runs), x) == 0 {
        DifferencesCount(base, final, pair, x);
        SumsOfAll(runs, x);
      }
      NoCountsNoLines(AllRemoved(runs));
      NoCountsNoLines(AllAdded(runs));
      OnlyKeeps(script);
    }
    if base == final {
      LcsOfItself(base);
      HunksAreMinimal(base, final);
      forall x ensures BaseCount(ds, x) == 0 && FinalCount(ds, x) == 0 {
        DifferencesCount(base, final, pair, x);
        SumsOfAll(runs, x);
      }
      UnusedMeansNone(ds);
    }
  }

  /** Pairing: a change joins two lines of one identity, only when asked to, and no removed and
      added line that are reported alone from one run could have been joined. */
  lemma {:induction false} PairingIsMaximal(removed: seq<Line>, added: seq<Line>, pair: bool)
    ensures forall d :: d in Found(removed, added, pair) ==>
      d.WasRemoved? || (d.Changed? && pair && Identity(d.base) == Identity(d.final))
    ensures forall y :: y in Unpaired(removed, added, pair) ==> y in added
    ensures pair ==> forall d, y :: d in Found(removed, added, pair) && d.WasRemoved? && y in Unpaired(removed, added, pair) ==>
      Identity(d.base) != Identity(y)
  {
    if removed != [] {
      var p := PairOne(removed[0], added, pair);
      PairingIsMaximal(removed[1..], p.rest, pair);
      PairOneIsMaximal(removed[0], added, pair);
    }
  }

  lemma PairOneIsMaximal(line: Line, added: seq<Line>, pair: bool)
    ensures var p := PairOne(line, added, pair);
      && (p.entry == WasRemoved(line)
          || (p.entry.Changed? && p.entry.base == line && pair && Identity(p.entry.base) == Identity(p.entry.final)))
      && (forall y :: y in p.rest ==> y in added)
      && (pair && p.entry.WasRemoved? ==> forall y :: y in p.rest ==> Identity(line) != Identity(y))
  {}

  // ----- the method -----

  method TakeOutMoves(runs: seq<Hunk>) returns (m: Moves)
    ensures m == MoveRuns(Moves(runs, AllAdded(runs), []), |runs|)
  {
    var left, everyAdded, moved := runs, AllAdded(runs), [];
    for r := 0 to |runs|
      invariant |left| == |runs|
      invariant Moves(left, everyAdded, moved) == MoveRuns(Moves(runs, AllAdded(runs), []), r)
    {
      ghost var before := Moves(left, everyAdded, moved);
      var lines := left[r].removed;
      for n := 0 to |lines|
        invariant |left| == |runs|
        invariant Moves(left, everyAdded, moved) == MoveLines(before, r, lines[..n])
      {
        var line := lines[n];
        assert lines[..n + 1][..n] == lines[..n];
        if line in everyAdded {
          everyAdded := Remove(everyAdded, line);
          left := left[r := left[r].(removed := Remove(left[r].removed, line))];
          var home := HomeFrom(left, r, line, 0);
          left := left[home := left[home].(added := Remove(left[home].added, line))];
          moved := moved + [line];
        }
      }
      assert lines[..|lines|] == lines;
    }
    m := Moves(left, everyAdded, moved);
  }

  /** The first `n` removed lines have been reported, and these added lines are left. */
  ghost predicate Reported(run: Hunk, n: nat, found: seq<Difference>, left: seq<Line>, pair: bool)
    requires n <= |run.removed|
  {
    && found + Found(run.removed[n..], left, pair) == Found(run.removed, run.added, pair)
    && Unpaired(run.removed[n..], left, pair) == Unpaired(run.removed, run.added, pair)
  }

  /** The same, unfolded only where a proof mentions it. */
  ghost predicate ReportedTo(run: Hunk, n: nat, found: seq<Difference>, left: seq<Line>, pair: bool)
    requires n <= |run.removed|
  {
    forall r: Hunk {:trigger Reported(r, n, found, left, pair)} :: r == run ==> Reported(r, n, found, left, pair)
  }

  lemma ReportStep(run: Hunk, n: nat, found: seq<Difference>, left: seq<Line>, pair: bool)
    requires n < |run.removed| && ReportedTo(run, n, found, left, pair)
    ensures var p := PairOne(run.removed[n], left, pair); ReportedTo(run, n + 1, found + [p.entry], p.rest, pair)
  {
    var p := PairOne(run.removed[n], left, pair);
    assert Reported(run, n, found, left, pair);
    assert run.removed[n..][0] == run.removed[n] && run.removed[n..][1..] == run.removed[n + 1..];
    ConcatAssociates(found, [p.entry], Found(run.removed[n + 1..], p.rest, pair));
  }

  lemma ReportEnds(run: Hunk, found: seq<Difference>, left: seq<Line>, pair: bool)
    ensures ReportedTo(run, 0, [], run.added, pair)
    ensures ReportedTo(run, |run.removed|, found, left, pair) ==>
      found == Found(run.removed, run.added, pair) && left == Unpaired(run.removed, run.added, pair)
  {
    assert run.removed[0..] == run.removed && found + [] == found;
    if ReportedTo(run, |run.removed|, found, left, pair) { assert Reported(run, |run.removed|, found, left, pair); }
  }

  method PairUp(run: Hunk, pair: bool) returns (found: seq<Difference>, left: seq<Line>)
    ensures found == Found(run.removed, run.added, pair) && left == Unpaired(run.removed, run.added, pair)
  {
    found, left := [], run.added;
    ReportEnds(run, found, left, pair);
    for n := 0 to |run.removed|
      invariant ReportedTo(run, n, found, left, pair)
    {
      var line := run.removed[n];
      ReportStep(run, n, found, left, pair);
      var at := if pair then PartnerOf(left, line) else |left|;
      if at == |left| {
        found := found + [WasRemoved(line)];
      } else {
        found := found + [Changed(line, left[at])];
        left := left[..at] + left[at + 1..];
      }
    }
    ReportEnds(run, found, left, pair);
  }

  method ReportOne(run: Hunk, pair: bool) returns (found: seq<Difference>)
    ensures found == ReportRun(run, pair)
  {
    var left;
    found, left := PairUp(run, pair);
    ghost var paired := found;
    assert left[0..] == left;
    for n := 0 to |left|
      invariant found + Additions(left[n..]) == paired + Additions(left)
    {
      assert left[n..][0] == left[n] && left[n..][1..] == left[n + 1..];
      found := found + [WasAdded(left[n])];
    }
    assert found + [] == found;
  }

  method SequenceDifferences(base: seq<Line>, final: seq<Line>, pair: bool) returns (ds: seq<Difference>)
    requires |base| < TWO_32 && |final| < TWO_32
    ensures ds == Differences(base, final, pair)
  {
    var runs := Hunks(base, final);
    var m := TakeOutMoves(runs);
    ds := [];
    for r := 0 to |m.runs|
      invariant ds == ReportRuns(m.runs, pair, r)
    {
      var found := ReportOne(m.runs[r], pair);
      ds := ds + found;
    }
    ghost var reported := ds;
    for n := 0 to |m.moved|
      invariant ds == reported + MovedLines(m.moved[..n])
    {
      assert m.moved[..n + 1][..n] == m.moved[..n];
      ds := ds + [Moved(m.moved[n])];
    }
    assert m.moved[..|m.moved|] == m.moved;
  }
}
