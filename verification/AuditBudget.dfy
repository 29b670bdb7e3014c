/** `auditRefusalBudget`: which refusals become audit rows, and which only a log line. */
module AuditBudget {
  import opened Limits
  import opened Recency
  import opened Refusals
  import opened Selection
  import opened Sets
  import opened SlidingLog
  import opened SlidingLogRuns
  import opened SlidingWindows

  const AUDIT_REFUSAL_ROWS_PER_CLIENT := 20
  const AUDIT_REFUSAL_WINDOW_SECONDS: Positive := 60

  datatype Outcome = Row | LastRow | LogLine

  function RowOptions(): Options { OptionsFor(AUDIT_REFUSAL_ROWS_PER_CLIENT - 1, AUDIT_REFUSAL_WINDOW_SECONDS) }

  function ClosingOptions(): Options { OptionsFor(1, AUDIT_REFUSAL_WINDOW_SECONDS) }

  function Not(flags: seq<bool>): (r: seq<bool>)
    ensures |r| == |flags| && forall i :: 0 <= i < |flags| ==> r[i] == !flags[i]
  {
    seq(|flags|, i requires 0 <= i < |flags| => !flags[i])
  }

  /** What the budget was asked and answered: the closing limiter is only asked what the row
      limiter refused. */
  ghost predicate AuditRan(calls: seq<Call>, rows: seq<bool>, last: seq<bool>, answers: seq<Outcome>) {
    && Ran(RowOptions(), calls, rows)
    && Ran(ClosingOptions(), Select(calls, Not(rows)), last)
    && Told(rows, last, answers)
  }

  ghost predicate Told(rows: seq<bool>, last: seq<bool>, answers: seq<Outcome>) {
    && |answers| == |rows| && |last| == Position(Not(rows), |rows|)
    && forall i {:trigger answers[i]} :: 0 <= i < |rows| ==> answers[i] == OutcomeAt(rows, last, i)
  }

  function OutcomeAt(rows: seq<bool>, last: seq<bool>, i: nat): Outcome
    requires i < |rows| && |last| == Position(Not(rows), |rows|)
  {
    PositionsAscend(Not(rows), i, |rows|);
    if rows[i] then Row else if last[Position(Not(rows), i)] then LastRow else LogLine
  }

  /** Both limits are small enough for `slidingWindow` to pick the log. */
  class AuditRefusalBudget {
    const rows: SlidingWindowLog
    const closing: SlidingWindowLog
    ghost var answers: seq<Outcome>

    ghost predicate Valid()
      reads this, rows, closing
    {
      && rows != closing && rows.Valid() && closing.Valid()
      && rows.options == RowOptions() && closing.options == ClosingOptions()
      && closing.calls == Select(rows.calls, Not(rows.admitted))
      && Told(rows.admitted, closing.admitted, answers)
    }

    constructor ()
      ensures Valid() && answers == [] && rows.calls == [] && fresh(rows) && fresh(closing)
    {
      var r := new SlidingWindowLog(RowOptions());
      var c := new SlidingWindowLog(ClosingOptions());
      rows, closing, answers := r, c, [];
    }

    /** What the budget has been asked and has answered is a run of it. */
    lemma HistoryIsRun()
      requires Valid()
      ensures AuditRan(rows.calls, rows.admitted, closing.admitted, answers)
    {}

    /** The closing limiter is asked only when the row limiter refuses. */
    method Take(key: Key, now: int) returns (outcome: Outcome)
      requires Valid()
      modifies this, rows, closing
      ensures Valid()
      ensures rows.calls == old(rows.calls) + [Call(key, now)] && answers == old(answers) + [outcome]
    {
      ghost var calls, allowed, last := rows.calls, rows.admitted, closing.admitted;
      var row := rows.Check(key, now);
      if row.allowed {
        outcome := Row;
      } else {
        var closed := closing.Check(key, now);
        outcome := if closed.allowed then LastRow else LogLine;
      }
      OneMoreTold(allowed, last, answers, row.allowed, closing.admitted);
      OneMoreRefused(calls, allowed, Call(key, now), row.allowed);
      answers := answers + [outcome];
    }
  }

  lemma OneMoreTold(rows: seq<bool>, last: seq<bool>, answers: seq<Outcome>, row: bool, last': seq<bool>)
    requires Told(rows, last, answers)
    requires if row then last' == last else |last'| == |last| + 1 && last'[..|last|] == last
    ensures Told(rows + [row], last', answers + [if row then Row else if last'[|last|] then LastRow else LogLine])
  {
    assert Not(rows + [row]) == Not(rows) + [!row];
    SelectOneMore(rows, Not(rows), row, !row);
    var all := answers + [if row then Row else if last'[|last|] then LastRow else LogLine];
    forall i | 0 <= i < |all| ensures all[i] == OutcomeAt(rows + [row], last', i) {
      PositionsAscend(Not(rows), i, |rows|);
      if i < |answers| {
        assert answers[i] == OutcomeAt(rows, last, i);
        if !rows[i] { assert last[Position(Not(rows), i)] == last'[Position(Not(rows), i)]; }
      }
    }
  }

  lemma OneMoreRefused(calls: seq<Call>, rows: seq<bool>, call: Call, row: bool)
    requires |calls| == |rows|
    ensures Select(calls + [call], Not(rows + [row])) == Select(calls, Not(rows)) + if row then [] else [call]
  {
    assert Not(rows + [row]) == Not(rows) + [!row];
    SelectOneMore(calls, Not(rows), call, !row);
  }

  // ----- what the audit budget bounds -----

  /** The calls of `key` in (from, to] that were answered `outcome`. */
  ghost function Answered(answers: seq<Outcome>, calls: seq<Call>, key: Key, outcome: Outcome, from: int, to: int): set<nat>
    requires |answers| == |calls|
  {
    set j: nat | j < |calls| && answers[j] == outcome && calls[j].key == key && from < calls[j].at <= to
  }

  lemma RowsAreAdmissions(calls: seq<Call>, rows: seq<bool>, last: seq<bool>, answers: seq<Outcome>, key: Key, from: int, to: int)
    requires AuditRan(calls, rows, last, answers)
    ensures Answered(answers, calls, key, Row, from, to) == Within(rows, calls, key, from, to)
  {
    forall j | 0 <= j < |calls| ensures answers[j] == Row <==> rows[j] {
      assert answers[j] == OutcomeAt(rows, last, j);
    }
  }

  lemma LastRowsAreAdmissions(calls: seq<Call>, rows: seq<bool>, last: seq<bool>, answers: seq<Outcome>, key: Key, from: int, to: int)
    requires AuditRan(calls, rows, last, answers)
    ensures |Answered(answers, calls, key, LastRow, from, to)|
         <= |Within(last, Select(calls, Not(rows)), key, from, to)|
  {
    var refused := Not(rows);
    var closings := Answered(answers, calls, key, LastRow, from, to);
    forall j | j in closings ensures refused[j] && Position(refused, j) in Within(last, Select(calls, refused), key, from, to) {
      assert answers[j] == OutcomeAt(rows, last, j);
      SelectedAt(calls, refused, j, |calls|);
    }
    PositionsCount(refused, closings, Within(last, Select(calls, refused), key, from, to));
  }

  /** Whatever the window, a client puts at most 19 rows and one closing row into the table. */
  lemma AuditWindowBound(calls: seq<Call>, rows: seq<bool>, last: seq<bool>, answers: seq<Outcome>, key: Key, end: int)
    requires AuditRan(calls, rows, last, answers) && Monotone(calls)
    requires var from := end - RowOptions().WindowMs();
      && Remembered(MAX_THROTTLE_KEYS, calls, Within(rows, calls, key, from, end))
      && Remembered(MAX_THROTTLE_KEYS, Select(calls, Not(rows)), Within(last, Select(calls, Not(rows)), key, from, end))
    ensures var from := end - RowOptions().WindowMs();
      && |Answered(answers, calls, key, Row, from, end)| <= AUDIT_REFUSAL_ROWS_PER_CLIENT - 1
      && |Answered(answers, calls, key, LastRow, from, end)| <= 1
  {
    var from := end - RowOptions().WindowMs();
    RowsAreAdmissions(calls, rows, last, answers, key, from, end);
    WindowHoldsAtMostLimit(RowOptions(), calls, rows, key, end);
    LastRowsAreAdmissions(calls, rows, last, answers, key, from, end);
    SelectedMonotone(calls, Not(rows));
    WindowHoldsAtMostLimit(ClosingOptions(), Select(calls, Not(rows)), last, key, end);
  }

  /** A refusal becomes a mere log line only when both budgets were used up inside the window
      that ends with it: 19 rows and a closing row. Eviction cannot cause one. */
  lemma LogLineMeansSpent(calls: seq<Call>, rows: seq<bool>, last: seq<bool>, answers: seq<Outcome>, i: nat)
    requires AuditRan(calls, rows, last, answers) && Monotone(calls) && i < |calls| && answers[i] == LogLine
    ensures var (key, now) := (calls[i].key, calls[i].at);
      var from := now - RowOptions().WindowMs();
      && |Answered(answers, calls, key, Row, from, now)| >= AUDIT_REFUSAL_ROWS_PER_CLIENT - 1
      && |Answered(answers, calls, key, LastRow, from, now)| >= 1
  {
    assert answers[i] == OutcomeAt(rows, last, i);
    RowsSpent(calls, rows, last, answers, i);
    var j := ClosingSpent(calls, rows, last, answers, i);
    var closings := Answered(answers, calls, calls[i].key, LastRow, calls[i].at - RowOptions().WindowMs(), calls[i].at);
    SubsetSize({j}, closings);
  }

  lemma RowsSpent(calls: seq<Call>, rows: seq<bool>, last: seq<bool>, answers: seq<Outcome>, i: nat)
    requires AuditRan(calls, rows, last, answers) && Monotone(calls) && i < |calls| && !rows[i]
    ensures |Answered(answers, calls, calls[i].key, Row, calls[i].at - RowOptions().WindowMs(), calls[i].at)|
         >= AUDIT_REFUSAL_ROWS_PER_CLIENT - 1
  {
    var (key, from, now) := (calls[i].key, calls[i].at - RowOptions().WindowMs(), calls[i].at);
    NeverRefusesUnspent(RowOptions(), calls, rows, i);
    RowsAreAdmissions(calls, rows, last, answers, key, from, now);
    var earlier := Earlier(rows, calls, i, RowOptions().WindowMs());
    forall j | j in earlier ensures calls[j].at <= now { assert InOrder(calls, j, i); }
    SubsetSize(earlier, Within(rows, calls, key, from, now));
  }

  lemma ClosingSpent(calls: seq<Call>, rows: seq<bool>, last: seq<bool>, answers: seq<Outcome>, i: nat) returns (j: nat)
    requires AuditRan(calls, rows, last, answers) && Monotone(calls) && i < |calls| && answers[i] == LogLine
    ensures j in Answered(answers, calls, calls[i].key, LastRow, calls[i].at - RowOptions().WindowMs(), calls[i].at)
  {
    var refused, asked := Not(rows), Select(calls, Not(rows));
    assert answers[i] == OutcomeAt(rows, last, i);
    SelectedAt(calls, refused, i, |calls|);
    SelectedMonotone(calls, refused);
    var p := Position(refused, i);
    NeverRefusesUnspent(ClosingOptions(), asked, last, p);
    var earlier := Earlier(last, asked, p, ClosingOptions().WindowMs());
    assert earlier != {};
    var q :| q in earlier;
    j := SelectedFrom(calls, refused, |calls|, q);
    assert InOrder(asked, q, p);
    assert answers[j] == OutcomeAt(rows, last, j);
  }
}
