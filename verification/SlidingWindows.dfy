/** `slidingWindow`, which picks a limiter by its limit. */
module SlidingWindows {
  import opened Limits
  import opened Numbers
  import opened Recency
  import opened SlidingLog
  import opened SlidingLogRuns
  import opened SlidingCounter
  import opened SlidingCounterRuns

  const COUNTER_THRESHOLD := 100
  const MAX_THROTTLE_KEYS := 10000

  function OptionsFor(limit: nat, windowSeconds: Positive): Options {
    Options(if limit > COUNTER_THRESHOLD then Counter else Log, limit, windowSeconds, MAX_THROTTLE_KEYS)
  }

  /** What one window can admit of a key: the log is exact, the counter is not. */
  function Most(o: Options): nat {
    if o.kind == Log then o.limit else Max(0, 2 * o.limit - 1)
  }

  lemma WindowHoldsAtMost(o: Options, calls: seq<Call>, admitted: seq<bool>, key: Key, end: int)
    requires Ran(o, calls, admitted) && Monotone(calls)
    requires Remembered(o.maxKeys, calls, Within(admitted, calls, key, end - o.WindowMs(), end))
    ensures |Within(admitted, calls, key, end - o.WindowMs(), end)| <= Most(o)
  {
    if o.kind == Log {
      WindowHoldsAtMostLimit(o, calls, admitted, key, end);
    } else {
      WindowHoldsLessThanTwiceLimit(o, calls, admitted, key, end);
    }
  }

  /** What a check is answered at its place in a run, by the limiter of the run's kind. */
  ghost function AnswerOf(o: Options, calls: seq<Call>, i: nat): Decision
    requires i < |calls|
  {
    if o.kind == Log then AnswerAt(o, calls, i) else CounterAnswerAt(o, calls, i)
  }

  /** The latest check of a run was answered so. Unfolded only where a proof mentions the answer. */
  ghost predicate Latest(o: Options, calls: seq<Call>, d: Decision) {
    calls != [] && forall i: nat {:trigger AnswerOf(o, calls, i)} :: i == |calls| - 1 ==> AnswerOf(o, calls, i) == d
  }

  lemma LatestMeans(o: Options, calls: seq<Call>, d: Decision)
    requires Latest(o, calls, d)
    ensures AnswerOf(o, calls, |calls| - 1) == d
  {
    var last := AnswerOf(o, calls, |calls| - 1);
  }

  /** A refusal names at least one second and at most one window. */
  lemma RefusalInWindow(o: Options, calls: seq<Call>, i: nat)
    requires i < |calls| && !AnswerOf(o, calls, i).allowed
    ensures 1 <= AnswerOf(o, calls, i).retryAfterSeconds <= o.windowSeconds
  {
    var (m, key, now) := (Replay(o, calls[..i]), calls[i].key, calls[i].at);
    if o.kind == Log { LogRefusal(o, m, key, now); } else { CounterRefusal(o, m, key, now); }
  }

  lemma LogRefusal(o: Options, m: Keys, key: Key, now: int)
    requires m.Valid() && !Answer(o, m, key, now).allowed
    ensures 1 <= Answer(o, m, key, now).retryAfterSeconds <= o.windowSeconds
  {}

  lemma CounterRefusal(o: Options, m: Keys, key: Key, now: int)
    requires m.Valid() && !CounterAnswer(o, m, key, now).allowed
    ensures 1 <= CounterAnswer(o, m, key, now).retryAfterSeconds <= o.windowSeconds
  {}

  /** A budget of nothing refuses everything, for the whole window. */
  lemma NothingAllowed(o: Options, calls: seq<Call>, admitted: seq<bool>, i: nat)
    requires Ran(o, calls, admitted) && Monotone(calls) && i < |calls| && o.limit == 0
    ensures AnswerOf(o, calls, i) == Decision(false, o.windowSeconds)
  {
    MonotonePrefix(calls, i);
    LeftSound(o, calls[..i], calls[i].key, calls[i].at);
    if o.kind == Log { NoHits(o, calls, admitted, i); } else { NoRoom(o, calls, admitted, i); }
  }

  lemma NoHits(o: Options, calls: seq<Call>, admitted: seq<bool>, i: nat)
    requires o.kind == Log && Ran(o, calls, admitted) && Monotone(calls) && i < |calls| && o.limit == 0
    requires var left := Left(o, calls[..i], calls[i].key); left.Some? ==> Sound(o, left.value, calls[i].at)
    ensures AnswerAt(o, calls, i) == Decision(false, o.windowSeconds)
  {
    LogAnswers(o, calls, admitted, i);
    LogServes(o, calls, admitted, i);
    LiveFacts(Recollection(o, calls[..i], calls[i].key), calls[i].at - o.WindowMs());
    assert Weighed(o, calls, i) == [];
  }

  lemma NoRoom(o: Options, calls: seq<Call>, admitted: seq<bool>, i: nat)
    requires o.kind == Counter && Ran(o, calls, admitted) && Monotone(calls) && i < |calls| && o.limit == 0
    ensures CounterAnswerAt(o, calls, i) == Decision(false, o.windowSeconds)
  {
    CounterAnswers(o, calls, admitted, i);
    if admitted[i] { AdmissionLeavesRoom(o, calls, admitted, i); }
  }

  /** A check and a later one of its key that remembers it, with nothing of the key admitted from the
      one up to the other. */
  ghost predicate Retried(o: Options, calls: seq<Call>, admitted: seq<bool>, i: nat, m: nat) {
    && Ran(o, calls, admitted) && Monotone(calls) && i < m < |calls| && calls[m].key == calls[i].key
    && Remembers(o.maxKeys, calls, m, i)
    && forall j :: i <= j < m && calls[j].key == calls[i].key ==> !admitted[j]
  }

  /** The log's cap never binds; the counter's does not when the refusal is `Uncapped`. */
  ghost predicate Unbound(o: Options, calls: seq<Call>, admitted: seq<bool>, i: nat)
    requires i < |calls| == |admitted|
  {
    o.kind == Counter ==> Uncapped(o, calls, admitted, i)
  }

  /** The answered seconds cannot be undercut by a whole second, and staying away for them is enough
      unless the counter's cap binds. */
  lemma RetryAfterHolds(o: Options, calls: seq<Call>, admitted: seq<bool>, i: nat, m: nat)
    requires Retried(o, calls, admitted, i, m) && o.limit >= 1
    ensures !AnswerOf(o, calls, i).allowed
    ensures var s := AnswerOf(o, calls, i).retryAfterSeconds;
      && (calls[m].at <= calls[i].at + 1000 * (s - 1) ==> !admitted[m])
      && (calls[m].at >= calls[i].at + 1000 * s && Unbound(o, calls, admitted, i) ==> admitted[m])
  {
    if o.kind == Log {
      AnswerIsExact(o, calls, admitted, i);
      OpensExactly(o, calls, admitted, i, m);
    } else {
      var s := CounterAnswerAt(o, calls, i).retryAfterSeconds;
      CounterRetryAfterIsNeeded(o, calls, admitted, i, m);
      if calls[m].at >= calls[i].at + 1000 * s && Uncapped(o, calls, admitted, i) {
        CounterRetryAfterSuffices(o, calls, admitted, i, m);
      }
    }
  }

  /** What `slidingWindow` returns: one of the two limiters. */
  datatype Limiter = OfLog(log: SlidingWindowLog) | OfCounter(counter: SlidingWindowCounter) {

    ghost function Settings(): Options { if OfLog? then log.options else counter.options }

    ghost function Base(): object { if OfLog? then log else counter }

    ghost function Objects(): set<object>
      reads Base()
    {
      if OfLog? then {log} else counter.Repr
    }

    ghost predicate Valid()
      reads Base(), Objects()
    {
      if OfLog? then log.Valid() else counter.Valid()
    }

    ghost function Calls(): seq<Call>
      reads Base()
    {
      if OfLog? then log.calls else counter.calls
    }

    ghost function Admitted(): seq<bool>
      reads Base()
    {
      if OfLog? then log.admitted else counter.admitted
    }

    method Check(key: Key, now: int) returns (d: Decision)
      requires Valid()
      modifies Objects()
      ensures Valid() && fresh(Objects() - old(Objects()))
      ensures Calls() == old(Calls()) + [Call(key, now)] && Admitted() == old(Admitted()) + [d.allowed]
      ensures Latest(Settings(), Calls(), d)
    {
      match this
      case OfLog(l) => d := l.Check(key, now);
      case OfCounter(c) => d := c.Check(key, now);
    }
  }

  /** Two limiters that share nothing. */
  ghost predicate Apart(a: Limiter, b: Limiter)
    reads a.Base(), a.Objects(), b.Base(), b.Objects()
  {
    a.Objects() !! b.Objects() && forall x: Limiter {:trigger x.Valid()} :: x in {a, b} ==> x.Valid()
  }

  /** A check of one limiter leaves the other as it was. */
  method CheckBeside(a: Limiter, ghost b: Limiter, key: Key, now: int) returns (d: Decision)
    requires Apart(a, b)
    modifies a.Objects()
    ensures Apart(a, b) && fresh(a.Objects() - old(a.Objects())) && b.Objects() == old(b.Objects())
    ensures a.Calls() == old(a.Calls()) + [Call(key, now)] && a.Admitted() == old(a.Admitted()) + [d.allowed]
    ensures Latest(a.Settings(), a.Calls(), d)
    ensures b.Calls() == old(b.Calls()) && b.Admitted() == old(b.Admitted())
  {
    assert a.Valid() && b.Valid();
    assert b.Base() in b.Objects() && a.Base() in a.Objects();
    d := a.Check(key, now);
    assert b.Objects() == old(b.Objects());
    assert b.Valid();
  }

  method SlidingWindow(limit: nat, windowSeconds: Positive) returns (l: Limiter)
    ensures l.Valid() && fresh(l.Objects()) && l.Settings() == OptionsFor(limit, windowSeconds) && l.Calls() == []
    ensures (l.OfCounter? <==> limit > 100) && l.Settings().maxKeys == 10000
    ensures l.Settings().limit == limit && l.Settings().windowSeconds == windowSeconds
  {
    if limit > COUNTER_THRESHOLD {
      var counter := new SlidingWindowCounter(OptionsFor(limit, windowSeconds));
      l := OfCounter(counter);
    } else {
      var log := new SlidingWindowLog(OptionsFor(limit, windowSeconds));
      l := OfLog(log);
    }
  }

  /** Two new limiters that share nothing. */
  method TwoWindows(a: Options, b: Options) returns (l: Limiter, r: Limiter)
    requires a == OptionsFor(a.limit, a.windowSeconds) && b == OptionsFor(b.limit, b.windowSeconds)
    ensures Apart(l, r) && fresh(l.Objects()) && fresh(r.Objects())
    ensures l.Base() in l.Objects() && r.Base() in r.Objects()
    ensures l.Settings() == a && l.Calls() == [] && Ran(a, [], l.Admitted())
    ensures r.Settings() == b && r.Calls() == [] && Ran(b, [], r.Admitted())
  {
    l := SlidingWindow(a.limit, a.windowSeconds);
    r := SlidingWindow(b.limit, b.windowSeconds);
    HistoryRan(l);
    HistoryRan(r);
  }

  /** A limiter's history is a run of its options. */
  lemma HistoryRan(l: Limiter)
    requires l.Valid()
    ensures Ran(l.Settings(), l.Calls(), l.Admitted())
  {}
}
