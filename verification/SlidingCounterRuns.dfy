/** What `slidingWindowCounter` promises over whole runs: its counts are the fixed windows'
    admissions, at most `2 * limit - 1` admissions ever fall into one window, and its unrounded
    wait is the instant it opens again. */
module SlidingCounterRuns {
  import opened InsertionMaps
  import opened Limits
  import opened Numbers
  import opened Recency
  import opened Sets
  import opened SlidingLogRuns
  import opened SlidingCounter

  // ----- the wait, for counts that nothing else is admitted to -----

  /** Counts at rest: what a refused call leaves, in the window of that call. */
  ghost predicate Refusing(o: Options, c: Memory, now: int) {
    && c.Counts? && c.window == WindowAt(o, now)
    && 0 <= c.previous <= o.limit && 0 <= c.current <= o.limit && !Fits(o, c, now)
  }

  /** The wait in whole units: `WaitNumerator / WaitDenominator` milliseconds. */
  function WaitNumerator(o: Options, c: Memory, now: int): int
    requires c.Counts?
  {
    var w, offset := o.WindowMs(), now % o.WindowMs();
    if c.current < o.limit then c.previous * (w - offset) - (o.limit - 1 - c.current) * w
    else o.limit * (w - offset) + w
  }

  function WaitDenominator(o: Options, c: Memory): int
    requires c.Counts?
  {
    if c.current < o.limit then c.previous else o.limit
  }

  /** The first formula applies exactly when the window's own count leaves room, and then the
      previous count is positive. */
  lemma FormulaByRoom(o: Options, c: Memory, now: int)
    requires Refusing(o, c, now) && o.limit >= 1
    ensures c.current < o.limit <==> o.limit - 1 - c.current >= 0 && c.previous > 0
    ensures WaitDenominator(o, c) > 0
  {
    FitsExactly(o, c, now);
    MultiplesAscend(c.current + 1, o.limit, o.WindowMs());
  }

  lemma WaitIsQuotient(o: Options, c: Memory, now: int)
    requires Refusing(o, c, now) && o.limit >= 1
    ensures WaitDenominator(o, c) > 0
    ensures WaitMs(o, c, now) * WaitDenominator(o, c) as real == WaitNumerator(o, c, now) as real
  {
    FormulaByRoom(o, c, now);
    var w, offset, e := o.WindowMs(), now % o.WindowMs(), Elapsed(o, now);
    assert now - WindowAt(o, now) * w == offset;
    assert e * w as real == offset as real;
    var room := o.limit - 1 - c.current;
    if c.current < o.limit {
      var p, q := c.previous as real, room as real / c.previous as real;
      assert q * p == room as real;
      assert (1.0 - q - e) * w as real * p == p * w as real - (q * p) * w as real - p * (e * w as real) by {
        FirstFormula(q, e, w as real, p);
      }
      assert (c.previous * (w - offset) - room * w) as real == p * w as real - p * offset as real - room as real * w as real;
    } else {
      var l := o.limit as real;
      var share := w as real / l;
      assert share * l == w as real;
      assert ((1.0 - e) * w as real + share) * l == l * w as real - l * (e * w as real) + share * l by {
        SecondFormula(e, w as real, share, l);
      }
      assert (o.limit * (w - offset) + w) as real == l * w as real - l * offset as real + w as real;
    }
  }

  lemma FirstFormula(q: real, e: real, w: real, p: real)
    ensures (1.0 - q - e) * w * p == p * w - (q * p) * w - p * (e * w)
  {}

  lemma SecondFormula(e: real, w: real, share: real, l: real)
    ensures ((1.0 - e) * w + share) * l == l * w - l * (e * w) + share * l
  {}

  /** The counts' comparison at a later instant, without division. */
  predicate FitsWhole(previous: int, current: int, limit: int, w: int, offset: int) {
    previous * (w - offset) + (current + 1) * w <= limit * w
  }

  lemma OpensInSameWindow(p: int, u: int, limit: int, w: int, offset: int, offset': int)
    requires 0 <= p && 0 <= u <= limit && 0 <= offset <= offset' < w && limit >= 1
    ensures u < limit ==>
      (FitsWhole(p, u, limit, w, offset') <==> (offset' - offset) * p >= p * (w - offset) - (limit - 1 - u) * w)
    ensures u == limit ==>
      !FitsWhole(p, u, limit, w, offset') && (offset' - offset) * limit < limit * (w - offset) + w
  {
    if u < limit {
      assert (offset' - offset) * p - p * (w - offset) == -(p * (w - offset'));
      assert (limit - 1 - u) * w == limit * w - (u + 1) * w;
    } else {
      assert (u + 1) * w == limit * w + w;
      ProductNonNegative(p, w - offset');
      ProductNonNegative(limit, w - offset');
      assert (offset' - offset) * limit - limit * (w - offset) == -(limit * (w - offset'));
    }
  }

  lemma OpensInNextWindow(p: int, u: int, limit: int, w: int, offset: int, offset': int)
    requires 0 <= p && 0 <= u <= limit && 0 <= offset < w && 0 <= offset' < w && limit >= 1
    ensures u < limit ==>
      FitsWhole(u, 0, limit, w, offset') && (w + offset' - offset) * p >= p * (w - offset) - (limit - 1 - u) * w
    ensures u == limit ==>
      (FitsWhole(u, 0, limit, w, offset') <==> (w + offset' - offset) * limit >= limit * (w - offset) + w)
  {
    if u < limit {
      NextWindowHasRoom(u, limit, w, offset');
      ProductNonNegative(offset', p);
      ProductNonNegative(limit - 1 - u, w);
      assert (w + offset' - offset) * p == p * (w - offset) + offset' * p;
    } else {
      Differences(w, offset', limit);
      assert (w + offset' - offset) * limit == limit * (w - offset) + limit * offset';
    }
  }

  lemma NextWindowHasRoom(u: int, limit: int, w: int, offset: int)
    requires 0 <= u < limit && 0 <= offset < w
    ensures FitsWhole(u, 0, limit, w, offset)
  {
    MultiplesAscend(u, limit - 1, w);
    ProductNonNegative(u, offset);
    Differences(w, offset, u);
    Differences(limit, 1, w);
  }

  lemma OpensInLaterWindow(p: int, u: int, limit: int, w: int, offset: int, offset': int, delta: int)
    requires 0 <= p && 0 <= u <= limit && 0 <= offset < w && 0 <= offset' < w && limit >= 1
    requires delta >= 2 * w + offset' - offset
    ensures FitsWhole(0, 0, limit, w, offset')
    ensures u < limit ==> delta * p >= p * (w - offset) - (limit - 1 - u) * w
    ensures u == limit ==> delta * limit >= limit * (w - offset) + w
  {
    MultiplesAscend(1, limit, w);
    if u < limit {
      MultiplesAscend(0, limit - 1 - u, w);
      MultiplesAscend(w - offset, delta, p);
    } else {
      MultiplesAscend(2 * w - offset, delta, limit);
      assert (2 * w - offset) * limit == limit * (w - offset) + limit * w;
    }
  }

  /** After any number of windows. */
  lemma OpensAfterSteps(p: int, u: int, limit: int, w: int, offset: int, offset': int, steps: nat, delta: int)
    requires 0 <= p && 0 <= u <= limit && 0 <= offset < w && 0 <= offset' < w && limit >= 1
    requires delta == steps * w + offset' - offset >= 0
    ensures FitsWhole(if steps == 0 then p else if steps == 1 then u else 0, if steps == 0 then u else 0, limit, w, offset')
       <==> if u < limit then delta * p >= p * (w - offset) - (limit - 1 - u) * w
            else delta * limit >= limit * (w - offset) + w
  {
    if steps == 0 {
      OpensInSameWindow(p, u, limit, w, offset, offset');
    } else if steps == 1 {
      OpensInNextWindow(p, u, limit, w, offset, offset');
    } else {
      MultiplesAscend(2, steps, w);
      OpensInLaterWindow(p, u, limit, w, offset, offset', delta);
    }
  }

  lemma Offsets(now: int, t: int, w: int)
    requires w > 0
    ensures t - now == (t / w - now / w) * w + t % w - now % w
  {}

  /** In whole units: a later check finds room exactly from the wait's end. */
  lemma OpensWhole(o: Options, c: Memory, now: int, t: int)
    requires Refusing(o, c, now) && o.limit >= 1 && now <= t
    ensures Fits(o, Rolled(c, WindowAt(o, t)), t)
       <==> (t - now) * WaitDenominator(o, c) >= WaitNumerator(o, c, now)
  {
    var w, steps := o.WindowMs(), WindowAt(o, t) - WindowAt(o, now);
    WindowsAscend(o, now, t);
    FitsExactly(o, Rolled(c, WindowAt(o, t)), t);
    Offsets(now, t, w);
    OpensAfterSteps(c.previous, c.current, o.limit, w, now % w, t % w, steps, t - now);
  }

  lemma CompareQuotient(quotient: real, n: int, d: int, x: int)
    requires d > 0 && quotient * d as real == n as real
    ensures x as real >= quotient <==> x * d >= n
  {
    ScaleCompare(quotient, x as real, d as real);
    assert (x * d) as real == x as real * d as real;
  }

  lemma WaitWhole(o: Options, c: Memory, now: int, x: int)
    requires Refusing(o, c, now) && o.limit >= 1
    ensures x as real >= WaitMs(o, c, now) <==> x * WaitDenominator(o, c) >= WaitNumerator(o, c, now)
  {
    WaitIsQuotient(o, c, now);
    CompareQuotient(WaitMs(o, c, now), WaitNumerator(o, c, now), WaitDenominator(o, c), x);
  }

  /** With nothing admitted in between, a check is refused before the unrounded wait and
      admitted from its end on, in the same fixed window or a later one. */
  lemma OpensAfterWait(o: Options, c: Memory, now: int, t: int)
    requires Refusing(o, c, now) && o.limit >= 1 && now <= t
    ensures Fits(o, Rolled(c, WindowAt(o, t)), t) <==> (t - now) as real >= WaitMs(o, c, now)
  {
    OpensWhole(o, c, now, t);
    WaitWhole(o, c, now, t - now);
  }

  /** The answered seconds are at least one and at most one window, and never a whole second too
      long. Waiting them is always enough exactly when the answer was not capped: when the
      window's own count leaves room, or the window is far enough gone at the refusal. */
  lemma AnswerSufficesIff(o: Options, c: Memory, now: int)
    requires Refusing(o, c, now) && o.limit >= 1
    ensures var s := CounterRetryAfter(o, c, now);
      && 1 <= s <= o.windowSeconds
      && (1000 * (s - 1)) as real < WaitMs(o, c, now)
    ensures (forall t :: t >= now + 1000 * CounterRetryAfter(o, c, now) ==> Fits(o, Rolled(c, WindowAt(o, t)), t))
       <==> c.current < o.limit || (now % o.WindowMs()) * o.limit >= o.WindowMs()
  {
    var s, wait := CounterRetryAfter(o, c, now), WaitMs(o, c, now);
    WaitIsPositive(o, c, now);
    AnswerFromWait(o, wait, s);
    WaitFitsWindow(o, c, now);
    if wait <= o.WindowMs() as real {
      forall t | t >= now + 1000 * s ensures Fits(o, Rolled(c, WindowAt(o, t)), t) {
        OpensAfterWait(o, c, now, t);
      }
    } else {
      var t := now + o.WindowMs();
      OpensAfterWait(o, c, now, t);
      assert t >= now + 1000 * s && !Fits(o, Rolled(c, WindowAt(o, t)), t);
    }
  }

  lemma WaitIsPositive(o: Options, c: Memory, now: int)
    requires Refusing(o, c, now) && o.limit >= 1
    ensures WaitMs(o, c, now) > 0.0
  {
    OpensAfterWait(o, c, now, now);
  }

  lemma AnswerFromWait(o: Options, wait: real, s: int)
    requires wait > 0.0 && s == Max(1, Min(o.windowSeconds, CeilOf(wait / 1000.0)))
    ensures 1 <= s <= o.windowSeconds && (1000 * (s - 1)) as real < wait
    ensures wait <= o.WindowMs() as real ==> (1000 * s) as real >= wait
    ensures wait > o.WindowMs() as real ==> s == o.windowSeconds
  {
    var ceil := CeilOf(wait / 1000.0);
    assert (ceil - 1) as real * 1000.0 < wait <= ceil as real * 1000.0;
    assert ceil >= 1;
  }

  lemma WaitFitsWindow(o: Options, c: Memory, now: int)
    requires Refusing(o, c, now) && o.limit >= 1
    ensures WaitMs(o, c, now) <= o.WindowMs() as real
       <==> c.current < o.limit || (now % o.WindowMs()) * o.limit >= o.WindowMs()
  {
    WaitWhole(o, c, now, o.WindowMs());
    WholeWaitFits(c.previous, c.current, o.limit, o.WindowMs(), now % o.WindowMs());
  }

  lemma WholeWaitFits(p: int, u: int, limit: int, w: int, offset: int)
    requires 0 <= p && 0 <= u <= limit && 0 <= offset < w
    ensures u < limit ==> w * p >= p * (w - offset) - (limit - 1 - u) * w
    ensures w * limit >= limit * (w - offset) + w <==> offset * limit >= w
  {
    ProductNonNegative(p, offset);
    Differences(w, offset, p);
    if u < limit { ProductNonNegative(limit - 1 - u, w); }
    Differences(w, offset, limit);
  }

  // ----- the counts are the fixed windows' admissions -----

  /** The admissions of `key` among the first `i` calls in fixed window `window`. */
  ghost function Fixed(o: Options, admitted: seq<bool>, calls: seq<Call>, i: nat, key: Key, window: int): set<nat>
    requires i <= |calls| == |admitted|
  {
    set j: nat | j < i && admitted[j] && calls[j].key == key && WindowAt(o, calls[j].at) == window
  }

  /** Of these, the ones no check of the key since found crowded out. */
  ghost function Standing(o: Options, admitted: seq<bool>, calls: seq<Call>, i: nat, key: Key, window: int): set<nat>
    requires i <= |calls| == |admitted|
  {
    set j: nat | j < i && admitted[j] && calls[j].key == key && WindowAt(o, calls[j].at) == window
                 && Honoured(o.maxKeys, calls, j, i)
  }

  /** The same, less all of them when the key is crowded out now. */
  ghost function Owed(o: Options, admitted: seq<bool>, calls: seq<Call>, i: nat, key: Key, window: int): set<nat>
    requires i <= |calls| == |admitted|
  {
    if Crowded(o.maxKeys, calls[..i], key) then {} else Standing(o, admitted, calls, i, key, window)
  }

  /** Whatever of a fixed window a check remembers it owes for. */
  lemma OwedHolds(o: Options, admitted: seq<bool>, calls: seq<Call>, i: nat, window: int, s: set<nat>)
    requires i < |calls| == |admitted| && s <= Fixed(o, admitted, calls, i, calls[i].key, window)
    requires forall j :: j in s ==> Remembers(o.maxKeys, calls, i, j)
    ensures s <= Owed(o, admitted, calls, i, calls[i].key, window)
  {
    forall j | j in s ensures Honoured(o.maxKeys, calls, j, i) && !Crowded(o.maxKeys, calls[..i], calls[i].key) {
      assert Remembers(o.maxKeys, calls, i, j);
    }
  }

  /** What a check owes for remembers one another. */
  lemma OwedRemembered(o: Options, admitted: seq<bool>, calls: seq<Call>, i: nat, key: Key, window: int)
    requires i <= |calls| == |admitted|
    ensures Remembered(o.maxKeys, calls, Owed(o, admitted, calls, i, key, window))
  {}

  /** The counts a check of call `i` weighs. */
  function WeighedCounts(o: Options, calls: seq<Call>, i: nat): (r: Memory)
    requires i < |calls|
    ensures r.Counts?
  {
    Weighing(o, Recalled(o, calls[..i], calls[i].key), calls[i].at)
  }

  lemma CounterServes(o: Options, calls: seq<Call>, admitted: seq<bool>, i: nat)
    requires o.kind == Counter && Ran(o, calls, admitted) && Monotone(calls) && i < |calls|
    ensures admitted[i] <==> Fits(o, WeighedCounts(o, calls, i), calls[i].at)
    ensures Left(o, calls[..i + 1], calls[i].key)
         == Some(var c := WeighedCounts(o, calls, i); if admitted[i] then c.(current := c.current + 1) else c)
  {
    ServesFromOwnMemory(o, calls, admitted, i);
    assert calls[..i + 1][..i] == calls[..i];
  }

  /** Exact bookkeeping of one key's memory: both counts, and nothing later than its window. */
  ghost predicate Books(o: Options, calls: seq<Call>, admitted: seq<bool>, i: nat, key: Key, m: Option<Memory>)
    requires i <= |calls| == |admitted|
  {
    match m
    case None => forall j :: 0 <= j < i ==> calls[j].key != key
    case Some(c) =>
      && c.Counts?
      && (forall j :: 0 <= j < i && calls[j].key == key ==> WindowAt(o, calls[j].at) <= c.window)
      && c.current == |Standing(o, admitted, calls, i, key, c.window)|
      && c.previous == |Standing(o, admitted, calls, i, key, c.window - 1)|
  }

  lemma {:induction false} LeftBooks(o: Options, calls: seq<Call>, admitted: seq<bool>, i: nat, key: Key)
    requires o.kind == Counter && Ran(o, calls, admitted) && Monotone(calls) && i <= |calls|
    ensures Books(o, calls, admitted, i, key, Left(o, calls[..i], key))
  {
    if i > 0 {
      var n := i - 1;
      LeftBooks(o, calls, admitted, n, key);
      if calls[n].key != key {
        LeftAfterOther(o, calls, n, key);
        BooksAfterOther(o, calls, admitted, n, key, Left(o, calls[..n], key));
      } else {
        WeighedIsOwed(o, calls, admitted, n);
        CounterServes(o, calls, admitted, n);
        BooksAfterOwn(o, calls, admitted, n, key, Left(o, calls[..i], key).value);
      }
    }
  }

  lemma StandingAfterOther(o: Options, calls: seq<Call>, admitted: seq<bool>, n: nat, key: Key, window: int)
    requires n < |calls| == |admitted| && calls[n].key != key
    ensures Standing(o, admitted, calls, n + 1, key, window) == Standing(o, admitted, calls, n, key, window)
  {}

  lemma BooksAfterOther(o: Options, calls: seq<Call>, admitted: seq<bool>, n: nat, key: Key, m: Option<Memory>)
    requires n < |calls| == |admitted| && calls[n].key != key && Books(o, calls, admitted, n, key, m)
    ensures Books(o, calls, admitted, n + 1, key, m)
  {
    if m.Some? {
      StandingAfterOther(o, calls, admitted, n, key, m.value.window);
      StandingAfterOther(o, calls, admitted, n, key, m.value.window - 1);
    }
  }

  /** The counts weighed at call `n` are the admissions it still owes for, of its fixed window and
      of the one before. */
  lemma WeighedIsOwed(o: Options, calls: seq<Call>, admitted: seq<bool>, n: nat)
    requires o.kind == Counter && Ran(o, calls, admitted) && Monotone(calls) && n < |calls|
    requires Books(o, calls, admitted, n, calls[n].key, Left(o, calls[..n], calls[n].key))
    ensures var (key, w) := (calls[n].key, WindowAt(o, calls[n].at));
      WeighedCounts(o, calls, n)
      == Counts(w, |Owed(o, admitted, calls, n, key, w - 1)|, |Owed(o, admitted, calls, n, key, w)|)
  {
    var (key, w, left) := (calls[n].key, WindowAt(o, calls[n].at), Left(o, calls[..n], calls[n].key));
    if !Crowded(o.maxKeys, calls[..n], key) {
      if left == None {
        assert Standing(o, admitted, calls, n, key, w) == {} && Standing(o, admitted, calls, n, key, w - 1) == {};
      } else {
        LeftSound(o, calls[..n], key, calls[n].at) by { MonotonePrefix(calls, n); }
        RolledIsStanding(o, calls, admitted, n, left.value);
      }
    }
  }

  lemma RolledIsStanding(o: Options, calls: seq<Call>, admitted: seq<bool>, n: nat, c: Memory)
    requires n < |calls| == |admitted| && Books(o, calls, admitted, n, calls[n].key, Some(c))
    requires c.window <= WindowAt(o, calls[n].at)
    ensures var (key, w) := (calls[n].key, WindowAt(o, calls[n].at));
      Rolled(c, w) == Counts(w, |Standing(o, admitted, calls, n, key, w - 1)|, |Standing(o, admitted, calls, n, key, w)|)
  {
    var (key, w) := (calls[n].key, WindowAt(o, calls[n].at));
    if c.window < w { assert Standing(o, admitted, calls, n, key, w) == {}; }
    if c.window < w - 1 { assert Standing(o, admitted, calls, n, key, w - 1) == {}; }
  }

  lemma StandsOneMore(o: Options, calls: seq<Call>, admitted: seq<bool>, n: nat, window: int, j: nat)
    requires j < n < |calls| == |admitted|
    ensures j in Standing(o, admitted, calls, n + 1, calls[n].key, window)
       <==> j in Owed(o, admitted, calls, n, calls[n].key, window)
  {
    var key := calls[n].key;
    if j in Standing(o, admitted, calls, n + 1, key, window) { assert Honoured(o.maxKeys, calls, j, n + 1); }
  }

  lemma StandingAfterOwn(o: Options, calls: seq<Call>, admitted: seq<bool>, n: nat, window: int)
    requires n < |calls| == |admitted|
    ensures |Standing(o, admitted, calls, n + 1, calls[n].key, window)|
         == |Owed(o, admitted, calls, n, calls[n].key, window)|
          + if admitted[n] && WindowAt(o, calls[n].at) == window then 1 else 0
  {
    var next, owed := Standing(o, admitted, calls, n + 1, calls[n].key, window), Owed(o, admitted, calls, n, calls[n].key, window);
    forall j: nat | j < n ensures j in next <==> j in owed { StandsOneMore(o, calls, admitted, n, window, j); }
    assert Honoured(o.maxKeys, calls, n, n + 1);
    assert next == owed + if admitted[n] && WindowAt(o, calls[n].at) == window then {n} else {};
  }

  lemma OwnIsLatest(o: Options, calls: seq<Call>, n: nat, j: nat)
    requires j <= n < |calls| && Monotone(calls)
    ensures WindowAt(o, calls[j].at) <= WindowAt(o, calls[n].at)
  {
    assert InOrder(calls, j, n);
    WindowsAscend(o, calls[j].at, calls[n].at);
  }

  lemma BooksAfterOwn(o: Options, calls: seq<Call>, admitted: seq<bool>, n: nat, key: Key, c: Memory)
    requires n < |calls| == |admitted| && Monotone(calls) && calls[n].key == key
    requires c.Counts? && c.window == WindowAt(o, calls[n].at)
    requires c.previous == |Owed(o, admitted, calls, n, key, c.window - 1)|
    requires c.current == |Owed(o, admitted, calls, n, key, c.window)| + if admitted[n] then 1 else 0
    ensures Books(o, calls, admitted, n + 1, key, Some(c))
  {
    forall j | 0 <= j < n + 1 ensures WindowAt(o, calls[j].at) <= c.window { OwnIsLatest(o, calls, n, j); }
    StandingAfterOwn(o, calls, admitted, n, c.window);
    StandingAfterOwn(o, calls, admitted, n, c.window - 1);
    BooksFrom(o, calls, admitted, n + 1, key, c);
  }

  lemma BooksFrom(o: Options, calls: seq<Call>, admitted: seq<bool>, i: nat, key: Key, c: Memory)
    requires i <= |calls| == |admitted| && c.Counts?
    requires forall j :: 0 <= j < i && calls[j].key == key ==> WindowAt(o, calls[j].at) <= c.window
    requires c.current == |Standing(o, admitted, calls, i, key, c.window)|
    requires c.previous == |Standing(o, admitted, calls, i, key, c.window - 1)|
    ensures Books(o, calls, admitted, i, key, Some(c))
  {}

  /** The counter's decision, in terms of admissions alone, on every run: those of the two fixed
      windows that no eviction has made it forget. */
  lemma CounterIsExact(o: Options, calls: seq<Call>, admitted: seq<bool>, i: nat)
    requires o.kind == Counter && Ran(o, calls, admitted) && Monotone(calls) && i < |calls|
    ensures var (key, w, offset) := (calls[i].key, WindowAt(o, calls[i].at), calls[i].at % o.WindowMs());
      admitted[i] <==>
      FitsWhole(|Owed(o, admitted, calls, i, key, w - 1)|, |Owed(o, admitted, calls, i, key, w)|,
                o.limit, o.WindowMs(), offset)
  {
    LeftBooks(o, calls, admitted, i, calls[i].key);
    WeighedIsOwed(o, calls, admitted, i);
    CounterServes(o, calls, admitted, i);
    FitsExactly(o, WeighedCounts(o, calls, i), calls[i].at);
  }

  /** For a check that remembers the two windows' admissions, those are all of them. */
  lemma CounterIsExactOnCounts(o: Options, calls: seq<Call>, admitted: seq<bool>, i: nat)
    requires o.kind == Counter && Ran(o, calls, admitted) && Monotone(calls) && i < |calls|
    requires var (key, w) := (calls[i].key, WindowAt(o, calls[i].at));
      forall j :: j in Fixed(o, admitted, calls, i, key, w - 1) || j in Fixed(o, admitted, calls, i, key, w) ==>
        Remembers(o.maxKeys, calls, i, j)
    ensures var (key, w, offset) := (calls[i].key, WindowAt(o, calls[i].at), calls[i].at % o.WindowMs());
      admitted[i] <==>
      FitsWhole(|Fixed(o, admitted, calls, i, key, w - 1)|, |Fixed(o, admitted, calls, i, key, w)|,
                o.limit, o.WindowMs(), offset)
  {
    var (key, w) := (calls[i].key, WindowAt(o, calls[i].at));
    CounterIsExact(o, calls, admitted, i);
    OwedHolds(o, admitted, calls, i, w, Fixed(o, admitted, calls, i, key, w));
    OwedHolds(o, admitted, calls, i, w - 1, Fixed(o, admitted, calls, i, key, w - 1));
    assert Owed(o, admitted, calls, i, key, w) == Fixed(o, admitted, calls, i, key, w);
    assert Owed(o, admitted, calls, i, key, w - 1) == Fixed(o, admitted, calls, i, key, w - 1);
  }

  /** Above all for a key that is never crowded out. */
  lemma UncrowdedIsExact(o: Options, calls: seq<Call>, admitted: seq<bool>, i: nat)
    requires o.kind == Counter && Ran(o, calls, admitted) && Monotone(calls) && i < |calls|
    requires Uncrowded(o.maxKeys, calls, calls[i].key)
    ensures var (key, w, offset) := (calls[i].key, WindowAt(o, calls[i].at), calls[i].at % o.WindowMs());
      admitted[i] <==>
      FitsWhole(|Fixed(o, admitted, calls, i, key, w - 1)|, |Fixed(o, admitted, calls, i, key, w)|,
                o.limit, o.WindowMs(), offset)
  {
    forall j | 0 <= j < i && calls[j].key == calls[i].key ensures Remembers(o.maxKeys, calls, i, j) {}
    CounterIsExactOnCounts(o, calls, admitted, i);
  }

  lemma FitsWithFewer(p: int, u: int, p': int, u': int, limit: int, w: int, offset: int)
    requires 0 <= p' <= p && 0 <= u' <= u && 0 <= offset < w && FitsWhole(p, u, limit, w, offset)
    ensures FitsWhole(p', u', limit, w, offset)
  {
    MultiplesAscend(p', p, w - offset);
    MultiplesAscend(u' + 1, u + 1, w);
  }

  /** Eviction only ever forgets: a key the counter refuses has used up its estimate. */
  lemma CounterNeverRefusesUnspent(o: Options, calls: seq<Call>, admitted: seq<bool>, i: nat)
    requires o.kind == Counter && Ran(o, calls, admitted) && Monotone(calls) && i < |calls| && !admitted[i]
    ensures var (key, w, offset) := (calls[i].key, WindowAt(o, calls[i].at), calls[i].at % o.WindowMs());
      !FitsWhole(|Fixed(o, admitted, calls, i, key, w - 1)|, |Fixed(o, admitted, calls, i, key, w)|,
                 o.limit, o.WindowMs(), offset)
  {
    var (key, w, offset) := (calls[i].key, WindowAt(o, calls[i].at), calls[i].at % o.WindowMs());
    CounterIsExact(o, calls, admitted, i);
    var p, u := Fixed(o, admitted, calls, i, key, w - 1), Fixed(o, admitted, calls, i, key, w);
    var p', u' := Owed(o, admitted, calls, i, key, w - 1), Owed(o, admitted, calls, i, key, w);
    SubsetSize(p', p);
    SubsetSize(u', u);
    if FitsWhole(|p|, |u|, o.limit, o.WindowMs(), offset) {
      FitsWithFewer(|p|, |u|, |p'|, |u'|, o.limit, o.WindowMs(), offset);
    }
  }

  // ----- the worst case -----

  /** The admissions of a window that ends at `end`, by the two fixed windows it touches. */
  lemma WithinIsTwoWindows(o: Options, admitted: seq<bool>, calls: seq<Call>, key: Key, end: int)
    requires |admitted| == |calls|
    ensures |Within(admitted, calls, key, end - o.WindowMs(), end)|
         <= |Late(o, admitted, calls, key, end)| + |Young(o, admitted, calls, key, end)|
  {
    var all := Within(admitted, calls, key, end - o.WindowMs(), end);
    var late, young := Late(o, admitted, calls, key, end), Young(o, admitted, calls, key, end);
    OneWindowEarlier(end, o.WindowMs());
    forall j | j in all ensures j in late + young {
      WindowsAscend(o, calls[j].at, end);
      WindowsAscend(o, end - o.WindowMs(), calls[j].at);
    }
    assert all == late + young;
    assert |late + young| == |late| + |young - late|;
    SubsetSize(young - late, young);
  }

  lemma OneWindowEarlier(x: int, w: int)
    requires w > 0
    ensures (x - w) / w == x / w - 1
  {
    QuotientIs(x - w, x / w - 1, w);
  }

  lemma QuotientIs(a: int, q: int, w: int)
    requires w > 0 && q * w <= a < q * w + w
    ensures a / w == q
  {
    MultiplesAscend(a / w + 1, q, w);
    MultiplesAscend(q + 1, a / w, w);
  }

  /** The admissions after the elapsed fraction of the previous fixed window. */
  ghost function Late(o: Options, admitted: seq<bool>, calls: seq<Call>, key: Key, end: int): set<nat>
    requires |admitted| == |calls|
  {
    set j | j in Within(admitted, calls, key, end - o.WindowMs(), end) && WindowAt(o, calls[j].at) == WindowAt(o, end) - 1
  }

  /** The admissions of the current fixed window. */
  ghost function Young(o: Options, admitted: seq<bool>, calls: seq<Call>, key: Key, end: int): set<nat>
    requires |admitted| == |calls|
  {
    set j | j in Within(admitted, calls, key, end - o.WindowMs(), end) && WindowAt(o, calls[j].at) == WindowAt(o, end)
  }

  /** What an admission says of the counts it was weighed against. */
  lemma AdmissionLeavesRoom(o: Options, calls: seq<Call>, admitted: seq<bool>, i: nat)
    requires o.kind == Counter && Ran(o, calls, admitted) && Monotone(calls) && i < |calls| && admitted[i]
    ensures |Owed(o, admitted, calls, i, calls[i].key, WindowAt(o, calls[i].at))| + 1 <= o.limit
  {
    var (key, w) := (calls[i].key, WindowAt(o, calls[i].at));
    CounterIsExact(o, calls, admitted, i);
    RoomFromFit(|Owed(o, admitted, calls, i, key, w - 1)|, |Owed(o, admitted, calls, i, key, w)|,
                o.limit, o.WindowMs(), calls[i].at % o.WindowMs());
  }

  lemma RoomFromFit(p: int, u: int, limit: int, w: int, offset: int)
    requires p >= 0 && 0 <= offset < w && FitsWhole(p, u, limit, w, offset)
    ensures u + 1 <= limit
  {
    assert p * (w - offset) >= 0;
    LessByMultiple(u + 1, limit, w, p * (w - offset));
  }

  lemma LessByMultiple(a: int, b: int, w: int, gap: int)
    requires w > 0 && gap >= 0 && gap + a * w <= b * w
    ensures a <= b
  {
    assert (b - a) * w >= gap;
  }

  /** `late` admissions that the previous fixed window's weight covers at one offset, and what fits
      beside that weight at an earlier one. */
  lemma SpreadFits(late: int, previous: int, p: int, u: int, limit: int, w: int, offset: int, offset': int)
    requires 0 <= previous <= p && 0 <= offset <= offset' < w
    requires SpreadAt(late, previous, w, offset') && FitsWhole(p, u, limit, w, offset)
    ensures late + u + 1 <= limit
  {
    MultiplesAscend(previous, p, w - offset');
    MultiplesAscend(w - offset', w - offset, p);
    assert (late + (u + 1)) * w == late * w + (u + 1) * w;
    LessByMultiple(late + (u + 1), limit, w, 0);
  }

  predicate SpreadAt(late: int, previous: int, w: int, offset: int) { late * w <= previous * (w - offset) }

  /** Admissions of one fixed window that remember each other are no more than `limit`. */
  lemma PartAtMostLimit(o: Options, calls: seq<Call>, admitted: seq<bool>, key: Key, window: int, s: set<nat>)
    requires o.kind == Counter && Ran(o, calls, admitted) && Monotone(calls)
    requires s <= Fixed(o, admitted, calls, |calls|, key, window) && Remembered(o.maxKeys, calls, s)
    ensures |s| <= o.limit
  {
    if s != {} {
      var i := Greatest(s);
      forall j | j in s - {i} ensures Remembers(o.maxKeys, calls, i, j) {}
      OwedHolds(o, admitted, calls, i, window, s - {i});
      SubsetSize(s - {i}, Owed(o, admitted, calls, i, key, window));
      AdmissionLeavesRoom(o, calls, admitted, i);
    }
  }

  /** No fixed window admits more than `limit`. */
  lemma FixedAtMostLimit(o: Options, calls: seq<Call>, admitted: seq<bool>, key: Key, window: int)
    requires o.kind == Counter && Ran(o, calls, admitted) && Monotone(calls)
    requires Remembered(o.maxKeys, calls, Fixed(o, admitted, calls, |calls|, key, window))
    ensures |Fixed(o, admitted, calls, |calls|, key, window)| <= o.limit
  {
    PartAtMostLimit(o, calls, admitted, key, window, Fixed(o, admitted, calls, |calls|, key, window));
  }

  lemma OffsetsAscend(a: int, b: int, w: int)
    requires w > 0 && a <= b && a / w == b / w
    ensures a % w <= b % w
  {
    Offsets(a, b, w);
  }

  /** The last admission of the current fixed window comes after all others that the window holds, at
      an offset no later than the end's. */
  lemma LastYoung(o: Options, calls: seq<Call>, admitted: seq<bool>, key: Key, end: int) returns (i: nat)
    requires |admitted| == |calls| && Monotone(calls) && Young(o, admitted, calls, key, end) != {}
    ensures i in Young(o, admitted, calls, key, end) && calls[i].at % o.WindowMs() <= end % o.WindowMs()
    ensures Young(o, admitted, calls, key, end) - {i} <= Fixed(o, admitted, calls, i, key, WindowAt(o, end))
    ensures Fixed(o, admitted, calls, |calls|, key, WindowAt(o, end) - 1)
         <= Fixed(o, admitted, calls, i, key, WindowAt(o, end) - 1)
  {
    i := Greatest(Young(o, admitted, calls, key, end));
    OffsetsAscend(calls[i].at, end, o.WindowMs());
    forall j | i <= j < |calls| ensures WindowAt(o, calls[j].at) >= WindowAt(o, end) {
      assert InOrder(calls, i, j);
      WindowsAscend(o, calls[i].at, calls[j].at);
    }
  }

  lemma LateOfPrevious(o: Options, calls: seq<Call>, admitted: seq<bool>, key: Key, end: int)
    requires |admitted| == |calls|
    ensures Late(o, admitted, calls, key, end) <= Fixed(o, admitted, calls, |calls|, key, WindowAt(o, end) - 1)
    ensures Young(o, admitted, calls, key, end) <= Fixed(o, admitted, calls, |calls|, key, WindowAt(o, end))
  {}

  /** When it remembers them, and `late` of the previous fixed window, it owes for them all. */
  lemma LastOwes(o: Options, calls: seq<Call>, admitted: seq<bool>, key: Key, end: int, late: set<nat>) returns (i: nat)
    requires |admitted| == |calls| && Monotone(calls) && Young(o, admitted, calls, key, end) != {}
    requires late <= Fixed(o, admitted, calls, |calls|, key, WindowAt(o, end) - 1)
    requires Remembered(o.maxKeys, calls, late + Young(o, admitted, calls, key, end))
    ensures i in Young(o, admitted, calls, key, end) && calls[i].at % o.WindowMs() <= end % o.WindowMs()
    ensures |late| <= |Owed(o, admitted, calls, i, key, WindowAt(o, end) - 1)|
    ensures |Young(o, admitted, calls, key, end)| - 1 <= |Owed(o, admitted, calls, i, key, WindowAt(o, end))|
  {
    var (w, young) := (WindowAt(o, end), Young(o, admitted, calls, key, end));
    i := LastYoung(o, calls, admitted, key, end);
    assert late <= Fixed(o, admitted, calls, i, key, w - 1);
    forall j | j in late || j in young - {i} ensures Remembers(o.maxKeys, calls, i, j) {
      assert j in late + young && i in late + young;
    }
    OwedHolds(o, admitted, calls, i, w, young - {i});
    OwedHolds(o, admitted, calls, i, w - 1, late);
    SubsetSize(young - {i}, Owed(o, admitted, calls, i, key, w));
    SubsetSize(late, Owed(o, admitted, calls, i, key, w - 1));
  }

  lemma OwedAtMostLimit(o: Options, calls: seq<Call>, admitted: seq<bool>, i: nat, key: Key, window: int)
    requires o.kind == Counter && Ran(o, calls, admitted) && Monotone(calls) && i <= |calls|
    ensures |Owed(o, admitted, calls, i, key, window)| <= o.limit
  {
    OwedRemembered(o, admitted, calls, i, key, window);
    PartAtMostLimit(o, calls, admitted, key, window, Owed(o, admitted, calls, i, key, window));
  }

  lemma AdmittedFits(o: Options, calls: seq<Call>, admitted: seq<bool>, i: nat, key: Key, window: int)
    requires o.kind == Counter && Ran(o, calls, admitted) && Monotone(calls) && i < |calls| && admitted[i]
    requires calls[i].key == key && WindowAt(o, calls[i].at) == window
    ensures FitsWhole(|Owed(o, admitted, calls, i, key, window - 1)|, |Owed(o, admitted, calls, i, key, window)|,
                      o.limit, o.WindowMs(), calls[i].at % o.WindowMs())
  {
    CounterIsExact(o, calls, admitted, i);
  }

  /** What the last admission was weighed against, in numbers. */
  lemma LastWeighed(o: Options, calls: seq<Call>, admitted: seq<bool>, key: Key, end: int, late: set<nat>)
    returns (offset: nat, p: nat, u: nat)
    requires o.kind == Counter && Ran(o, calls, admitted) && Monotone(calls) && Young(o, admitted, calls, key, end) != {}
    requires late <= Fixed(o, admitted, calls, |calls|, key, WindowAt(o, end) - 1)
    requires Remembered(o.maxKeys, calls, late + Young(o, admitted, calls, key, end))
    ensures offset <= end % o.WindowMs() && |late| <= p <= o.limit && |Young(o, admitted, calls, key, end)| - 1 <= u
    ensures FitsWhole(p, u, o.limit, o.WindowMs(), offset)
  {
    var i := LastOwes(o, calls, admitted, key, end, late);
    AdmittedFits(o, calls, admitted, i, key, WindowAt(o, end));
    OwedAtMostLimit(o, calls, admitted, i, key, WindowAt(o, end) - 1);
    offset := calls[i].at % o.WindowMs();
    p, u := |Owed(o, admitted, calls, i, key, WindowAt(o, end) - 1)|, |Owed(o, admitted, calls, i, key, WindowAt(o, end))|;
  }

  lemma OffsetInside(t: int, w: int)
    requires w > 0
    ensures 0 <= t % w < w
  {}

  lemma LastOutweighed(o: Options, calls: seq<Call>, admitted: seq<bool>, key: Key, end: int, late: set<nat>)
    returns (offset: nat, p: nat)
    requires o.kind == Counter && Ran(o, calls, admitted) && Monotone(calls) && Young(o, admitted, calls, key, end) != {}
    requires late <= Fixed(o, admitted, calls, |calls|, key, WindowAt(o, end) - 1)
    requires Remembered(o.maxKeys, calls, late + Young(o, admitted, calls, key, end))
    ensures offset <= end % o.WindowMs() && |late| <= p <= o.limit
    ensures FitsWhole(p, |Young(o, admitted, calls, key, end)| - 1, o.limit, o.WindowMs(), offset)
  {
    var u;
    offset, p, u := LastWeighed(o, calls, admitted, key, end, late);
    OffsetInside(end, o.WindowMs());
    FitsWithFewer(p, u, p, |Young(o, admitted, calls, key, end)| - 1, o.limit, o.WindowMs(), offset);
  }

  /** What one window can hold at most: `2 * limit - 1`, or less when the limit is large for the
      number of milliseconds in the window. */
  function WorstCase(o: Options): int { 2 * o.limit * (o.WindowMs() - 1) / o.WindowMs() }

  lemma WorstCaseBelowTwice(o: Options)
    ensures WorstCase(o) <= Max(0, 2 * o.limit - 1)
    ensures 1 <= o.limit && 2 * o.limit <= o.WindowMs() ==> WorstCase(o) == 2 * o.limit - 1
  {
    var l: int, w: int := o.limit, o.WindowMs();
    assert 2 * l * (w - 1) == (2 * l - 1) * w + (w - 2 * l);
    if 1 <= l && 2 * l <= w {
      QuotientIs(2 * l * (w - 1), 2 * l - 1, w);
    } else if l >= 1 {
      QuotientsAscend(2 * l * (w - 1), (2 * l - 1) * w, w);
      QuotientIs((2 * l - 1) * w, 2 * l - 1, w);
    }
  }

  /** `late` and `young` admissions together are no more than one window can hold. */
  predicate WithinWorst(late: int, young: int, limit: int, w: int) { (late + young) * w <= 2 * limit * (w - 1) }

  lemma SumFits(late: int, p: int, y: int, limit: int, w: int, offset: int)
    requires 0 <= late <= p <= limit && 0 <= y && w >= 2 && offset <= w - 2
    requires FitsWhole(p, y - 1, limit, w, offset)
    ensures WithinWorst(late, y, limit, w)
  {
    MultiplesAscend(2, w - offset, p);
    MultiplesAscend(late, p, w);
    MultiplesAscend(p, limit, w - 2);
    assert p * (w - 2) == p * w - 2 * p && limit * (w - 2) == limit * w - 2 * limit;
  }

  /** Either part alone is small enough. */
  lemma PartFits(n: int, limit: int, w: int)
    requires 0 <= n <= limit && w >= 2
    ensures WithinWorst(n, 0, limit, w) && WithinWorst(0, n, limit, w)
  {
    MultiplesAscend(n, limit, w);
    MultiplesAscend(2, w, limit);
  }

  /** A late admission leaves the end of the window at least one millisecond short of a fixed
      window's last. */
  lemma LateMeansEarlyEnd(o: Options, calls: seq<Call>, admitted: seq<bool>, key: Key, end: int)
    requires |admitted| == |calls| && Late(o, admitted, calls, key, end) != {}
    ensures end % o.WindowMs() <= o.WindowMs() - 2
  {
    var j :| j in Late(o, admitted, calls, key, end);
    Offsets(calls[j].at, end, o.WindowMs());
  }

  lemma LateAndYoungSum(o: Options, calls: seq<Call>, admitted: seq<bool>, key: Key, end: int)
    requires o.kind == Counter && Ran(o, calls, admitted) && Monotone(calls)
    requires Remembered(o.maxKeys, calls, Within(admitted, calls, key, end - o.WindowMs(), end))
    ensures WithinWorst(|Late(o, admitted, calls, key, end)|, |Young(o, admitted, calls, key, end)|, o.limit, o.WindowMs())
  {
    var late, young := Late(o, admitted, calls, key, end), Young(o, admitted, calls, key, end);
    LateOfPrevious(o, calls, admitted, key, end);
    if late == {} {
      PartAtMostLimit(o, calls, admitted, key, WindowAt(o, end), young);
      PartFits(|young|, o.limit, o.WindowMs());
    } else if young == {} {
      PartAtMostLimit(o, calls, admitted, key, WindowAt(o, end) - 1, late);
      PartFits(|late|, o.limit, o.WindowMs());
    } else {
      var offset, p := LastOutweighed(o, calls, admitted, key, end, late);
      LateMeansEarlyEnd(o, calls, admitted, key, end);
      SumFits(|late|, p, |young|, o.limit, o.WindowMs(), offset);
    }
  }

  /** The worst case: one window, wherever it ends, never holds more, and so less than twice the
      limit. */
  lemma WindowHoldsLessThanTwiceLimit(o: Options, calls: seq<Call>, admitted: seq<bool>, key: Key, end: int)
    requires o.kind == Counter && Ran(o, calls, admitted) && Monotone(calls)
    requires Remembered(o.maxKeys, calls, Within(admitted, calls, key, end - o.WindowMs(), end))
    ensures |Within(admitted, calls, key, end - o.WindowMs(), end)| <= WorstCase(o) <= Max(0, 2 * o.limit - 1)
  {
    var within := |Within(admitted, calls, key, end - o.WindowMs(), end)|;
    var sum := |Late(o, admitted, calls, key, end)| + |Young(o, admitted, calls, key, end)|;
    WithinIsTwoWindows(o, admitted, calls, key, end);
    LateAndYoungSum(o, calls, admitted, key, end);
    WorstCaseBelowTwice(o);
    MultiplesAscend(within, sum, o.WindowMs());
    QuotientsAscend(within * o.WindowMs(), 2 * o.limit * (o.WindowMs() - 1), o.WindowMs());
    QuotientIs(within * o.WindowMs(), within, o.WindowMs());
  }

  /** The previous fixed window's admissions were spread at least as early as the estimate
      assumes: no more than its weight were made after the elapsed fraction. */
  ghost predicate EvenlySpread(o: Options, calls: seq<Call>, admitted: seq<bool>, key: Key, end: int)
    requires |admitted| == |calls|
  {
    SpreadAt(|Late(o, admitted, calls, key, end)|, |Fixed(o, admitted, calls, |calls|, key, WindowAt(o, end) - 1)|,
             o.WindowMs(), end % o.WindowMs())
  }

  /** The admissions the estimate speaks of: the whole previous fixed window's, and this one's so far. */
  ghost function Estimated(o: Options, calls: seq<Call>, admitted: seq<bool>, key: Key, end: int): set<nat>
    requires |admitted| == |calls|
  {
    Fixed(o, admitted, calls, |calls|, key, WindowAt(o, end) - 1) + Young(o, admitted, calls, key, end)
  }

  /** What the last admission was weighed against, given all that the estimate speaks of. */
  lemma EstimateOutweighed(o: Options, calls: seq<Call>, admitted: seq<bool>, key: Key, end: int)
    returns (offset: nat, p: nat)
    requires o.kind == Counter && Ran(o, calls, admitted) && Monotone(calls) && Young(o, admitted, calls, key, end) != {}
    requires Remembered(o.maxKeys, calls, Estimated(o, calls, admitted, key, end))
    ensures offset <= end % o.WindowMs() < o.WindowMs()
    ensures |Fixed(o, admitted, calls, |calls|, key, WindowAt(o, end) - 1)| <= p
    ensures FitsWhole(p, |Young(o, admitted, calls, key, end)| - 1, o.limit, o.WindowMs(), offset)
  {
    offset, p := LastOutweighed(o, calls, admitted, key, end, Fixed(o, admitted, calls, |calls|, key, WindowAt(o, end) - 1));
  }

  lemma SpreadSums(o: Options, calls: seq<Call>, admitted: seq<bool>, key: Key, end: int)
    requires o.kind == Counter && Ran(o, calls, admitted) && Monotone(calls)
    requires Remembered(o.maxKeys, calls, Estimated(o, calls, admitted, key, end))
    requires EvenlySpread(o, calls, admitted, key, end)
    ensures |Late(o, admitted, calls, key, end)| + |Young(o, admitted, calls, key, end)| <= o.limit
  {
    var late, young := Late(o, admitted, calls, key, end), Young(o, admitted, calls, key, end);
    var previous := Fixed(o, admitted, calls, |calls|, key, WindowAt(o, end) - 1);
    if young == {} {
      LateOfPrevious(o, calls, admitted, key, end);
      PartAtMostLimit(o, calls, admitted, key, WindowAt(o, end) - 1, late);
    } else {
      var offset, p := EstimateOutweighed(o, calls, admitted, key, end);
      SpreadFits(|late|, |previous|, p, |young| - 1, o.limit, o.WindowMs(), offset, end % o.WindowMs());
    }
  }

  /** A window then holds at most `limit` admissions. */
  lemma EvenlySpreadHoldsAtMostLimit(o: Options, calls: seq<Call>, admitted: seq<bool>, key: Key, end: int)
    requires o.kind == Counter && Ran(o, calls, admitted) && Monotone(calls)
    requires Remembered(o.maxKeys, calls, Estimated(o, calls, admitted, key, end))
    requires EvenlySpread(o, calls, admitted, key, end)
    ensures |Within(admitted, calls, key, end - o.WindowMs(), end)| <= o.limit
  {
    WithinIsTwoWindows(o, admitted, calls, key, end);
    SpreadSums(o, calls, admitted, key, end);
  }

  // ----- the worst case is reached -----

  /** `limit` calls in the last millisecond of one fixed window, then the others just before the
      end of the next. */
  ghost predicate IsBurst(o: Options, calls: seq<Call>) {
    o.limit <= |calls| && forall i :: 0 <= i < |calls| ==>
         calls[i] == Call("k", if i < o.limit then o.WindowMs() - 1 else 2 * o.WindowMs() - 2)
  }

  lemma BurstWindows(w: int)
    requires w >= 2
    ensures (w - 1) / w == 0 && (w - 1) % w == w - 1 && (2 * w - 2) / w == 1 && (2 * w - 2) % w == w - 2
  {
    QuotientIs(w - 1, 0, w);
    QuotientIs(2 * w - 2, 1, w);
  }

  lemma {:induction false} SoleKeyIsAlone(calls: seq<Call>, key: Key)
    requires forall c :: c in calls ==> c.key == key
    ensures Since(calls, key) == {}
  {}

  lemma BurstIsOrdinary(o: Options, calls: seq<Call>)
    requires IsBurst(o, calls) && o.maxKeys >= 1
    ensures Monotone(calls) && Uncrowded(o.maxKeys, calls, "k")
  {
    forall i, j ensures InOrder(calls, i, j) {
      if 0 <= i <= j < |calls| { assert calls[i].at <= calls[j].at; }
    }
    forall i | 0 <= i < |calls| ensures !Crowded(o.maxKeys, calls[..i], "k") {
      SoleKeyIsAlone(calls[..i], "k");
    }
  }

  lemma BurstWindow(o: Options, calls: seq<Call>, i: nat)
    requires o.WindowMs() >= 2 && IsBurst(o, calls) && i < |calls|
    ensures WindowAt(o, calls[i].at) == if i < o.limit then 0 else 1
  {
    BurstWindows(o.WindowMs());
  }

  /** What call `i` of the burst is weighed against once all before it were admitted. */
  lemma BurstCounts(o: Options, calls: seq<Call>, admitted: seq<bool>, i: nat)
    requires o.limit >= 1 && o.WindowMs() >= 2 && IsBurst(o, calls) && |admitted| == |calls| && i < |admitted|
    requires forall j :: 0 <= j < i ==> admitted[j]
    ensures var w := WindowAt(o, calls[i].at);
      && |Fixed(o, admitted, calls, i, "k", w - 1)| == (if i < o.limit then 0 else o.limit)
      && |Fixed(o, admitted, calls, i, "k", w)| == (if i < o.limit then i else i - o.limit)
  {
    BurstWindow(o, calls, i);
    if i < o.limit { FirstBurst(o, calls, admitted, i); } else { SecondBurst(o, calls, admitted, i); }
  }

  lemma FirstBurst(o: Options, calls: seq<Call>, admitted: seq<bool>, i: nat)
    requires o.limit >= 1 && o.WindowMs() >= 2 && IsBurst(o, calls) && |admitted| == |calls| && i < o.limit
    requires forall j :: 0 <= j < i ==> admitted[j]
    ensures Fixed(o, admitted, calls, i, "k", -1) == {} && Fixed(o, admitted, calls, i, "k", 0) == Range(0, i)
  {
    forall j | 0 <= j < i ensures WindowAt(o, calls[j].at) == 0 { BurstWindow(o, calls, j); }
  }

  lemma SecondBurst(o: Options, calls: seq<Call>, admitted: seq<bool>, i: nat)
    requires o.limit >= 1 && o.WindowMs() >= 2 && IsBurst(o, calls) && |admitted| == |calls| && o.limit <= i < |admitted|
    requires forall j :: 0 <= j < i ==> admitted[j]
    ensures Fixed(o, admitted, calls, i, "k", 0) == Range(0, o.limit)
    ensures Fixed(o, admitted, calls, i, "k", 1) == Range(o.limit, i)
  {
    forall j | 0 <= j < i ensures WindowAt(o, calls[j].at) == (if j < o.limit then 0 else 1) { BurstWindow(o, calls, j); }
  }

  lemma BurstFits(limit: int, w: int, i: int)
    requires limit >= 1 && w >= 2 && 0 <= i < 2 * limit * (w - 1) / w
    ensures i < limit ==> FitsWhole(0, i, limit, w, w - 1)
    ensures i >= limit ==> FitsWhole(limit, i - limit, limit, w, w - 2)
  {
    if i < limit {
      MultiplesAscend(i + 1, limit, w);
    } else {
      var most := 2 * limit * (w - 1);
      MultiplesAscend(i + 1, most / w, w);
      assert (i + 1) * w <= most && most == 2 * limit * w - 2 * limit;
      assert (i - limit + 1) * w == (i + 1) * w - limit * w;
    }
  }

  lemma BurstRoom(o: Options, i: nat)
    requires o.limit >= 1 && i < WorstCase(o)
    ensures i < o.limit ==> FitsWhole(0, i, o.limit, o.WindowMs(), o.WindowMs() - 1)
    ensures i >= o.limit ==> FitsWhole(o.limit, i - o.limit, o.limit, o.WindowMs(), o.WindowMs() - 2)
  {
    BurstFits(o.limit, o.WindowMs(), i);
  }

  /** The second part of the burst is not negative. */
  lemma BurstIsLong(o: Options)
    requires o.WindowMs() >= 2
    ensures WorstCase(o) >= o.limit
  {
    MultiplesAscend(2, o.WindowMs(), o.limit);
    QuotientsAscend(o.limit * o.WindowMs(), 2 * o.limit * (o.WindowMs() - 1), o.WindowMs());
    QuotientIs(o.limit * o.WindowMs(), o.limit, o.WindowMs());
  }

  lemma AdmittedBy(o: Options, calls: seq<Call>, admitted: seq<bool>, i: nat, p: int, u: int)
    requires o.kind == Counter && Ran(o, calls, admitted) && Monotone(calls) && i < |calls|
    requires Uncrowded(o.maxKeys, calls, calls[i].key)
    requires p == |Fixed(o, admitted, calls, i, calls[i].key, WindowAt(o, calls[i].at) - 1)|
    requires u == |Fixed(o, admitted, calls, i, calls[i].key, WindowAt(o, calls[i].at))|
    requires FitsWhole(p, u, o.limit, o.WindowMs(), calls[i].at % o.WindowMs())
    ensures admitted[i]
  {
    UncrowdedIsExact(o, calls, admitted, i);
  }

  lemma BurstAdmits(o: Options, calls: seq<Call>, admitted: seq<bool>, i: nat)
    requires o.kind == Counter && o.limit >= 1 && o.maxKeys >= 1
    requires IsBurst(o, calls) && |calls| <= WorstCase(o) && Ran(o, calls, admitted) && i < |admitted|
    requires forall j :: 0 <= j < i ==> admitted[j]
    ensures admitted[i]
  {
    BurstIsOrdinary(o, calls);
    BurstCounts(o, calls, admitted, i);
    BurstWindows(o.WindowMs());
    BurstRoom(o, i);
    if i < o.limit {
      AdmittedBy(o, calls, admitted, i, 0, i);
    } else {
      AdmittedBy(o, calls, admitted, i, o.limit, i - o.limit);
    }
  }

  lemma {:induction false} BurstAdmitted(o: Options, calls: seq<Call>, admitted: seq<bool>, i: nat)
    requires o.kind == Counter && o.limit >= 1 && o.maxKeys >= 1
    requires IsBurst(o, calls) && |calls| <= WorstCase(o) && Ran(o, calls, admitted) && i <= |admitted|
    ensures forall j :: 0 <= j < i ==> admitted[j]
  {
    if i > 0 {
      BurstAdmitted(o, calls, admitted, i - 1);
      BurstAdmits(o, calls, admitted, i - 1);
    }
  }

  lemma BurstWithin(o: Options, calls: seq<Call>, admitted: seq<bool>)
    requires o.limit >= 1 && IsBurst(o, calls) && |admitted| == |calls|
    requires forall j :: 0 <= j < |admitted| ==> admitted[j]
    ensures var end := 2 * o.WindowMs() - 2;
      |Within(admitted, calls, "k", end - o.WindowMs(), end)| == |calls|
  {
    var end := 2 * o.WindowMs() - 2;
    assert Within(admitted, calls, "k", end - o.WindowMs(), end) == Range(0, |calls|);
  }

  /** The bound is the best possible: whatever the limit and the window, a run admits that many
      calls of one key inside one window. */
  lemma WorstCaseReached(o: Options) returns (calls: seq<Call>, admitted: seq<bool>, end: int)
    requires o.kind == Counter && o.limit >= 1 && o.maxKeys >= 1
    ensures Ran(o, calls, admitted) && Monotone(calls) && Uncrowded(o.maxKeys, calls, "k")
    ensures |Within(admitted, calls, "k", end - o.WindowMs(), end)| == WorstCase(o)
  {
    BurstIsLong(o);
    calls := seq(WorstCase(o), i => Call("k", if i < o.limit then o.WindowMs() - 1 else 2 * o.WindowMs() - 2));
    end := 2 * o.WindowMs() - 2;
    admitted := RunExists(o, calls);
    BurstIsOrdinary(o, calls);
    BurstAdmitted(o, calls, admitted, |calls|);
    BurstWithin(o, calls, admitted);
  }

  // ----- Retry-After over runs -----

  lemma RollRoll(c: Memory, w: int, w': int)
    requires c.Counts? && c.window <= w <= w'
    ensures Rolled(Rolled(c, w), w') == Rolled(c, w')
  {}

  /** What a refusing call weighed, as the wait needs it. */
  lemma RefusalWeighs(o: Options, calls: seq<Call>, admitted: seq<bool>, i: nat)
    requires o.kind == Counter && Ran(o, calls, admitted) && Monotone(calls) && i < |calls| && !admitted[i]
    ensures Refusing(o, WeighedCounts(o, calls, i), calls[i].at)
  {
    CounterServes(o, calls, admitted, i);
    MonotonePrefix(calls, i);
    LeftSound(o, calls[..i], calls[i].key, calls[i].at);
  }

  /** Refusals only roll the counts, so the next check weighs what the first one did, rolled. */
  lemma {:induction false} RefusalsRoll(o: Options, calls: seq<Call>, admitted: seq<bool>, i: nat, n: nat, t: int)
    requires o.kind == Counter && Ran(o, calls, admitted) && Monotone(calls) && i < n <= |calls|
    requires Honoured(o.maxKeys, calls, i, n) && calls[n - 1].at <= t
    requires forall j :: i <= j < n && calls[j].key == calls[i].key ==> !admitted[j]
    ensures var left := Left(o, calls[..n], calls[i].key);
      && left.Some? && left.value.Counts? && left.value.window <= WindowAt(o, t)
      && Rolled(left.value, WindowAt(o, t)) == Rolled(WeighedCounts(o, calls, i), WindowAt(o, t))
  {
    var last := n - 1;
    assert InOrder(calls, i, last);
    WindowsAscend(o, calls[last].at, t);
    if last == i {
      CounterServes(o, calls, admitted, i);
    } else {
      assert InOrder(calls, last - 1, last);
      if calls[last].key == calls[i].key {
        RefusalsRoll(o, calls, admitted, i, last, calls[last].at);
        CounterServes(o, calls, admitted, last);
        assert !Crowded(o.maxKeys, calls[..last], calls[last].key);
        WindowsAscend(o, calls[i].at, calls[last].at);
        RollRoll(WeighedCounts(o, calls, i), WindowAt(o, calls[last].at), WindowAt(o, t));
      } else {
        RefusalsRoll(o, calls, admitted, i, last, t);
        LeftAfterOther(o, calls, last, calls[i].key);
      }
    }
  }

  /** While nothing else of the key is admitted, a later check is admitted exactly from the end
      of the unrounded wait, if it remembers the first. */
  lemma CounterOpensExactly(o: Options, calls: seq<Call>, admitted: seq<bool>, i: nat, m: nat)
    requires o.kind == Counter && Ran(o, calls, admitted) && Monotone(calls) && i < m < |calls| && o.limit >= 1
    requires Remembers(o.maxKeys, calls, m, i) && calls[m].key == calls[i].key
    requires forall j :: i <= j < m && calls[j].key == calls[i].key ==> !admitted[j]
    ensures admitted[m] <==> (calls[m].at - calls[i].at) as real >= WaitMs(o, WeighedCounts(o, calls, i), calls[i].at)
  {
    assert InOrder(calls, m - 1, m) && InOrder(calls, i, m);
    RefusalsRoll(o, calls, admitted, i, m, calls[m].at);
    assert !Crowded(o.maxKeys, calls[..m], calls[m].key);
    CounterServes(o, calls, admitted, m);
    RefusalWeighs(o, calls, admitted, i);
    OpensAfterWait(o, WeighedCounts(o, calls, i), calls[i].at, calls[m].at);
  }

  // ----- what a refused check is answered -----

  /** A memory that serves as the key's own answers as the key's own. */
  lemma CounterAnswerFromMemory(o: Options, m: Keys, key: Key, now: int, held: Option<Memory>)
    requires o.kind == Counter && m.Valid() && Serve(o, Sweep(o, m, now).Get(key), now) == Serve(o, held, now)
    ensures var counts := Weighing(o, held, now);
      CounterAnswer(o, m, key, now)
      == if Fits(o, counts, now) then Decision(true, 0) else Decision(false, CounterRetryAfter(o, counts, now))
  {
    assert ServeCounter(o, Sweep(o, m, now).Get(key), now) == ServeCounter(o, held, now);
  }

  /** What a check is answered, in terms of its key's own counts. */
  lemma CounterAnswers(o: Options, calls: seq<Call>, admitted: seq<bool>, i: nat)
    requires o.kind == Counter && Ran(o, calls, admitted) && Monotone(calls) && i < |calls|
    ensures CounterAnswerAt(o, calls, i)
         == if admitted[i] then Decision(true, 0)
            else Decision(false, CounterRetryAfter(o, WeighedCounts(o, calls, i), calls[i].at))
  {
    ServedAtPlace(o, calls, i);
    CounterServes(o, calls, admitted, i);
    CounterAnswerFromMemory(o, Replay(o, calls[..i]), calls[i].key, calls[i].at, Recalled(o, calls[..i], calls[i].key));
  }

  /** The refusal's own window still leaves room, or enough of it has passed for the cap not to
      bind. */
  ghost predicate Uncapped(o: Options, calls: seq<Call>, admitted: seq<bool>, i: nat)
    requires i < |calls| == |admitted|
  {
    || |Owed(o, admitted, calls, i, calls[i].key, WindowAt(o, calls[i].at))| < o.limit
    || calls[i].at % o.WindowMs() * o.limit >= o.WindowMs()
  }

  lemma WeighsOwed(o: Options, calls: seq<Call>, admitted: seq<bool>, i: nat)
    requires o.kind == Counter && Ran(o, calls, admitted) && Monotone(calls) && i < |calls|
    ensures var (key, w) := (calls[i].key, WindowAt(o, calls[i].at));
      WeighedCounts(o, calls, i)
      == Counts(w, |Owed(o, admitted, calls, i, key, w - 1)|, |Owed(o, admitted, calls, i, key, w)|)
  {
    LeftBooks(o, calls, admitted, i, calls[i].key);
    WeighedIsOwed(o, calls, admitted, i);
  }

  /** A refused check of call `i`, and a check at `m` that stayed away as long as it was told. */
  ghost predicate Waited(o: Options, calls: seq<Call>, admitted: seq<bool>, i: nat, m: nat) {
    && Ran(o, calls, admitted) && Monotone(calls) && i < m < |calls|
    && calls[m].key == calls[i].key && Remembers(o.maxKeys, calls, m, i)
    && (forall j :: i <= j < m && calls[j].key == calls[i].key ==> !admitted[j])
    && calls[m].at >= calls[i].at + 1000 * CounterAnswerAt(o, calls, i).retryAfterSeconds
  }

  /** Waiting the answered seconds is enough when the cap does not bind and nothing else of the key
      was admitted. */
  lemma CounterRetryAfterSuffices(o: Options, calls: seq<Call>, admitted: seq<bool>, i: nat, m: nat)
    requires o.kind == Counter && o.limit >= 1 && Waited(o, calls, admitted, i, m) && Uncapped(o, calls, admitted, i)
    ensures admitted[m]
  {
    var c := WeighedCounts(o, calls, i);
    CounterAnswers(o, calls, admitted, i);
    WeighsOwed(o, calls, admitted, i);
    RefusalWeighs(o, calls, admitted, i);
    AnswerSufficesIff(o, c, calls[i].at);
    CounterOpensExactly(o, calls, admitted, i, m);
    OpensAfterWait(o, c, calls[i].at, calls[m].at) by { assert InOrder(calls, i, m); }
  }

  /** The answer lies between one second and the window, and is never a whole second too long: whoever
      comes back a second early or more is refused. */
  lemma CounterRetryAfterIsNeeded(o: Options, calls: seq<Call>, admitted: seq<bool>, i: nat, m: nat)
    requires o.kind == Counter && Ran(o, calls, admitted) && Monotone(calls) && i < m < |calls| && o.limit >= 1
    requires Remembers(o.maxKeys, calls, m, i) && calls[m].key == calls[i].key
    requires forall j :: i <= j < m && calls[j].key == calls[i].key ==> !admitted[j]
    ensures !CounterAnswerAt(o, calls, i).allowed
    ensures var s := CounterAnswerAt(o, calls, i).retryAfterSeconds;
      1 <= s <= o.windowSeconds && (calls[m].at <= calls[i].at + 1000 * (s - 1) ==> !admitted[m])
  {
    CounterAnswers(o, calls, admitted, i);
    RefusalWeighs(o, calls, admitted, i);
    AnswerSufficesIff(o, WeighedCounts(o, calls, i), calls[i].at);
    CounterOpensExactly(o, calls, admitted, i, m);
  }

  /** The run up to call `i` and one more check of its key. */
  function Returned(calls: seq<Call>, i: nat, at: int): seq<Call>
    requires i < |calls|
  {
    calls[..i + 1] + [Call(calls[i].key, at)]
  }

  lemma RanPrefix(o: Options, calls: seq<Call>, admitted: seq<bool>, n: nat)
    requires Ran(o, calls, admitted) && n <= |calls|
    ensures Ran(o, calls[..n], admitted[..n])
  {
    forall i | 0 <= i < n ensures calls[..n][..i] == calls[..i] {}
  }

  lemma ReturnedIsOrdinary(maxKeys: nat, calls: seq<Call>, i: nat, at: int)
    requires Monotone(calls) && i < |calls| && calls[i].at <= at && maxKeys >= 1
    ensures Monotone(Returned(calls, i, at)) && Remembers(maxKeys, Returned(calls, i, at), i + 1, i)
  {
    var r := Returned(calls, i, at);
    forall j, k ensures InOrder(r, j, k) {
      if 0 <= j <= k < |r| { assert InOrder(calls, j, if k <= i then k else i); }
    }
    assert r[..i + 1][|r[..i + 1]| - 1] == calls[i];
    assert Since(r[..i + 1], calls[i].key) == {};
  }

  lemma AnswerAtPrefix(o: Options, calls: seq<Call>, later: seq<Call>, i: nat)
    requires i < |calls| && i < |later| && calls[..i + 1] == later[..i + 1]
    ensures CounterAnswerAt(o, calls, i) == CounterAnswerAt(o, later, i)
  {
    assert calls[..i] == calls[..i + 1][..i] && later[..i] == later[..i + 1][..i];
    assert calls[i] == calls[..i + 1][i] && later[i] == later[..i + 1][i];
  }

  lemma OwedAtPrefix(o: Options, calls: seq<Call>, admitted: seq<bool>, later: seq<Call>, again: seq<bool>, i: nat,
                     key: Key, window: int)
    requires i <= |calls| == |admitted| && i <= |later| == |again|
    requires calls[..i] == later[..i] && admitted[..i] == again[..i]
    ensures Owed(o, admitted, calls, i, key, window) == Owed(o, again, later, i, key, window)
  {
    forall j | 0 <= j < i ensures calls[j] == later[j] && admitted[j] == again[j] && calls[..j] == later[..j] {
      assert calls[..i][j] == later[..i][j] && admitted[..i][j] == again[..i][j];
      assert calls[..i][..j] == calls[..j] && later[..i][..j] == later[..j];
    }
    forall j | 0 <= j < i ensures Honoured(o.maxKeys, calls, j, i) == Honoured(o.maxKeys, later, j, i) {}
  }

  /** The second run goes on from call `i` of the first. */
  ghost predicate GoesOn(calls: seq<Call>, admitted: seq<bool>, later: seq<Call>, again: seq<bool>, i: nat) {
    && i < |calls| == |admitted| && i < |later| == |again|
    && later[..i + 1] == calls[..i + 1] && again[..i + 1] == admitted[..i + 1]
  }

  lemma UncappedAtPrefix(o: Options, calls: seq<Call>, admitted: seq<bool>, later: seq<Call>, again: seq<bool>, i: nat)
    requires GoesOn(calls, admitted, later, again, i)
    ensures calls[i] == later[i] && admitted[i] == again[i]
    ensures Uncapped(o, calls, admitted, i) == Uncapped(o, later, again, i)
  {
    assert calls[..i + 1][i] == later[..i + 1][i] && admitted[..i + 1][i] == again[..i + 1][i];
    assert calls[..i + 1][..i] == calls[..i] && later[..i + 1][..i] == later[..i];
    assert admitted[..i + 1][..i] == admitted[..i] && again[..i + 1][..i] == again[..i];
    OwedAtPrefix(o, calls, admitted, later, again, i, calls[i].key, WindowAt(o, calls[i].at));
  }

  /** Nobody is refused whom the map has forgotten, so a refusal means that it remembers somebody. */
  lemma RefusalNeedsRoom(o: Options, calls: seq<Call>, admitted: seq<bool>, i: nat)
    requires o.kind == Counter && Ran(o, calls, admitted) && Monotone(calls) && i < |calls| && !admitted[i]
    requires o.limit >= 1
    ensures o.maxKeys >= 1
  {
    CounterIsExact(o, calls, admitted, i);
    if o.maxKeys == 0 { MultiplesAscend(1, o.limit, o.WindowMs()); }
  }

  /** When the cap binds, whoever comes back exactly when told is refused again. */
  lemma CapFallsShort(o: Options, calls: seq<Call>, admitted: seq<bool>, i: nat)
    returns (later: seq<Call>, again: seq<bool>)
    requires o.kind == Counter && Ran(o, calls, admitted) && Monotone(calls) && i < |calls| && !admitted[i]
    requires o.limit >= 1 && !Uncapped(o, calls, admitted, i)
    ensures GoesOn(calls, admitted, later, again, i) && Waited(o, later, again, i, i + 1) && !again[i + 1]
  {
    CounterAnswers(o, calls, admitted, i);
    RefusalWeighs(o, calls, admitted, i);
    AnswerSufficesIff(o, WeighedCounts(o, calls, i), calls[i].at);
    var at := calls[i].at + 1000 * CounterAnswerAt(o, calls, i).retryAfterSeconds;
    later := Returned(calls, i, at);
    RanPrefix(o, calls, admitted, i + 1);
    again := RunGoesOn(o, calls[..i + 1], admitted[..i + 1], Call(calls[i].key, at));
    RefusalNeedsRoom(o, calls, admitted, i);
    ReturnedIsOrdinary(o.maxKeys, calls, i, at);
    UncappedAtPrefix(o, calls, admitted, later, again, i);
    AnswerAtPrefix(o, calls, later, i);
    ShortWait(o, later, again, i);
  }

  /** A second check within one window of a refusal whose wait is longer. */
  lemma ShortWait(o: Options, calls: seq<Call>, admitted: seq<bool>, i: nat)
    requires o.kind == Counter && Ran(o, calls, admitted) && Monotone(calls) && |calls| == i + 2 && !admitted[i]
    requires o.limit >= 1 && calls[i + 1].key == calls[i].key && Remembers(o.maxKeys, calls, i + 1, i)
    requires !Uncapped(o, calls, admitted, i) && calls[i + 1].at <= calls[i].at + o.WindowMs()
    ensures !admitted[i + 1]
  {
    WeighsOwed(o, calls, admitted, i);
    RefusalWeighs(o, calls, admitted, i);
    WaitFitsWindow(o, WeighedCounts(o, calls, i), calls[i].at);
    CounterOpensExactly(o, calls, admitted, i, i + 1);
  }

  /** Over all runs: staying away as long as one is told is always enough, if nothing else of the key
      was admitted and the refusal is remembered, exactly when the cap does not bind. */
  lemma CounterRetryAfterSufficesIff(o: Options, calls: seq<Call>, admitted: seq<bool>, i: nat)
    requires o.kind == Counter && Ran(o, calls, admitted) && Monotone(calls) && i < |calls| && !admitted[i]
    requires o.limit >= 1
    ensures (forall later, again, m: nat {:trigger Waited(o, later, again, i, m)} ::
               GoesOn(calls, admitted, later, again, i) && Waited(o, later, again, i, m) ==> again[m])
       <==> Uncapped(o, calls, admitted, i)
  {
    if Uncapped(o, calls, admitted, i) {
      forall later, again, m: nat | GoesOn(calls, admitted, later, again, i) && Waited(o, later, again, i, m)
        ensures again[m]
      {
        UncappedAtPrefix(o, calls, admitted, later, again, i);
        CounterRetryAfterSuffices(o, later, again, i, m);
      }
    } else {
      var later, again := CapFallsShort(o, calls, admitted, i);
    }
  }

  function CapOptions(): Options { Options(Counter, 1, 1, 10000) }

  function CapCalls(): seq<Call> { [Call("k", 0), Call("k", 0), Call("k", 1000)] }

  lemma CapCallsAreOrdinary()
    ensures Monotone(CapCalls()) && Uncrowded(CapOptions().maxKeys, CapCalls(), "k")
  {
    var calls := CapCalls();
    forall i, j ensures InOrder(calls, i, j) {}
    forall i | 0 <= i < 3 ensures !Crowded(CapOptions().maxKeys, calls[..i], "k") { SoleKeyIsAlone(calls[..i], "k"); }
  }

  lemma CapCallsAnswered(admitted: seq<bool>)
    requires Ran(CapOptions(), CapCalls(), admitted)
    ensures admitted == [true, false, false]
  {
    var o, calls := CapOptions(), CapCalls();
    CapCallsAreOrdinary();
    UncrowdedIsExact(o, calls, admitted, 0);
    assert Fixed(o, admitted, calls, 0, "k", 0) == {} && Fixed(o, admitted, calls, 0, "k", -1) == {};
    UncrowdedIsExact(o, calls, admitted, 1);
    assert Fixed(o, admitted, calls, 1, "k", 0) == {0};
    UncrowdedIsExact(o, calls, admitted, 2);
    assert Fixed(o, admitted, calls, 2, "k", 0) == {0};
  }

  /** A run in which the cap falls short: with a budget of one a second, a second request is told
      one second, and one second later it is refused again. */
  lemma CapFallsShortHere() returns (admitted: seq<bool>)
    ensures Ran(CapOptions(), CapCalls(), admitted) && admitted == [true, false, false]
    ensures CapCalls()[2].at == CapCalls()[1].at + 1000 && CapCalls()[2].key == CapCalls()[1].key
    ensures CounterAnswerAt(CapOptions(), CapCalls(), 1) == Decision(false, 1)
  {
    var o, calls := CapOptions(), CapCalls();
    admitted := RunExists(o, calls);
    CapCallsAreOrdinary();
    CapCallsAnswered(admitted);
    CounterAnswers(o, calls, admitted, 1);
    RefusalWeighs(o, calls, admitted, 1);
    AnswerSufficesIff(o, WeighedCounts(o, calls, 1), 0);
  }
}
