/** What `slidingWindowLog` promises over whole runs: it is exact, and its Retry-After is the
    second in which it opens again. */
module SlidingLogRuns {
  import opened InsertionMaps
  import opened Limits
  import opened Recency
  import opened Sets
  import opened SlidingLog

  // ----- the admissions a check still has to count -----

  /** No check of call `j`'s key after call `j` and before call `i` found the key crowded out. */
  ghost predicate Honoured(maxKeys: nat, calls: seq<Call>, j: nat, i: nat)
    requires j < i <= |calls|
  {
    forall m {:trigger Crowded(maxKeys, calls[..m], calls[j].key)} ::
      j < m < i && calls[m].key == calls[j].key ==> !Crowded(maxKeys, calls[..m], calls[j].key)
  }

  /** The admitted calls of `key` stamped in (from, to]. */
  ghost function Within(admitted: seq<bool>, calls: seq<Call>, key: Key, from: int, to: int): set<nat>
    requires |admitted| == |calls|
  {
    set j: nat | j < |calls| && admitted[j] && calls[j].key == key && from < calls[j].at <= to
  }

  /** The admissions of `key` after `cutoff` among the first `i` calls, less those an eviction
      made an earlier check forget. */
  ghost function Counted(maxKeys: nat, admitted: seq<bool>, calls: seq<Call>, i: nat, key: Key, cutoff: int): set<nat>
    requires i <= |calls| == |admitted|
  {
    set j: nat | j < i && admitted[j] && calls[j].key == key && calls[j].at > cutoff && Honoured(maxKeys, calls, j, i)
  }

  /** The same, less all of them when the key is crowded out now. */
  ghost function Charged(maxKeys: nat, admitted: seq<bool>, calls: seq<Call>, i: nat, key: Key, cutoff: int): set<nat>
    requires i <= |calls| == |admitted|
  {
    if Crowded(maxKeys, calls[..i], key) then {} else Counted(maxKeys, admitted, calls, i, key, cutoff)
  }

  lemma CountedAfterOther(maxKeys: nat, admitted: seq<bool>, calls: seq<Call>, n: nat, key: Key, cutoff: int)
    requires n < |calls| == |admitted| && calls[n].key != key
    ensures Counted(maxKeys, admitted, calls, n + 1, key, cutoff) == Counted(maxKeys, admitted, calls, n, key, cutoff)
  {}

  lemma CountedOneMore(maxKeys: nat, admitted: seq<bool>, calls: seq<Call>, n: nat, cutoff: int, j: nat)
    requires j < n < |calls| == |admitted|
    ensures j in Counted(maxKeys, admitted, calls, n + 1, calls[n].key, cutoff)
       <==> j in Charged(maxKeys, admitted, calls, n, calls[n].key, cutoff)
  {
    if j in Counted(maxKeys, admitted, calls, n + 1, calls[n].key, cutoff) { assert Honoured(maxKeys, calls, j, n + 1); }
  }

  lemma CountedAfterOwn(maxKeys: nat, admitted: seq<bool>, calls: seq<Call>, n: nat, key: Key, cutoff: int)
    requires n < |calls| == |admitted| && calls[n].key == key
    ensures |Counted(maxKeys, admitted, calls, n + 1, key, cutoff)|
         == |Charged(maxKeys, admitted, calls, n, key, cutoff)|
          + (if calls[n].at > cutoff && admitted[n] then 1 else 0)
  {
    var next := Counted(maxKeys, admitted, calls, n + 1, key, cutoff);
    var charged := Charged(maxKeys, admitted, calls, n, key, cutoff);
    forall j: nat | j < n ensures j in next <==> j in charged { CountedOneMore(maxKeys, admitted, calls, n, cutoff, j); }
    assert Honoured(maxKeys, calls, n, n + 1);
    if calls[n].at > cutoff && admitted[n] {
      assert next == charged + {n};
      OneMore(charged, n);
    } else {
      assert next == charged;
    }
  }

  // ----- the log holds exactly those -----

  function Recollection(o: Options, calls: seq<Call>, key: Key): seq<int> {
    HitsOf(Recalled(o, calls, key))
  }

  lemma LogServes(o: Options, calls: seq<Call>, admitted: seq<bool>, i: nat)
    requires o.kind == Log && Ran(o, calls, admitted) && Monotone(calls) && i < |calls|
    ensures admitted[i]
       <==> |Live(Recollection(o, calls[..i], calls[i].key), calls[i].at - o.WindowMs())| < o.limit
  {
    ServesFromOwnMemory(o, calls, admitted, i);
  }

  lemma LogLeaves(o: Options, calls: seq<Call>, admitted: seq<bool>, n: nat)
    requires o.kind == Log && Ran(o, calls, admitted) && Monotone(calls) && n < |calls|
    ensures Left(o, calls[..n + 1], calls[n].key)
         == Some(Hits(Live(Recollection(o, calls[..n], calls[n].key), calls[n].at - o.WindowMs())
                      + if admitted[n] then [calls[n].at] else []))
  {
    assert calls[..n + 1][..n] == calls[..n];
    LogServes(o, calls, admitted, n);
    var kept := Live(Recollection(o, calls[..n], calls[n].key), calls[n].at - o.WindowMs());
    assert kept + [] == kept;
  }

  lemma LiveOnceServed(held: seq<int>, cut: int, at: int, recorded: bool, cutoff: int)
    requires cut <= cutoff
    ensures |Live(Live(held, cut) + if recorded then [at] else [], cutoff)|
         == |Live(held, cutoff)| + (if at > cutoff && recorded then 1 else 0)
  {
    LiveLive(held, cut, cutoff);
    LiveAppend(Live(held, cut), at, cutoff);
    assert Live(held, cut) + [] == Live(held, cut);
  }

  /** One more call of the key keeps hits and counted admissions equally many. */
  lemma ServedIsCounted(
    maxKeys: nat, calls: seq<Call>, admitted: seq<bool>, n: nat, held: seq<int>, cut: int, cutoff: int)
    requires n < |calls| == |admitted| && cut <= cutoff
    requires |Live(held, cutoff)| == |Charged(maxKeys, admitted, calls, n, calls[n].key, cutoff)|
    ensures |Live(Live(held, cut) + if admitted[n] then [calls[n].at] else [], cutoff)|
         == |Counted(maxKeys, admitted, calls, n + 1, calls[n].key, cutoff)|
  {
    LiveOnceServed(held, cut, calls[n].at, admitted[n], cutoff);
    CountedAfterOwn(maxKeys, admitted, calls, n, calls[n].key, cutoff);
  }

  lemma RecalledIsCharged(o: Options, calls: seq<Call>, admitted: seq<bool>, i: nat, key: Key, cutoff: int)
    requires i <= |calls| == |admitted|
    requires |Live(HitsOf(Left(o, calls[..i], key)), cutoff)| == |Counted(o.maxKeys, admitted, calls, i, key, cutoff)|
    ensures |Live(Recollection(o, calls[..i], key), cutoff)| == |Charged(o.maxKeys, admitted, calls, i, key, cutoff)|
  {}

  lemma LeftAfterOther(o: Options, calls: seq<Call>, n: nat, key: Key)
    requires n < |calls| && calls[n].key != key
    ensures Left(o, calls[..n + 1], key) == Left(o, calls[..n], key)
  {
    assert calls[..n + 1][..n] == calls[..n];
  }

  /** For every cutoff that no earlier call could have filtered past. */
  lemma {:induction false} LeftIsCounted(o: Options, calls: seq<Call>, admitted: seq<bool>, i: nat, key: Key, cutoff: int)
    requires o.kind == Log && Ran(o, calls, admitted) && Monotone(calls) && i <= |calls|
    requires forall j :: 0 <= j < i ==> calls[j].at - o.WindowMs() <= cutoff
    ensures |Live(HitsOf(Left(o, calls[..i], key)), cutoff)|
         == |Counted(o.maxKeys, admitted, calls, i, key, cutoff)|
  {
    if i > 0 {
      LeftIsCounted(o, calls, admitted, i - 1, key, cutoff);
      RecalledIsCharged(o, calls, admitted, i - 1, key, cutoff);
      if calls[i - 1].key == key {
        OwnCounted(o, calls, admitted, i - 1, cutoff);
      } else {
        LeftAfterOther(o, calls, i - 1, key);
        CountedAfterOther(o.maxKeys, admitted, calls, i - 1, key, cutoff);
      }
    }
  }

  lemma OwnCounted(o: Options, calls: seq<Call>, admitted: seq<bool>, n: nat, cutoff: int)
    requires o.kind == Log && Ran(o, calls, admitted) && Monotone(calls) && n < |calls|
    requires calls[n].at - o.WindowMs() <= cutoff
    requires |Live(Recollection(o, calls[..n], calls[n].key), cutoff)|
          == |Charged(o.maxKeys, admitted, calls, n, calls[n].key, cutoff)|
    ensures |Live(HitsOf(Left(o, calls[..n + 1], calls[n].key)), cutoff)|
         == |Counted(o.maxKeys, admitted, calls, n + 1, calls[n].key, cutoff)|
  {
    LogLeaves(o, calls, admitted, n);
    ServedIsCounted(o.maxKeys, calls, admitted, n, Recollection(o, calls[..n], calls[n].key),
                    calls[n].at - o.WindowMs(), cutoff);
  }

  /** The exact refinement, on every run under a clock that does not step back: a check is
      refused exactly when `limit` admissions of its key that it still has to count lie in the
      window that ends now. */
  lemma LogIsExact(o: Options, calls: seq<Call>, admitted: seq<bool>, i: nat)
    requires o.kind == Log && Ran(o, calls, admitted) && Monotone(calls) && i < |calls|
    ensures admitted[i]
       <==> |Charged(o.maxKeys, admitted, calls, i, calls[i].key, calls[i].at - o.WindowMs())| < o.limit
  {
    LogServes(o, calls, admitted, i);
    forall j | 0 <= j < i ensures calls[j].at <= calls[i].at { assert InOrder(calls, j, i); }
    RecalledIsCharged(o, calls, admitted, i, calls[i].key, calls[i].at - o.WindowMs()) by {
      LeftIsCounted(o, calls, admitted, i, calls[i].key, calls[i].at - o.WindowMs());
    }
  }

  // ----- where nothing is forgotten -----

  /** The check of call `i` still counts call `j` of its key: neither it nor one in between found the
      key crowded out. */
  ghost predicate Remembers(maxKeys: nat, calls: seq<Call>, i: nat, j: nat)
    requires j < i < |calls|
  {
    Honoured(maxKeys, calls, j, i + 1)
  }

  /** Each of these calls remembers those before it. */
  ghost predicate Remembered(maxKeys: nat, calls: seq<Call>, s: set<nat>) {
    forall i, j {:trigger Remembers(maxKeys, calls, i, j)} ::
      i in s && j in s && j < i < |calls| ==> Remembers(maxKeys, calls, i, j)
  }

  /** Between any check of `key` and its next one, fewer than `maxKeys` distinct other keys. */
  ghost predicate Uncrowded(maxKeys: nat, calls: seq<Call>, key: Key) {
    forall j, i {:trigger calls[j].key, Crowded(maxKeys, calls[..i], key)} ::
      0 <= j < i < |calls| && calls[j].key == key && calls[i].key == key ==> !Crowded(maxKeys, calls[..i], key)
  }

  /** Of a key that is never crowded out every call is remembered. */
  lemma UncrowdedRemembers(maxKeys: nat, calls: seq<Call>, key: Key, s: set<nat>)
    requires Uncrowded(maxKeys, calls, key) && forall j :: j in s ==> j < |calls| && calls[j].key == key
    ensures Remembered(maxKeys, calls, s)
  {}

  /** The admissions before call `i`, of its key, in the window that ends at call `i`. */
  ghost function Earlier(admitted: seq<bool>, calls: seq<Call>, i: nat, windowMs: nat): set<nat>
    requires i < |calls| == |admitted|
  {
    set j: nat | j < i && admitted[j] && calls[j].key == calls[i].key && calls[i].at - windowMs < calls[j].at
  }

  /** Where the earlier admissions in the window are remembered, the specification is the plain one:
      count them. */
  lemma RememberedIsExact(o: Options, calls: seq<Call>, admitted: seq<bool>, i: nat)
    requires o.kind == Log && Ran(o, calls, admitted) && Monotone(calls) && i < |calls|
    requires forall j :: j in Earlier(admitted, calls, i, o.WindowMs()) ==> Remembers(o.maxKeys, calls, i, j)
    ensures admitted[i] <==> |Earlier(admitted, calls, i, o.WindowMs())| < o.limit
  {
    LogIsExact(o, calls, admitted, i);
    ChargedHolds(o, calls, admitted, i, Earlier(admitted, calls, i, o.WindowMs()));
    assert Charged(o.maxKeys, admitted, calls, i, calls[i].key, calls[i].at - o.WindowMs())
        == Earlier(admitted, calls, i, o.WindowMs());
  }

  /** Whatever of the window a check remembers is charged to it. */
  lemma ChargedHolds(o: Options, calls: seq<Call>, admitted: seq<bool>, i: nat, s: set<nat>)
    requires i < |calls| == |admitted| && s <= Earlier(admitted, calls, i, o.WindowMs())
    requires forall j :: j in s ==> Remembers(o.maxKeys, calls, i, j)
    ensures s <= Charged(o.maxKeys, admitted, calls, i, calls[i].key, calls[i].at - o.WindowMs())
  {
    forall j | j in s ensures Honoured(o.maxKeys, calls, j, i) && !Crowded(o.maxKeys, calls[..i], calls[i].key) {
      assert Remembers(o.maxKeys, calls, i, j);
    }
  }

  /** Eviction only ever forgets: whatever the other keys do, a refused key did have `limit`
      admissions in the window. */
  lemma NeverRefusesUnspent(o: Options, calls: seq<Call>, admitted: seq<bool>, i: nat)
    requires o.kind == Log && Ran(o, calls, admitted) && Monotone(calls) && i < |calls| && !admitted[i]
    ensures |Earlier(admitted, calls, i, o.WindowMs())| >= o.limit
  {
    LogIsExact(o, calls, admitted, i);
    var charged := Charged(o.maxKeys, admitted, calls, i, calls[i].key, calls[i].at - o.WindowMs());
    var earlier := Earlier(admitted, calls, i, o.WindowMs());
    assert charged <= earlier;
    SubsetSize(charged, earlier);
  }

  /** No window of the configured length, wherever it ends, holds more than `limit` admissions of a
      key that remember each other. */
  lemma WindowHoldsAtMostLimit(o: Options, calls: seq<Call>, admitted: seq<bool>, key: Key, end: int)
    requires o.kind == Log && Ran(o, calls, admitted) && Monotone(calls)
    requires Remembered(o.maxKeys, calls, Within(admitted, calls, key, end - o.WindowMs(), end))
    ensures |Within(admitted, calls, key, end - o.WindowMs(), end)| <= o.limit
  {
    var inside := Within(admitted, calls, key, end - o.WindowMs(), end);
    if inside != {} {
      var i := Greatest(inside);
      forall j | j in inside - {i} ensures Remembers(o.maxKeys, calls, i, j) {}
      ChargedHolds(o, calls, admitted, i, inside - {i});
      var charged := Charged(o.maxKeys, admitted, calls, i, calls[i].key, calls[i].at - o.WindowMs());
      SubsetSize(inside - {i}, charged);
      LogIsExact(o, calls, admitted, i);
    }
  }

  // ----- Retry-After -----

  /** The hits a check of call `i` weighs. */
  function Weighed(o: Options, calls: seq<Call>, i: nat): seq<int>
    requires i < |calls|
  {
    Live(Recollection(o, calls[..i], calls[i].key), calls[i].at - o.WindowMs())
  }

  /** The instant the oldest of them leaves the window. */
  function OpensAt(o: Options, calls: seq<Call>, i: nat): int
    requires i < |calls|
  {
    var hits := Weighed(o, calls, i);
    (if hits == [] then calls[i].at else hits[0]) + o.WindowMs()
  }

  lemma WeighedFacts(o: Options, calls: seq<Call>, admitted: seq<bool>, i: nat)
    requires o.kind == Log && Ran(o, calls, admitted) && Monotone(calls) && i < |calls|
    requires !admitted[i] && o.limit >= 1
    ensures var hits := Weighed(o, calls, i);
      Ascending(hits) && |hits| == o.limit && calls[i].at - o.WindowMs() < hits[0] <= calls[i].at
  {
    var key, now := calls[i].key, calls[i].at;
    LogServes(o, calls, admitted, i);
    MonotonePrefix(calls, i);
    LeftSound(o, calls[..i], key, now);
    LiveOfSound(o, Recalled(o, calls[..i], key), now);
  }

  lemma LiveOfSound(o: Options, held: Option<Memory>, now: int)
    requires o.kind == Log && o.limit >= 1 && (held.Some? ==> Sound(o, held.value, now))
    requires |Live(HitsOf(held), now - o.WindowMs())| >= o.limit
    ensures var hits := Live(HitsOf(held), now - o.WindowMs());
      Ascending(hits) && |hits| == o.limit && now - o.WindowMs() < hits[0] <= now
  {
    var hits := Live(HitsOf(held), now - o.WindowMs());
    LiveAscending(HitsOf(held), now - o.WindowMs());
    LiveFacts(HitsOf(held), now - o.WindowMs());
    assert hits[0] in hits;
  }

  /** A memory that serves as the key's own answers as the key's own. */
  lemma AnswerFromMemory(o: Options, m: Keys, key: Key, now: int, held: Option<Memory>)
    requires o.kind == Log && m.Valid() && Serve(o, Sweep(o, m, now).Get(key), now) == Serve(o, held, now)
    ensures var hits := Live(HitsOf(held), now - o.WindowMs());
      Answer(o, m, key, now)
      == if |hits| < o.limit then Decision(true, 0) else Decision(false, RetryAfter(o, hits, now))
  {
    assert ServeLog(o, Sweep(o, m, now).Get(key), now) == ServeLog(o, held, now);
  }

  /** What a check is answered, in terms of its key's own hits. */
  lemma LogAnswers(o: Options, calls: seq<Call>, admitted: seq<bool>, i: nat)
    requires o.kind == Log && Ran(o, calls, admitted) && Monotone(calls) && i < |calls|
    ensures AnswerAt(o, calls, i)
         == if admitted[i] then Decision(true, 0)
            else Decision(false, RetryAfter(o, Weighed(o, calls, i), calls[i].at))
  {
    ServedAtPlace(o, calls, i);
    LogServes(o, calls, admitted, i);
    AnswerFromMemory(o, Replay(o, calls[..i]), calls[i].key, calls[i].at, Recalled(o, calls[..i], calls[i].key));
  }

  /** The answer is the whole second in which the oldest weighed hit leaves the window, and the
      cap at one window never shortens it. */
  lemma AnswerIsExact(o: Options, calls: seq<Call>, admitted: seq<bool>, i: nat)
    requires o.kind == Log && Ran(o, calls, admitted) && Monotone(calls) && i < |calls|
    requires !admitted[i] && o.limit >= 1
    ensures !AnswerAt(o, calls, i).allowed
    ensures var s := AnswerAt(o, calls, i).retryAfterSeconds;
      && 1 <= s <= o.windowSeconds
      && calls[i].at + 1000 * (s - 1) < OpensAt(o, calls, i) <= calls[i].at + 1000 * s
  {
    LogAnswers(o, calls, admitted, i);
    WeighedFacts(o, calls, admitted, i);
  }

  lemma RefusalLeaves(o: Options, calls: seq<Call>, admitted: seq<bool>, i: nat)
    requires o.kind == Log && Ran(o, calls, admitted) && Monotone(calls) && i < |calls| && !admitted[i]
    ensures HitsOf(Left(o, calls[..i + 1], calls[i].key)) == Weighed(o, calls, i)
  {
    LogLeaves(o, calls, admitted, i);
    assert Weighed(o, calls, i) + [] == Weighed(o, calls, i);
  }

  /** Refusals record nothing, so they leave the weighed hits to be filtered by the next check. */
  lemma {:induction false} RefusalsKeep(o: Options, calls: seq<Call>, admitted: seq<bool>, i: nat, n: nat, cutoff: int)
    requires o.kind == Log && Ran(o, calls, admitted) && Monotone(calls) && i < n <= |calls|
    requires Honoured(o.maxKeys, calls, i, n)
    requires forall j :: i <= j < n && calls[j].key == calls[i].key ==> !admitted[j]
    requires forall j :: 0 <= j < n ==> calls[j].at - o.WindowMs() <= cutoff
    ensures Live(HitsOf(Left(o, calls[..n], calls[i].key)), cutoff) == Live(Weighed(o, calls, i), cutoff)
  {
    var key, last := calls[i].key, n - 1;
    if last == i {
      RefusalLeaves(o, calls, admitted, i);
    } else {
      RefusalsKeep(o, calls, admitted, i, last, cutoff);
      if calls[last].key == key {
        OwnRefusalKeeps(o, calls, admitted, i, last, cutoff);
      } else {
        LeftAfterOther(o, calls, last, key);
      }
    }
  }

  lemma OwnRefusalKeeps(o: Options, calls: seq<Call>, admitted: seq<bool>, i: nat, n: nat, cutoff: int)
    requires o.kind == Log && Ran(o, calls, admitted) && Monotone(calls) && i < n < |calls|
    requires !Crowded(o.maxKeys, calls[..n], calls[n].key)
    requires calls[n].key == calls[i].key && !admitted[n] && calls[n].at - o.WindowMs() <= cutoff
    ensures Live(HitsOf(Left(o, calls[..n + 1], calls[i].key)), cutoff)
         == Live(HitsOf(Left(o, calls[..n], calls[i].key)), cutoff)
  {
    RefusalLeaves(o, calls, admitted, n);
    RecollectionIsLeft(o, calls[..n], calls[n].key);
    LiveLive(Recollection(o, calls[..n], calls[n].key), calls[n].at - o.WindowMs(), cutoff);
  }

  lemma RecollectionIsLeft(o: Options, calls: seq<Call>, key: Key)
    requires !Crowded(o.maxKeys, calls, key)
    ensures Recollection(o, calls, key) == HitsOf(Left(o, calls, key))
  {}

  /** While nothing else of the key is admitted, a later check is admitted exactly from the
      instant the oldest weighed hit leaves the window, if it remembers the first. */
  lemma OpensExactly(o: Options, calls: seq<Call>, admitted: seq<bool>, i: nat, m: nat)
    requires o.kind == Log && Ran(o, calls, admitted) && Monotone(calls) && i < m < |calls|
    requires Remembers(o.maxKeys, calls, m, i) && calls[m].key == calls[i].key && o.limit >= 1
    requires forall j :: i <= j < m && calls[j].key == calls[i].key ==> !admitted[j]
    ensures admitted[m] <==> calls[m].at >= OpensAt(o, calls, i)
  {
    var key, cutoff := calls[i].key, calls[m].at - o.WindowMs();
    forall j | 0 <= j < m ensures calls[j].at <= calls[m].at { assert InOrder(calls, j, m); }
    RefusalsKeep(o, calls, admitted, i, m, cutoff);
    assert !Crowded(o.maxKeys, calls[..m], key);
    LogServes(o, calls, admitted, m);
    WeighedFacts(o, calls, admitted, i);
    FullUntilOldestLeaves(Weighed(o, calls, i), cutoff);
  }

  lemma FullUntilOldestLeaves(hits: seq<int>, cutoff: int)
    requires Ascending(hits) && hits != []
    ensures |Live(hits, cutoff)| < |hits| <==> hits[0] <= cutoff
  {
    LiveFacts(hits, cutoff);
    if hits[0] > cutoff {
      forall x | x in hits ensures x > cutoff {
        var i :| 0 <= i < |hits| && hits[i] == x;
        assert i > 0 ==> hits[0] <= hits[i];
      }
    } else {
      assert hits[0] in hits;
    }
  }

  /** Whatever retries happen, every check before that instant is refused. */
  lemma {:induction false} RefusedUntilOpen(o: Options, calls: seq<Call>, admitted: seq<bool>, i: nat, m: nat)
    requires o.kind == Log && Ran(o, calls, admitted) && Monotone(calls) && i <= m < |calls|
    requires (i < m ==> Remembers(o.maxKeys, calls, m, i)) && calls[m].key == calls[i].key && o.limit >= 1
    requires !admitted[i] && calls[m].at < OpensAt(o, calls, i)
    ensures !admitted[m]
    decreases m
  {
    if i < m {
      forall j | i <= j < m && calls[j].key == calls[i].key ensures !admitted[j] {
        assert InOrder(calls, j, m);
        RefusedUntilOpen(o, calls, admitted, i, j);
      }
      OpensExactly(o, calls, admitted, i, m);
    }
  }

  /** Waiting the answered seconds is enough when nothing else of the key was admitted. */
  lemma RetryAfterSuffices(o: Options, calls: seq<Call>, admitted: seq<bool>, i: nat, m: nat)
    requires o.kind == Log && Ran(o, calls, admitted) && Monotone(calls) && i < m < |calls|
    requires Remembers(o.maxKeys, calls, m, i) && calls[m].key == calls[i].key && o.limit >= 1
    requires forall j :: i <= j < m && calls[j].key == calls[i].key ==> !admitted[j]
    requires calls[m].at >= calls[i].at + 1000 * AnswerAt(o, calls, i).retryAfterSeconds
    ensures admitted[m]
  {
    AnswerIsExact(o, calls, admitted, i);
    OpensExactly(o, calls, admitted, i, m);
  }

  /** The admissions call `i` has to count. */
  ghost function ChargedNow(o: Options, calls: seq<Call>, admitted: seq<bool>, i: nat): set<nat>
    requires i < |calls| == |admitted|
  {
    Charged(o.maxKeys, admitted, calls, i, calls[i].key, calls[i].at - o.WindowMs())
  }

  ghost function Later(calls: seq<Call>, s: set<nat>, stamp: int): set<nat> {
    set j | j in s && j < |calls| && calls[j].at > stamp
  }

  /** The weighed hits begin with the stamp of the oldest admission the check had to count. */
  lemma OpensWhenOldestLeaves(o: Options, calls: seq<Call>, admitted: seq<bool>, i: nat) returns (oldest: nat)
    requires o.kind == Log && Ran(o, calls, admitted) && Monotone(calls) && i < |calls|
    requires !admitted[i] && o.limit >= 1
    ensures oldest in ChargedNow(o, calls, admitted, i) && oldest < i
    ensures calls[oldest].at + o.WindowMs() == OpensAt(o, calls, i)
    ensures forall j :: j in ChargedNow(o, calls, admitted, i) ==> j < i && calls[oldest].at <= calls[j].at
  {
    WeighedFacts(o, calls, admitted, i);
    var stamp := Weighed(o, calls, i)[0];
    CountPast(o, calls, admitted, i, calls[i].at - o.WindowMs());
    CountPast(o, calls, admitted, i, stamp - 1);
    CountPast(o, calls, admitted, i, stamp);
    ChargedIsEarlier(o, calls, admitted, i);
    oldest := OldestOf(calls, ChargedNow(o, calls, admitted, i), stamp);
  }

  lemma ChargedIsEarlier(o: Options, calls: seq<Call>, admitted: seq<bool>, i: nat)
    requires i < |calls| == |admitted|
    ensures forall j :: j in ChargedNow(o, calls, admitted, i) ==> j < i
    ensures Later(calls, ChargedNow(o, calls, admitted, i), calls[i].at - o.WindowMs()) == ChargedNow(o, calls, admitted, i)
  {}

  /** How many of them are stamped past a cutoff, told from the weighed hits. */
  lemma CountPast(o: Options, calls: seq<Call>, admitted: seq<bool>, i: nat, cutoff: int)
    requires o.kind == Log && Ran(o, calls, admitted) && Monotone(calls) && i < |calls|
    requires calls[i].at - o.WindowMs() <= cutoff && Ascending(Weighed(o, calls, i)) && Weighed(o, calls, i) != []
    ensures var (count, hits) := (|Later(calls, ChargedNow(o, calls, admitted, i), cutoff)|, Weighed(o, calls, i));
      if hits[0] <= cutoff then count < |hits| else count == |hits|
  {
    ChargedPast(o, calls, admitted, i, cutoff);
    assert Charged(o.maxKeys, admitted, calls, i, calls[i].key, cutoff)
        == Later(calls, ChargedNow(o, calls, admitted, i), cutoff);
    LiveFacts(Weighed(o, calls, i), cutoff);
    FullUntilOldestLeaves(Weighed(o, calls, i), cutoff);
  }

  lemma OldestOf(calls: seq<Call>, all: set<nat>, stamp: int) returns (oldest: nat)
    requires forall j :: j in all ==> j < |calls|
    requires |Later(calls, all, stamp - 1)| == |all| > |Later(calls, all, stamp)|
    ensures oldest in all && calls[oldest].at == stamp && forall j :: j in all ==> stamp <= calls[j].at
  {
    var from, after := Later(calls, all, stamp - 1), Later(calls, all, stamp);
    SameSize(from, all);
    if all <= after { SubsetSize(all, after); }
    oldest :| oldest in all && oldest !in after;
  }

  lemma ChargedPast(o: Options, calls: seq<Call>, admitted: seq<bool>, i: nat, cutoff: int)
    requires o.kind == Log && Ran(o, calls, admitted) && Monotone(calls) && i < |calls|
    requires calls[i].at - o.WindowMs() <= cutoff
    ensures |Live(Weighed(o, calls, i), cutoff)|
         == |Charged(o.maxKeys, admitted, calls, i, calls[i].key, cutoff)|
  {
    forall j | 0 <= j < i ensures calls[j].at <= calls[i].at { assert InOrder(calls, j, i); }
    RecalledIsCharged(o, calls, admitted, i, calls[i].key, cutoff) by {
      LeftIsCounted(o, calls, admitted, i, calls[i].key, cutoff);
    }
    LiveLive(Recollection(o, calls[..i], calls[i].key), calls[i].at - o.WindowMs(), cutoff);
  }
}
