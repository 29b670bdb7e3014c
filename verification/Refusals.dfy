/** What a refused call leaves behind: nothing, as long as nothing is crowded out. A run and the
    same run without its refused calls then admit the same calls. */
module Refusals {
  import opened InsertionMaps
  import opened Limits
  import opened Recency
  import opened Selection
  import opened SlidingCounterRuns
  import opened SlidingLogRuns

  /** From `now` on, two memories answer alike. */
  ghost predicate Alike(o: Options, m: Option<Memory>, m': Option<Memory>, now: int) {
    forall t :: now <= t ==> Serve(o, m, t) == Serve(o, m', t)
  }

  lemma LogRefusalIsNeutral(o: Options, m: Option<Memory>, now: int, t: int)
    requires o.kind == Log && now <= t && !ServeLog(o, m, now).1
    ensures ServeLog(o, Some(ServeLog(o, m, now).0), t) == ServeLog(o, m, t)
  {
    var hits := Live(HitsOf(m), now - o.WindowMs());
    assert ServeLog(o, m, now).0 == Hits(hits) && HitsOf(Some(Hits(hits))) == hits;
    LiveLive(HitsOf(m), now - o.WindowMs(), t - o.WindowMs());
  }

  /** Counts brought to one window and then to a later one. */
  lemma RolledLater(o: Options, m: Option<Memory>, now: int, t: int)
    requires now <= t && (m.Some? && m.value.Counts? ==> m.value.window <= WindowAt(o, now))
    ensures Rolled(Rolled(CountsOf(o, m, now), WindowAt(o, now)), WindowAt(o, t)) == Rolled(CountsOf(o, m, t), WindowAt(o, t))
  {
    WindowsAscend(o, now, t);
  }

  lemma CounterRefusalIsNeutral(o: Options, m: Option<Memory>, now: int, t: int)
    requires now <= t && !ServeCounter(o, m, now).1
    requires m.Some? && m.value.Counts? ==> m.value.window <= WindowAt(o, now)
    ensures ServeCounter(o, Some(ServeCounter(o, m, now).0), t) == ServeCounter(o, m, t)
  {
    RolledLater(o, m, now, t);
  }

  /** What a refused call leaves answers as what it found. */
  lemma RefusalIsNeutral(o: Options, m: Option<Memory>, now: int)
    requires m.Some? ==> Sound(o, m.value, now)
    requires !Serve(o, m, now).1
    ensures Alike(o, Some(Serve(o, m, now).0), m, now)
  {
    forall t | now <= t ensures Serve(o, Some(Serve(o, m, now).0), t) == Serve(o, m, t) {
      if o.kind == Log { LogRefusalIsNeutral(o, m, now, t); } else { CounterRefusalIsNeutral(o, m, now, t); }
    }
  }

  lemma {:induction false} NothingLeft(o: Options, calls: seq<Call>, key: Key)
    requires forall c :: c in calls ==> c.key != key
    ensures Left(o, calls, key) == None
  {
    if calls != [] { NothingLeft(o, calls[..|calls| - 1], key); }
  }

  /** A key that is not crowded out at its next call is recalled as it was left. */
  lemma RecallsLeft(o: Options, calls: seq<Call>, i: nat)
    requires i < |calls| && Uncrowded(o.maxKeys, calls, calls[i].key)
    ensures Recalled(o, calls[..i], calls[i].key) == Left(o, calls[..i], calls[i].key)
  {
    if j: nat :| j < i && calls[j].key == calls[i].key {
      assert !Crowded(o.maxKeys, calls[..i], calls[i].key);
    } else {
      forall c | c in calls[..i] ensures c.key != calls[i].key {}
      NothingLeft(o, calls[..i], calls[i].key);
    }
  }

  /** A key that neither the calls nor the kept calls crowd out. */
  ghost predicate Undisturbed(maxKeys: nat, calls: seq<Call>, kept: seq<Call>, key: Key) {
    Uncrowded(maxKeys, calls, key) && Uncrowded(maxKeys, kept, key)
  }

  /** The memories such a key has in a run and in its admitted calls alone stay alike. */
  lemma {:induction false} LeftAlike(o: Options, calls: seq<Call>, admitted: seq<bool>, n: nat, key: Key, now: int)
    requires Ran(o, calls, admitted) && Monotone(calls) && n <= |calls|
    requires Undisturbed(o.maxKeys, calls, Select(calls, admitted), key)
    requires forall c :: c in calls[..n] ==> c.at <= now
    ensures Alike(o, Left(o, calls[..n], key), Left(o, Selected(calls, admitted, n), key), now)
  {
    if n > 0 {
      var i := n - 1;
      var call := calls[i];
      MonotonePrefix(calls, i);
      assert call in calls[..n] by { assert calls[..n][i] == call; }
      LeftAlike(o, calls, admitted, i, key, call.at);
      if call.key == key {
        OwnAlike(o, calls, admitted, i);
      } else {
        LeftAfterOther(o, calls, i, key);
        SelectedAfterOther(o, calls, admitted, i, key);
      }
    }
  }

  lemma SelectedAfterOther(o: Options, calls: seq<Call>, admitted: seq<bool>, i: nat, key: Key)
    requires i < |calls| == |admitted| && calls[i].key != key
    ensures Left(o, Selected(calls, admitted, i + 1), key) == Left(o, Selected(calls, admitted, i), key)
  {
    var kept := Selected(calls, admitted, i);
    if admitted[i] {
      assert (kept + [calls[i]])[..|kept|] == kept;
    } else {
      assert kept + [] == kept;
    }
  }

  lemma OwnAlike(o: Options, calls: seq<Call>, admitted: seq<bool>, i: nat)
    requires Ran(o, calls, admitted) && Monotone(calls) && i < |calls|
    requires Undisturbed(o.maxKeys, calls, Select(calls, admitted), calls[i].key)
    requires Alike(o, Left(o, calls[..i], calls[i].key), Left(o, Selected(calls, admitted, i), calls[i].key), calls[i].at)
    ensures Alike(o, Left(o, calls[..i + 1], calls[i].key), Left(o, Selected(calls, admitted, i + 1), calls[i].key), calls[i].at)
  {
    var (before, key, now) := (calls[..i], calls[i].key, calls[i].at);
    var kept := Selected(calls, admitted, i);
    assert calls[..i + 1][..i] == before;
    ServesFromOwnMemory(o, calls, admitted, i);
    RecallsLeft(o, calls, i);
    if admitted[i] {
      assert Selected(calls, admitted, i + 1)[..|kept|] == kept;
      KeptRecallsLeft(o, calls, admitted, i);
    } else {
      assert Selected(calls, admitted, i + 1) == kept;
      MonotonePrefix(calls, i);
      LeftSound(o, before, key, now);
      RefusalIsNeutral(o, Left(o, before, key), now);
    }
  }

  lemma KeptRecallsLeft(o: Options, calls: seq<Call>, admitted: seq<bool>, i: nat)
    requires i < |calls| == |admitted| && admitted[i] && Uncrowded(o.maxKeys, Select(calls, admitted), calls[i].key)
    ensures Recalled(o, Selected(calls, admitted, i), calls[i].key) == Left(o, Selected(calls, admitted, i), calls[i].key)
  {
    SelectedAt(calls, admitted, i, |calls|);
    SelectedPrefix(calls, admitted, i, |calls|);
    RecallsLeft(o, Select(calls, admitted), Position(admitted, i));
  }

  lemma SelectedMonotone(calls: seq<Call>, flags: seq<bool>)
    requires |calls| == |flags| && Monotone(calls)
    ensures Monotone(Select(calls, flags))
  {
    var n, r := |calls|, Select(calls, flags);
    forall p, q ensures InOrder(r, p, q) {
      if 0 <= p <= q < |r| {
        var i := SelectedFrom(calls, flags, n, p);
        var j := SelectedFrom(calls, flags, n, q);
        if j < i { PositionsAscend(flags, j, i); }
        assert InOrder(calls, i, j);
      }
    }
  }

  /** Deleting every refused call from a run changes no other decision about a key that is never
      crowded out: each of its calls that is left is admitted again. */
  lemma KeptCallIsAdmitted(o: Options, calls: seq<Call>, admitted: seq<bool>, again: seq<bool>, p: nat)
    requires Ran(o, calls, admitted) && Monotone(calls) && Ran(o, Select(calls, admitted), again) && p < |again|
    requires Undisturbed(o.maxKeys, calls, Select(calls, admitted), Select(calls, admitted)[p].key)
    ensures again[p]
  {
    var n, kept := |calls|, Select(calls, admitted);
    SelectedMonotone(calls, admitted);
    var i := SelectedFrom(calls, admitted, n, p);
    SelectedPrefix(calls, admitted, i, n);
    assert kept[..p] == Selected(calls, admitted, i);
    MonotonePrefix(calls, i);
    LeftAlike(o, calls, admitted, i, calls[i].key, calls[i].at);
    RecallsLeft(o, calls, i);
    RecallsLeft(o, kept, p);
    ServesFromOwnMemory(o, calls, admitted, i);
    ServesFromOwnMemory(o, kept, again, p);
  }

  /** So when no key is crowded out, what is left is all admitted again. */
  lemma RefusedCallsLeaveNoTrace(o: Options, calls: seq<Call>, admitted: seq<bool>, again: seq<bool>)
    requires Ran(o, calls, admitted) && Monotone(calls) && Ran(o, Select(calls, admitted), again)
    requires forall key :: Undisturbed(o.maxKeys, calls, Select(calls, admitted), key)
    ensures forall p :: 0 <= p < |again| ==> again[p]
  {
    forall p | 0 <= p < |again| ensures again[p] { KeptCallIsAdmitted(o, calls, admitted, again, p); }
  }

  // ----- the exact condition -----

  function Yes(n: nat): (r: seq<bool>)
    ensures |r| == n && forall i :: 0 <= i < n ==> r[i]
  {
    seq(n, _ => true)
  }

  /** Call `p` finds room when all before it were admitted, told from the calls alone. */
  ghost predicate RoomAt(o: Options, calls: seq<Call>, p: nat)
    requires p < |calls|
  {
    var (key, at, yes) := (calls[p].key, calls[p].at, Yes(|calls|));
    if o.kind == Log then |Charged(o.maxKeys, yes, calls, p, key, at - o.WindowMs())| < o.limit
    else
      FitsWhole(|Owed(o, yes, calls, p, key, WindowAt(o, at) - 1)|, |Owed(o, yes, calls, p, key, WindowAt(o, at))|,
                o.limit, o.WindowMs(), at % o.WindowMs())
  }

  lemma RoomDecides(o: Options, calls: seq<Call>, admitted: seq<bool>, p: nat)
    requires Ran(o, calls, admitted) && Monotone(calls) && p < |calls| && forall i :: 0 <= i < p ==> admitted[i]
    ensures admitted[p] <==> RoomAt(o, calls, p)
  {
    var (key, at, yes) := (calls[p].key, calls[p].at, Yes(|calls|));
    if o.kind == Log {
      LogIsExact(o, calls, admitted, p);
      assert Counted(o.maxKeys, admitted, calls, p, key, at - o.WindowMs())
          == Counted(o.maxKeys, yes, calls, p, key, at - o.WindowMs());
    } else {
      CounterIsExact(o, calls, admitted, p);
      StandingAlike(o, calls, admitted, yes, p, key, WindowAt(o, at));
      StandingAlike(o, calls, admitted, yes, p, key, WindowAt(o, at) - 1);
    }
  }

  lemma StandingAlike(o: Options, calls: seq<Call>, a: seq<bool>, b: seq<bool>, p: nat, key: Key, window: int)
    requires p <= |calls| == |a| == |b| && forall i :: 0 <= i < p ==> a[i] == b[i]
    ensures Standing(o, a, calls, p, key, window) == Standing(o, b, calls, p, key, window)
  {}

  /** A run is admitted in full exactly when each call finds room for itself. */
  lemma {:induction false} AllAdmittedIff(o: Options, calls: seq<Call>, admitted: seq<bool>, n: nat)
    requires Ran(o, calls, admitted) && Monotone(calls) && n <= |calls|
    ensures (forall p :: 0 <= p < n ==> admitted[p]) <==> (forall p :: 0 <= p < n ==> RoomAt(o, calls, p))
  {
    if n > 0 {
      AllAdmittedIff(o, calls, admitted, n - 1);
      if forall p :: 0 <= p < n - 1 ==> admitted[p] { RoomDecides(o, calls, admitted, n - 1); }
    }
  }

  /** Deleting every refused call changes no other decision if and only if each call that is kept
      finds room among the kept calls. */
  lemma NoTraceIff(o: Options, calls: seq<Call>, admitted: seq<bool>, again: seq<bool>)
    requires Ran(o, calls, admitted) && Monotone(calls) && Ran(o, Select(calls, admitted), again)
    ensures (forall p :: 0 <= p < |again| ==> again[p])
       <==> forall p :: 0 <= p < |Select(calls, admitted)| ==> RoomAt(o, Select(calls, admitted), p)
  {
    SelectedMonotone(calls, admitted);
    AllAdmittedIff(o, Select(calls, admitted), again, |again|);
  }

  /** The answers of a run are determined by its calls. */
  lemma AnswersAreUnique(o: Options, calls: seq<Call>, a: seq<bool>, b: seq<bool>)
    requires Ran(o, calls, a) && Ran(o, calls, b)
    ensures a == b
  {
    forall i | 0 <= i < |calls| ensures a[i] == b[i] {
      var m := Replay(o, calls[..i]);
    }
  }
}
