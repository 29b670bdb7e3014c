/** The map the two sliding windows keep: key to memory in recency order, one stale entry swept
    per call, and the coldest keys evicted past the ceiling.

    The main result is `ServesFromOwnMemory`: over every run under a clock that does not step
    back, what a call is answered depends on the earlier calls of its own key alone, except that
    `maxKeys` distinct other keys checked since the key's last call make it a new key. */
module Recency {
  import opened InsertionMaps
  import opened Limits

  type Keys = InsertionMap<Key, Memory>

  datatype Call = Call(key: Key, at: int)

  // ----- one call -----

  /** Drops the coldest entry when it is stale. */
  function Sweep(o: Options, m: Keys, now: int): Keys
    requires m.Valid()
  {
    if m.order != [] && Stale(o, m.held[m.order[0]], now) then m.Delete(m.order[0]) else m
  }

  function Touch(o: Options, m: Keys, key: Key, now: int): (r: Keys)
    requires m.Valid()
  {
    var swept := Sweep(o, m, now);
    swept.Delete(key).Set(key, Serve(o, swept.Get(key), now).0).Newest(o.maxKeys)
  }

  predicate Admits(o: Options, m: Keys, key: Key, now: int)
    requires m.Valid()
  {
    Serve(o, Sweep(o, m, now).Get(key), now).1
  }

  // ----- runs -----

  /** The map after the calls of a run, oldest first. */
  function Replay(o: Options, calls: seq<Call>): (m: Keys)
    ensures m.Valid() && |m.order| <= o.maxKeys
  {
    if calls == [] then Empty() else
      var before := Replay(o, calls[..|calls| - 1]);
      var last := calls[|calls| - 1];
      TouchValid(o, before, last.key, last.at);
      Touch(o, before, last.key, last.at)
  }

  /** `m` is the map after the calls of a run; the trigger keeps the replay folded. */
  ghost predicate IsReplay(o: Options, m: Keys, calls: seq<Call>) {
    forall c {:trigger Replay(o, c)} :: c == calls ==> m == Replay(o, c)
  }

  /** `admitted` is what the calls of a run were answered. */
  ghost predicate Ran(o: Options, calls: seq<Call>, admitted: seq<bool>) {
    && |admitted| == |calls|
    && forall i {:trigger Replay(o, calls[..i])} ::
         0 <= i < |calls| ==> admitted[i] == Admits(o, Replay(o, calls[..i]), calls[i].key, calls[i].at)
  }

  /** The clock does not step back. */
  ghost predicate Monotone(calls: seq<Call>) {
    forall i, j :: InOrder(calls, i, j)
  }

  ghost predicate InOrder(calls: seq<Call>, i: int, j: int) {
    0 <= i <= j < |calls| ==> calls[i].at <= calls[j].at
  }

  /** The distinct keys checked since the last call of `key`. */
  function Since(calls: seq<Call>, key: Key): set<Key> {
    if calls == [] then {} else
      var last := calls[|calls| - 1];
      if last.key == key then {} else Since(calls[..|calls| - 1], key) + {last.key}
  }

  /** Enough other keys were checked since the last call of `key` to have evicted it. */
  predicate Crowded(maxKeys: nat, calls: seq<Call>, key: Key) {
    |Since(calls, key)| >= maxKeys
  }

  // ----- the reference: one memory per key, no map, no sweep, no eviction -----

  /** What the last call of `key` left behind. */
  function Left(o: Options, calls: seq<Call>, key: Key): Option<Memory>
    decreases |calls|, 0
  {
    if calls == [] then None else
      var (before, last) := (calls[..|calls| - 1], calls[|calls| - 1]);
      if last.key != key then Left(o, before, key)
      else Some(Serve(o, Recalled(o, before, key), last.at).0)
  }

  /** What the next call of `key` starts from. */
  function Recalled(o: Options, calls: seq<Call>, key: Key): Option<Memory>
    decreases |calls|, 1
  {
    if Crowded(o.maxKeys, calls, key) then None else Left(o, calls, key)
  }

  // ----- validity -----

  lemma SweepValid(o: Options, m: Keys, now: int)
    requires m.Valid()
    ensures Sweep(o, m, now).Valid() && |Sweep(o, m, now).order| <= |m.order|
  {
    if m.order != [] { m.DeleteValid(m.order[0]); }
  }

  lemma TouchValid(o: Options, m: Keys, key: Key, now: int)
    requires m.Valid()
    ensures var r := Touch(o, m, key, now); r.Valid() && |r.order| <= o.maxKeys
  {
    SweepValid(o, m, now);
    var swept := Sweep(o, m, now);
    var memory := Serve(o, swept.Get(key), now).0;
    swept.MoveToEnd(key, memory);
    swept.Delete(key).Set(key, memory).NewestValid(o.maxKeys);
  }

  /** Every earlier part of a run is in order, and stamped no later than what follows it. */
  lemma MonotonePrefix(calls: seq<Call>, n: nat)
    requires Monotone(calls) && n <= |calls|
    ensures Monotone(calls[..n])
    ensures forall c :: c in calls[..n] ==> n < |calls| ==> c.at <= calls[n].at
  {
    forall i, j ensures InOrder(calls[..n], i, j) {
      assert InOrder(calls, i, j);
    }
    if n < |calls| {
      forall c | c in calls[..n] ensures c.at <= calls[n].at {
        var i :| 0 <= i < n && calls[i] == c;
        assert InOrder(calls, i, n);
      }
    }
  }

  // ----- the refinement -----

  /** Nothing the key left counts any more. */
  ghost predicate Forgotten(o: Options, calls: seq<Call>, k: Key, now: int) {
    || Crowded(o.maxKeys, calls, k)
    || Left(o, calls, k) == None
    || Spent(o, Left(o, calls, k).value, now)
  }

  /** The bounded map agrees with the reference: a held key has its reference memory and is
      followed by exactly the keys checked since; a key not held is forgotten. */
  ghost predicate Agrees(o: Options, m: Keys, calls: seq<Call>, now: int) {
    && m.Valid()
    && (forall k {:trigger m.held[k]} {:trigger After(m.order, k)} :: k in m.held ==>
          Left(o, calls, k) == Some(m.held[k]) && After(m.order, k) == Since(calls, k))
    && (forall k {:trigger Forgotten(o, calls, k, now)} :: k !in m.held ==> Forgotten(o, calls, k, now))
  }

  /** Every memory the reference holds is one a run can leave. */
  lemma {:induction false} LeftSound(o: Options, calls: seq<Call>, key: Key, now: int)
    requires Monotone(calls) && (forall c :: c in calls ==> c.at <= now)
    ensures Left(o, calls, key).Some? ==> Sound(o, Left(o, calls, key).value, now)
  {
    if calls != [] {
      var (before, last) := (calls[..|calls| - 1], calls[|calls| - 1]);
      MonotonePrefix(calls, |calls| - 1);
      LeftSound(o, before, key, last.at);
      if last.key == key { ServeSound(o, Recalled(o, before, key), last.at); }
      if Left(o, calls, key).Some? { SoundLater(o, Left(o, calls, key).value, last.at, now); }
    }
  }

  lemma SweepAgrees(o: Options, m: Keys, calls: seq<Call>, now: int)
    requires Agrees(o, m, calls, now) && Monotone(calls) && (forall c :: c in calls ==> c.at <= now)
    ensures Agrees(o, Sweep(o, m, now), calls, now)
  {
    SweepValid(o, m, now);
    var swept := Sweep(o, m, now);
    if m.order != [] && Stale(o, m.held[m.order[0]], now) {
      var cold := m.order[0];
      LeftSound(o, calls, cold, now);
      StaleIsSpent(o, m.held[cold], now);
      assert Forgotten(o, calls, cold, now);
      assert m.order == [cold] + m.order[1..];
      assert swept.order == m.order[1..];
      forall k | k in swept.held ensures After(swept.order, k) == After(m.order, k) {}
    }
  }

  /** The memory a call finds in the map answers as the reference memory does. */
  lemma FoundServes(o: Options, m: Keys, calls: seq<Call>, key: Key, now: int)
    requires Agrees(o, m, calls, now) && |m.order| <= o.maxKeys
    ensures Serve(o, m.Get(key), now) == Serve(o, Recalled(o, calls, key), now)
  {
    if key in m.held {
      AfterCount(m.order, key);
    } else {
      assert Forgotten(o, calls, key, now);
    }
  }

  lemma SinceGrows(calls: seq<Call>, call: Call, key: Key)
    requires call.key != key
    ensures Since(calls + [call], key) == Since(calls, key) + {call.key}
    ensures |Since(calls, key)| <= |Since(calls + [call], key)|
  {
    assert (calls + [call])[..|calls|] == calls;
    var s := Since(calls, key);
    if call.key in s { assert s + {call.key} == s; }
  }

  /** Moving the called key to the end keeps the agreement. */
  lemma MoveAgrees(o: Options, m: Keys, calls: seq<Call>, call: Call)
    requires Agrees(o, m, calls, call.at) && |m.order| <= o.maxKeys
    ensures var memory := Serve(o, m.Get(call.key), call.at).0;
      Agrees(o, m.Delete(call.key).Set(call.key, memory), calls + [call], call.at)
  {
    var memory := Serve(o, m.Get(call.key), call.at).0;
    FoundServes(o, m, calls, call.key, call.at);
    LeftOneMore(o, calls, call);
    MoveAgreesWith(o, m, calls, call, memory);
  }

  lemma LeftOneMore(o: Options, calls: seq<Call>, call: Call)
    ensures Left(o, calls + [call], call.key) == Some(Serve(o, Recalled(o, calls, call.key), call.at).0)
    ensures forall k :: k != call.key ==> Left(o, calls + [call], k) == Left(o, calls, k)
  {
    assert (calls + [call])[..|calls|] == calls;
  }

  lemma MoveAgreesWith(o: Options, m: Keys, calls: seq<Call>, call: Call, memory: Memory)
    requires Agrees(o, m, calls, call.at)
    requires Left(o, calls + [call], call.key) == Some(memory)
    requires forall k :: k != call.key ==> Left(o, calls + [call], k) == Left(o, calls, k)
    ensures Agrees(o, m.Delete(call.key).Set(call.key, memory), calls + [call], call.at)
  {
    var key, all := call.key, calls + [call];
    var r := m.Delete(key).Set(key, memory);
    m.MoveToEnd(key, memory);
    assert all[..|all| - 1] == calls;
    forall k | k in r.held
      ensures Left(o, all, k) == Some(r.held[k]) && After(r.order, k) == Since(all, k)
    {
      AfterMove(m, key, memory, k);
      if k != key { assert Left(o, calls, k) == Some(m.held[k]) && After(m.order, k) == Since(calls, k); }
    }
    forall k | k !in r.held ensures Forgotten(o, all, k, call.at) {
      assert Forgotten(o, calls, k, call.at);
      SinceGrows(calls, call, k);
    }
  }

  /** What follows each key once `key` has been moved to the end. */
  lemma AfterMove(m: Keys, key: Key, memory: Memory, k: Key)
    requires m.Valid() && k in m.held.Keys + {key}
    ensures var r := m.Delete(key).Set(key, memory);
      After(r.order, k) == if k == key then {} else After(m.order, k) + {key}
  {
    m.MoveToEnd(key, memory);
    var kept := if key in m.held then Remove(m.order, key) else m.order;
    if key in m.held { RemoveFacts(m.order, key); }
    if k == key {
      AfterSplit(kept, key, []);
      assert kept + [key] + [] == kept + [key];
    } else {
      if key in m.held { AfterRemove(m.order, k, key); }
      AfterAppend(kept, k, key);
    }
  }

  /** Evicting the coldest of `maxKeys + 1` keys keeps the agreement: it is crowded. */
  lemma EvictAgrees(o: Options, m: Keys, calls: seq<Call>, now: int)
    requires Agrees(o, m, calls, now) && |m.order| <= o.maxKeys + 1
    ensures Agrees(o, m.Newest(o.maxKeys), calls, now)
  {
    m.NewestValid(o.maxKeys);
    if |m.order| == o.maxKeys + 1 {
      var cold, r := m.order[0], m.Newest(o.maxKeys);
      assert m.order == [cold] + m.order[1..];
      SetOfDistinct(m.order[1..]);
      assert After(m.order, cold) == Since(calls, cold);
      assert Forgotten(o, calls, cold, now);
      forall k | k in r.held ensures After(r.order, k) == After(m.order, k) {}
    }
  }

  lemma StepAgrees(o: Options, m: Keys, calls: seq<Call>, call: Call)
    requires Agrees(o, m, calls, call.at) && |m.order| <= o.maxKeys
    requires Monotone(calls) && (forall c :: c in calls ==> c.at <= call.at)
    ensures Agrees(o, Touch(o, m, call.key, call.at), calls + [call], call.at)
    ensures Admits(o, m, call.key, call.at) == Serve(o, Recalled(o, calls, call.key), call.at).1
  {
    SweepAgrees(o, m, calls, call.at);
    var swept := Sweep(o, m, call.at);
    SweepValid(o, m, call.at);
    FoundServes(o, swept, calls, call.key, call.at);
    MoveAgrees(o, swept, calls, call);
    var memory := Serve(o, swept.Get(call.key), call.at).0;
    swept.MoveToEnd(call.key, memory);
    EvictAgrees(o, swept.Delete(call.key).Set(call.key, memory), calls + [call], call.at);
  }

  lemma AgreesLater(o: Options, m: Keys, calls: seq<Call>, now: int, later: int)
    requires Agrees(o, m, calls, now) && now <= later
    ensures Agrees(o, m, calls, later)
  {
    forall k | k !in m.held ensures Forgotten(o, calls, k, later) {
      assert Forgotten(o, calls, k, now);
    }
  }

  lemma ReplayStep(o: Options, calls: seq<Call>, call: Call)
    ensures Replay(o, calls + [call]) == Touch(o, Replay(o, calls), call.key, call.at)
  {
    assert (calls + [call])[..|calls|] == calls;
  }

  lemma ReplayStepAgrees(o: Options, calls: seq<Call>, call: Call, now: int)
    requires Agrees(o, Replay(o, calls), calls, call.at) && call.at <= now
    requires Monotone(calls) && (forall c :: c in calls ==> c.at <= call.at)
    ensures Agrees(o, Replay(o, calls + [call]), calls + [call], now)
  {
    ReplayStep(o, calls, call);
    StepAgrees(o, Replay(o, calls), calls, call);
    AgreesLater(o, Replay(o, calls + [call]), calls + [call], call.at, now);
  }

  lemma {:induction false} ReplayAgrees(o: Options, calls: seq<Call>, now: int)
    requires Monotone(calls) && (forall c :: c in calls ==> c.at <= now)
    ensures Agrees(o, Replay(o, calls), calls, now)
  {
    if calls != [] {
      var (before, last) := (calls[..|calls| - 1], calls[|calls| - 1]);
      assert calls == before + [last];
      MonotonePrefix(calls, |calls| - 1);
      ReplayAgrees(o, before, last.at);
      ReplayStepAgrees(o, before, last, now);
    }
  }

  lemma RanLonger(o: Options, calls: seq<Call>, admitted: seq<bool>, call: Call, allowed: bool)
    requires Ran(o, calls, admitted) && allowed == Admits(o, Replay(o, calls), call.key, call.at)
    ensures Ran(o, calls + [call], admitted + [allowed])
  {
    var all, answers := calls + [call], admitted + [allowed];
    forall i | 0 <= i < |all| ensures answers[i] == Admits(o, Replay(o, all[..i]), all[i].key, all[i].at) {
      if i < |calls| {
        assert all[..i] == calls[..i] && all[i] == calls[i] && answers[i] == admitted[i];
      } else {
        assert all[..i] == calls;
      }
    }
  }

  /** A run and one more call. */
  lemma RanOneMore(o: Options, calls: seq<Call>, admitted: seq<bool>, call: Call, seen: Keys, allowed: bool)
    requires Ran(o, calls, admitted)
    requires seen == Touch(o, Replay(o, calls), call.key, call.at)
    requires allowed == Admits(o, Replay(o, calls), call.key, call.at)
    ensures IsReplay(o, seen, calls + [call]) && Ran(o, calls + [call], admitted + [allowed])
  {
    ReplayStep(o, calls, call);
    RanLonger(o, calls, admitted, call, allowed);
  }

  /** The same, from the map as it was. */
  lemma ReplayedOneMore(o: Options, was: Keys, calls: seq<Call>, admitted: seq<bool>, call: Call, seen: Keys, allowed: bool)
    requires IsReplay(o, was, calls) && Ran(o, calls, admitted) && was.Valid()
    requires seen == Touch(o, was, call.key, call.at) && allowed == Admits(o, was, call.key, call.at)
    ensures IsReplay(o, seen, calls + [call]) && Ran(o, calls + [call], admitted + [allowed])
  {
    assert was == Replay(o, calls);
    RanOneMore(o, calls, admitted, call, seen, allowed);
  }

  /** The map never changes an answer: each call is served from what the reference recalls of
      its own key. */
  lemma ServesFromOwnMemory(o: Options, calls: seq<Call>, admitted: seq<bool>, i: nat)
    requires Ran(o, calls, admitted) && Monotone(calls) && i < |calls|
    ensures admitted[i] <==> Serve(o, Recalled(o, calls[..i], calls[i].key), calls[i].at).1
  {
    MonotonePrefix(calls, i);
    ReplayAgrees(o, calls[..i], calls[i].at);
    StepAgrees(o, Replay(o, calls[..i]), calls[..i], calls[i]);
  }

  /** The same of all that a call makes of its key's memory. */
  lemma ServedAtPlace(o: Options, calls: seq<Call>, i: nat)
    requires Monotone(calls) && i < |calls|
    ensures Serve(o, Sweep(o, Replay(o, calls[..i]), calls[i].at).Get(calls[i].key), calls[i].at)
         == Serve(o, Recalled(o, calls[..i], calls[i].key), calls[i].at)
  {
    var m, now := Replay(o, calls[..i]), calls[i].at;
    MonotonePrefix(calls, i);
    ReplayAgrees(o, calls[..i], now);
    SweepAgrees(o, m, calls[..i], now);
    SweepValid(o, m, now);
    FoundServes(o, Sweep(o, m, now), calls[..i], calls[i].key, now);
  }

  /** Every sequence of calls is a run, with exactly one sequence of answers. */
  lemma {:induction false} RunExists(o: Options, calls: seq<Call>) returns (admitted: seq<bool>)
    ensures Ran(o, calls, admitted)
  {
    if calls == [] {
      admitted := [];
    } else {
      var (before, last) := (calls[..|calls| - 1], calls[|calls| - 1]);
      assert before + [last] == calls;
      admitted := RunExists(o, before);
      admitted := RunGoesOn(o, before, admitted, last);
    }
  }

  lemma RunGoesOn(o: Options, calls: seq<Call>, admitted: seq<bool>, call: Call) returns (more: seq<bool>)
    requires Ran(o, calls, admitted)
    ensures Ran(o, calls + [call], more) && |more| == |calls| + 1 && more[..|calls|] == admitted
  {
    var m := Replay(o, calls);
    RanOneMore(o, calls, admitted, call, Touch(o, m, call.key, call.at), Admits(o, m, call.key, call.at));
    more := admitted + [Admits(o, m, call.key, call.at)];
  }
}
