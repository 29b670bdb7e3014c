/** What the bounded map can hold: the one stale entry swept per call keeps it to the keys checked
    inside a window, however many there have been. */
module MapSizes {
  import opened InsertionMaps
  import opened Limits
  import opened Numbers
  import opened Recency
  import opened Sets

  /** After this instant a check still matters: one window back for the log, and for the counter the
      fixed window before the current one. */
  function Horizon(o: Options, now: int): int {
    if o.kind == Log then now - o.WindowMs() else (WindowAt(o, now) - 1) * o.WindowMs() - 1
  }

  /** The keys checked after an instant. */
  ghost function Checked(calls: seq<Call>, from: int): set<Key> {
    set i: nat | i < |calls| && calls[i].at > from :: calls[i].key
  }

  /** No call is stamped before the epoch, which a budget of nothing takes for the stamp it lacks. */
  ghost predicate SinceEpoch(o: Options, calls: seq<Call>) {
    o.kind == Log && o.limit == 0 ==> forall c :: c in calls ==> c.at >= 0
  }

  ghost predicate CheckedAfter(calls: seq<Call>, key: Key, i: nat) {
    exists j: nat :: i < j < |calls| && calls[j].key == key
  }

  lemma PrefixOfPrefix(calls: seq<Call>, n: nat, m: nat)
    requires m <= n <= |calls|
    ensures calls[..n][..m] == calls[..m]
  {}

  lemma {:induction false} LastCallOf(o: Options, calls: seq<Call>, key: Key) returns (i: nat)
    requires Left(o, calls, key).Some?
    ensures i < |calls| && calls[i].key == key && Left(o, calls[..i + 1], key) == Left(o, calls, key)
    ensures forall x :: x in Since(calls, key) ==> CheckedAfter(calls, x, i)
  {
    var (before, last) := (calls[..|calls| - 1], |calls| - 1);
    if calls[last].key == key {
      i := last;
      assert calls[..i + 1] == calls;
    } else {
      i := LastCallOf(o, before, key);
      PrefixOfPrefix(calls, last, i + 1);
      forall x | x in Since(calls, key) ensures CheckedAfter(calls, x, i) { AfterOneMore(calls, key, x, i); }
    }
  }

  lemma AfterOneMore(calls: seq<Call>, key: Key, x: Key, i: nat)
    requires calls != [] && calls[|calls| - 1].key != key && x in Since(calls, key) && i < |calls| - 1
    requires x in Since(calls[..|calls| - 1], key) ==> CheckedAfter(calls[..|calls| - 1], x, i)
    ensures CheckedAfter(calls, x, i)
  {
    var before := calls[..|calls| - 1];
    if x in Since(before, key) {
      var j: nat :| i < j < |before| && before[j].key == x;
      assert calls[j].key == x;
    } else {
      assert calls[|calls| - 1].key == x;
    }
  }

  /** A call leaves a hit, of its own or the ones that refused it. */
  lemma LeavesHits(o: Options, calls: seq<Call>, key: Key)
    requires o.kind == Log && o.limit >= 1 && calls != [] && calls[|calls| - 1].key == key
    ensures Left(o, calls, key).Some? && Left(o, calls, key).value.Hits? && Left(o, calls, key).value.at != []
  {}

  /** A memory that is not stale was written after the horizon. */
  lemma WrittenLately(o: Options, m: Memory, written: int, now: int)
    requires Sound(o, m, written) && !Stale(o, m, now) && written <= now
    requires o.kind == Log ==> if o.limit == 0 then written >= 0 else m.Hits? && m.at != []
    ensures written > Horizon(o, now)
  {
    match m
    case Hits(hits) =>
      if hits != [] {
        assert hits[|hits| - 1] in hits && hits[|hits| - 1] <= written;
      }
    case Counts(window, _, _) => MultiplesAscend(WindowAt(o, now) - 1, WindowAt(o, written), o.WindowMs());
  }

  /** While the coldest entry is not stale, every key held was checked after the horizon. */
  lemma HeldAreChecked(o: Options, m: Keys, calls: seq<Call>, now: int)
    requires Agrees(o, m, calls, now) && m.order != [] && Monotone(calls) && SinceEpoch(o, calls)
    requires (forall c :: c in calls ==> c.at <= now) && !Stale(o, m.held[m.order[0]], now)
    ensures Elements(m.order) <= Checked(calls, Horizon(o, now))
  {
    var coldest := m.order[0];
    assert coldest in m.order && coldest in m.held;
    var i := LastCallOf(o, calls, coldest);
    MonotonePrefix(calls, i + 1);
    forall c | c in calls[..i + 1] ensures c.at <= calls[i].at {
      var k :| 0 <= k < i + 1 && calls[k] == c;
      assert InOrder(calls, k, i);
    }
    LeftSound(o, calls[..i + 1], coldest, calls[i].at);
    if o.kind == Log && o.limit >= 1 { LeavesHits(o, calls[..i + 1], coldest); }
    WrittenLately(o, m.held[coldest], calls[i].at, now);
    forall x | x in m.order ensures x in Checked(calls, Horizon(o, now)) {
      if x != coldest {
        assert x in After(m.order, coldest);
        assert CheckedAfter(calls, x, i);
        var j: nat :| i < j < |calls| && calls[j].key == x;
        assert InOrder(calls, i, j);
      }
    }
  }

  lemma CheckedOneMore(calls: seq<Call>, call: Call, from: int)
    requires call.at > from
    ensures Checked(calls + [call], from) == Checked(calls, from) + {call.key}
  {
    var all := calls + [call];
    assert all[|calls|] == call;
    forall x | x in Checked(calls, from) ensures x in Checked(all, from) {
      var i: nat :| i < |calls| && calls[i].at > from && calls[i].key == x;
      assert all[i] == calls[i];
    }
  }

  /** One call leaves at most one key more, and none when an entry was swept or the key was held. */
  lemma TouchedSize(o: Options, m: Keys, key: Key, now: int)
    requires m.Valid()
    ensures var r := Touch(o, m, key, now);
      && |r.order| <= |m.order| + 1
      && (m.order != [] && Stale(o, m.held[m.order[0]], now) ==> |r.order| <= |m.order|)
      && (key in m.held ==> |r.order| <= |m.order|)
  {
    var swept := Sweep(o, m, now);
    var memory := Serve(o, swept.Get(key), now).0;
    SweepValid(o, m, now);
    if m.order != [] {
      assert m.order[0] in m.order;
      m.DeleteValid(m.order[0]);
    }
    swept.MoveToEnd(key, memory);
    swept.Delete(key).Set(key, memory).NewestValid(o.maxKeys);
  }

  lemma NowIsAfterHorizon(o: Options, now: int)
    ensures now > Horizon(o, now)
  {
    if o.kind == Counter { assert now == WindowAt(o, now) * o.WindowMs() + now % o.WindowMs(); }
  }

  /** One step: the map grows only when all it holds, and the new key, were checked lately. */
  lemma SizeStep(o: Options, calls: seq<Call>, call: Call, bound: nat)
    requires Monotone(calls + [call]) && SinceEpoch(o, calls) && |Replay(o, calls).order| <= bound
    requires |Checked(calls + [call], Horizon(o, call.at))| <= bound
    ensures |Touch(o, Replay(o, calls), call.key, call.at).order| <= bound
  {
    var m := Replay(o, calls);
    TouchedSize(o, m, call.key, call.at);
    NowIsAfterHorizon(o, call.at);
    CheckedOneMore(calls, call, Horizon(o, call.at));
    if m.order == [] {
      SubsetSize({call.key}, Checked(calls + [call], Horizon(o, call.at)));
    } else if call.key !in m.held && !Stale(o, m.held[m.order[0]], call.at) {
      assert (calls + [call])[..|calls|] == calls;
      MonotonePrefix(calls + [call], |calls|);
      ReplayAgrees(o, calls, call.at);
      HeldAreChecked(o, m, calls, call.at);
      SetOfDistinct(m.order);
      OneMore(Elements(m.order), call.key);
      SubsetSize(Elements(m.order) + {call.key}, Checked(calls + [call], Horizon(o, call.at)));
    }
  }

  /** The map never holds more keys than were checked, at some call so far, after its horizon. */
  lemma {:induction false} HoldsNoMoreThanChecked(o: Options, calls: seq<Call>, bound: nat)
    requires Monotone(calls) && SinceEpoch(o, calls)
    requires forall i: nat :: i < |calls| ==> |Checked(calls[..i + 1], Horizon(o, calls[i].at))| <= bound
    ensures |Replay(o, calls).order| <= bound
  {
    if calls != [] {
      var (before, last) := (calls[..|calls| - 1], calls[|calls| - 1]);
      assert before + [last] == calls && calls[..|calls|] == calls;
      MonotonePrefix(calls, |calls| - 1);
      forall i: nat | i < |before| ensures |Checked(before[..i + 1], Horizon(o, before[i].at))| <= bound {
        PrefixOfPrefix(calls, |before|, i + 1);
      }
      HoldsNoMoreThanChecked(o, before, bound);
      SizeStep(o, before, last, bound);
      ReplayStep(o, before, last);
    }
  }
}
