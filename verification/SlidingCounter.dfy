/** `slidingWindowCounter`: a limiter that estimates a key's trailing window from what it admitted
    in this fixed window and the last. */
module SlidingCounter {
  import opened InsertionMaps
  import opened Limits
  import opened Numbers
  import opened Recency

  function CeilOf(x: real): (r: int)
    ensures (r - 1) as real < x <= r as real
  {
    -((-x).Floor)
  }

  /** How long until the estimate admits one more: within this window while its own count leaves
      room, else once the next window has outweighed it. */
  function WaitMs(o: Options, counts: Memory, now: int): real
    requires counts.Counts? && o.limit >= 1
  {
    var room := o.limit - 1 - counts.current;
    var w := o.WindowMs() as real;
    if room >= 0 && counts.previous > 0
    then (1.0 - room as real / counts.previous as real - Elapsed(o, now)) * w
    else (1.0 - Elapsed(o, now)) * w + w / o.limit as real
  }

  /** A budget of zero never admits: its wait is infinite, so it answers the cap. */
  function CounterRetryAfter(o: Options, counts: Memory, now: int): int
    requires counts.Counts?
  {
    if o.limit == 0 then Max(1, o.windowSeconds) else
      Max(1, Min(o.windowSeconds, CeilOf(WaitMs(o, counts, now) / 1000.0)))
  }

  /** The counts a call weighs: the key's, or empty ones, brought to the current window. */
  function Weighing(o: Options, held: Option<Memory>, now: int): (r: Memory)
    ensures r.Counts?
  {
    Rolled(CountsOf(o, held, now), WindowAt(o, now))
  }

  function CounterAnswer(o: Options, m: Keys, key: Key, now: int): Decision
    requires m.Valid()
  {
    var counts := Weighing(o, Sweep(o, m, now).Get(key), now);
    if Fits(o, counts, now) then Decision(true, 0) else Decision(false, CounterRetryAfter(o, counts, now))
  }

  /** What a check is answered at its place in a run. */
  function CounterAnswerAt(o: Options, calls: seq<Call>, i: nat): Decision
    requires i < |calls|
  {
    CounterAnswer(o, Replay(o, calls[..i]), calls[i].key, calls[i].at)
  }

  lemma CounterAnswerInRun(o: Options, was: Keys, calls: seq<Call>, call: Call)
    requires was.Valid() && IsReplay(o, was, calls)
    ensures CounterAnswer(o, was, call.key, call.at) == CounterAnswerAt(o, calls + [call], |calls|)
  {
    assert was == Replay(o, calls) && (calls + [call])[..|calls|] == calls;
  }

  class Tally {
    /** The number of the fixed window that `current` counts; `previous` counts the one before. */
    var window: int
    var previous: int
    var current: int

    constructor (window: int)
      ensures Value() == Counts(window, 0, 0)
    {
      this.window, previous, current := window, 0, 0;
    }

    function Value(): (r: Memory)
      reads this
      ensures r.Counts?
    {
      Counts(window, previous, current)
    }

    method Roll(window: int)
      modifies this
      ensures Value() == Rolled(old(Value()), window)
    {
      if this.window == window { return; }
      previous := if this.window == window - 1 then current else 0;
      current := 0;
      this.window := window;
    }
  }

  type Tallies = InsertionMap<Key, Tally>

  /** The values of the tallies, in the same order. */
  ghost function Values(m: Tallies): Keys
    reads m.held.Values
  {
    InsertionMap(m.order, map k | k in m.held :: m.held[k].Value())
  }

  lemma ValuesValid(m: Tallies)
    requires m.Valid()
    ensures Values(m).Valid() && Values(m).held.Keys == m.held.Keys
  {}

  lemma ValuesDelete(m: Tallies, k: Key)
    requires m.Valid()
    ensures Values(m.Delete(k)) == Values(m).Delete(k)
  {
    assert Values(m.Delete(k)).held == Values(m).Delete(k).held;
  }

  lemma ValuesSet(m: Tallies, k: Key, t: Tally)
    requires m.Valid()
    ensures Values(m.Set(k, t)) == Values(m).Set(k, t.Value())
  {
    assert Values(m.Set(k, t)).held == Values(m).Set(k, t.Value()).held;
  }

  lemma ValuesNewest(m: Tallies, n: nat)
    requires m.Valid()
    ensures Values(m.Newest(n)) == Values(m).Newest(n)
  {
    assert Values(m.Newest(n)).held == Values(m).Newest(n).held;
  }

  /** No two keys share a tally. */
  ghost predicate Unshared(m: Tallies) {
    m.Valid() && forall k, k' :: k in m.held && k' in m.held && k != k' ==> m.held[k] != m.held[k']
  }

  lemma DeleteUnshared(m: Tallies, k: Key)
    requires Unshared(m)
    ensures var r := m.Delete(k);
      Unshared(r) && k !in r.held && r.held.Values <= m.held.Values && (k in m.held ==> m.held[k] !in r.held.Values)
  {
    m.DeleteValid(k);
  }

  lemma SetUnshared(m: Tallies, k: Key, t: Tally)
    requires Unshared(m) && k !in m.held && t !in m.held.Values
    ensures Unshared(m.Set(k, t)) && m.Set(k, t).held.Values == m.held.Values + {t}
  {
    var r := m.Set(k, t);
    assert r.order == m.order + [k];
    assert k !in m.order;
    assert r.held[k] == t;
    forall x | x in m.held.Values + {t} ensures x in r.held.Values {
      if x != t { var k' :| k' in m.held && m.held[k'] == x; assert r.held[k'] == x; }
    }
  }

  lemma NewestUnshared(m: Tallies, n: nat)
    requires Unshared(m)
    ensures Unshared(m.Newest(n)) && m.Newest(n).held.Values <= m.held.Values
  {
    m.NewestValid(n);
  }

  function SweepTallies(o: Options, m: Tallies, now: int): Tallies
    requires m.Valid()
    reads m.held.Values
  {
    if m.order != [] && m.held[m.order[0]].window <= WindowAt(o, now) - 2 then m.Delete(m.order[0]) else m
  }

  lemma ValuesSweep(o: Options, m: Tallies, now: int)
    requires Unshared(m)
    ensures Unshared(SweepTallies(o, m, now)) && SweepTallies(o, m, now).held.Values <= m.held.Values
    ensures Values(m).Valid() && Values(SweepTallies(o, m, now)) == Sweep(o, Values(m), now)
  {
    ValuesValid(m);
    if m.order != [] {
      ValuesDelete(m, m.order[0]);
      m.DeleteValid(m.order[0]);
    }
  }

  /** What one call leaves of the counts it weighed: one more admission if there was room. */
  ghost predicate LeftBy(o: Options, weighed: Memory, now: int, left: Memory, allowed: bool)
    requires weighed.Counts?
  {
    allowed == Fits(o, weighed, now) && left == if allowed then weighed.(current := weighed.current + 1) else weighed
  }

  method Spend(o: Options, counts: Tally, now: int, ghost others: Tallies) returns (allowed: bool)
    requires counts !in others.held.Values
    modifies counts
    ensures LeftBy(o, old(counts.Value()), now, counts.Value(), allowed)
    ensures Values(others) == old(Values(others))
  {
    allowed := Fits(o, counts.Value(), now);
    if allowed { counts.current := counts.current + 1; }
    assert Values(others).held == old(Values(others)).held;
  }

  /** The tally set last and the coldest evicted, seen as values. */
  lemma Assemble(others: Tallies, key: Key, counts: Tally, maxKeys: nat)
    requires Unshared(others) && key !in others.held && counts !in others.held.Values
    ensures var r := others.Set(key, counts).Newest(maxKeys);
      && Unshared(r) && r.held.Values <= others.held.Values + {counts}
      && Values(r) == Values(others).Set(key, counts.Value()).Newest(maxKeys)
  {
    SetUnshared(others, key, counts);
    NewestUnshared(others.Set(key, counts), maxKeys);
    ValuesSet(others, key, counts);
    ValuesNewest(others.Set(key, counts), maxKeys);
  }

  /** One call has made `seen` of the map `was` and left the called key's counts at `left`;
      unfolded only where a proof mentions `Admits`. */
  ghost predicate Took(o: Options, was: Keys, key: Key, now: int, seen: Keys, allowed: bool, left: Memory) {
    was.Valid() && forall m: Keys {:trigger Admits(o, m, key, now)} :: m == was ==>
      && seen == Touch(o, m, key, now) && allowed == Admits(o, m, key, now)
      && LeftBy(o, Weighing(o, Sweep(o, m, now).Get(key), now), now, left, allowed)
  }

  /** Rolling, weighing and counting is what one call of the counter does to a key's memory. */
  lemma CounterServes(o: Options, m: Keys, key: Key, now: int, memory: Memory, allowed: bool)
    requires o.kind == Counter && m.Valid()
    requires LeftBy(o, Weighing(o, Sweep(o, m, now).Get(key), now), now, memory, allowed)
    ensures Took(o, m, key, now, Sweep(o, m, now).Delete(key).Set(key, memory).Newest(o.maxKeys), allowed, memory)
  {
    var swept := Sweep(o, m, now);
    var served := Serve(o, swept.Get(key), now);
    assert served == ServeCounter(o, swept.Get(key), now);
    assert served.0 == memory && served.1 == allowed;
    assert Touch(o, m, key, now) == swept.Delete(key).Set(key, served.0).Newest(o.maxKeys);
    assert Admits(o, m, key, now) == allowed;
  }

  lemma TookOneMore(o: Options, was: Keys, calls: seq<Call>, admitted: seq<bool>, key: Key, now: int, seen: Keys,
                    allowed: bool, left: Memory)
    requires IsReplay(o, was, calls) && Ran(o, calls, admitted) && Took(o, was, key, now, seen, allowed, left)
    ensures IsReplay(o, seen, calls + [Call(key, now)]) && Ran(o, calls + [Call(key, now)], admitted + [allowed])
  {
    assert allowed == Admits(o, was, key, now);
    ReplayedOneMore(o, was, calls, admitted, Call(key, now), seen, allowed);
  }

  lemma TookAnswers(o: Options, was: Keys, key: Key, now: int, seen: Keys, allowed: bool, left: Memory)
    requires Took(o, was, key, now, seen, allowed, left)
    ensures left.Counts? && CounterAnswer(o, was, key, now) ==
      if allowed then Decision(true, 0) else Decision(false, CounterRetryAfter(o, left, now))
  {
    assert allowed == Admits(o, was, key, now);
  }

  class SlidingWindowCounter {
    const options: Options
    var seen: Tallies
    /** Every check so far, and what it was answered. */
    ghost var calls: seq<Call>
    ghost var admitted: seq<bool>
    /** This limiter and every tally it may change. */
    ghost var Repr: set<object>

    ghost predicate Valid()
      reads this, Repr
      ensures Valid() ==> this in Repr
    {
      this in Repr && (forall t :: t in seen.held.Values ==> t in Repr) && Consistent()
    }

    ghost predicate Consistent()
      reads this, seen.held.Values
    {
      && options.kind == Counter && Unshared(seen)
      && IsReplay(options, Values(seen), calls) && Ran(options, calls, admitted)
    }

    constructor (options: Options)
      requires options.kind == Counter
      ensures Valid() && this.options == options && calls == [] && fresh(Repr)
    {
      this.options := options;
      seen := Empty();
      calls, admitted, Repr := [], [], {this};
    }

    method DropColdestIfStale(now: int)
      requires seen.Valid()
      modifies this`seen
      ensures seen == SweepTallies(options, old(seen), now)
    {
      if seen.order == [] { return; }
      var key := seen.order[0];
      if seen.held[key].window <= WindowAt(options, now) - 2 {
        seen := seen.Delete(key);
      }
    }

    method DropPastCeiling()
      requires seen.Valid()
      modifies this`seen
      ensures seen.Valid() && seen == old(seen).Newest(options.maxKeys)
    {
      while seen.Size() > options.maxKeys
        invariant seen.Valid() && seen.Newest(options.maxKeys) == old(seen).Newest(options.maxKeys)
        decreases seen.Size()
      {
        seen.NewestStep(options.maxKeys);
        seen := seen.Delete(seen.order[0]);
      }
    }

    /** The key's own tally, or a new one. */
    method Find(key: Key, now: int) returns (counts: Tally)
      requires seen.Valid()
      ensures counts.Value() == CountsOf(options, Values(seen).Get(key), now)
      ensures if key in seen.held then counts == seen.held[key] else fresh(counts)
    {
      if key in seen.held {
        counts := seen.held[key];
      } else {
        counts := new Tally(WindowAt(options, now));
      }
    }

    /** Takes the key's tally out of the map. */
    method Detach(key: Key, now: int) returns (counts: Tally)
      requires Unshared(seen)
      modifies this`seen
      ensures Unshared(seen) && seen == old(seen).Delete(key)
      ensures key !in seen.held && counts !in seen.held.Values && seen.held.Values <= old(seen).held.Values
      ensures Values(seen) == old(Values(seen)).Delete(key)
      ensures counts.Value() == CountsOf(options, old(Values(seen)).Get(key), now)
      ensures fresh(counts) || counts in old(seen).held.Values
    {
      counts := Find(key, now);
      DeleteUnshared(seen, key);
      ValuesDelete(seen, key);
      seen := seen.Delete(key);
    }

    /** Makes the key's tally the most recent, and brings it to this window. */
    method Recall(key: Key, now: int) returns (counts: Tally, ghost others: Tallies)
      requires Unshared(seen)
      modifies this`seen, seen.held.Values
      ensures Unshared(others) && key !in others.held && counts !in others.held.Values
      ensures others.held.Values <= old(seen).held.Values
      ensures seen == others.Set(key, counts) && Values(others) == old(Values(seen)).Delete(key)
      ensures counts.Value() == Weighing(options, old(Values(seen)).Get(key), now)
      ensures fresh(counts) || counts in old(seen).held.Values
    {
      counts := Detach(key, now);
      others := seen;
      counts.Roll(WindowAt(options, now));
      seen := seen.Set(key, counts);
    }

    /** Sweeps, makes the key's tally the most recent, and evicts. */
    method Arrange(key: Key, now: int) returns (counts: Tally, ghost others: Tallies)
      requires Unshared(seen)
      modifies this`seen, seen.held.Values
      ensures Unshared(others) && key !in others.held && counts !in others.held.Values
      ensures others.held.Values <= old(seen).held.Values
      ensures seen == others.Set(key, counts).Newest(options.maxKeys)
      ensures old(Values(seen)).Valid()
      ensures Values(others) == Sweep(options, old(Values(seen)), now).Delete(key)
      ensures counts.Value() == Weighing(options, Sweep(options, old(Values(seen)), now).Get(key), now)
      ensures fresh(counts) || counts in old(seen).held.Values
    {
      ghost var was := Values(seen);
      ValuesSweep(options, seen, now);
      DropColdestIfStale(now);
      assert Values(seen) == Sweep(options, was, now);
      counts, others := Recall(key, now);
      SetUnshared(others, key, counts);
      DropPastCeiling();
    }

    /** The key's tally most recent, spent from if its estimate leaves room, the coldest evicted. */
    method Place(key: Key, now: int) returns (counts: Tally, allowed: bool, ghost was: Keys)
      requires Unshared(seen)
      modifies this`seen, seen.held.Values
      ensures Unshared(seen) && (forall t :: t in seen.held.Values ==> fresh(t) || t in old(seen).held.Values)
      ensures was == old(Values(seen)) && was.Valid()
      ensures Values(seen) == Sweep(options, was, now).Delete(key).Set(key, counts.Value()).Newest(options.maxKeys)
      ensures LeftBy(options, Weighing(options, Sweep(options, was, now).Get(key), now), now, counts.Value(), allowed)
    {
      was := Values(seen);
      ghost var others;
      counts, others := Arrange(key, now);
      allowed := Spend(options, counts, now, others);
      Assemble(others, key, counts, options.maxKeys);
    }

    /** Everything one call does to the map, and whether it is admitted. */
    method Take(key: Key, now: int) returns (counts: Tally, allowed: bool)
      requires options.kind == Counter && Unshared(seen)
      modifies this`seen, seen.held.Values
      ensures Unshared(seen) && (forall t :: t in seen.held.Values ==> fresh(t) || t in old(seen).held.Values)
      ensures Took(options, old(Values(seen)), key, now, Values(seen), allowed, counts.Value())
    {
      ghost var was;
      counts, allowed, was := Place(key, now);
      CounterServes(options, was, key, now, counts.Value(), allowed);
    }

    method TakeAndRemember(key: Key, now: int) returns (counts: Tally, allowed: bool)
      requires Consistent()
      modifies this`seen, this`calls, this`admitted, seen.held.Values
      ensures Consistent() && (forall t :: t in seen.held.Values ==> fresh(t) || t in old(seen).held.Values)
      ensures calls == old(calls) + [Call(key, now)] && admitted == old(admitted) + [allowed]
      ensures Took(options, old(Values(seen)), key, now, Values(seen), allowed, counts.Value())
    {
      ghost var was := Values(seen);
      counts, allowed := Take(key, now);
      TookOneMore(options, was, calls, admitted, key, now, Values(seen), allowed, counts.Value());
      calls, admitted := calls + [Call(key, now)], admitted + [allowed];
    }

    method Check(key: Key, now: int) returns (d: Decision)
      requires Valid()
      modifies Repr
      ensures Valid() && fresh(Repr - old(Repr))
      ensures calls == old(calls) + [Call(key, now)] && admitted == old(admitted) + [d.allowed]
      ensures old(Values(seen)).Valid() && d == CounterAnswer(options, old(Values(seen)), key, now)
      ensures d == CounterAnswerAt(options, calls, |old(calls)|)
    {
      ghost var was := Values(seen);
      ValuesValid(seen);
      CounterAnswerInRun(options, was, calls, Call(key, now));
      var counts, allowed := TakeAndRemember(key, now);
      Repr := Repr + set t | t in seen.held.Values;
      TookAnswers(options, old(Values(seen)), key, now, Values(seen), allowed, counts.Value());
      if allowed { return Decision(true, 0); }
      return Decision(false, CounterRetryAfter(options, counts.Value(), now));
    }
  }
}
