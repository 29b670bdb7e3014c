/** `slidingWindowLog`: a limiter that remembers when it admitted a key and so need not estimate. */
module SlidingLog {
  import opened InsertionMaps
  import opened Limits
  import opened Numbers
  import opened Recency

  /** Milliseconds in whole seconds, rounded up. */
  function Seconds(ms: int): (r: int)
    ensures 1000 * (r - 1) < ms <= 1000 * r
  {
    -(-ms / 1000)
  }

  /** The wait answered with a refusal, from the hits that caused it. */
  function RetryAfter(o: Options, hits: seq<int>, now: int): int {
    var oldest := if hits == [] then now else hits[0];
    Max(1, Min(o.windowSeconds, Seconds(oldest + o.WindowMs() - now)))
  }

  function Answer(o: Options, m: Keys, key: Key, now: int): Decision
    requires m.Valid()
  {
    var (memory, allowed) := ServeLog(o, Sweep(o, m, now).Get(key), now);
    if allowed then Decision(true, 0) else Decision(false, RetryAfter(o, memory.at, now))
  }

  /** What a check is answered at its place in a run. */
  function AnswerAt(o: Options, calls: seq<Call>, i: nat): Decision
    requires i < |calls|
  {
    Answer(o, Replay(o, calls[..i]), calls[i].key, calls[i].at)
  }

  lemma AnswerInRun(o: Options, was: Keys, calls: seq<Call>, call: Call)
    requires was.Valid() && IsReplay(o, was, calls)
    ensures Answer(o, was, call.key, call.at) == AnswerAt(o, calls + [call], |calls|)
  {
    assert was == Replay(o, calls) && (calls + [call])[..|calls|] == calls;
  }

  class SlidingWindowLog {
    const options: Options
    /** The keys it remembers, the longest untouched first. */
    var seen: Keys
    /** Every check so far, and what it was answered. */
    ghost var calls: seq<Call>
    ghost var admitted: seq<bool>

    ghost predicate Valid()
      reads this
    {
      options.kind == Log && seen.Valid() && IsReplay(options, seen, calls) && Ran(options, calls, admitted)
    }

    constructor (options: Options)
      requires options.kind == Log
      ensures Valid() && this.options == options && calls == []
    {
      this.options := options;
      seen := Empty();
      calls, admitted := [], [];
    }

    method DropColdestIfStale(now: int)
      requires seen.Valid()
      modifies this`seen
      ensures seen == Sweep(options, old(seen), now) && seen.Valid()
    {
      if seen.order == [] { return; }
      var key := seen.order[0];
      if Stale(options, seen.held[key], now) {
        seen.DeleteValid(key);
        seen := seen.Delete(key);
      }
    }

    /** Filters the key's hits, records this one unless it is refused, and makes the key the
        most recent. */
    method Record(key: Key, now: int) returns (hits: seq<int>, refused: bool)
      requires seen.Valid()
      modifies this`seen
      ensures (Hits(hits), !refused) == ServeLog(options, old(seen).Get(key), now)
      ensures seen == old(seen).Delete(key).Set(key, Hits(hits)) && seen.Valid()
    {
      var cutoff := now - options.WindowMs();
      hits := Live(HitsOf(seen.Get(key)), cutoff);
      seen := seen.Delete(key);
      refused := |hits| >= options.limit;
      if !refused { hits := hits + [now]; }
      seen := seen.Set(key, Hits(hits));
      old(seen).MoveToEnd(key, Hits(hits));
    }

    method DropPastCeiling()
      requires seen.Valid()
      modifies this`seen
      ensures seen.Valid() && seen == old(seen).Newest(options.maxKeys)
    {
      while seen.Size() > options.maxKeys
        invariant seen.Valid() && seen.Newest(options.maxKeys) == old(seen).Newest(options.maxKeys)
        decreases seen.Size()
      {
        seen.NewestStep(options.maxKeys);
        seen := seen.Delete(seen.order[0]);
      }
    }

    method Take(key: Key, now: int) returns (hits: seq<int>, refused: bool)
      requires options.kind == Log && seen.Valid()
      modifies this`seen
      ensures seen == Touch(options, old(seen), key, now) && seen.Valid()
      ensures (Hits(hits), !refused) == ServeLog(options, Sweep(options, old(seen), now).Get(key), now)
    {
      DropColdestIfStale(now);
      ghost var swept := seen;
      hits, refused := Record(key, now);
      DropPastCeiling();
      assert seen == swept.Delete(key).Set(key, Hits(hits)).Newest(options.maxKeys);
      assert swept == Sweep(options, old(seen), now);
    }

    /** The same, and the call goes into the history. */
    method TakeAndRemember(key: Key, now: int) returns (hits: seq<int>, refused: bool)
      requires Valid()
      modifies this
      ensures Valid()
      ensures calls == old(calls) + [Call(key, now)] && admitted == old(admitted) + [!refused]
      ensures (Hits(hits), !refused) == ServeLog(options, Sweep(options, old(seen), now).Get(key), now)
    {
      assert seen == Replay(options, calls);
      hits, refused := Take(key, now);
      RanOneMore(options, calls, admitted, Call(key, now), seen, !refused);
      calls, admitted := calls + [Call(key, now)], admitted + [!refused];
    }

    method Check(key: Key, now: int) returns (d: Decision)
      requires Valid()
      modifies this
      ensures Valid()
      ensures calls == old(calls) + [Call(key, now)] && admitted == old(admitted) + [d.allowed]
      ensures d == Answer(options, old(seen), key, now)
      ensures d == AnswerAt(options, calls, |old(calls)|)
    {
      AnswerInRun(options, seen, calls, Call(key, now));
      var hits, refused := TakeAndRemember(key, now);
      if !refused { return Decision(true, 0); }
      var oldest := if hits == [] then now else hits[0];
      var waitMs := oldest + options.WindowMs() - now;
      var seconds := Min(options.windowSeconds, Seconds(waitMs));
      return Decision(false, Max(1, seconds));
    }
  }
}
