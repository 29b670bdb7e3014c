/** What the two sliding windows have in common: their options, what each holds per key, and how
    one call reads and writes it. Times are integer milliseconds. */
module Limits {
  import opened InsertionMaps
  import opened Numbers

  type Key = string

  type Positive = n: int | n >= 1 witness 1

  datatype Kind = Log | Counter

  datatype Options = Options(kind: Kind, limit: nat, windowSeconds: Positive, maxKeys: nat) {
    function WindowMs(): Positive { windowSeconds * 1000 }
  }

  /** The seconds say how long a refused caller should stay away; an admitted one is told none. */
  datatype Decision = Decision(allowed: bool, retryAfterSeconds: int)

  /** The log holds one timestamp per admitted request, the counter three numbers. */
  datatype Memory =
    | Hits(at: seq<int>)
    | Counts(window: int, previous: int, current: int)

  // ----- the exact log -----

  /** The hits stamped after the cutoff, in order. */
  function Live(hits: seq<int>, cutoff: int): (r: seq<int>) {
    if hits == [] then [] else
      var last := hits[|hits| - 1];
      Live(hits[..|hits| - 1], cutoff) + if last > cutoff then [last] else []
  }

  function HitsOf(held: Option<Memory>): seq<int> {
    if held.Some? && held.value.Hits? then held.value.at else []
  }

  function ServeLog(o: Options, held: Option<Memory>, now: int): (Memory, bool) {
    var hits := Live(HitsOf(held), now - o.WindowMs());
    if |hits| >= o.limit then (Hits(hits), false) else (Hits(hits + [now]), true)
  }

  // ----- the counter -----

  function WindowAt(o: Options, now: int): int { now / o.WindowMs() }

  /** A key not held starts from empty counts. */
  function CountsOf(o: Options, held: Option<Memory>, now: int): Memory {
    if held.Some? && held.value.Counts? then held.value else Counts(WindowAt(o, now), 0, 0)
  }

  function Rolled(counts: Memory, window: int): Memory
    requires counts.Counts?
  {
    if counts.window == window then counts
    else Counts(window, if counts.window == window - 1 then counts.current else 0, 0)
  }

  /** The fraction of the fixed window that has passed, in exact arithmetic. */
  function Elapsed(o: Options, now: int): real {
    (now - WindowAt(o, now) * o.WindowMs()) as real / o.WindowMs() as real
  }

  function Estimate(o: Options, counts: Memory, now: int): real
    requires counts.Counts?
  {
    counts.previous as real * (1.0 - Elapsed(o, now)) + counts.current as real
  }

  predicate Fits(o: Options, counts: Memory, now: int)
    requires counts.Counts?
  {
    Estimate(o, counts, now) + 1.0 <= o.limit as real
  }

  function ServeCounter(o: Options, held: Option<Memory>, now: int): (Memory, bool) {
    var counts := Rolled(CountsOf(o, held, now), WindowAt(o, now));
    if Fits(o, counts, now) then (counts.(current := counts.current + 1), true) else (counts, false)
  }

  // ----- either -----

  /** What one call makes of a key's memory, and whether it is admitted. */
  function Serve(o: Options, held: Option<Memory>, now: int): (Memory, bool) {
    if o.kind == Log then ServeLog(o, held, now) else ServeCounter(o, held, now)
  }

  predicate Stale(o: Options, m: Memory, now: int) {
    match m
    case Hits(at) => (if at == [] then 0 else at[|at| - 1]) <= now - o.WindowMs()
    case Counts(window, _, _) => window <= WindowAt(o, now) - 2
  }

  // ----- the memories a run can leave -----

  ghost predicate Ascending(hits: seq<int>) {
    forall i, j :: 0 <= i < j < |hits| ==> hits[i] <= hits[j]
  }

  /** An invariant of every memory written at or before `now`. */
  ghost predicate Sound(o: Options, m: Memory, now: int) {
    match m
    case Hits(at) => o.kind == Log && Ascending(at) && (forall x :: x in at ==> x <= now) && |at| <= o.limit
    case Counts(window, previous, current) =>
      o.kind == Counter && window <= WindowAt(o, now) && 0 <= previous <= o.limit && 0 <= current <= o.limit
  }

  /** From `now` on, `m` answers as no memory at all would. */
  ghost predicate Spent(o: Options, m: Memory, now: int) {
    forall t :: now <= t ==> Serve(o, Some(m), t) == Serve(o, None, t)
  }

  lemma {:induction false} LiveFacts(hits: seq<int>, cutoff: int)
    ensures |Live(hits, cutoff)| <= |hits|
    ensures forall x :: x in Live(hits, cutoff) ==> x in hits && x > cutoff
    ensures (forall x :: x in hits ==> x > cutoff) ==> Live(hits, cutoff) == hits
    ensures (forall x :: x in hits ==> x <= cutoff) ==> Live(hits, cutoff) == []
    ensures Live(hits, cutoff) == hits || |Live(hits, cutoff)| < |hits|
  {
    if hits != [] {
      var (init, last) := (hits[..|hits| - 1], hits[|hits| - 1]);
      LiveFacts(init, cutoff);
      assert hits == init + [last];
      assert last in hits && forall x :: x in init ==> x in hits;
    }
  }

  lemma LiveAppend(hits: seq<int>, x: int, cutoff: int)
    ensures Live(hits + [x], cutoff) == Live(hits, cutoff) + if x > cutoff then [x] else []
  {
    assert (hits + [x])[..|hits|] == hits;
  }

  /** Filtering again by a later cutoff is filtering once by it. */
  lemma {:induction false} LiveLive(hits: seq<int>, c: int, c': int)
    requires c <= c'
    ensures Live(Live(hits, c), c') == Live(hits, c')
  {
    if hits != [] {
      var init := hits[..|hits| - 1];
      LiveLive(init, c, c');
      if hits[|hits| - 1] > c {
        LiveAppend(Live(init, c), hits[|hits| - 1], c');
      } else {
        assert Live(hits, c) == Live(init, c);
        assert Live(hits, c') == Live(init, c');
      }
    }
  }

  lemma AscendingOneMore(hits: seq<int>, last: int)
    requires Ascending(hits) && forall x :: x in hits ==> x <= last
    ensures Ascending(hits + [last])
  {
    forall i | 0 <= i < |hits| ensures hits[i] <= last { assert hits[i] in hits; }
  }

  lemma {:induction false} LiveAscending(hits: seq<int>, cutoff: int)
    requires Ascending(hits)
    ensures Ascending(Live(hits, cutoff))
  {
    if hits != [] {
      var (init, last) := (hits[..|hits| - 1], hits[|hits| - 1]);
      LiveAscending(init, cutoff);
      LiveBelow(hits, init, last, cutoff);
      AscendingOneMore(Live(init, cutoff), last);
      AddNone(Live(init, cutoff));
    }
  }

  lemma AddNone(hits: seq<int>)
    ensures hits + [] == hits
  {}

  lemma LiveBelow(hits: seq<int>, init: seq<int>, last: int, cutoff: int)
    requires Ascending(hits) && hits == init + [last]
    ensures forall x :: x in Live(init, cutoff) ==> x <= last
  {
    LiveFacts(init, cutoff);
    forall x | x in init ensures x <= last { NoneLater(hits, x); }
  }

  lemma NoneLater(hits: seq<int>, x: int)
    requires Ascending(hits) && x in hits
    ensures x <= hits[|hits| - 1]
  {
    var i :| 0 <= i < |hits| && hits[i] == x;
  }

  lemma AppendSound(o: Options, hits: seq<int>, now: int)
    requires Sound(o, Hits(hits), now) && |hits| < o.limit
    ensures Sound(o, Hits(hits + [now]), now)
  {
    forall i | 0 <= i < |hits| ensures hits[i] <= now { assert hits[i] in hits; }
  }

  lemma LiveSound(o: Options, hits: seq<int>, cutoff: int, now: int)
    requires Sound(o, Hits(hits), now)
    ensures Sound(o, Hits(Live(hits, cutoff)), now)
  {
    LiveAscending(hits, cutoff);
    LiveFacts(hits, cutoff);
  }

  lemma ServeLogSound(o: Options, held: Option<Memory>, now: int)
    requires o.kind == Log && (held.Some? ==> Sound(o, held.value, now))
    ensures Sound(o, ServeLog(o, held, now).0, now)
  {
    LiveSound(o, HitsOf(held), now - o.WindowMs(), now);
    var hits := Live(HitsOf(held), now - o.WindowMs());
    if |hits| < o.limit { AppendSound(o, hits, now); }
  }

  /** The estimate's comparison without division. */
  lemma FitsExactly(o: Options, counts: Memory, now: int)
    requires counts.Counts?
    ensures var offset := now % o.WindowMs();
      Fits(o, counts, now)
      <==> counts.previous * (o.WindowMs() - offset) + (counts.current + 1) * o.WindowMs() <= o.limit * o.WindowMs()
  {
    var w, offset := o.WindowMs(), now % o.WindowMs();
    assert now - WindowAt(o, now) * w == offset;
    var e := offset as real / w as real;
    var p, c, l := counts.previous as real, counts.current as real, o.limit as real;
    assert e * w as real == offset as real;
    assert (p * (1.0 - e) + c + 1.0) * w as real == p * (w as real - offset as real) + (c + 1.0) * w as real by {
      ScaleEstimate(p, c, e, w as real, offset as real);
    }
    ScaleCompare(p * (1.0 - e) + c + 1.0, l, w as real);
    assert (counts.previous * (w - offset) + (counts.current + 1) * w) as real
        == p * (w as real - offset as real) + (c + 1.0) * w as real;
    assert (o.limit * w) as real == l * w as real;
  }

  lemma ScaleEstimate(p: real, c: real, e: real, w: real, offset: real)
    requires e * w == offset
    ensures (p * (1.0 - e) + c + 1.0) * w == p * (w - offset) + (c + 1.0) * w
  {
    assert (p * (1.0 - e) + c + 1.0) * w == p * w - p * (e * w) + (c + 1.0) * w;
  }

  lemma ScaleCompare(a: real, b: real, w: real)
    requires w > 0.0
    ensures a <= b <==> a * w <= b * w
  {
    if a <= b {
      assert (b - a) * w >= 0.0;
    } else {
      assert (a - b) * w > 0.0;
    }
  }

  lemma ServeCounterSound(o: Options, held: Option<Memory>, now: int)
    requires o.kind == Counter && (held.Some? ==> Sound(o, held.value, now))
    ensures Sound(o, ServeCounter(o, held, now).0, now)
  {
    var counts := Rolled(CountsOf(o, held, now), WindowAt(o, now));
    if Fits(o, counts, now) { FitsLeavesRoom(o, counts, now); }
  }

  lemma FitsLeavesRoom(o: Options, counts: Memory, now: int)
    requires counts.Counts? && counts.previous >= 0 && Fits(o, counts, now)
    ensures counts.current + 1 <= o.limit
  {
    FitsExactly(o, counts, now);
    var w := o.WindowMs();
    assert counts.previous * (w - now % w) >= 0;
    assert (counts.current + 1) * w <= o.limit * w;
  }

  lemma ServeSound(o: Options, held: Option<Memory>, now: int)
    requires held.Some? ==> Sound(o, held.value, now)
    ensures Sound(o, Serve(o, held, now).0, now)
  {
    if o.kind == Log { ServeLogSound(o, held, now); } else { ServeCounterSound(o, held, now); }
  }

  lemma QuotientsAscend(a: int, b: int, w: int)
    requires a <= b && w > 0
    ensures a / w <= b / w
  {
    assert (a / w) * w <= a && b < (b / w + 1) * w;
    MultiplesAscend(b / w + 1, a / w, w);
  }

  lemma WindowsAscend(o: Options, now: int, later: int)
    requires now <= later
    ensures WindowAt(o, now) <= WindowAt(o, later)
  {
    QuotientsAscend(now, later, o.WindowMs());
  }

  lemma SoundLater(o: Options, m: Memory, now: int, later: int)
    requires Sound(o, m, now) && now <= later
    ensures Sound(o, m, later)
  {
    WindowsAscend(o, now, later);
  }

  /** Dropping a stale coldest entry never changes a later decision. */
  lemma StaleIsSpent(o: Options, m: Memory, now: int)
    requires Sound(o, m, now) && Stale(o, m, now)
    ensures Spent(o, m, now)
  {
    forall t | now <= t ensures Serve(o, Some(m), t) == Serve(o, None, t) {
      match m {
        case Hits(at) =>
          AscendingBelow(at, t - o.WindowMs());
          LiveFacts(at, t - o.WindowMs());
        case Counts(_, _, _) =>
          WindowsAscend(o, now, t);
      }
    }
  }

  lemma AscendingBelow(at: seq<int>, cutoff: int)
    requires Ascending(at) && (at != [] ==> at[|at| - 1] <= cutoff)
    ensures forall x :: x in at ==> x <= cutoff
  {
    forall x | x in at ensures x <= cutoff {
      var i :| 0 <= i < |at| && at[i] == x;
      assert i < |at| - 1 ==> at[i] <= at[|at| - 1];
    }
  }
}
