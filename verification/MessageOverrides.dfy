/** `createMessageOverrides`: reads shared while they run, answers cached per tenant and locale,
    failed reads not repeated at once, and everything older than a tenant's last invalidation
    left unused. Each method is one atomic step of the event loop, so any sequence of calls is
    an interleaving. */
module MessageOverrides {
  import opened InsertionMaps
  import opened Strings
  import opened BrandingCache
  import opened Locales

  type Overrides = map<string, string>

  const MAX_ENTRIES := 5000
  const TTL_MS := 30_000
  const MAX_BYTES := 8 * 1024 * 1024
  const MAX_TENANTS := 20_000
  const MAX_OVERRIDE_READS_IN_FLIGHT := 256
  const OVERRIDE_BACKOFF_MS := 1000
  const MAX_BACKOFFS := 1024

  // ----- keys -----

  function KeyOf(tenant: string, locale: string): string { tenant + [':'] + locale }

  function FlightOf(key: string, generation: nat): string { key + ['#'] + Decimal(generation) }

  /** A key names one tenant and one locale, whatever characters a tenant's name holds. */
  lemma KeysAreDistinct(t1: string, l1: string, t2: string, l2: string)
    requires Plain(l1) && Plain(l2) && KeyOf(t1, l1) == KeyOf(t2, l2)
    ensures t1 == t2 && l1 == l2
  {
    LastSeparator(t1, l1, t2, l2, ':');
  }

  lemma FlightsAreDistinct(k1: string, g1: nat, k2: string, g2: nat)
    requires FlightOf(k1, g1) == FlightOf(k2, g2)
    ensures k1 == k2 && g1 == g2
  {
    LastSeparator(k1, Decimal(g1), k2, Decimal(g2), '#');
    ValueOfDecimal(g1);
    ValueOfDecimal(g2);
  }

  // ----- reads -----

  datatype Outcome = Found(overrides: Overrides) | Failure

  /** How far a read has come: still waiting, done at a time but not yet settled, or settled. */
  datatype Phase = Running | Done(outcome: Outcome, at: int) | Settled(outcome: Outcome, at: int)

  datatype Read = Read(tenant: string, locale: string, generation: nat, phase: Phase) {
    function Key(): string { KeyOf(tenant, locale) }

    function Flight(): string { FlightOf(Key(), generation) }
  }

  function AnswerOf(o: Outcome): Overrides { if o.Found? then o.overrides else map[] }

  datatype Backoff = Backoff(until: int, generation: nat)

  /** What a call gets: an answer at once, or the promise of a read. */
  datatype Answer = Now(overrides: Overrides) | Later(read: nat)

  // ----- what every step keeps -----

  /** Everything the reader remembers, with what the argument needs beside it. */
  datatype Books = Books(
    fills: seq<Read>,
    inflight: map<string, nat>,
    failedUntil: map<string, Backoff>,
    held: map<string, Entry<Overrides>>,
    generations: Generations,
    floor: nat,
    invalidated: seq<string>,   // the tenants invalidated so far, in order
    begun: seq<nat>,            // for each read, how many invalidations there had been
    crowded: seq<bool>,         // for each read, whether the in-flight map was full
    source: map<string, nat>,   // the reads the cache's entries came from
    failed: seq<nat>,           // the reads that failed, in the order of failing
    emptied: nat,               // how many had failed when a failure last emptied the back-offs
    failure: map<string, nat>   // the places in `failed` the back-offs came from
  ) {
    /** The tenant has not been invalidated since the read began. */
    ghost predicate Fresh(t: nat)
      requires t < |fills| == |begun|
    {
      forall i :: begun[t] <= i < |invalidated| ==> invalidated[i] != fills[t].tenant
    }

    function Generation(tenant: string): nat { GenerationOf(generations, floor, tenant) }

    ghost predicate Aligned() {
      && |fills| == |begun| == |crowded|
      && forall t {:trigger Plain(fills[t].locale)} :: 0 <= t < |fills| ==> Plain(fills[t].locale)
    }

    /** A read that holds its tenant's current generation began after the last invalidation. */
    ghost predicate DatedAt(t: nat)
      requires Aligned() && t < |fills|
    {
      && begun[t] <= |invalidated|
      && fills[t].generation <= Generation(fills[t].tenant)
      && (fills[t].generation == Generation(fills[t].tenant) ==> Fresh(t))
    }

    ghost predicate Dated()
      requires Aligned()
    {
      forall t {:trigger DatedAt(t)} :: 0 <= t < |fills| ==> DatedAt(t)
    }

    /** What the cache holds under a key was found by the fresh read `source` names. */
    ghost predicate SourcedAt(k: string)
      requires Aligned() && k in held
    {
      && k in source && source[k] < |fills|
      && fills[source[k]].Key() == k && fills[source[k]].tenant == held[k].tenant
      && !fills[source[k]].phase.Running? && fills[source[k]].phase.outcome == Found(held[k].value)
      && held[k].expiresAt == fills[source[k]].phase.at + TTL_MS
      && Fresh(source[k])
    }

    ghost predicate Sourced()
      requires Aligned()
    {
      forall k {:trigger SourcedAt(k)} :: k in held ==> SourcedAt(k)
    }

    /** No read of the key has failed after the `n`-th failure. */
    ghost predicate Latest(k: string, n: nat) {
      forall m {:trigger failed[m]} :: n < m < |failed| && failed[m] < |fills| ==> fills[failed[m]].Key() != k
    }

    /** A back-off was left by the key's latest failure, and not before the map was last emptied. */
    ghost predicate BlamedAt(k: string)
      requires k in failedUntil
    {
      && k in failure && emptied <= failure[k] < |failed| && Latest(k, failure[k])
      && var t := failed[failure[k]];
        && t < |fills| && fills[t].Key() == k && fills[t].generation == failedUntil[k].generation
        && !fills[t].phase.Running? && fills[t].phase.outcome == Failure
        && failedUntil[k].until == fills[t].phase.at + OVERRIDE_BACKOFF_MS
    }

    /** A read that failed has left a back-off of its key in the map, unless the map was emptied since. */
    ghost predicate FailedAt(n: nat)
      requires n < |failed|
    {
      && failed[n] < |fills|
      && !fills[failed[n]].phase.Running? && fills[failed[n]].phase.outcome == Failure
      && (emptied <= n ==> fills[failed[n]].Key() in failedUntil)
    }

    ghost predicate Blamed() {
      && emptied <= |failed|
      && (forall k {:trigger BlamedAt(k)} :: k in failedUntil ==> BlamedAt(k))
      && forall n {:trigger FailedAt(n)} :: 0 <= n < |failed| ==> FailedAt(n)
    }

    /** A registration is an unsettled read's own. */
    ghost predicate FlyingAt(f: string)
      requires f in inflight
    {
      inflight[f] < |fills| && fills[inflight[f]].Flight() == f && !fills[inflight[f]].phase.Settled?
    }

    ghost predicate Flying() {
      forall f {:trigger FlyingAt(f)} :: f in inflight ==> FlyingAt(f)
    }

    /** An unsettled read is registered unless the map was full when it began. */
    ghost predicate RegisteredAt(t: nat)
      requires Aligned() && t < |fills|
    {
      !fills[t].phase.Settled? && !crowded[t] ==> fills[t].Flight() in inflight && inflight[fills[t].Flight()] == t
    }

    ghost predicate Registered()
      requires Aligned()
    {
      forall t {:trigger RegisteredAt(t)} :: 0 <= t < |fills| ==> RegisteredAt(t)
    }

    /** Of two reads of one flight that run together, the earlier began while the map was full. */
    ghost predicate Coalesced()
      requires Aligned()
    {
      forall t, u {:trigger Together(fills[t], fills[u])} ::
        0 <= t < u < |fills| && Together(fills[t], fills[u]) ==> crowded[t]
    }

    ghost predicate Sound() {
      Aligned() && Dated() && Sourced() && Blamed() && Flying() && Registered() && Coalesced()
    }

    /** `Sound`, unfolded only where a proof mentions it. */
    ghost predicate Kept() {
      |fills| == |begun| == |crowded| && forall b: Books {:trigger b.Sound()} :: b == this ==> b.Sound()
    }
  }

  /** Two reads of one tenant, locale and generation, both unsettled. */
  ghost predicate Together(a: Read, b: Read) {
    !a.phase.Settled? && !b.phase.Settled? && a.Flight() == b.Flight()
  }

  /** Two reads of one tenant, locale and generation run together only if the earlier began
      while the in-flight map was full. */
  lemma OverlapNeedsCrowding(b: Books, t: nat, u: nat)
    requires b.Kept() && t < u < |b.fills| && Together(b.fills[t], b.fills[u])
    ensures b.crowded[t]
  {
    assert b.Sound();
  }

  /** A registered read of the tenant's current generation began after its last invalidation. */
  lemma CurrentFlightIsFresh(b: Books, f: string)
    requires b.Kept() && f in b.inflight
    ensures b.inflight[f] < |b.fills|
    ensures b.fills[b.inflight[f]].generation == b.Generation(b.fills[b.inflight[f]].tenant) ==> b.Fresh(b.inflight[f])
  {
    assert b.Sound() && b.FlyingAt(f) && b.DatedAt(b.inflight[f]);
  }

  // ----- a read coming further -----

  /** The reads are as before except that one of them has come further. */
  ghost predicate Advanced(before: seq<Read>, after: seq<Read>, t: nat) {
    && t < |before| == |after|
    && after[t].tenant == before[t].tenant && after[t].locale == before[t].locale
    && after[t].generation == before[t].generation
    && !after[t].phase.Running?
    && (!before[t].phase.Running? ==>
         after[t].phase.outcome == before[t].phase.outcome && after[t].phase.at == before[t].phase.at)
    && (before[t].phase.Settled? ==> after[t].phase.Settled?)
    && forall i :: 0 <= i < |before| && i != t ==> after[i] == before[i]
  }

  lemma AdvancedRead(b: Books, after: seq<Read>, t: nat, i: nat)
    requires b.Aligned() && Advanced(b.fills, after, t) && i < |after|
    ensures after[i].Flight() == b.fills[i].Flight() && after[i].Key() == b.fills[i].Key()
    ensures after[i].tenant == b.fills[i].tenant && after[i].generation == b.fills[i].generation
    ensures b.fills[i].phase.Settled? ==> after[i].phase.Settled?
    ensures !b.fills[i].phase.Running? ==>
      !after[i].phase.Running? && after[i].phase.outcome == b.fills[i].phase.outcome && after[i].phase.at == b.fills[i].phase.at
    ensures b.(fills := after).Fresh(i) == b.Fresh(i)
  {}

  lemma AdvanceKeepsDates(b: Books, after: seq<Read>, t: nat)
    requires b.Aligned() && b.Dated() && Advanced(b.fills, after, t)
    ensures b.(fills := after).Aligned() && b.(fills := after).Dated()
  {
    var c := b.(fills := after);
    forall i | 0 <= i < |after| ensures Plain(after[i].locale) { assert Plain(b.fills[i].locale); }
    forall i | 0 <= i < |after| ensures c.DatedAt(i) {
      AdvancedRead(b, after, t, i);
      assert b.DatedAt(i);
    }
  }

  lemma AdvanceKeepsSources(b: Books, after: seq<Read>, t: nat)
    requires b.Aligned() && b.Sourced() && Advanced(b.fills, after, t) && b.(fills := after).Aligned()
    ensures b.(fills := after).Sourced()
  {
    var c := b.(fills := after);
    forall k | k in b.held ensures c.SourcedAt(k) {
      assert b.SourcedAt(k);
      AdvancedRead(b, after, t, b.source[k]);
    }
  }

  lemma AdvanceKeepsBlame(b: Books, after: seq<Read>, t: nat)
    requires b.Aligned() && b.Blamed() && Advanced(b.fills, after, t)
    ensures b.(fills := after).Blamed()
  {
    var c := b.(fills := after);
    forall n | 0 <= n < |b.failed| ensures c.FailedAt(n) {
      assert b.FailedAt(n);
      AdvancedRead(b, after, t, b.failed[n]);
    }
    forall k | k in b.failedUntil ensures c.BlamedAt(k) {
      assert b.BlamedAt(k);
      AdvancedRead(b, after, t, b.failed[b.failure[k]]);
      forall m | b.failure[k] < m < |c.failed| && c.failed[m] < |c.fills| ensures c.fills[c.failed[m]].Key() != k {
        AdvancedRead(b, after, t, b.failed[m]);
      }
    }
  }

  lemma AdvanceKeepsCoalesced(b: Books, after: seq<Read>, t: nat)
    requires b.Aligned() && b.Coalesced() && Advanced(b.fills, after, t) && b.(fills := after).Aligned()
    ensures b.(fills := after).Coalesced()
  {
    forall i, u | 0 <= i < u < |after| && Together(after[i], after[u]) ensures b.crowded[i] {
      AdvancedRead(b, after, t, i);
      AdvancedRead(b, after, t, u);
      assert Together(b.fills[i], b.fills[u]);
    }
  }

  /** The registrations once read `t` has settled: its own is gone, if it had one. */
  function Unregistered(inflight: map<string, nat>, flight: string, t: nat): (r: map<string, nat>)
    ensures forall f :: f in r <==> f in inflight && !(f == flight && inflight[f] == t)
    ensures forall f :: f in r ==> r[f] == inflight[f]
    ensures Size(r) <= Size(inflight)
  {
    if flight in inflight && inflight[flight] == t then
      DropSize(inflight, flight);
      inflight - {flight}
    else inflight
  }

  function Size<T>(m: map<string, T>): nat { |m| }

  /** The map holds at most `n` keys. */
  ghost predicate AtMost<T(!new)>(m: map<string, T>, n: nat) {
    forall x: map<string, T> {:trigger Size(x)} :: x == m ==> Size(x) <= n
  }

  lemma DropSize(m: map<string, nat>, k: string)
    requires k in m
    ensures |m - {k}| == |m| - 1
  {
    assert m.Keys == (m - {k}).Keys + {k};
    assert |m.Keys| == |m| && |(m - {k}).Keys| == |m - {k}|;
  }

  lemma AddSize<T>(m: map<string, T>, k: string, v: T)
    ensures |m[k := v]| <= |m| + 1
  {
    assert m[k := v].Keys == m.Keys + {k};
    assert |m.Keys| == |m| && |m[k := v].Keys| == |m[k := v]|;
  }

  lemma AdvanceKeepsRegistrations(b: Books, after: seq<Read>, t: nat, left: map<string, nat>)
    requires b.Aligned() && b.Flying() && b.Registered() && Advanced(b.fills, after, t) && b.(fills := after).Aligned()
    requires left == if after[t].phase.Settled? then Unregistered(b.inflight, b.fills[t].Flight(), t) else b.inflight
    ensures b.(fills := after, inflight := left).Flying() && b.(fills := after, inflight := left).Registered()
  {
    var c := b.(fills := after, inflight := left);
    forall i | 0 <= i < |after| ensures c.RegisteredAt(i) {
      AdvancedRead(b, after, t, i);
      assert b.RegisteredAt(i);
    }
    forall f | f in left ensures c.FlyingAt(f) {
      assert b.FlyingAt(f);
      AdvancedRead(b, after, t, left[f]);
    }
  }

  lemma AdvanceKeeps(b: Books, after: seq<Read>, t: nat, left: map<string, nat>)
    requires b.Kept() && Advanced(b.fills, after, t)
    requires left == if after[t].phase.Settled? then Unregistered(b.inflight, b.fills[t].Flight(), t) else b.inflight
    ensures b.(fills := after, inflight := left).Kept()
  {
    assert b.Sound();
    var c := b.(fills := after);
    AdvanceKeepsDates(b, after, t);
    AdvanceKeepsSources(b, after, t);
    AdvanceKeepsBlame(b, after, t);
    AdvanceKeepsCoalesced(b, after, t);
    AdvanceKeepsRegistrations(b, after, t, left);
    FreshAside(c, c.(inflight := left));
  }

  predicate SameFailures(b: Books, c: Books) {
    b.failed == c.failed && b.emptied == c.emptied && b.failure == c.failure
  }

  /** What the failures left depends on nothing but the reads that failed. */
  lemma BlameAside(b: Books, c: Books)
    requires b.Blamed() && b.failedUntil == c.failedUntil && SameFailures(b, c) && b.fills <= c.fills
    ensures c.Blamed()
  {
    forall n | 0 <= n < |c.failed| ensures c.FailedAt(n) { assert b.FailedAt(n); }
    forall k | k in c.failedUntil ensures c.BlamedAt(k) {
      assert b.BlamedAt(k);
      forall m | c.failure[k] < m < |c.failed| && c.failed[m] < |c.fills| ensures c.fills[c.failed[m]].Key() != k {
        assert b.FailedAt(m);
      }
    }
  }

  /** Whether a read is fresh depends on the reads and the invalidations alone. */
  lemma FreshAside(b: Books, c: Books)
    requires b.Aligned() && b.fills == c.fills && b.begun == c.begun && b.crowded == c.crowded
    requires b.invalidated == c.invalidated && b.generations == c.generations && b.floor == c.floor
    ensures c.Aligned() && forall t :: 0 <= t < |b.fills| ==> b.Fresh(t) == c.Fresh(t)
    ensures b.Dated() ==> c.Dated()
    ensures b.Sourced() && b.held == c.held && b.source == c.source ==> c.Sourced()
    ensures b.Blamed() && b.failedUntil == c.failedUntil && SameFailures(b, c) ==> c.Blamed()
    ensures b.Flying() && b.inflight == c.inflight ==> c.Flying()
    ensures b.Registered() && b.inflight == c.inflight ==> c.Registered()
    ensures b.Coalesced() ==> c.Coalesced()
  {
    if b.Dated() {
      forall t | 0 <= t < |c.fills| ensures c.DatedAt(t) { assert b.DatedAt(t); }
    }
    if b.Sourced() && b.held == c.held && b.source == c.source {
      forall k | k in c.held ensures c.SourcedAt(k) { assert b.SourcedAt(k); }
    }
    if b.Blamed() && b.failedUntil == c.failedUntil && SameFailures(b, c) { BlameAside(b, c); }
    if b.Flying() && b.inflight == c.inflight {
      forall f | f in c.inflight ensures c.FlyingAt(f) { assert b.FlyingAt(f); }
    }
    if b.Registered() && b.inflight == c.inflight {
      forall t | 0 <= t < |c.fills| ensures c.RegisteredAt(t) { assert b.RegisteredAt(t); }
    }
  }

  // ----- the cache forgetting -----

  /** The cache may drop entries at any step. */
  lemma ForgettingKeeps(b: Books, left: map<string, Entry<Overrides>>)
    requires b.Kept() && forall k :: k in left ==> k in b.held && left[k] == b.held[k]
    ensures b.(held := left).Kept()
  {
    assert b.Sound();
    var c := b.(held := left);
    FreshAside(b, c);
    forall k | k in left ensures c.SourcedAt(k) { assert b.SourcedAt(k); }
  }

  // ----- a read beginning -----

  function Begun(b: Books, r: Read): Books {
    var full := |b.inflight| >= MAX_OVERRIDE_READS_IN_FLIGHT;
    b.(fills := b.fills + [r], begun := b.begun + [|b.invalidated|], crowded := b.crowded + [full],
       inflight := if full then b.inflight else b.inflight[r.Flight() := |b.fills|])
  }

  lemma BeginKeepsDates(b: Books, r: Read)
    requires b.Aligned() && b.Dated() && r.generation == b.Generation(r.tenant) && Plain(r.locale)
    ensures Begun(b, r).Aligned() && Begun(b, r).Dated()
    ensures forall t :: 0 <= t < |b.fills| ==> Begun(b, r).Fresh(t) == b.Fresh(t)
  {
    var c := Begun(b, r);
    forall t | 0 <= t < |c.fills| ensures Plain(c.fills[t].locale) {
      if t < |b.fills| { assert Plain(b.fills[t].locale); }
    }
    forall t | 0 <= t < |b.fills| ensures c.Fresh(t) == b.Fresh(t) {}
    forall t | 0 <= t < |c.fills| ensures c.DatedAt(t) {
      if t < |b.fills| { assert b.DatedAt(t) && b.Fresh(t) == c.Fresh(t); }
    }
  }

  lemma BeginKeepsSources(b: Books, r: Read)
    requires b.Aligned() && b.Sourced() && b.Blamed() && Begun(b, r).Aligned()
    requires forall t :: 0 <= t < |b.fills| ==> Begun(b, r).Fresh(t) == b.Fresh(t)
    ensures Begun(b, r).Sourced() && Begun(b, r).Blamed()
  {
    var c := Begun(b, r);
    forall k | k in b.held ensures c.SourcedAt(k) {
      assert b.SourcedAt(k);
      assert b.Fresh(b.source[k]) == c.Fresh(b.source[k]);
    }
    BlameAside(b, c);
  }

  lemma BeginKeepsRegistrations(b: Books, r: Read)
    requires b.Aligned() && b.Flying() && b.Registered() && Begun(b, r).Aligned()
    requires r.phase.Running? && r.Flight() !in b.inflight
    ensures Begun(b, r).Flying() && Begun(b, r).Registered()
  {
    var c := Begun(b, r);
    forall t | 0 <= t < |c.fills| ensures c.RegisteredAt(t) {
      if t < |b.fills| { assert b.RegisteredAt(t); }
    }
    forall f | f in c.inflight ensures c.FlyingAt(f) {
      if f != r.Flight() { assert b.FlyingAt(f); }
    }
  }

  /** A read of a flight that nobody has registered can only join crowded ones. */
  lemma BeginKeepsCoalesced(b: Books, r: Read)
    requires b.Aligned() && b.Registered() && b.Coalesced() && Begun(b, r).Aligned()
    requires r.phase.Running? && r.Flight() !in b.inflight
    ensures Begun(b, r).Coalesced()
  {
    var c := Begun(b, r);
    forall t, u | 0 <= t < u < |c.fills| && Together(c.fills[t], c.fills[u]) ensures c.crowded[t] {
      if u < |b.fills| { assert Together(b.fills[t], b.fills[u]); } else { assert b.RegisteredAt(t); }
    }
  }

  lemma BeginKeeps(b: Books, r: Read)
    requires b.Kept() && r.phase.Running? && r.generation == b.Generation(r.tenant) && Plain(r.locale)
    requires r.Flight() !in b.inflight
    ensures Begun(b, r).Kept() && Begun(b, r).Fresh(|b.fills|)
  {
    assert b.Sound();
    BeginKeepsDates(b, r);
    BeginKeepsSources(b, r);
    BeginKeepsRegistrations(b, r);
    BeginKeepsCoalesced(b, r);
  }

  // ----- an invalidation -----

  /** Every read of the tenant that began earlier now holds an outdated generation. */
  lemma InvalidationKeeps(b: Books, c: Books, tenant: string)
    requires b.Kept() && c == b.(generations := c.generations, floor := c.floor, held := c.held,
                                 invalidated := b.invalidated + [tenant])
    requires c.Generation(tenant) > b.Generation(tenant)
    requires forall t :: c.Generation(t) >= b.Generation(t)
    requires forall k :: k in c.held ==> k in b.held && c.held[k] == b.held[k] && c.held[k].tenant != tenant
    ensures c.Kept()
  {
    assert b.Sound();
    assert c.Aligned();
    forall t | 0 <= t < |c.fills| ensures c.DatedAt(t) {
      assert c.Generation(b.fills[t].tenant) >= b.Generation(b.fills[t].tenant);
      assert b.DatedAt(t);
    }
    forall k | k in c.held ensures c.SourcedAt(k) {
      assert b.SourcedAt(k);
    }
    BlameAside(b, c);
    forall f | f in c.inflight ensures c.FlyingAt(f) { assert b.FlyingAt(f); }
    forall t | 0 <= t < |c.fills| ensures c.RegisteredAt(t) { assert b.RegisteredAt(t); }
  }

  // ----- a read done -----

  /** What is stored was found by a read no invalidation has overtaken. */
  lemma StoreKeeps(b: Books, t: nat, bytes: nat, left: map<string, Entry<Overrides>>)
    requires b.Kept() && t < |b.fills| && b.fills[t].phase.Done? && b.fills[t].phase.outcome.Found?
    requires b.fills[t].generation == b.Generation(b.fills[t].tenant)
    requires var r := b.fills[t];
      StoredIn(b.held, left, r.Key(), Entry(r.tenant, r.phase.outcome.overrides, bytes, r.phase.at + TTL_MS))
    ensures b.(held := left, source := b.source[b.fills[t].Key() := t]).Kept()
  {
    assert b.Sound();
    var key := b.fills[t].Key();
    var c := b.(held := left, source := b.source[key := t]);
    FreshAside(b, c);
    assert b.DatedAt(t);
    forall k | k in left ensures c.SourcedAt(k) {
      if k != key { assert b.SourcedAt(k); }
    }
  }

  /** Handing a read's map to the cache, which stores it or not. */
  lemma HandOverKeeps(b: Books, t: nat, bytes: nat, es: Entries<Overrides>, after: Entries<Overrides>)
    requires b.Kept() && t < |b.fills| && b.fills[t].phase.Done? && b.fills[t].phase.outcome.Found? && es.held == b.held
    requires Offered(es, b.fills[t].Key(), EntryFor(b.fills[t], bytes),
                     b.fills[t].generation == b.Generation(b.fills[t].tenant), after, MAX_ENTRIES, MAX_BYTES)
    ensures b.(held := after.held, source := Attributed(b, t, bytes)).Kept()
  {
    var r := b.fills[t];
    assert es.Valid();
    if r.generation == b.Generation(r.tenant) && bytes <= MAX_BYTES {
      StoredAmong(es, r.Key(), EntryFor(r, bytes), MAX_ENTRIES, MAX_BYTES);
      StoreKeeps(b, t, bytes, after.held);
    }
  }

  /** What a read that has found something hands to the cache. */
  function EntryFor(r: Read, bytes: nat): Entry<Overrides>
    requires !r.phase.Running? && r.phase.outcome.Found?
  {
    Entry(r.tenant, r.phase.outcome.overrides, bytes, r.phase.at + TTL_MS)
  }

  ghost function Attributed(b: Books, t: nat, bytes: nat): map<string, nat>
    requires t < |b.fills|
  {
    var r := b.fills[t];
    if r.generation == b.Generation(r.tenant) && bytes <= MAX_BYTES then b.source[r.Key() := t] else b.source
  }

  /** What is remembered once read `t` has failed, which empties a full map first. */
  function AfterFailure(b: Books, t: nat, full: bool): Books
    requires t < |b.fills| && !b.fills[t].phase.Running?
  {
    var r := b.fills[t];
    b.(failedUntil := (if full then map[] else b.failedUntil)[r.Key() := Backoff(r.phase.at + OVERRIDE_BACKOFF_MS, r.generation)],
       failed := b.failed + [t], emptied := if full then |b.failed| else b.emptied,
       failure := b.failure[r.Key() := |b.failed|])
  }

  /** A failure is blamed on the read that failed. */
  lemma BackoffKeeps(b: Books, t: nat, full: bool)
    requires b.Kept() && t < |b.fills| && b.fills[t].phase.Done? && b.fills[t].phase.outcome == Failure
    ensures AfterFailure(b, t, full).Kept()
  {
    assert b.Sound();
    var c := AfterFailure(b, t, full);
    FreshAside(b, c);
    forall n | 0 <= n < |c.failed| ensures c.FailedAt(n) {
      if n < |b.failed| { assert b.FailedAt(n); }
    }
    forall k | k in c.failedUntil ensures c.BlamedAt(k) {
      if k != b.fills[t].Key() { assert b.BlamedAt(k); }
    }
  }

  /** The `n`-th failure's back-off is still what the map holds for its key, exactly when the map was
      not emptied since and no other read of the key has failed. */
  lemma HeldBackoffIff(b: Books, n: nat)
    requires b.Kept() && n < |b.failed|
    ensures b.failed[n] < |b.fills| && !b.fills[b.failed[n]].phase.Running? && b.fills[b.failed[n]].phase.outcome == Failure
    ensures var r := b.fills[b.failed[n]];
      && ((r.Key() in b.failedUntil && r.Key() in b.failure && b.failure[r.Key()] == n)
          <==> (b.emptied <= n && b.Latest(r.Key(), n)))
      && (b.emptied <= n && b.Latest(r.Key(), n) ==>
            b.failedUntil[r.Key()] == Backoff(r.phase.at + OVERRIDE_BACKOFF_MS, r.generation))
  {
    assert b.Sound() && b.FailedAt(n);
    var k := b.fills[b.failed[n]].Key();
    if k in b.failedUntil {
      assert b.BlamedAt(k);
      assert b.FailedAt(b.failure[k]);
    }
  }

  class MessageOverrides {
    const cache: BrandingCache<Overrides>
    var fills: seq<Read>
    var inflight: map<string, nat>
    var failedUntil: map<string, Backoff>
    ghost var invalidated: seq<string>
    ghost var begun: seq<nat>
    ghost var crowded: seq<bool>
    ghost var source: map<string, nat>
    ghost var failed: seq<nat>
    ghost var emptied: nat
    ghost var failure: map<string, nat>

    ghost function State(): Books
      reads this, cache
    {
      Books(fills, inflight, failedUntil, cache.entries.held, cache.generations, cache.floor,
            invalidated, begun, crowded, source, failed, emptied, failure)
    }

    ghost predicate Bounded()
      reads this, cache
    {
      && cache.Valid()
      && cache.maxEntries == MAX_ENTRIES && cache.ttlMs == TTL_MS && cache.maxBytes == MAX_BYTES
      && cache.maxTenants == MAX_TENANTS
      && |fills| == |begun| && AtMost(inflight, MAX_OVERRIDE_READS_IN_FLIGHT) && AtMost(failedUntil, MAX_BACKOFFS)
    }

    ghost predicate Valid()
      reads this, cache
    {
      Bounded() && State().Kept()
    }

    constructor ()
      ensures Valid() && fresh(cache) && fills == [] && invalidated == [] && failed == []
      ensures cache.entries == Empty() && inflight == map[] && failedUntil == map[]
    {
      cache := new BrandingCache<Overrides>(MAX_ENTRIES, TTL_MS, MAX_BYTES, MAX_TENANTS);
      fills, inflight, failedUntil := [], map[], map[];
      invalidated, begun, crowded, source := [], [], [], map[];
      failed, emptied, failure := [], 0, map[];
    }

    /** The cache's entries once a key has been asked for: a live entry the most recent, any other gone. */
    function Used(k: string, now: int): Entries<Overrides>
      reads cache
    {
      var es := cache.entries;
      if Live(k, now) then es.Delete(k).Set(k, es.held[k]) else es.Delete(k)
    }

    predicate Live(k: string, now: int)
      reads cache
    {
      k in cache.entries.held && now < cache.entries.held[k].expiresAt
    }

    /** A back-off of the tenant's current generation that has not run out. */
    predicate BackingOff(k: string, tenant: string, now: int)
      reads this, cache
    {
      k in failedUntil && now < failedUntil[k].until && failedUntil[k].generation == cache.Generation(tenant)
    }

    method InvalidateTenant(tenant: string)
      requires Valid()
      modifies this`invalidated, cache
      ensures Valid() && invalidated == old(invalidated) + [tenant]
      ensures cache.Generation(tenant) > old(cache.Generation(tenant))
      ensures Invalidated(old(cache.generations), old(cache.floor), tenant, MAX_TENANTS,
                          cache.generations, cache.floor)
      ensures forall k :: k in cache.entries.held ==>
        && k in old(cache.entries).held && cache.entries.held[k] == old(cache.entries).held[k]
        && cache.entries.held[k].tenant != tenant
      ensures forall k :: k in old(cache.entries).held && old(cache.entries).held[k].tenant != tenant ==>
        k in cache.entries.held
    {
      ghost var before := State();
      cache.InvalidateTenant(tenant);
      invalidated := invalidated + [tenant];
      forall t ensures State().Generation(t) >= before.Generation(t) {
        assert State().Generation(t) == cache.Generation(t);
      }
      InvalidationKeeps(before, State(), tenant);
    }

    /** A new read, shared from now on unless the map is full. */
    method Begin(tenant: string, locale: string) returns (t: nat)
      requires Valid() && Plain(locale)
      requires FlightOf(KeyOf(tenant, locale), cache.Generation(tenant)) !in inflight
      modifies this`fills, this`inflight, this`begun, this`crowded
      ensures Valid() && t == |old(fills)|
      ensures State() == Begun(old(State()), Read(tenant, locale, cache.Generation(tenant), Running))
      ensures State().Fresh(t)
    {
      t := |fills|;
      var r := Read(tenant, locale, cache.Generation(tenant), Running);
      BeginKeeps(State(), r);
      ghost var full := |inflight| >= MAX_OVERRIDE_READS_IN_FLIGHT;
      fills, begun, crowded := fills + [r], begun + [|invalidated|], crowded + [full];
      AddSize(inflight, r.Flight(), t);
      if |inflight| < MAX_OVERRIDE_READS_IN_FLIGHT { inflight := inflight[r.Flight() := t]; }
    }

    /** The read has answered: its map is stored, unless an invalidation has overtaken it. */
    method ReadDone(t: nat, found: Overrides, bytes: nat, now: int)
      requires Valid() && t < |fills| && fills[t].phase.Running?
      modifies this`fills, this`source, cache`entries, cache`weight, cache`storedAt
      ensures Valid() && fills == old(fills)[t := old(fills)[t].(phase := Done(Found(found), now))]
      ensures Offered(old(cache.entries), fills[t].Key(), EntryFor(fills[t], bytes),
                      fills[t].generation == cache.Generation(fills[t].tenant), cache.entries, MAX_ENTRIES, MAX_BYTES)
    {
      Finish(t, Found(found), now);
      Store(t, bytes);
    }

    /** The read has failed: its key is left alone for a while. */
    method ReadFailed(t: nat, now: int)
      requires Valid() && t < |fills| && fills[t].phase.Running?
      modifies this`fills, this`failedUntil, this`failed, this`emptied, this`failure
      ensures Valid() && fills == old(fills)[t := old(fills)[t].(phase := Done(Failure, now))]
      ensures failedUntil == (if |old(failedUntil)| >= MAX_BACKOFFS then map[] else old(failedUntil))
                               [fills[t].Key() := Backoff(now + OVERRIDE_BACKOFF_MS, fills[t].generation)]
      ensures failed == old(failed) + [t]
      ensures emptied == if |old(failedUntil)| >= MAX_BACKOFFS then |old(failed)| else old(emptied)
      // A read that began before an invalidation leaves no back-off, and takes the place of one.
      ensures forall later :: BackingOff(fills[t].Key(), fills[t].tenant, later) <==>
        later < now + OVERRIDE_BACKOFF_MS && fills[t].generation == cache.Generation(fills[t].tenant)
    {
      Finish(t, Failure, now);
      BackOff(t);
    }

    method Finish(t: nat, outcome: Outcome, now: int)
      requires Valid() && t < |fills| && fills[t].phase.Running?
      modifies this`fills
      ensures Valid() && fills == old(fills)[t := old(fills)[t].(phase := Done(outcome, now))]
    {
      ghost var before := State();
      fills := fills[t := fills[t].(phase := Done(outcome, now))];
      AdvanceKeeps(before, fills, t, inflight);
    }

    method Store(t: nat, bytes: nat)
      requires Valid() && t < |fills| && fills[t].phase.Done? && fills[t].phase.outcome.Found?
      modifies this`source, cache`entries, cache`weight, cache`storedAt
      ensures Valid()
      ensures Offered(old(cache.entries), fills[t].Key(), EntryFor(fills[t], bytes),
                      fills[t].generation == cache.Generation(fills[t].tenant), cache.entries, MAX_ENTRIES, MAX_BYTES)
    {
      ghost var before := State();
      ghost var es := cache.entries;
      var r := fills[t];
      cache.Set(r.Key(), r.tenant, r.phase.outcome.overrides, bytes, r.generation, r.phase.at);
      HandOverKeeps(before, t, bytes, es, cache.entries);
      source := Attributed(before, t, bytes);
    }

    method BackOff(t: nat)
      requires Valid() && t < |fills| && fills[t].phase.Done? && fills[t].phase.outcome == Failure
      modifies this`failedUntil, this`failed, this`emptied, this`failure
      ensures Valid() && failed == old(failed) + [t]
      ensures emptied == if |old(failedUntil)| >= MAX_BACKOFFS then |old(failed)| else old(emptied)
      ensures failedUntil == (if |old(failedUntil)| >= MAX_BACKOFFS then map[] else old(failedUntil))
                               [fills[t].Key() := Backoff(fills[t].phase.at + OVERRIDE_BACKOFF_MS, fills[t].generation)]
    {
      ghost var before := State();
      var r := fills[t];
      ghost var full := |failedUntil| >= MAX_BACKOFFS;
      BackoffKeeps(before, t, full);
      if |failedUntil| >= MAX_BACKOFFS { failedUntil := map[]; }
      var backoff := Backoff(r.phase.at + OVERRIDE_BACKOFF_MS, r.generation);
      AddSize(failedUntil, r.Key(), backoff);
      failedUntil := failedUntil[r.Key() := backoff];
      emptied := if full then |failed| else emptied;
      failed, failure := failed + [t], failure[r.Key() := |failed|];
    }

    /** The promise of a read settles with that read's own answer and removes its own
        registration, nobody else's. */
    method Settle(t: nat) returns (overrides: Overrides)
      requires Valid() && t < |fills| && fills[t].phase.Done?
      modifies this`fills, this`inflight
      ensures Valid() && |fills| == |old(fills)| && fills[t].phase.Settled?
      ensures fills[t] == old(fills)[t].(phase := fills[t].phase) && fills == old(fills)[t := fills[t]]
      ensures fills[t].phase.outcome == old(fills)[t].phase.outcome && overrides == AnswerOf(fills[t].phase.outcome)
      ensures forall f :: f in old(inflight) && old(inflight)[f] != t ==> f in inflight && inflight[f] == old(inflight)[f]
      ensures forall f :: f in inflight ==> inflight[f] != t && f in old(inflight) && inflight[f] == old(inflight)[f]
    {
      ghost var before := State();
      var r := fills[t];
      fills := fills[t := r.(phase := Settled(r.phase.outcome, r.phase.at))];
      inflight := Unregistered(inflight, r.Flight(), t);
      AdvanceKeeps(before, fills, t, inflight);
      forall f | f in inflight ensures inflight[f] != t {
        assert before.Sound() && before.FlyingAt(f);
      }
      return AnswerOf(r.phase.outcome);
    }

    /** A read of this tenant and locale that began after the tenant's last invalidation. */
    ghost predicate IsOwn(t: nat, tenant: string, locale: string)
      requires |fills| == |begun|
      reads this, cache
    {
      t < |fills| && State().Fresh(t) && fills[t].tenant == tenant && fills[t].locale == locale
    }

    /** The overrides of a tenant for a language tag. Whatever is answered comes from a read that
        began after the tenant's last invalidation: at once from one that was stored or failed
        a short while ago, else from the promise of one still running. */
    method Resolve(tenant: string, tag: string, now: int) returns (answer: Answer, ghost from: Option<nat>)
      requires Valid()
      modifies this`fills, this`inflight, this`begun, this`crowded, cache`entries, cache`weight
      ensures Valid() && old(begun) <= begun
      ensures from == None ==> answer == Now(map[]) && CanonicalLocale(tag) == None && fills == old(fills)
      ensures from.Some? ==>
        && CanonicalLocale(tag).Some? && IsOwn(from.value, tenant, CanonicalLocale(tag).value)
        && (answer.Later? ==> answer.read == from.value && !fills[from.value].phase.Settled?)
        && (answer.Now? ==>
             && fills == old(fills)
             && !fills[from.value].phase.Running? && answer.overrides == AnswerOf(fills[from.value].phase.outcome)
             && now < fills[from.value].phase.at
                      + if fills[from.value].phase.outcome.Found? then TTL_MS else OVERRIDE_BACKOFF_MS)
      ensures cache.entries ==
        if CanonicalLocale(tag).Some? then old(Used(KeyOf(tenant, CanonicalLocale(tag).value), now)) else old(cache.entries)
      // A read starts exactly when nothing is stored, backing off or running for the key.
      ensures fills != old(fills) ==>
        && answer == Later(|old(fills)|)
        && fills == old(fills) + [Read(tenant, fills[|old(fills)|].locale, cache.Generation(tenant), Running)]
      ensures fills != old(fills) <==>
        && CanonicalLocale(tag).Some?
        && var key := KeyOf(tenant, CanonicalLocale(tag).value);
          && !old(Live(key, now)) && !old(BackingOff(key, tenant, now))
          && FlightOf(key, cache.Generation(tenant)) !in old(inflight)
    {
      var canonical := CanonicalLocale(tag);
      if canonical == None { return Now(map[]), None; }
      CanonicalIsPlain(tag);
      var locale := canonical.value;
      var key := KeyOf(tenant, locale);
      var held := Recall(tenant, locale, now);
      if held.Some? { return Now(held.value), Some(source[key]); }
      if BackingOff(key, tenant, now) {
        Blame(tenant, locale);
        return Now(map[]), Some(failed[failure[key]]);
      }
      var flight := FlightOf(key, cache.Generation(tenant));
      if flight in inflight {
        JoinsOwn(tenant, locale);
        return Later(inflight[flight]), Some(inflight[flight]);
      }
      var t := Begin(tenant, locale);
      return Later(t), Some(t);
    }

    /** What the cache holds for the tenant and locale. */
    method Recall(tenant: string, locale: string, now: int) returns (held: Option<Overrides>)
      requires Valid() && Plain(locale)
      modifies cache`entries, cache`weight
      ensures Valid()
      ensures held.Some? ==>
        && KeyOf(tenant, locale) in source && IsOwn(source[KeyOf(tenant, locale)], tenant, locale)
        && var phase := fills[source[KeyOf(tenant, locale)]].phase;
          !phase.Running? && phase.outcome == Found(held.value) && now < phase.at + TTL_MS
      ensures held.Some? <==> old(Live(KeyOf(tenant, locale), now))
      ensures cache.entries == old(Used(KeyOf(tenant, locale), now))
    {
      ghost var before := State();
      var key := KeyOf(tenant, locale);
      held := cache.Get(key, now);
      ForgettingKeeps(before, cache.entries.held);
      if held.Some? {
        assert before.Sound() && before.SourcedAt(key);
        var r := fills[source[key]];
        KeysAreDistinct(r.tenant, r.locale, tenant, locale);
      }
    }

    /** A back-off in force was left by a failed read of this tenant and locale. */
    lemma Blame(tenant: string, locale: string)
      requires Valid() && Plain(locale) && KeyOf(tenant, locale) in failedUntil
      requires failedUntil[KeyOf(tenant, locale)].generation == cache.Generation(tenant)
      ensures KeyOf(tenant, locale) in failure && failure[KeyOf(tenant, locale)] < |failed|
      ensures var t := failed[failure[KeyOf(tenant, locale)]];
        && IsOwn(t, tenant, locale)
        && !fills[t].phase.Running? && fills[t].phase.outcome == Failure
        && failedUntil[KeyOf(tenant, locale)].until == fills[t].phase.at + OVERRIDE_BACKOFF_MS
    {
      var key := KeyOf(tenant, locale);
      assert State().Sound() && State().BlamedAt(key);
      var t := failed[failure[key]];
      assert State().DatedAt(t) && Plain(fills[t].locale);
      KeysAreDistinct(fills[t].tenant, fills[t].locale, tenant, locale);
    }

    /** What the `n`-th failure left is still in force: it has not run out, the tenant's generation
        is the read's own, no failure since has emptied the map and none was of the same key. */
    ghost predicate Lasting(n: nat, now: int)
      requires n < |failed| && failed[n] < |fills| && !fills[failed[n]].phase.Running?
      reads this, cache
    {
      var r := fills[failed[n]];
      && now < r.phase.at + OVERRIDE_BACKOFF_MS && r.generation == cache.Generation(r.tenant)
      && emptied <= n && State().Latest(r.Key(), n)
    }

    /** In every state, a failure is what its key backs off for exactly while it lasts. */
    lemma BackOffLastsIff(n: nat, now: int)
      requires Valid() && n < |failed|
      ensures failed[n] < |fills| && !fills[failed[n]].phase.Running? && fills[failed[n]].phase.outcome == Failure
      ensures var r := fills[failed[n]];
        BackingOff(r.Key(), r.tenant, now) && r.Key() in failure && failure[r.Key()] == n <==> Lasting(n, now)
    {
      HeldBackoffIff(State(), n);
    }

    /** In every state, a key backs off exactly when the failure of one of its reads lasts. */
    lemma BackingOffIff(tenant: string, locale: string, now: int)
      requires Valid() && Plain(locale)
      ensures BackingOff(KeyOf(tenant, locale), tenant, now) <==>
        exists n: nat :: n < |failed| && failed[n] < |fills| && !fills[failed[n]].phase.Running?
          && fills[failed[n]].tenant == tenant && fills[failed[n]].locale == locale && Lasting(n, now)
    {
      var key := KeyOf(tenant, locale);
      if BackingOff(key, tenant, now) {
        Blame(tenant, locale);
        assert State().Sound() && State().BlamedAt(key);
        BackOffLastsIff(failure[key], now);
      }
      forall n: nat | n < |failed| && failed[n] < |fills| && !fills[failed[n]].phase.Running?
          && fills[failed[n]].tenant == tenant && fills[failed[n]].locale == locale && Lasting(n, now)
        ensures BackingOff(key, tenant, now)
      {
        BackOffLastsIff(n, now);
      }
    }

    /** The flight of the current generation is a fresh read of this tenant and locale. */
    lemma JoinsOwn(tenant: string, locale: string)
      requires Valid() && Plain(locale) && FlightOf(KeyOf(tenant, locale), cache.Generation(tenant)) in inflight
      ensures var t := inflight[FlightOf(KeyOf(tenant, locale), cache.Generation(tenant))];
        IsOwn(t, tenant, locale) && !fills[t].phase.Settled?
    {
      var flight := FlightOf(KeyOf(tenant, locale), cache.Generation(tenant));
      assert State().Sound() && State().FlyingAt(flight);
      var r := fills[inflight[flight]];
      assert State().DatedAt(inflight[flight]) && Plain(r.locale);
      FlightsAreDistinct(r.Key(), r.generation, KeyOf(tenant, locale), cache.Generation(tenant));
      KeysAreDistinct(r.tenant, r.locale, tenant, locale);
    }
  }

  /** A run in which a key is read again in the very moment its read failed: the tenant was invalidated. */
  method ReadAgain(tenant: string, tag: string, now: int) returns (reader: MessageOverrides, again: Answer)
    requires CanonicalLocale(tag).Some?
    ensures reader.Valid() && reader.failed == [0] && |reader.fills| == 2 && reader.fills[0].phase == Done(Failure, now)
    ensures again == Later(1) && reader.fills[1].tenant == reader.fills[0].tenant == tenant
    ensures reader.fills[1].locale == reader.fills[0].locale == CanonicalLocale(tag).value
  {
    reader := FirstFails(tenant, tag, now);
    reader.InvalidateTenant(tenant);
    ghost var from;
    again, from := reader.Resolve(tenant, tag, now);
    assert !reader.State().Fresh(0) by { assert reader.invalidated[reader.begun[0]] == reader.fills[0].tenant; }
  }

  /** A reader whose one read has just failed. */
  method FirstFails(tenant: string, tag: string, now: int) returns (reader: MessageOverrides)
    requires CanonicalLocale(tag).Some?
    ensures fresh(reader) && fresh(reader.cache) && reader.Valid()
    ensures reader.failed == [0] && reader.invalidated == [] && |reader.fills| == 1 && reader.begun == [0]
    ensures reader.fills[0].tenant == tenant && reader.fills[0].locale == CanonicalLocale(tag).value
    ensures reader.fills[0].phase == Done(Failure, now)
    ensures reader.BackingOff(KeyOf(tenant, CanonicalLocale(tag).value), tenant, now)
  {
    reader := FirstBegins(tenant, tag, now);
    reader.ReadFailed(0, now);
  }

  /** A reader whose one read has just begun. */
  method FirstBegins(tenant: string, tag: string, now: int) returns (reader: MessageOverrides)
    requires CanonicalLocale(tag).Some?
    ensures fresh(reader) && fresh(reader.cache) && reader.Valid()
    ensures reader.failed == [] && reader.invalidated == [] && |reader.fills| == 1 && reader.begun == [0]
    ensures reader.fills[0] == Read(tenant, CanonicalLocale(tag).value, reader.cache.Generation(tenant), Running)
  {
    reader := new MessageOverrides();
    var first, from := reader.Resolve(tenant, tag, now);
    assert reader.State().Sound() && reader.State().DatedAt(0);
  }
}
