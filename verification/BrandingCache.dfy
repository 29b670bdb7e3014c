/** `createBrandingCache`: a cache bounded by entries, weight and age, whose entries are dropped
    per tenant and whose fills are refused once an invalidation has overtaken them. */
module BrandingCache {
  import opened InsertionMaps
  import opened Numbers

  datatype Entry<+V> = Entry(tenant: string, value: V, bytes: nat, expiresAt: int)

  type Entries<V> = InsertionMap<string, Entry<V>>

  // ----- weight -----

  function Bytes<V>(order: seq<string>, held: map<string, Entry<V>>): nat
    requires forall k :: k in order ==> k in held
  {
    if order == [] then 0 else held[order[0]].bytes + Bytes(order[1..], held)
  }

  /** What the entries weigh together. */
  ghost function Weight<V>(es: Entries<V>): nat
    requires es.Valid()
  {
    Bytes(es.order, es.held)
  }

  lemma {:induction false} BytesAgree<V>(order: seq<string>, a: map<string, Entry<V>>, b: map<string, Entry<V>>)
    requires forall k :: k in order ==> k in a && k in b && a[k] == b[k]
    ensures Bytes(order, a) == Bytes(order, b)
  {
    if order != [] { BytesAgree(order[1..], a, b); }
  }

  lemma {:induction false} BytesSplit<V>(a: seq<string>, b: seq<string>, held: map<string, Entry<V>>)
    requires forall k :: k in a || k in b ==> k in held
    ensures (forall k :: k in a + b ==> k in held) && Bytes(a + b, held) == Bytes(a, held) + Bytes(b, held)
  {
    if a == [] {
      assert a + b == b;
    } else {
      BytesSplit(a[1..], b, held);
      assert (a + b)[1..] == a[1..] + b;
    }
  }

  lemma BytesMiddle<V>(a: seq<string>, k: string, b: seq<string>, held: map<string, Entry<V>>)
    requires k in held && forall x :: x in a || x in b ==> x in held
    ensures (forall x :: x in a + [k] + b ==> x in held) && forall x :: x in a + b ==> x in held
    ensures Bytes(a + [k] + b, held) == Bytes(a + b, held) + held[k].bytes
  {
    BytesSplit(a, b, held);
    BytesSplit(a, [k] + b, held);
    assert a + ([k] + b) == a + [k] + b && ([k] + b)[1..] == b;
  }

  lemma WeightAfterDelete<V>(es: Entries<V>, k: string)
    requires es.Valid() && k in es.held
    ensures es.Delete(k).Valid() && Weight(es.Delete(k)) == Weight(es) - es.held[k].bytes
  {
    es.DeleteValid(k);
    var i := Locate(es.order, k);
    BytesMiddle(es.order[..i], k, es.order[i + 1..], es.held);
    BytesAgree(es.Delete(k).order, es.held, es.held - {k});
  }

  lemma WeightAfterSet<V>(es: Entries<V>, k: string, e: Entry<V>)
    requires es.Valid() && k !in es.held
    ensures es.Set(k, e).Valid() && Weight(es.Set(k, e)) == Weight(es) + e.bytes
  {
    es.MoveToEnd(k, e);
    es.DeleteValid(k);
    var held := es.held[k := e];
    BytesSplit(es.order, [k], held);
    BytesAgree(es.order, es.held, held);
    assert Bytes([k], held) == e.bytes + Bytes([k][1..], held);
  }

  // ----- eviction -----

  ghost predicate Fits<V>(es: Entries<V>, maxEntries: nat, maxBytes: nat)
    requires es.Valid()
  {
    es.Size() <= maxEntries && Weight(es) <= maxBytes
  }

  /** The entries after the oldest have been dropped until the rest fits. */
  ghost function Trimmed<V>(es: Entries<V>, maxEntries: nat, maxBytes: nat): (r: Entries<V>)
    requires es.Valid()
    ensures r.Valid() && Fits(r, maxEntries, maxBytes) && r.held.Keys <= es.held.Keys
    ensures forall k :: k in r.held ==> r.held[k] == es.held[k]
    decreases |es.order|
  {
    es.DeleteValid(if es.order == [] then "" else es.order[0]);
    if es.order == [] || Fits(es, maxEntries, maxBytes) then es
    else
      assert es.order[0] in es.order;
      Trimmed(es.Delete(es.order[0]), maxEntries, maxBytes)
  }

  /** The list was cut at `n`, and one entry more would not have fitted. */
  ghost predicate CutAt<V>(es: Entries<V>, kept: seq<string>, n: nat, maxEntries: nat, maxBytes: nat)
    requires es.Valid()
  {
    && n <= |es.order| && kept == es.order[n..]
    && (n > 0 ==> |es.order| - n + 1 > maxEntries || Bytes(es.order[n - 1..], es.held) > maxBytes)
  }

  /** Where the rest of a list that does not fit is cut, the list is cut too. */
  lemma CutOneLater<V>(es: Entries<V>, kept: seq<string>, m: nat, maxEntries: nat, maxBytes: nat)
    requires es.Valid() && es.order != [] && !Fits(es, maxEntries, maxBytes)
    requires es.Delete(es.order[0]).Valid() && CutAt(es.Delete(es.order[0]), kept, m, maxEntries, maxBytes)
    ensures CutAt(es, kept, m + 1, maxEntries, maxBytes)
  {
    DropFirst(es);
    TailOf(es.order, m);
    if m == 0 {
      assert es.order[0..] == es.order;
    } else {
      TailOf(es.order, m - 1);
      BytesAgree(es.order[m..], es.held, es.Delete(es.order[0]).held);
    }
  }

  /** Eviction is by age and takes no more than it must: what is kept is the latest part of the
      list, and one entry more would not have fitted. */
  lemma {:induction false} TrimmedKeepsMost<V>(es: Entries<V>, maxEntries: nat, maxBytes: nat) returns (n: nat)
    requires es.Valid()
    ensures CutAt(es, Trimmed(es, maxEntries, maxBytes).order, n, maxEntries, maxBytes)
    decreases |es.order|
  {
    if es.order == [] || Fits(es, maxEntries, maxBytes) {
      n := 0;
      assert es.order[0..] == es.order;
    } else {
      assert es.order[0] in es.order;
      es.DeleteValid(es.order[0]);
      var rest := es.Delete(es.order[0]);
      var m := TrimmedKeepsMost(rest, maxEntries, maxBytes);
      n := m + 1;
      CutOneLater(es, Trimmed(rest, maxEntries, maxBytes).order, m, maxEntries, maxBytes);
    }
  }

  lemma DropFirst<V>(es: Entries<V>)
    requires es.Valid() && es.order != []
    ensures es.Delete(es.order[0]).order == es.order[1..]
  {}

  lemma TailOf(order: seq<string>, m: nat)
    requires m < |order|
    ensures order[1..][m..] == order[m + 1..]
  {}

  /** What a set does to the entries: nothing when the generation is outdated or the value too
      heavy; else the entry becomes the most recent one and the oldest are dropped until the rest
      fits. Unfolded only where a proof mentions validity. */
  ghost predicate Offered<V>(before: Entries<V>, k: string, e: Entry<V>, current: bool, after: Entries<V>,
                             maxEntries: nat, maxBytes: nat) {
    forall es: Entries<V> {:trigger es.Valid()} :: es == before ==>
      && es.Valid() && es.Delete(k).Set(k, e).Valid()
      && after == if current && e.bytes <= maxBytes then Trimmed(es.Delete(k).Set(k, e), maxEntries, maxBytes) else es
  }

  /** After a set, an entry is the one set or one held before. */
  lemma StoredAmong<V>(es: Entries<V>, k: string, e: Entry<V>, maxEntries: nat, maxBytes: nat)
    requires es.Valid()
    ensures es.Delete(k).Set(k, e).Valid()
    ensures StoredIn(es.held, Trimmed(es.Delete(k).Set(k, e), maxEntries, maxBytes).held, k, e)
  {
    es.MoveToEnd(k, e);
  }

  /** What is held now was held before, except that `k` holds `e`, if it holds anything. */
  ghost predicate StoredIn<V>(before: map<string, Entry<V>>, now: map<string, Entry<V>>, k: string, e: Entry<V>) {
    forall x {:trigger now[x]} :: x in now ==> if x == k then now[x] == e else x in before && now[x] == before[x]
  }

  /** The entry just set outlives the eviction it causes. */
  lemma LastIsKept<V>(es: Entries<V>, maxEntries: nat, maxBytes: nat)
    requires es.Valid() && es.order != [] && maxEntries > 0
    requires es.order[|es.order| - 1] in es.held && es.held[es.order[|es.order| - 1]].bytes <= maxBytes
    ensures es.order[|es.order| - 1] in Trimmed(es, maxEntries, maxBytes).held
  {
    var last := |es.order| - 1;
    var n := TrimmedKeepsMost(es, maxEntries, maxBytes);
    LastWeighs(es);
    assert n > last ==> n == |es.order|;
    assert n <= last;
    assert Trimmed(es, maxEntries, maxBytes).order[last - n] == es.order[last];
  }

  lemma LastWeighs<V>(es: Entries<V>)
    requires es.Valid() && es.order != []
    ensures var k := es.order[|es.order| - 1]; k in es.held && Bytes(es.order[|es.order| - 1..], es.held) == es.held[k].bytes
  {
    var last := |es.order| - 1;
    assert es.order[last..] == [es.order[last]] && [es.order[last]][1..] == [];
    assert Bytes([es.order[last]], es.held) == es.held[es.order[last]].bytes + Bytes([es.order[last]][1..], es.held);
  }

  /** Dropping an entry, or making it the most recent one, keeps within the bounds. */
  lemma TouchFits<V>(es: Entries<V>, k: string)
    requires es.Valid() && k in es.held
    ensures var rest := es.Delete(k);
      rest.Valid() && rest.Size() + 1 == es.Size() && Weight(rest) + es.held[k].bytes == Weight(es)
    ensures var moved := es.Delete(k).Set(k, es.held[k]);
      moved.Valid() && moved.Size() == es.Size() && moved.held == es.held
  {
    WeightAfterDelete(es, k);
    es.MoveToEnd(k, es.held[k]);
    es.DeleteValid(k);
    assert es.held[k := es.held[k]] == es.held;
  }

  // ----- generations -----

  type Generations = InsertionMap<string, nat>

  function GenerationOf(gs: Generations, floor: nat, tenant: string): nat {
    if tenant in gs.held then gs.held[tenant] else floor
  }

  function Counted(gs: Generations, floor: nat, tenant: string): Generations {
    gs.Delete(tenant).Set(tenant, GenerationOf(gs, floor, tenant) + 1)
  }

  /** The counts and the floor after an invalidation: the oldest count is forgotten when there
      are too many, and the floor rises past it. */
  ghost predicate Invalidated(gs: Generations, floor: nat, tenant: string, maxTenants: nat, after: Generations, raised: nat) {
    var counted := Counted(gs, floor, tenant);
    if |counted.order| <= maxTenants then after == counted && raised == floor
    else
      && counted.order[0] in counted.held && after == counted.Delete(counted.order[0])
      && raised == Max(floor, counted.held[counted.order[0]] + 1)
  }

  lemma CountedRises(gs: Generations, floor: nat, tenant: string)
    requires gs.Valid()
    ensures var r := Counted(gs, floor, tenant);
      r.Valid() && r.order != [] && r.Size() <= gs.Size() + 1 && r.held == gs.held[tenant := GenerationOf(gs, floor, tenant) + 1]
  {
    gs.MoveToEnd(tenant, GenerationOf(gs, floor, tenant) + 1);
  }

  /** The tenant just invalidated has its count, the latest; one is forgotten exactly when a tenant more
      would be counted than may be, and that is the one invalidated longest ago. */
  lemma OldestIsForgotten(gs: Generations, floor: nat, tenant: string, maxTenants: nat, after: Generations, raised: nat)
    requires gs.Valid() && 1 <= maxTenants && gs.Size() <= maxTenants
    requires Invalidated(gs, floor, tenant, maxTenants, after, raised)
    ensures after.order != [] && after.order[|after.order| - 1] == tenant
    ensures tenant in after.held && after.held[tenant] == GenerationOf(gs, floor, tenant) + 1
    ensures forall t :: t in gs.held ==>
      (t !in after.held <==> tenant !in gs.held && gs.Size() == maxTenants && t == gs.order[0])
  {
    var counted := Counted(gs, floor, tenant);
    gs.MoveToEnd(tenant, GenerationOf(gs, floor, tenant) + 1);
    if |counted.order| > maxTenants {
      assert counted.order == gs.order + [tenant];
      counted.DeleteValid(counted.order[0]);
      assert after.order == counted.order[1..];
    }
  }

  /** A forgotten count leaves a floor above it, so no generation falls. */
  lemma ForgettingRaises(gs: Generations, floor: nat, raised: nat, tenant: string)
    requires gs.Valid() && gs.order != [] && raised >= floor
    requires gs.order[0] in gs.held ==> raised > gs.held[gs.order[0]]
    ensures GenerationOf(gs.Delete(gs.order[0]), raised, tenant) >= GenerationOf(gs, floor, tenant)
    ensures tenant in gs.Delete(gs.order[0]).held ==>
      GenerationOf(gs.Delete(gs.order[0]), raised, tenant) == GenerationOf(gs, floor, tenant)
  {
    assert gs.order[0] in gs.order;
  }

  // ----- dropping a tenant -----

  function Without<V>(order: seq<string>, held: map<string, Entry<V>>, tenant: string): (r: seq<string>)
    requires forall k :: k in order ==> k in held
    ensures forall k :: k in r <==> k in order && held[k].tenant != tenant
  {
    if order == [] then []
    else
      var before := Without(order[..|order| - 1], held, tenant);
      var k := order[|order| - 1];
      assert order == order[..|order| - 1] + [k];
      if held[k].tenant == tenant then before else before + [k]
  }

  /** What another tenant has keeps its order of use. */
  lemma {:induction false} WithoutKeepsOrder<V>(order: seq<string>, held: map<string, Entry<V>>, tenant: string, i: nat, j: nat)
    returns (p: nat, q: nat)
    requires forall k :: k in order ==> k in held
    requires i < j < |Without(order, held, tenant)|
    ensures p < q < |order| && order[p] == Without(order, held, tenant)[i] && order[q] == Without(order, held, tenant)[j]
  {
    var (before, last) := (order[..|order| - 1], |order| - 1);
    var left := Without(before, held, tenant);
    if j < |left| {
      p, q := WithoutKeepsOrder(before, held, tenant, i, j);
    } else {
      assert left[i] in left;
      p :| 0 <= p < |before| && before[p] == left[i];
      q := last;
    }
  }

  /** One step of the sweep over the entries, the earlier ones being done. */
  lemma WithoutStep<V>(order: seq<string>, held: map<string, Entry<V>>, tenant: string, i: nat)
    requires Distinct(order) && (forall k :: k in order ==> k in held) && i < |order|
    ensures var now, rest := Without(order[..i], held, tenant), order[i..];
      var next := Without(order[..i + 1], held, tenant) + order[i + 1..];
      next == if held[order[i]].tenant == tenant then Remove(now + rest, order[i]) else now + rest
  {
    var now := Without(order[..i], held, tenant);
    assert order[..i + 1][..i] == order[..i];
    assert now + order[i..] == now + [order[i]] + order[i + 1..];
    if held[order[i]].tenant == tenant { RemoveSplit(now, order[i], order[i + 1..]); }
  }

  /** The entries weigh what is recorded and fit. */
  ghost predicate Within<V>(entries: Entries<V>, weight: int, maxEntries: nat, maxBytes: nat) {
    forall es: Entries<V> {:trigger es.Valid()} ::
      es == entries ==> es.Valid() && weight == Weight(es) && Fits(es, maxEntries, maxBytes)
  }

  ghost predicate Counting(generations: Generations, maxTenants: nat) {
    forall gs: Generations {:trigger gs.Valid()} :: gs == generations ==> gs.Valid() && gs.Size() <= maxTenants
  }

  /** An entry was stored under its tenant's generation of the time, which has not fallen since, and
      is the current one as long as the tenant's count is kept. */
  ghost predicate StampAt<V>(held: map<string, Entry<V>>, gs: Generations, floor: nat, storedAt: map<string, nat>, k: string)
    requires k in held
  {
    && k in storedAt && storedAt[k] <= GenerationOf(gs, floor, held[k].tenant)
    && (held[k].tenant in gs.held ==> storedAt[k] == gs.held[held[k].tenant])
  }

  ghost predicate Stamped<V>(held: map<string, Entry<V>>, gs: Generations, floor: nat, storedAt: map<string, nat>) {
    forall k {:trigger StampAt(held, gs, floor, storedAt, k)} :: k in held ==> StampAt(held, gs, floor, storedAt, k)
  }

  lemma StampsShrink<V>(held: map<string, Entry<V>>, left: map<string, Entry<V>>, gs: Generations, floor: nat,
                        storedAt: map<string, nat>)
    requires Stamped(held, gs, floor, storedAt) && forall k :: k in left ==> k in held && left[k] == held[k]
    ensures Stamped(left, gs, floor, storedAt)
  {
    forall k | k in left ensures StampAt(left, gs, floor, storedAt, k) { assert StampAt(held, gs, floor, storedAt, k); }
  }

  lemma StampsOfSet<V>(held: map<string, Entry<V>>, left: map<string, Entry<V>>, gs: Generations, floor: nat,
                       storedAt: map<string, nat>, key: string, e: Entry<V>)
    requires Stamped(held, gs, floor, storedAt) && StoredIn(held, left, key, e)
    ensures Stamped(left, gs, floor, storedAt[key := GenerationOf(gs, floor, e.tenant)])
  {
    var stamps := storedAt[key := GenerationOf(gs, floor, e.tenant)];
    forall k | k in left ensures StampAt(left, gs, floor, stamps, k) {
      assert left[k] == if k == key then e else held[k];
      if k != key { assert StampAt(held, gs, floor, storedAt, k); }
    }
  }

  lemma StampsOutliveInvalidation<V>(held: map<string, Entry<V>>, left: map<string, Entry<V>>, gs: Generations, floor: nat,
                                     tenant: string, maxTenants: nat, after: Generations, raised: nat,
                                     storedAt: map<string, nat>)
    requires Stamped(held, gs, floor, storedAt) && Invalidated(gs, floor, tenant, maxTenants, after, raised)
    requires gs.Valid() && forall t :: GenerationOf(after, raised, t) >= GenerationOf(gs, floor, t)
    requires forall k :: k in left ==> k in held && left[k] == held[k] && left[k].tenant != tenant
    ensures Stamped(left, after, raised, storedAt)
  {
    CountedRises(gs, floor, tenant);
    forall k | k in left ensures StampAt(left, after, raised, storedAt, k) {
      assert StampAt(held, gs, floor, storedAt, k);
      assert GenerationOf(after, raised, left[k].tenant) >= GenerationOf(gs, floor, left[k].tenant);
    }
  }

  class BrandingCache<V> {
    const maxEntries: nat
    const ttlMs: nat
    const maxBytes: nat
    const maxTenants: nat
    var entries: Entries<V>
    var generations: Generations
    var floor: nat
    var weight: int
    /** The generation each key was last stored under. */
    ghost var storedAt: map<string, nat>

    ghost predicate Valid()
      reads this
    {
      && Within(entries, weight, maxEntries, maxBytes) && Counting(generations, maxTenants)
      && Stamped(entries.held, generations, floor, storedAt)
    }

    constructor (maxEntries: nat, ttlMs: nat, maxBytes: nat, maxTenants: nat)
      ensures Valid() && entries == Empty() && generations == Empty() && floor == 0
      ensures this.maxEntries == maxEntries && this.ttlMs == ttlMs
      ensures this.maxBytes == maxBytes && this.maxTenants == maxTenants
    {
      this.maxEntries, this.ttlMs, this.maxBytes, this.maxTenants := maxEntries, ttlMs, maxBytes, maxTenants;
      entries, generations, floor, weight, storedAt := Empty(), Empty(), 0, 0, map[];
      new;
      assert entries.Valid() && Weight(entries) == 0 && generations.Valid();
    }

    function Generation(tenant: string): nat
      reads this
    {
      GenerationOf(generations, floor, tenant)
    }

    method Drop(k: string)
      requires entries.Valid() && weight == Weight(entries) && k in entries.held
      modifies this`entries, this`weight
      ensures entries == old(entries).Delete(k) && entries.Valid() && weight == Weight(entries)
    {
      WeightAfterDelete(entries, k);
      weight := weight - entries.held[k].bytes;
      entries := entries.Delete(k);
    }

    /** A live entry is answered and becomes the most recently used; an expired one is dropped. */
    method Get(k: string, now: int) returns (value: Option<V>)
      requires Valid()
      modifies this`entries, this`weight
      ensures Valid()
      ensures value == if k in old(entries).held && now < old(entries).held[k].expiresAt
                       then Some(old(entries).held[k].value) else None
      ensures value.Some? ==> entries == old(entries).Delete(k).Set(k, old(entries).held[k])
      ensures value == None ==> entries == old(entries).Delete(k)
      ensures entries.held == if value.Some? then old(entries).held else old(entries).held - {k}
    {
      assert entries.Valid();
      StampsShrink(entries.held, entries.held - {k}, generations, floor, storedAt);
      if k !in entries.held {
        entries.DeleteValid(k);
        return None;
      }
      var e := entries.held[k];
      if e.expiresAt <= now {
        TouchFits(entries, k);
        Drop(k);
        return None;
      }
      Touch(k);
      return Some(e.value);
    }

    /** The entry becomes the most recent one. */
    method Touch(k: string)
      requires entries.Valid() && weight == Weight(entries) && Fits(entries, maxEntries, maxBytes) && k in entries.held
      modifies this`entries
      ensures Within(entries, weight, maxEntries, maxBytes)
      ensures entries == old(entries).Delete(k).Set(k, old(entries).held[k]) && entries.held == old(entries).held
    {
      var e := entries.held[k];
      TouchFits(entries, k);
      WeightAfterDelete(entries, k);
      WeightAfterSet(entries.Delete(k), k, e);
      entries := entries.Delete(k);
      entries := entries.Set(k, e);
    }

    /** Stores the value as the most recently used entry unless it is too heavy or an
        invalidation has overtaken the read it came from. */
    method Set(k: string, tenant: string, value: V, bytes: nat, at: nat, now: int)
      requires Valid()
      modifies this`entries, this`weight, this`storedAt
      ensures Valid()
      ensures storedAt == if at == Generation(tenant) && bytes <= maxBytes then old(storedAt)[k := at] else old(storedAt)
      ensures Offered(old(entries), k, Entry(tenant, value, bytes, now + ttlMs), at == Generation(tenant), entries,
                      maxEntries, maxBytes)
    {
      assert entries.Valid();
      entries.MoveToEnd(k, Entry(tenant, value, bytes, now + ttlMs));
      if at != Generation(tenant) || bytes > maxBytes { return; }
      ghost var held := entries.held;
      StoredAmong(entries, k, Entry(tenant, value, bytes, now + ttlMs), maxEntries, maxBytes);
      Insert(k, Entry(tenant, value, bytes, now + ttlMs));
      StampsOfSet(held, entries.held, generations, floor, storedAt, k, Entry(tenant, value, bytes, now + ttlMs));
      storedAt := storedAt[k := at];
    }

    method Insert(k: string, e: Entry<V>)
      requires entries.Valid() && weight == Weight(entries)
      modifies this`entries, this`weight
      ensures Within(entries, weight, maxEntries, maxBytes)
      ensures old(entries).Delete(k).Set(k, e).Valid()
      ensures entries == Trimmed(old(entries).Delete(k).Set(k, e), maxEntries, maxBytes)
    {
      ghost var before := entries;
      StoredAmong(before, k, e, maxEntries, maxBytes);
      before.DeleteValid(k);
      if k in entries.held { Drop(k); }
      WeightAfterSet(entries, k, e);
      entries := entries.Set(k, e);
      weight := weight + e.bytes;
      Evict();
    }

    /** Drops the oldest entries until the rest fits. */
    method Evict()
      requires entries.Valid() && weight == Weight(entries)
      modifies this`entries, this`weight
      ensures entries == old(Trimmed(entries, maxEntries, maxBytes)) && weight == Weight(entries)
    {
      while entries.order != [] && !(|entries.order| <= maxEntries && weight <= maxBytes)
        invariant entries.Valid() && weight == Weight(entries)
        invariant Trimmed(entries, maxEntries, maxBytes) == old(Trimmed(entries, maxEntries, maxBytes))
        decreases |entries.order|
      {
        assert entries.order[0] in entries.order;
        entries.DeleteValid(entries.order[0]);
        Drop(entries.order[0]);
      }
    }

    /** Counts the invalidation and drops the tenant's entries. The tenant's generation rises,
        nobody's falls, even when an old count is forgotten. */
    method InvalidateTenant(tenant: string)
      requires Valid()
      modifies this`entries, this`weight, this`generations, this`floor
      ensures Valid()
      ensures Invalidated(old(generations), old(floor), tenant, maxTenants, generations, floor)
      ensures Generation(tenant) > old(Generation(tenant))
      ensures forall t :: Generation(t) >= old(Generation(t))
      ensures forall t :: t != tenant && t in generations.held ==> Generation(t) == old(Generation(t))
      ensures old(entries).Valid() && entries.order == old(Without(entries.order, entries.held, tenant))
      ensures forall k :: k in entries.held ==>
        k in old(entries).held && entries.held[k] == old(entries).held[k] && entries.held[k].tenant != tenant
      ensures forall k :: k in old(entries).held && old(entries).held[k].tenant != tenant ==> k in entries.held
    {
      assert entries.Valid() && generations.Valid();
      ghost var held, gs, low := entries.held, generations, floor;
      Count(tenant);
      Sweep(tenant);
      forall t ensures GenerationOf(generations, floor, t) >= GenerationOf(gs, low, t) {
        assert Generation(t) >= old(Generation(t));
      }
      StampsOutliveInvalidation(held, entries.held, gs, low, tenant, maxTenants, generations, floor, storedAt);
    }

    /** An entry answered may have been stored under an earlier generation: it was stored under the
        current one exactly when its tenant's count is still kept or the floor is where it was. */
    lemma StoredUnderCurrentIff(k: string)
      requires Valid() && k in entries.held
      ensures k in storedAt && storedAt[k] <= Generation(entries.held[k].tenant)
      ensures storedAt[k] == Generation(entries.held[k].tenant)
         <==> entries.held[k].tenant in generations.held || floor == storedAt[k]
    {
      assert StampAt(entries.held, generations, floor, storedAt, k);
    }

    method Count(tenant: string)
      requires generations.Valid() && generations.Size() <= maxTenants
      modifies this`generations, this`floor
      ensures generations.Valid() && generations.Size() <= maxTenants
      ensures Invalidated(old(generations), old(floor), tenant, maxTenants, generations, floor)
      ensures Generation(tenant) > old(Generation(tenant))
      ensures forall t :: Generation(t) >= old(Generation(t))
      ensures forall t :: t != tenant && t in generations.held ==> Generation(t) == old(Generation(t))
    {
      CountedRises(generations, floor, tenant);
      generations := Counted(generations, floor, tenant);
      if |generations.order| > maxTenants { Forget(); }
    }

    /** Forgets the oldest count. */
    method Forget()
      requires generations.Valid() && generations.order != []
      modifies this`generations, this`floor
      ensures generations.Valid() && generations.Size() == old(generations).Size() - 1
      ensures old(generations).order[0] in old(generations).held
      ensures generations == old(generations).Delete(old(generations).order[0])
      ensures floor == Max(old(floor), old(generations).held[old(generations).order[0]] + 1)
      ensures forall t :: Generation(t) >= old(Generation(t))
      ensures forall t :: t in generations.held ==> t in old(generations).held && Generation(t) == old(Generation(t))
    {
      var oldest := generations.order[0];
      assert oldest in generations.order;
      generations.DeleteValid(oldest);
      var raised := Max(floor, generations.held[oldest] + 1);
      forall t {
        ForgettingRaises(generations, floor, raised, t);
      }
      generations, floor := generations.Delete(oldest), raised;
    }

    method Sweep(tenant: string)
      requires Within(entries, weight, maxEntries, maxBytes)
      modifies this`entries, this`weight
      ensures Within(entries, weight, maxEntries, maxBytes) && old(entries).Valid()
      ensures entries.order == old(Without(entries.order, entries.held, tenant))
      ensures forall k :: k in entries.held ==>
        k in old(entries).held && entries.held[k] == old(entries).held[k] && entries.held[k].tenant != tenant
      ensures forall k :: k in old(entries).held && old(entries).held[k].tenant != tenant ==> k in entries.held
    {
      var all := entries;
      assert all.Valid();
      assert all.order == Without(all.order[..0], all.held, tenant) + all.order[0..];
      for i := 0 to |all.order|
        invariant Within(entries, weight, maxEntries, maxBytes)
        invariant Swept(all, tenant, i, entries)
      {
        SweepOne(all, tenant, i);
      }
      assert entries.Valid();
      SweptAll(all, tenant, entries);
    }

    method SweepOne(all: Entries<V>, tenant: string, i: nat)
      requires Within(entries, weight, maxEntries, maxBytes)
      requires all.Valid() && i < |all.order| && Swept(all, tenant, i, entries)
      modifies this`entries, this`weight
      ensures Within(entries, weight, maxEntries, maxBytes)
      ensures Swept(all, tenant, i + 1, entries)
    {
      assert entries.Valid();
      var k := all.order[i];
      SweptStep(all, tenant, i, entries);
      if entries.held[k].tenant == tenant {
        TouchFits(entries, k);
        Drop(k);
      }
    }
  }

  /** A run in which an outdated entry is answered: with room for one count, two other tenants'
      invalidations raise the floor past the generation the entry was stored under. */
  method AnswersOutdated<V>(v: V) returns (cache: BrandingCache<V>, value: Option<V>)
    ensures cache.Valid() && value == Some(v)
    ensures "k" in cache.entries.held && cache.entries.held["k"].tenant == "b"
    ensures "k" in cache.storedAt && cache.storedAt["k"] == 0 && cache.Generation("b") == 2
  {
    cache := HoldsOne(v);
    InvalidateOthers(cache, "k");
    value := cache.Get("k", 0);
  }

  /** Two other tenants' invalidations, which keep the entry and raise its tenant's generation. */
  method InvalidateOthers<V>(cache: BrandingCache<V>, k: string)
    requires cache.Valid() && cache.maxTenants == 1 && cache.generations == Empty() && cache.floor == 0
    requires k in cache.entries.held && cache.entries.held[k].tenant == "b"
    modifies cache
    ensures cache.Valid() && cache.Generation("b") == 2 && cache.storedAt == old(cache.storedAt)
    ensures k in cache.entries.held && cache.entries.held[k] == old(cache.entries).held[k]
  {
    cache.InvalidateTenant("a");
    ghost var once, low := cache.generations, cache.floor;
    cache.InvalidateTenant("c");
    FloorPassesBy(once, low, cache.generations, cache.floor);
  }

  /** A cache with room for one count that holds one value, stored for tenant "b" under generation 0. */
  method HoldsOne<V>(v: V) returns (cache: BrandingCache<V>)
    ensures fresh(cache) && cache.Valid() && cache.maxTenants == 1 && cache.generations == Empty() && cache.floor == 0
    ensures "k" in cache.entries.held && cache.entries.held["k"] == Entry("b", v, 0, 10)
    ensures "k" in cache.storedAt && cache.storedAt["k"] == 0
  {
    cache := new BrandingCache<V>(1, 10, 1, 1);
    cache.Set("k", "b", v, 0, 0, 0);
    FirstIsKept(cache.entries, "k", Entry("b", v, 0, 10), 1, 1);
  }

  /** The count of "a" is the only one, and forgotten when "c" is counted. */
  lemma FloorPassesBy(once: Generations, low: nat, twice: Generations, raised: nat)
    requires Invalidated(Empty(), 0, "a", 1, once, low) && Invalidated(once, low, "c", 1, twice, raised)
    ensures GenerationOf(twice, raised, "b") == 2
  {
    CountedFirst();
    CountedSecond();
  }

  lemma CountedFirst()
    ensures Counted(Empty(), 0, "a") == InsertionMap(["a"], map["a" := 1])
  {
    assert Counted(Empty(), 0, "a").order == ["a"];
  }

  lemma CountedSecond()
    ensures Counted(InsertionMap(["a"], map["a" := 1]), 0, "c") == InsertionMap(["a", "c"], map["a" := 1, "c" := 1])
  {
    var once: Generations := InsertionMap(["a"], map["a" := 1]);
    assert Remove(["a"], "c") == ["a"];
    assert once.held - {"c"} == once.held;
    assert ["a"] + ["c"] == ["a", "c"];
  }

  lemma FirstIsKept<V>(after: Entries<V>, k: string, e: Entry<V>, maxEntries: nat, maxBytes: nat)
    requires Offered(Empty<string, Entry<V>>(), k, e, true, after, maxEntries, maxBytes) && maxEntries >= 1 && e.bytes <= maxBytes
    ensures k in after.held && after.held[k] == e
  {
    var es := Empty<string, Entry<V>>();
    assert es.Valid();
    es.MoveToEnd(k, e);
    LastIsKept(es.Delete(k).Set(k, e), maxEntries, maxBytes);
    StoredAmong(es, k, e, maxEntries, maxBytes);
  }

  /** The sweep has passed the first `i` entries and has not touched the others. */
  ghost predicate Swept<V>(all: Entries<V>, tenant: string, i: nat, now: Entries<V>)
    requires all.Valid() && i <= |all.order|
  {
    && now.order == Without(all.order[..i], all.held, tenant) + all.order[i..]
    && forall k :: k in now.held ==> k in all.held && now.held[k] == all.held[k]
  }

  lemma SweptStep<V>(all: Entries<V>, tenant: string, i: nat, now: Entries<V>)
    requires all.Valid() && now.Valid() && i < |all.order| && Swept(all, tenant, i, now)
    ensures all.order[i] in all.held && all.order[i] in now.held
    ensures Swept(all, tenant, i + 1,
              if all.held[all.order[i]].tenant == tenant then now.Delete(all.order[i]) else now)
  {
    var k := all.order[i];
    WithoutStep(all.order, all.held, tenant, i);
    assert k in all.order && now.order[|Without(all.order[..i], all.held, tenant)|] == k;
    assert k in now.order;
  }

  lemma SweptAll<V>(all: Entries<V>, tenant: string, now: Entries<V>)
    requires all.Valid() && now.Valid() && Swept(all, tenant, |all.order|, now)
    ensures now.order == Without(all.order, all.held, tenant)
    ensures forall k :: k in now.held ==> now.held[k].tenant != tenant
    ensures forall k :: k in all.held && all.held[k].tenant != tenant ==> k in now.held
  {
    assert all.order[..|all.order|] == all.order;
    assert now.order == Without(all.order, all.held, tenant);
    forall k | k in now.held ensures now.held[k].tenant != tenant { assert k in now.order; }
    forall k | k in all.held && all.held[k].tenant != tenant ensures k in now.held { assert k in all.order; }
  }
}
