/** What a refused check can change once the map is full: it makes its key the latest, and so has
    another one evicted. Stated for every ceiling, and for the registration budget at its own. */
module RefusalTraces {
  import opened InsertionMaps
  import opened Limits
  import opened Recency
  import opened RegistrationBudget
  import opened Selection
  import opened Sets
  import opened SlidingLogRuns
  import opened SlidingWindows
  import T = ThrottleOrigin

  // ----- one limiter -----

  /** One key more than the map holds, and a log that admits one call of each. */
  ghost predicate Filling(o: Options, keys: seq<Key>) {
    o.kind == Log && o.limit == 1 && o.maxKeys >= 2 && |keys| == o.maxKeys + 1 && Distinct(keys)
  }

  function CallsAt(keys: seq<Key>, at: int): (calls: seq<Call>)
    ensures |calls| == |keys| && forall i :: 0 <= i < |keys| ==> calls[i] == Call(keys[i], at)
  {
    seq(|keys|, i requires 0 <= i < |keys| => Call(keys[i], at))
  }

  /** Some calls, then one of each new key, then a second one of a key of before. */
  function Crowding(before: seq<Call>, others: seq<Key>, key: Key): seq<Call> {
    before + CallsAt(others, 3) + [Call(key, 4)]
  }

  /** The first key is checked again, and refused, before all but the first two are checked. */
  function TracedCalls(keys: seq<Key>): seq<Call>
    requires |keys| >= 2
  {
    Crowding([Call(keys[0], 0), Call(keys[1], 1), Call(keys[0], 2)], keys[2..], keys[1])
  }

  /** The same without the refused check. */
  function UntracedCalls(keys: seq<Key>): seq<Call>
    requires |keys| >= 2
  {
    Crowding([Call(keys[0], 0), Call(keys[1], 1)], keys[2..], keys[1])
  }

  lemma SinceOneMore(calls: seq<Call>, call: Call, key: Key)
    ensures Since(calls + [call], key) == if call.key == key then {} else Since(calls, key) + {call.key}
  {
    assert (calls + [call])[..|calls|] == calls;
  }

  lemma CallsAtLast(before: seq<Call>, rest: seq<Key>, last: Key, all: seq<Key>)
    requires all == rest + [last]
    ensures before + CallsAt(all, 3) == (before + CallsAt(rest, 3)) + [Call(last, 3)]
    ensures Elements(all) == Elements(rest) + {last}
  {}

  lemma UnionOneMore(a: set<Key>, b: set<Key>, x: Key, all: set<Key>)
    requires all == b + {x}
    ensures a + b + {x} == a + all
  {}

  lemma {:induction false} SinceOthers(before: seq<Call>, others: seq<Key>, key: Key)
    requires key !in others
    ensures Since(before + CallsAt(others, 3), key) == Since(before, key) + Elements(others)
  {
    if others == [] {
      assert before + CallsAt(others, 3) == before;
    } else {
      var (rest, last) := (others[..|others| - 1], others[|others| - 1]);
      SinceOthers(before, rest, key);
      CallsAtLast(before, rest, last, others);
      SinceOneMore(before + CallsAt(rest, 3), Call(last, 3), key);
      UnionOneMore(Since(before, key), Elements(rest), last, Elements(others));
    }
  }

  /** What has been checked since the key when it comes back at the end. */
  lemma SinceAtReturn(before: seq<Call>, others: seq<Key>, key: Key)
    requires key !in others
    ensures var calls := Crowding(before, others, key);
      Since(calls[..|calls| - 1], key) == Since(before, key) + Elements(others)
  {
    var calls := Crowding(before, others, key);
    assert calls[..|calls| - 1] == before + CallsAt(others, 3);
    SinceOthers(before, others, key);
  }

  lemma CrowdingInOrder(before: seq<Call>, others: seq<Key>, key: Key)
    requires Monotone(before) && forall c :: c in before ==> c.at <= 3
    ensures Monotone(Crowding(before, others, key))
  {
    var calls := Crowding(before, others, key);
    forall i, j ensures InOrder(calls, i, j) {
      if 0 <= i <= j < |before| { assert InOrder(before, i, j); }
    }
  }

  /** The first call of a key is admitted. */
  lemma Newcomer(o: Options, calls: seq<Call>, admitted: seq<bool>, i: nat)
    requires o.kind == Log && o.limit >= 1 && Ran(o, calls, admitted) && Monotone(calls) && i < |calls|
    requires forall j :: 0 <= j < i ==> calls[j].key != calls[i].key
    ensures admitted[i]
  {
    LogIsExact(o, calls, admitted, i);
    assert Charged(o.maxKeys, admitted, calls, i, calls[i].key, calls[i].at - o.WindowMs()) == {};
  }

  /** A call that remembers an admission of its key in the window is refused. */
  lemma Rejected(o: Options, calls: seq<Call>, admitted: seq<bool>, j: nat, i: nat)
    requires o.kind == Log && o.limit == 1 && Ran(o, calls, admitted) && Monotone(calls) && j < i < |calls|
    requires admitted[j] && calls[j].key == calls[i].key && calls[i].at - o.WindowMs() < calls[j].at
    requires Remembers(o.maxKeys, calls, i, j)
    ensures !admitted[i]
  {
    LogIsExact(o, calls, admitted, i);
    ChargedHolds(o, calls, admitted, i, {j});
    SubsetSize({j}, Charged(o.maxKeys, admitted, calls, i, calls[i].key, calls[i].at - o.WindowMs()));
  }

  /** A call that finds its key crowded out is admitted. */
  lemma Evicted(o: Options, calls: seq<Call>, admitted: seq<bool>, i: nat)
    requires o.kind == Log && o.limit >= 1 && Ran(o, calls, admitted) && Monotone(calls) && i < |calls|
    requires Crowded(o.maxKeys, calls[..i], calls[i].key)
    ensures admitted[i]
  {
    LogIsExact(o, calls, admitted, i);
  }

  /** All keys but the first two. */
  lemma OthersAreNew(o: Options, keys: seq<Key>)
    requires Filling(o, keys)
    ensures keys[0] != keys[1] && keys[0] !in keys[2..] && keys[1] !in keys[2..]
    ensures |Elements(keys[2..])| == o.maxKeys - 1
  {
    SetOfDistinct(keys[2..]);
  }

  lemma SinceStart(a: Key, b: Key)
    requires a != b
    ensures Since([Call(a, 0), Call(b, 1)], a) == {b} && Since([Call(a, 0), Call(b, 1)], b) == {}
    ensures Since([Call(a, 0), Call(b, 1), Call(a, 2)], b) == {a}
  {
    SinceOneMore([], Call(a, 0), a);
    SinceOneMore([Call(a, 0)], Call(b, 1), a);
    SinceOneMore([Call(a, 0)], Call(b, 1), b);
    SinceOneMore([Call(a, 0), Call(b, 1)], Call(a, 2), b);
  }

  lemma OneMoreIsFull(a: Key, others: set<Key>, n: nat)
    requires a !in others && |others| == n - 1
    ensures |{a} + others| == n && |{} + others| == n - 1
  {
    assert {a} + others - {a} == others && {} + others == others;
  }

  lemma TracedCrowded(o: Options, keys: seq<Key>)
    requires Filling(o, keys)
    ensures var calls := TracedCalls(keys);
      Crowded(o.maxKeys, calls[..|calls| - 1], keys[1]) && !Crowded(o.maxKeys, calls[..2], keys[0])
  {
    OthersAreNew(o, keys);
    SinceStart(keys[0], keys[1]);
    assert TracedCalls(keys)[..2] == [Call(keys[0], 0), Call(keys[1], 1)];
    SinceAtReturn([Call(keys[0], 0), Call(keys[1], 1), Call(keys[0], 2)], keys[2..], keys[1]);
    OneMoreIsFull(keys[0], Elements(keys[2..]), o.maxKeys);
  }

  lemma UntracedCrowded(o: Options, keys: seq<Key>)
    requires Filling(o, keys)
    ensures var calls := UntracedCalls(keys); !Crowded(o.maxKeys, calls[..|calls| - 1], keys[1])
  {
    OthersAreNew(o, keys);
    SinceStart(keys[0], keys[1]);
    SinceAtReturn([Call(keys[0], 0), Call(keys[1], 1)], keys[2..], keys[1]);
    OneMoreIsFull(keys[0], Elements(keys[2..]), o.maxKeys);
  }

  /** In the run every check is admitted but the third. */
  lemma TracedAnswer(o: Options, keys: seq<Key>, admitted: seq<bool>, i: nat)
    requires Filling(o, keys) && Ran(o, TracedCalls(keys), admitted) && i < |admitted|
    ensures admitted[i] <==> i != 2
  {
    var calls := TracedCalls(keys);
    var last := |calls| - 1;
    OthersAreNew(o, keys);
    CrowdingInOrder([Call(keys[0], 0), Call(keys[1], 1), Call(keys[0], 2)], keys[2..], keys[1]);
    TracedCrowded(o, keys);
    if i == last {
      Evicted(o, calls, admitted, i);
    } else if i == 2 {
      Newcomer(o, calls, admitted, 0);
      Rejected(o, calls, admitted, 0, 2);
    } else {
      if i > 2 { assert calls[i].key == keys[i - 1]; }
      forall j | 0 <= j < i ensures calls[j].key != calls[i].key { if j > 2 { assert calls[j].key == keys[j - 1]; } }
      Newcomer(o, calls, admitted, i);
    }
  }

  /** Without the third every check is admitted but the last. */
  lemma UntracedAnswer(o: Options, keys: seq<Key>, admitted: seq<bool>, i: nat)
    requires Filling(o, keys) && Ran(o, UntracedCalls(keys), admitted) && i < |admitted|
    ensures admitted[i] <==> i != |admitted| - 1
  {
    var calls := UntracedCalls(keys);
    OthersAreNew(o, keys);
    CrowdingInOrder([Call(keys[0], 0), Call(keys[1], 1)], keys[2..], keys[1]);
    UntracedCrowded(o, keys);
    forall j | 0 <= j < |calls| - 1 ensures calls[j].key == keys[j] {}
    if i == |calls| - 1 {
      Newcomer(o, calls, admitted, 1);
      Rejected(o, calls, admitted, 1, i);
    } else {
      Newcomer(o, calls, admitted, i);
    }
  }

  /** Once nothing but call 2 is refused, what is left is the run without it. */
  lemma {:induction false} SelectedButThird<T>(s: seq<T>, flags: seq<bool>, n: nat)
    requires 3 <= n <= |s| == |flags| && forall i :: 0 <= i < n ==> (flags[i] <==> i != 2)
    ensures Selected(s, flags, n) == s[..2] + s[3..n]
  {
    if n == 3 {
      SelectAll(s, flags, 2);
    } else {
      SelectedButThird(s, flags, n - 1);
      assert s[3..n] == s[3..n - 1] + [s[n - 1]];
    }
  }

  lemma TracedIsUntraced(keys: seq<Key>, admitted: seq<bool>)
    requires |keys| >= 2 && |admitted| == |TracedCalls(keys)| && forall i :: 0 <= i < |admitted| ==> (admitted[i] <==> i != 2)
    ensures Select(TracedCalls(keys), admitted) == UntracedCalls(keys)
  {
    var calls := TracedCalls(keys);
    SelectedButThird(calls, admitted, |calls|);
    assert calls[..2] == [Call(keys[0], 0), Call(keys[1], 1)];
    assert calls[3..] == CallsAt(keys[2..], 3) + [Call(keys[1], 4)];
  }

  /** Whatever the ceiling, a refused call can matter: in the run everything but call 2 is admitted,
      and without call 2 the last one is refused. */
  lemma RefusedCallCanMatter(o: Options, keys: seq<Key>) returns (admitted: seq<bool>, again: seq<bool>)
    requires Filling(o, keys)
    ensures Ran(o, TracedCalls(keys), admitted) && forall i :: 0 <= i < |admitted| ==> (admitted[i] <==> i != 2)
    ensures Ran(o, Select(TracedCalls(keys), admitted), again)
    ensures |again| >= 1 && forall i :: 0 <= i < |again| ==> (again[i] <==> i != |again| - 1)
  {
    admitted := RunExists(o, TracedCalls(keys));
    forall i | 0 <= i < |admitted| ensures admitted[i] <==> i != 2 { TracedAnswer(o, keys, admitted, i); }
    TracedIsUntraced(keys, admitted);
    again := RunExists(o, UntracedCalls(keys));
    forall i | 0 <= i < |again| ensures again[i] <==> i != |again| - 1 { UntracedAnswer(o, keys, again, i); }
  }

  // ----- the registration budget -----

  /** Origins whose throttle keys are distinct, one more than the map holds. */
  ghost predicate Origins(throttle: string -> string, origins: seq<string>) {
    && |origins| == MAX_THROTTLE_KEYS + 1
    && forall i, j {:trigger throttle(origins[i]), throttle(origins[j])} ::
         0 <= i < j < |origins| ==> throttle(origins[i]) != throttle(origins[j])
  }

  /** A tenant's requests from them, as the calls above. */
  function TracedRequests(tenant: string, origins: seq<string>): (rs: seq<Request>)
    requires |origins| >= 2
    ensures |rs| == |origins| + 2
  {
    [Request(tenant, origins[0], 0), Request(tenant, origins[1], 1), Request(tenant, origins[0], 2)]
    + seq(|origins| - 2, i requires 0 <= i < |origins| - 2 => Request(tenant, origins[i + 2], 3))
    + [Request(tenant, origins[1], 4)]
  }

  function AddressKeys(throttle: string -> string, tenant: string, origins: seq<string>): (keys: seq<Key>)
    ensures |keys| == |origins| && forall i :: 0 <= i < |keys| ==> keys[i] == tenant + ":" + throttle(origins[i])
  {
    seq(|origins|, i requires 0 <= i < |origins| => tenant + ":" + throttle(origins[i]))
  }

  lemma AddressKeysDiffer(throttle: string -> string, tenant: string, origins: seq<string>)
    requires Origins(throttle, origins)
    ensures Distinct(AddressKeys(throttle, tenant, origins))
  {
    var keys := AddressKeys(throttle, tenant, origins);
    forall i, j | 0 <= i < j < |keys| ensures keys[i] != keys[j] {
      var prefix := tenant + ":";
      assert keys[i][|prefix|..] == throttle(origins[i]) && keys[j][|prefix|..] == throttle(origins[j]);
    }
  }

  lemma RequestsAreTraced(throttle: string -> string, tenant: string, origins: seq<string>)
    requires |origins| >= 2
    ensures AddressCalls(throttle, TracedRequests(tenant, origins)) == TracedCalls(AddressKeys(throttle, tenant, origins))
    ensures InTime(TracedRequests(tenant, origins))
  {
    var rs, keys := TracedRequests(tenant, origins), AddressKeys(throttle, tenant, origins);
    var calls := TracedCalls(keys);
    forall i | 0 <= i < |rs| ensures AddressCall(throttle, rs[i]) == calls[i] {}
    forall i, j ensures InOrder(TenantCalls(rs), i, j) {}
  }

  /** The budget at its own ceiling: with one registration an address and window, deleting the one
      request that its address refused has another one refused, which then never reaches the tenant. */
  lemma RefusedAddressCanMatter(throttle: string -> string, perTenant: Options, windowSeconds: Positive,
                                tenant: string, origins: seq<string>)
    returns (own: seq<bool>, all: seq<bool>, own': seq<bool>, all': seq<bool>)
    requires Origins(throttle, origins)
    ensures var rs, perOrigin := TracedRequests(tenant, origins), OptionsFor(1, windowSeconds);
      && InTime(rs) && |own| == |rs|
      && BudgetRan(throttle, perOrigin, perTenant, rs, own, all)
      && (forall i :: 0 <= i < |own| ==> (own[i] <==> i != 2))
      && BudgetRan(throttle, perOrigin, perTenant, Select(rs, own), own', all')
      && (forall i :: 0 <= i < |own'| ==> (own'[i] <==> i != |own'| - 1))
    ensures all' != all
  {
    var rs, o, keys := TracedRequests(tenant, origins), OptionsFor(1, windowSeconds), AddressKeys(throttle, tenant, origins);
    AddressKeysDiffer(throttle, tenant, origins);
    RequestsAreTraced(throttle, tenant, origins);
    own, own' := RefusedCallCanMatter(o, keys);
    all := RunExists(perTenant, TenantCalls(Select(rs, own)));
    AddressCallsOfSelected(throttle, rs, own, |rs|);
    all' := RunExists(perTenant, TenantCalls(Select(Select(rs, own), own')));
    TenantAnswersAsBefore(throttle, o, perTenant, rs, own, all, own', all');
    assert !own'[|own'| - 1];
  }

  /** Ten thousand and one IPv4 addresses. */
  function SomeAddresses(): (origins: seq<string>)
    ensures |origins| == MAX_THROTTLE_KEYS + 1
    ensures forall i :: 0 <= i < |origins| ==> origins[i] == T.QuadText(10, 0, i / 256, i % 256)
  {
    seq(MAX_THROTTLE_KEYS + 1, i requires 0 <= i => T.QuadText(10, 0, i / 256, i % 256))
  }

  /** There are such origins under the keys that client addresses have. */
  lemma AddressesDiffer()
    ensures Origins(ip => T.ThrottleOrigin(ip), SomeAddresses())
  {
    var origins := SomeAddresses();
    forall i, j | 0 <= i < j < |origins| ensures T.ThrottleOrigin(origins[i]) != T.ThrottleOrigin(origins[j]) {
      T.IPv4IsItsKey(origins[i], 10, 0, i / 256, i % 256);
      T.IPv4IsItsKey(origins[j], 10, 0, j / 256, j % 256);
      if origins[i] == origins[j] { T.QuadTextDecides(10, 0, i / 256, i % 256, 10, 0, j / 256, j % 256); }
    }
  }
}
