/** `mcpRegistrationBudget`: two limiters in a row, of which the second sees only what the first
    has admitted. */
module RegistrationBudget {
  import opened Limits
  import opened Recency
  import opened Refusals
  import opened Selection
  import opened Sets
  import opened SlidingLogRuns
  import opened SlidingWindows
  import opened Strings

  datatype Request = Request(tenantId: string, origin: string, at: int)

  datatype Scope = Address | Tenant

  datatype Registration = Allowed | Refused(scope: Scope, retryAfterSeconds: int) {
    /** The address let the request through to its tenant. */
    predicate PastAddress() { Allowed? || scope == Tenant }
  }

  function AddressCall(throttle: string -> string, r: Request): Call {
    Call(r.tenantId + ":" + throttle(r.origin), r.at)
  }

  /** A budget is one tenant's and one address's: a tenant's id is a UUID, which holds no colon. */
  lemma AddressKeysDecide(throttle: string -> string, a: Request, b: Request)
    requires ':' !in a.tenantId && ':' !in b.tenantId
    ensures AddressCall(throttle, a).key == AddressCall(throttle, b).key
       <==> a.tenantId == b.tenantId && throttle(a.origin) == throttle(b.origin)
  {
    if AddressCall(throttle, a).key == AddressCall(throttle, b).key {
      FirstSeparator(a.tenantId, throttle(a.origin), b.tenantId, throttle(b.origin), ':');
    }
  }

  function TenantCall(r: Request): Call { Call(r.tenantId, r.at) }

  function AddressCalls(throttle: string -> string, rs: seq<Request>): (calls: seq<Call>)
    ensures |calls| == |rs| && forall i :: 0 <= i < |rs| ==> calls[i] == AddressCall(throttle, rs[i])
  {
    seq(|rs|, i requires 0 <= i < |rs| => AddressCall(throttle, rs[i]))
  }

  function TenantCalls(rs: seq<Request>): (calls: seq<Call>)
    ensures |calls| == |rs| && forall i :: 0 <= i < |rs| ==> calls[i] == TenantCall(rs[i])
  {
    seq(|rs|, i requires 0 <= i < |rs| => TenantCall(rs[i]))
  }

  lemma OneMoreRequest(throttle: string -> string, rs: seq<Request>, own: seq<bool>, r: Request, allowed: bool)
    requires |rs| == |own|
    ensures AddressCalls(throttle, rs + [r]) == AddressCalls(throttle, rs) + [AddressCall(throttle, r)]
    ensures TenantCalls(Select(rs + [r], own + [allowed]))
         == TenantCalls(Select(rs, own)) + if allowed then [TenantCall(r)] else []
  {
    SelectOneMore(rs, own, r, allowed);
  }

  /** The requests of a run, what the addresses' limiter answered, and what the tenants' limiter
      answered those it was asked. */
  ghost predicate BudgetRan(throttle: string -> string, perOrigin: Options, perTenant: Options,
                            rs: seq<Request>, own: seq<bool>, all: seq<bool>) {
    && Ran(perOrigin, AddressCalls(throttle, rs), own)
    && Ran(perTenant, TenantCalls(Select(rs, own)), all)
  }

  /** The histories of the two limiters are those of a run over the requests. */
  ghost predicate InStep(throttle: string -> string, perOrigin: Options, perTenant: Options, rs: seq<Request>,
                         ownCalls: seq<Call>, own: seq<bool>, allCalls: seq<Call>, all: seq<bool>) {
    && |own| == |rs| && BudgetRan(throttle, perOrigin, perTenant, rs, own, all)
    && ownCalls == AddressCalls(throttle, rs) && allCalls == TenantCalls(Select(rs, own))
  }

  lemma StaysInStep(throttle: string -> string, perOrigin: Options, perTenant: Options, rs: seq<Request>,
                    ownCalls: seq<Call>, own: seq<bool>, allCalls: seq<Call>, all: seq<bool>, r: Request, past: bool,
                    ownCalls': seq<Call>, allCalls': seq<Call>, all': seq<bool>)
    requires InStep(throttle, perOrigin, perTenant, rs, ownCalls, own, allCalls, all)
    requires ownCalls' == ownCalls + [AddressCall(throttle, r)]
    requires allCalls' == allCalls + if past then [TenantCall(r)] else []
    requires Ran(perOrigin, ownCalls', own + [past]) && Ran(perTenant, allCalls', all')
    ensures InStep(throttle, perOrigin, perTenant, rs + [r], ownCalls', own + [past], allCalls', all')
  {
    OneMoreRequest(throttle, rs, own, r, past);
  }

  lemma StartsInStep(throttle: string -> string, perOrigin: Options, perTenant: Options, own: seq<bool>, all: seq<bool>)
    requires Ran(perOrigin, [], own) && Ran(perTenant, [], all)
    ensures InStep(throttle, perOrigin, perTenant, [], [], own, [], all)
  {}

  class McpRegistrationBudget {
    const throttle: string -> string
    const origins: Limiter
    const tenants: Limiter
    /** Every request so far. */
    ghost var requests: seq<Request>

    /** The limiters' histories are a run of the budget over the requests so far. */
    ghost predicate Valid()
      reads this, origins.Base(), origins.Objects(), tenants.Base(), tenants.Objects()
    {
      && Apart(origins, tenants) && Outside()
      && InStepWith(requests)
    }

    constructor (perOrigin: Options, perTenant: Options, throttle: string -> string)
      requires perOrigin == OptionsFor(perOrigin.limit, perOrigin.windowSeconds)
      requires perTenant == OptionsFor(perTenant.limit, perTenant.windowSeconds)
      ensures Valid() && this.throttle == throttle && requests == []
      ensures origins.Settings() == perOrigin && tenants.Settings() == perTenant
    {
      this.throttle, requests := throttle, [];
      var o, t := TwoWindows(perOrigin, perTenant);
      origins, tenants := o, t;
      StartsInStep(throttle, perOrigin, perTenant, o.Admitted(), t.Admitted());
    }

    /** The limiter of the scope refused at its latest call, with these seconds. */
    ghost predicate AnswersFor(r: Registration)
      requires r.Refused?
      reads origins.Base(), tenants.Base()
    {
      var l := if r.scope == Address then origins else tenants;
      Latest(l.Settings(), l.Calls(), Decision(false, r.retryAfterSeconds))
    }

    /** The address is asked first, and the tenant only when the address admits. */
    method Ask(request: Request) returns (r: Registration)
      requires Apart(origins, tenants)
      modifies origins.Objects(), tenants.Objects()
      ensures Apart(origins, tenants)
      ensures fresh(origins.Objects() - old(origins.Objects())) && fresh(tenants.Objects() - old(tenants.Objects()))
      ensures origins.Calls() == old(origins.Calls()) + [AddressCall(throttle, request)]
      ensures origins.Admitted() == old(origins.Admitted()) + [r.PastAddress()]
      ensures tenants.Calls() == old(tenants.Calls()) + if r.PastAddress() then [TenantCall(request)] else []
      ensures tenants.Admitted() == old(tenants.Admitted()) + if r.PastAddress() then [r.Allowed?] else []
      ensures r.Refused? ==> AnswersFor(r)
    {
      var own := CheckBeside(origins, tenants, request.tenantId + ":" + throttle(request.origin), request.at);
      if !own.allowed { return Refused(Address, own.retryAfterSeconds); }
      var all := CheckBeside(tenants, origins, request.tenantId, request.at);
      return if all.allowed then Allowed else Refused(Tenant, all.retryAfterSeconds);
    }

    /** The budget is no part of its limiters. */
    ghost predicate Outside()
      reads origins.Base(), tenants.Base()
    {
      && this !in origins.Objects() && this !in tenants.Objects()
      && this != origins.Base() && this != tenants.Base()
    }

    ghost predicate InStepWith(rs: seq<Request>)
      reads origins.Base(), tenants.Base()
    {
      InStep(throttle, origins.Settings(), tenants.Settings(), rs, origins.Calls(), origins.Admitted(),
             tenants.Calls(), tenants.Admitted())
    }

    /** The request has been asked: it goes into the history. */
    ghost method Remember(request: Request)
      requires Apart(origins, tenants) && Outside()
      requires InStepWith(requests + [request])
      modifies this`requests
      ensures Valid() && requests == old(requests) + [request]
      ensures origins.Objects() == old(origins.Objects()) && tenants.Objects() == old(tenants.Objects())
      ensures origins.Admitted() == old(origins.Admitted()) && tenants.Admitted() == old(tenants.Admitted())
    {
      requests := requests + [request];
    }

    /** A refusal carries the seconds of the limiter it names, at the request's place in the run. */
    lemma RefusalSays(r: Registration)
      requires Valid() && r.Refused? && AnswersFor(r)
      ensures |origins.Admitted()| == |requests|
      ensures var (o, calls) := if r.scope == Address then (origins.Settings(), AddressCalls(throttle, requests))
                                else (tenants.Settings(), TenantCalls(Select(requests, origins.Admitted())));
        && calls != [] && AnswerOf(o, calls, |calls| - 1) == Decision(false, r.retryAfterSeconds)
        && 1 <= r.retryAfterSeconds <= o.windowSeconds
    {
      var l := if r.scope == Address then origins else tenants;
      LatestMeans(l.Settings(), l.Calls(), Decision(false, r.retryAfterSeconds));
      RefusalInWindow(l.Settings(), l.Calls(), |l.Calls()| - 1);
    }

    /** One request, which the run of the budget goes on with. */
    method Check(tenantId: string, origin: string, now: int) returns (r: Registration)
      requires Valid()
      modifies this`requests, origins.Objects(), tenants.Objects()
      ensures Valid() && requests == old(requests) + [Request(tenantId, origin, now)]
      ensures fresh(origins.Objects() - old(origins.Objects())) && fresh(tenants.Objects() - old(tenants.Objects()))
      ensures origins.Admitted() == old(origins.Admitted()) + [r.PastAddress()]
      ensures tenants.Admitted() == old(tenants.Admitted()) + if r.PastAddress() then [r.Allowed?] else []
      ensures r.Refused? ==> AnswersFor(r)
    {
      var request := Request(tenantId, origin, now);
      ghost var ownCalls, own, allCalls, all := origins.Calls(), origins.Admitted(), tenants.Calls(), tenants.Admitted();
      r := Ask(request);
      HistoryRan(origins);
      HistoryRan(tenants);
      StaysInStep(throttle, origins.Settings(), tenants.Settings(), requests, ownCalls, own, allCalls, all, request,
                  r.PastAddress(), origins.Calls(), tenants.Calls(), tenants.Admitted());
      Remember(request);
    }
  }

  // ----- runs -----

  ghost predicate InTime(rs: seq<Request>) { Monotone(TenantCalls(rs)) }

  /** Whether request `i` was allowed: both limiters admitted it. */
  predicate AllowedAt(own: seq<bool>, all: seq<bool>, i: nat)
    requires i < |own| && |all| == Position(own, |own|)
  {
    PositionsAscend(own, i, |own|);
    own[i] && all[Position(own, i)]
  }

  lemma TenantsInTime(rs: seq<Request>, own: seq<bool>)
    requires InTime(rs) && |own| == |rs|
    ensures Monotone(TenantCalls(Select(rs, own)))
  {
    SelectedMonotone(TenantCalls(rs), own);
    CallsOfSelected(rs, own, |rs|);
  }

  /** Turning requests into tenant calls commutes with selecting. */
  lemma {:induction false} CallsOfSelected(rs: seq<Request>, flags: seq<bool>, n: nat)
    requires n <= |rs| == |flags|
    ensures TenantCalls(Selected(rs, flags, n)) == Selected(TenantCalls(rs), flags, n)
  {
    if n > 0 { CallsOfSelected(rs, flags, n - 1); }
  }

  lemma {:induction false} AddressCallsOfSelected(throttle: string -> string, rs: seq<Request>, flags: seq<bool>, n: nat)
    requires n <= |rs| == |flags|
    ensures AddressCalls(throttle, Selected(rs, flags, n)) == Selected(AddressCalls(throttle, rs), flags, n)
  {
    if n > 0 { AddressCallsOfSelected(throttle, rs, flags, n - 1); }
  }

  lemma AddressesInTime(throttle: string -> string, rs: seq<Request>)
    requires InTime(rs)
    ensures Monotone(AddressCalls(throttle, rs))
  {
    forall i, j ensures InOrder(AddressCalls(throttle, rs), i, j) {
      assert InOrder(TenantCalls(rs), i, j);
    }
  }

  /** No window holds more allowed requests of a tenant than its limiter can admit. */
  lemma TenantBound(throttle: string -> string, perOrigin: Options, perTenant: Options,
                    rs: seq<Request>, own: seq<bool>, all: seq<bool>, tenant: string, end: int)
    requires BudgetRan(throttle, perOrigin, perTenant, rs, own, all) && InTime(rs)
    requires var calls := TenantCalls(Select(rs, own));
      Remembered(perTenant.maxKeys, calls, Within(all, calls, tenant, end - perTenant.WindowMs(), end))
    ensures |set i: nat | i < |rs| && AllowedAt(own, all, i) && rs[i].tenantId == tenant
                          && end - perTenant.WindowMs() < rs[i].at <= end| <= Most(perTenant)
  {
    var from, calls := end - perTenant.WindowMs(), TenantCalls(Select(rs, own));
    var allowed := set i: nat | i < |rs| && AllowedAt(own, all, i) && rs[i].tenantId == tenant && from < rs[i].at <= end;
    TenantsInTime(rs, own);
    WindowHoldsAtMost(perTenant, calls, all, tenant, end);
    forall i | i in allowed ensures own[i] && Position(own, i) in Within(all, calls, tenant, from, end) {
      SelectedAt(rs, own, i, |rs|);
    }
    PositionsCount(own, allowed, Within(all, calls, tenant, from, end));
  }

  /** No window holds more allowed requests of a tenant and address than theirs can. */
  lemma AddressBound(throttle: string -> string, perOrigin: Options, perTenant: Options,
                     rs: seq<Request>, own: seq<bool>, all: seq<bool>, key: Key, end: int)
    requires BudgetRan(throttle, perOrigin, perTenant, rs, own, all) && InTime(rs)
    requires var calls := AddressCalls(throttle, rs);
      Remembered(perOrigin.maxKeys, calls, Within(own, calls, key, end - perOrigin.WindowMs(), end))
    ensures |set i: nat | i < |rs| && AllowedAt(own, all, i) && AddressCall(throttle, rs[i]).key == key
                          && end - perOrigin.WindowMs() < rs[i].at <= end| <= Most(perOrigin)
  {
    var from, calls := end - perOrigin.WindowMs(), AddressCalls(throttle, rs);
    var allowed := set i: nat | i < |rs| && AllowedAt(own, all, i) && AddressCall(throttle, rs[i]).key == key
                                && from < rs[i].at <= end;
    AddressesInTime(throttle, rs);
    WindowHoldsAtMost(perOrigin, calls, own, key, end);
    SubsetSize(allowed, Within(own, calls, key, from, end));
  }

  /** When a request that its address refused is worth repeating: no sooner than a second before the
      answer says, and at the latest when it says, unless the counter's cap binds. */
  lemma AddressRetryAfter(throttle: string -> string, perOrigin: Options, perTenant: Options,
                          rs: seq<Request>, own: seq<bool>, all: seq<bool>, i: nat, m: nat)
    requires BudgetRan(throttle, perOrigin, perTenant, rs, own, all) && InTime(rs) && perOrigin.limit >= 1
    requires i < m < |rs| && AddressCall(throttle, rs[m]).key == AddressCall(throttle, rs[i]).key
    requires Remembers(perOrigin.maxKeys, AddressCalls(throttle, rs), m, i)
    requires forall j :: i <= j < m && AddressCall(throttle, rs[j]).key == AddressCall(throttle, rs[i]).key ==> !own[j]
    ensures var s := AnswerOf(perOrigin, AddressCalls(throttle, rs), i).retryAfterSeconds;
      && (rs[m].at <= rs[i].at + 1000 * (s - 1) ==> !own[m])
      && (rs[m].at >= rs[i].at + 1000 * s && Unbound(perOrigin, AddressCalls(throttle, rs), own, i) ==> own[m])
  {
    AddressesInTime(throttle, rs);
    RetryAfterHolds(perOrigin, AddressCalls(throttle, rs), own, i, m);
  }

  /** The same for a request that its tenant refused: `p` and `q` count the requests that passed
      their addresses. */
  lemma TenantRetryAfter(throttle: string -> string, perOrigin: Options, perTenant: Options,
                         rs: seq<Request>, own: seq<bool>, all: seq<bool>, i: nat, m: nat)
    requires BudgetRan(throttle, perOrigin, perTenant, rs, own, all) && InTime(rs) && perTenant.limit >= 1
    requires i < m < |rs| && own[i] && own[m] && rs[m].tenantId == rs[i].tenantId
    requires Position(own, i) < Position(own, m) < |all|
    requires Remembers(perTenant.maxKeys, TenantCalls(Select(rs, own)), Position(own, m), Position(own, i))
    requires forall j :: i <= j < m && own[j] && rs[j].tenantId == rs[i].tenantId ==> !AllowedAt(own, all, j)
    ensures var (calls, p, q) := (TenantCalls(Select(rs, own)), Position(own, i), Position(own, m));
      var s := AnswerOf(perTenant, calls, p).retryAfterSeconds;
      && (rs[m].at <= rs[i].at + 1000 * (s - 1) ==> !all[q])
      && (rs[m].at >= rs[i].at + 1000 * s && Unbound(perTenant, calls, all, p) ==> all[q])
  {
    var (calls, p, q) := (TenantCalls(Select(rs, own)), Position(own, i), Position(own, m));
    TenantsInTime(rs, own);
    SelectedAt(rs, own, i, |rs|);
    SelectedAt(rs, own, m, |rs|);
    forall k | p <= k < q && calls[k].key == calls[p].key ensures !all[k] {
      var j := SelectedFrom(rs, own, |rs|, k);
      if j < i { PositionsAscend(own, j, i); }
      if j >= m { PositionsAscend(own, m, j); }
      assert !AllowedAt(own, all, j);
    }
    RetryAfterHolds(perTenant, calls, all, p, q);
  }

  lemma {:induction false} FullPositions(flags: seq<bool>, n: nat)
    requires n <= |flags|
    ensures Position(flags, n) == n <==> forall i :: 0 <= i < n ==> flags[i]
  {
    if n > 0 { FullPositions(flags, n - 1); }
  }

  /** The tenants' limiter answers as before exactly when every kept request still reaches it. */
  lemma TenantAnswersAsBefore(throttle: string -> string, perOrigin: Options, perTenant: Options,
                              rs: seq<Request>, own: seq<bool>, all: seq<bool>, own': seq<bool>, all': seq<bool>)
    requires BudgetRan(throttle, perOrigin, perTenant, rs, own, all)
    requires BudgetRan(throttle, perOrigin, perTenant, Select(rs, own), own', all')
    ensures all' == all <==> forall p :: 0 <= p < |own'| ==> own'[p]
  {
    var kept := Select(rs, own);
    FullPositions(own', |own'|);
    if forall p :: 0 <= p < |own'| ==> own'[p] {
      SelectAll(kept, own', |kept|);
      assert kept[..|kept|] == kept;
      AnswersAreUnique(perTenant, TenantCalls(kept), all, all');
    }
  }

  /** Requests an address's budget refused spend nothing: where no address is crowded out, the run
      without them has every other request admitted by its address again, and answered by its
      tenant as before. */
  lemma RefusedAddressesSpendNothing(throttle: string -> string, perOrigin: Options, perTenant: Options,
                                     rs: seq<Request>, own: seq<bool>, all: seq<bool>, own': seq<bool>, all': seq<bool>)
    requires BudgetRan(throttle, perOrigin, perTenant, rs, own, all) && InTime(rs)
    requires BudgetRan(throttle, perOrigin, perTenant, Select(rs, own), own', all')
    requires var calls := AddressCalls(throttle, rs);
      forall key :: Undisturbed(perOrigin.maxKeys, calls, Select(calls, own), key)
    ensures forall p :: 0 <= p < |own'| ==> own'[p]
    ensures all' == all
  {
    AddressesInTime(throttle, rs);
    AddressCallsOfSelected(throttle, rs, own, |rs|);
    RefusedCallsLeaveNoTrace(perOrigin, AddressCalls(throttle, rs), own, own');
    TenantAnswersAsBefore(throttle, perOrigin, perTenant, rs, own, all, own', all');
  }

  /** In general, deleting the requests their addresses refused changes none of the tenants'
      answers if and only if each kept request finds room at its address among the kept ones. */
  lemma SpendNothingIff(throttle: string -> string, perOrigin: Options, perTenant: Options,
                        rs: seq<Request>, own: seq<bool>, all: seq<bool>, own': seq<bool>, all': seq<bool>)
    requires BudgetRan(throttle, perOrigin, perTenant, rs, own, all) && InTime(rs)
    requires BudgetRan(throttle, perOrigin, perTenant, Select(rs, own), own', all')
    ensures all' == all
       <==> forall p :: 0 <= p < |Select(rs, own)| ==> RoomAt(perOrigin, AddressCalls(throttle, Select(rs, own)), p)
  {
    AddressesInTime(throttle, rs);
    AddressCallsOfSelected(throttle, rs, own, |rs|);
    NoTraceIff(perOrigin, AddressCalls(throttle, rs), own, own');
    TenantAnswersAsBefore(throttle, perOrigin, perTenant, rs, own, all, own', all');
  }
}
