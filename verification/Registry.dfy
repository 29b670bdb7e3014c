/** `ModuleRegistry`: registration, the dependency order, and the start and stop lifecycle. */
module Registry {
  import opened InsertionMaps

  datatype Module = Module(name: string, dependsOn: seq<string>)

  type Modules = InsertionMap<string, Module>

  /** Every module is held under its own name. */
  ghost predicate WellNamed(ms: Modules) {
    ms.Valid() && forall n :: n in ms.held ==> ms.held[n].name == n
  }

  // ----- what the order has to be -----

  ghost predicate AllKnown(ms: Modules) {
    forall n, d {:trigger d in ms.held[n].dependsOn} :: n in ms.held && d in ms.held[n].dependsOn ==> d in ms.held
  }

  /** `b` is a named dependency of the registered module `a`. */
  ghost predicate Needs(ms: Modules, a: string, b: string) {
    a in ms.held && b in ms.held[a].dependsOn
  }

  ghost predicate Chain(ms: Modules, c: seq<string>) {
    forall i {:trigger c[i + 1]} :: 0 <= i < |c| - 1 ==> Needs(ms, c[i], c[i + 1])
  }

  ghost predicate IsCycle(ms: Modules, c: seq<string>) {
    |c| >= 2 && c[0] == c[|c| - 1] && Chain(ms, c)
  }

  ghost predicate Acyclic(ms: Modules) { forall c :: !IsCycle(ms, c) }

  function Names(order: seq<Module>): set<string> { set m | m in order :: m.name }

  /** Every module comes after all its dependencies. */
  ghost predicate Closed(order: seq<Module>) {
    forall i, d {:trigger d in order[i].dependsOn} ::
      0 <= i < |order| && d in order[i].dependsOn ==> d in Names(order[..i])
  }

  ghost predicate NoRepeats(order: seq<Module>) {
    forall i, j :: 0 <= i < j < |order| ==> order[i].name != order[j].name
  }

  ghost predicate Registered(ms: Modules, order: seq<Module>) {
    forall m :: m in order ==> m.name in ms.held && ms.held[m.name] == m
  }

  // ----- the depth-first search -----

  datatype Mark = Visiting | Done

  datatype Failure =
    | Cycle(trail: seq<string>)
    | UnknownDependency(dependent: string, name: string)

  /** What a reported failure says is so. */
  ghost predicate Justified(ms: Modules, f: Failure) {
    match f
    case Cycle(trail) => IsCycle(ms, trail)
    case UnknownDependency(dependent, name) => Needs(ms, dependent, name) && name !in ms.held
  }

  function IndexOf(s: seq<string>, x: string): (i: nat)
    requires x in s
    ensures i < |s| && s[i] == x && forall k :: 0 <= k < i ==> s[k] != x
  {
    if s[0] == x then 0 else IndexOf(s[1..], x) + 1
  }

  /** The names on the trail are being visited, those in the order are done. */
  ghost predicate Coloured(ms: Modules, state: map<string, Mark>, ordered: seq<Module>, trail: seq<string>) {
    && state.Keys <= ms.held.Keys
    && (forall n :: n in state ==> if state[n] == Visiting then n in trail && n !in Names(ordered) else n in Names(ordered))
    && (forall n :: n in trail ==> n in state && state[n] == Visiting)
    && (forall n :: n in Names(ordered) ==> n in state)
  }

  ghost predicate InOrder(ms: Modules, ordered: seq<Module>) {
    Registered(ms, ordered) && NoRepeats(ordered) && Closed(ordered)
  }

  lemma NotOnTrail(ms: Modules, state: map<string, Mark>, ordered: seq<Module>, trail: seq<string>, name: string)
    requires Coloured(ms, state, ordered, trail) && name !in state
    ensures name !in trail
  {}

  lemma Enter(ms: Modules, state: map<string, Mark>, ordered: seq<Module>, trail: seq<string>, name: string)
    requires Coloured(ms, state, ordered, trail) && name in ms.held && name !in state
    ensures Coloured(ms, state[name := Visiting], ordered, trail + [name])
  {}

  lemma Leave(ms: Modules, state: map<string, Mark>, ordered: seq<Module>, trail: seq<string>, m: Module)
    requires Coloured(ms, state, ordered, trail + [m.name]) && m.name !in trail && m.name in ms.held
    ensures Coloured(ms, state[m.name := Done], ordered + [m], trail)
  {
    var all := ordered + [m];
    assert Names(all) == Names(ordered) + {m.name};
    assert m.name in trail + [m.name];
    forall n | n in trail ensures n in trail + [m.name] {}
  }

  /** A module whose dependencies are all in the order can be put at its end. */
  lemma Place(ms: Modules, ordered: seq<Module>, m: Module)
    requires InOrder(ms, ordered) && m.name in ms.held && ms.held[m.name] == m
    requires m.name !in Names(ordered) && (forall d :: d in m.dependsOn ==> d in Names(ordered))
    ensures InOrder(ms, ordered + [m])
  {
    var all := ordered + [m];
    forall i, d | 0 <= i < |all| && d in all[i].dependsOn ensures d in Names(all[..i]) {
      if i < |ordered| {
        assert all[..i] == ordered[..i];
      } else {
        assert all[..i] == ordered;
      }
    }
    forall i | 0 <= i < |ordered| ensures ordered[i].name != m.name {
      assert ordered[i] in ordered;
    }
  }

  /** Everything the module depends on is in the order. */
  ghost predicate Ready(m: Module, ordered: seq<Module>) { forall d :: d in m.dependsOn ==> d in Names(ordered) }

  /** Where the next name to visit comes from: what is registered, or what the last name of the trail
      depends on. */
  ghost function Choices(ms: Modules, trail: seq<string>): seq<string> {
    if trail == [] then ms.order
    else if trail[|trail| - 1] in ms.held then ms.held[trail[|trail| - 1]].dependsOn
    else []
  }

  /** The first name to choose from that is not placed. */
  ghost predicate Leads(ms: Modules, placed: set<string>, trail: seq<string>, name: string) {
    name !in placed && exists i: nat {:trigger Choices(ms, trail)[i]} ::
      i < |Choices(ms, trail)| && Choices(ms, trail)[i] == name && forall k :: 0 <= k < i ==> Choices(ms, trail)[k] in placed
  }

  /** From the first registered name that is not placed, always on to the first dependency that is not. */
  ghost predicate Descent(ms: Modules, placed: set<string>, trail: seq<string>) {
    forall k {:trigger trail[..k]} :: 0 <= k < |trail| ==> Leads(ms, placed, trail[..k], trail[k])
  }

  /** The module at `p` is where the descent past those before it ends. */
  ghost predicate FoundAt(ms: Modules, order: seq<Module>, p: nat)
    requires p < |order|
  {
    exists c :: c != [] && Descent(ms, Names(order[..p]), c) && c[|c| - 1] == order[p].name
  }

  ghost predicate Found(ms: Modules, order: seq<Module>) {
    forall p: nat {:trigger FoundAt(ms, order, p)} :: p < |order| ==> FoundAt(ms, order, p)
  }

  ghost predicate Searched(ms: Modules, ordered: seq<Module>, trail: seq<string>) {
    Found(ms, ordered) && Descent(ms, Names(ordered), trail)
  }

  lemma SearchDown(ms: Modules, ordered: seq<Module>, trail: seq<string>, name: string)
    requires Searched(ms, ordered, trail) && Leads(ms, Names(ordered), trail, name)
    ensures Searched(ms, ordered, trail + [name])
  {
    var all := trail + [name];
    forall k | 0 <= k < |all| ensures Leads(ms, Names(ordered), all[..k], all[k]) {
      if k < |trail| { assert all[..k] == trail[..k] && all[k] == trail[k]; } else { assert all[..k] == trail; }
    }
  }

  lemma SearchUp(ms: Modules, ordered: seq<Module>, trail: seq<string>, m: Module)
    requires Searched(ms, ordered, trail + [m.name]) && m.name !in trail
    ensures Searched(ms, ordered + [m], trail)
  {
    FoundMore(ms, ordered, trail + [m.name], m);
    DescentStands(ms, ordered, trail, m);
  }

  lemma FoundMore(ms: Modules, ordered: seq<Module>, c: seq<string>, m: Module)
    requires Searched(ms, ordered, c) && c != [] && c[|c| - 1] == m.name
    ensures Found(ms, ordered + [m])
  {
    var all := ordered + [m];
    forall p: nat | p < |all| ensures FoundAt(ms, all, p) {
      if p < |ordered| { FoundAlike(ms, ordered, all, p); } else { FoundLast(ms, ordered, c, m); }
    }
  }

  lemma FoundAlike(ms: Modules, a: seq<Module>, b: seq<Module>, p: nat)
    requires a <= b && p < |a| && FoundAt(ms, a, p)
    ensures FoundAt(ms, b, p)
  {
    assert a[..p] == b[..p];
  }

  lemma FoundLast(ms: Modules, ordered: seq<Module>, c: seq<string>, m: Module)
    requires Descent(ms, Names(ordered), c) && c != [] && c[|c| - 1] == m.name
    ensures FoundAt(ms, ordered + [m], |ordered|)
  {
    assert (ordered + [m])[..|ordered|] == ordered;
  }

  lemma DescentStands(ms: Modules, ordered: seq<Module>, trail: seq<string>, m: Module)
    requires Descent(ms, Names(ordered), trail + [m.name]) && m.name !in trail
    ensures Descent(ms, Names(ordered + [m]), trail)
  {
    var down := trail + [m.name];
    assert Names(ordered + [m]) == Names(ordered) + {m.name};
    forall k | 0 <= k < |trail| ensures Leads(ms, Names(ordered + [m]), trail[..k], trail[k]) {
      assert down[..k] == trail[..k] && down[k] == trail[k];
    }
  }

  class Resolution {
    const modules: Modules
    var state: map<string, Mark>
    var ordered: seq<Module>

    constructor (modules: Modules)
      ensures this.modules == modules && state == map[] && ordered == []
    {
      this.modules, state, ordered := modules, map[], [];
    }

    ghost predicate Valid(trail: seq<string>)
      reads this
    {
      && WellNamed(modules) && Chain(modules, trail)
      && Coloured(modules, state, ordered, trail) && InOrder(modules, ordered)
    }

    /** The next choice is visited: in place already, or found by going on with the search. */
    method Visit(name: string, trail: seq<string>, ghost i: nat) returns (failure: Option<Failure>)
      requires Valid(trail) && (trail == [] ==> name in modules.held)
      requires trail != [] ==> Needs(modules, trail[|trail| - 1], name)
      requires Searched(modules, ordered, trail)
      requires i < |Choices(modules, trail)| && Choices(modules, trail)[i] == name && Placed(Choices(modules, trail), i, ordered)
      modifies this
      ensures failure.Some? ==> Justified(modules, failure.value)
      ensures failure == None ==> Valid(trail) && name in Names(ordered) && old(ordered) <= ordered
      ensures failure == None ==> Searched(modules, ordered, trail)
      ensures old(state.Keys) <= state.Keys <= modules.held.Keys
      decreases |modules.held.Keys - state.Keys|, 2
    {
      if name in state {
        failure := Revisit(name, trail);
      } else if name !in modules.held {
        failure := Some(UnknownDependency(if trail == [] then name else trail[|trail| - 1], name));
      } else {
        NotPlaced(modules, state, ordered, trail, name, i);
        failure := Explore(modules.held[name], trail);
      }
    }

    /** A done name needs nothing more; one still being visited closes a cycle. */
    method Revisit(name: string, trail: seq<string>) returns (failure: Option<Failure>)
      requires Valid(trail) && name in state
      requires trail != [] ==> Needs(modules, trail[|trail| - 1], name)
      ensures failure.Some? ==> Justified(modules, failure.value)
      ensures failure == None ==> name in Names(ordered)
    {
      if state[name] == Done { return None; }
      var fullTrail := trail + [name];
      var cycleStart := IndexOf(fullTrail, name);
      TrailCycle(modules, trail, name);
      return Some(Cycle(fullTrail[cycleStart..]));
    }

    method Explore(m: Module, trail: seq<string>) returns (failure: Option<Failure>)
      requires Valid(trail) && m.name in modules.held && modules.held[m.name] == m && m.name !in state
      requires trail != [] ==> Needs(modules, trail[|trail| - 1], m.name)
      requires Searched(modules, ordered, trail) && Leads(modules, Names(ordered), trail, m.name)
      modifies this
      ensures failure.Some? ==> Justified(modules, failure.value)
      ensures failure == None ==> Valid(trail) && m.name in Names(ordered) && old(ordered) <= ordered
      ensures failure == None ==> Searched(modules, ordered, trail)
      ensures old(state.Keys) <= state.Keys <= modules.held.Keys
      decreases |modules.held.Keys - state.Keys|, 1
    {
      NotOnTrail(modules, state, ordered, trail, m.name);
      failure := Enclose(m, trail);
      if failure == None { Finish(m, trail); }
    }

    /** The module is marked and its dependencies are visited, with it on the trail. */
    method Enclose(m: Module, trail: seq<string>) returns (failure: Option<Failure>)
      requires Valid(trail) && m.name in modules.held && modules.held[m.name] == m && m.name !in state
      requires trail != [] ==> Needs(modules, trail[|trail| - 1], m.name)
      requires Searched(modules, ordered, trail) && Leads(modules, Names(ordered), trail, m.name)
      modifies this
      ensures failure.Some? ==> Justified(modules, failure.value)
      ensures failure == None ==> Valid(trail + [m.name]) && old(ordered) <= ordered
      ensures failure == None ==> Ready(m, ordered) && Searched(modules, ordered, trail + [m.name])
      ensures old(state.Keys) <= state.Keys <= modules.held.Keys
      decreases |modules.held.Keys - state.Keys|, 0
    {
      ghost var all, seen := modules.held.Keys, state.Keys;
      SearchDown(modules, ordered, trail, m.name);
      Begin(m.name, trail);
      assert |all - state.Keys| < |all - seen| by { FewerLeft(all, seen, m.name); }
      failure := VisitAll(m, trail);
    }

    method Begin(name: string, trail: seq<string>)
      requires Valid(trail) && name in modules.held && name !in state
      requires trail != [] ==> Needs(modules, trail[|trail| - 1], name)
      modifies this`state
      ensures Valid(trail + [name]) && state.Keys == old(state.Keys) + {name}
    {
      Enter(modules, state, ordered, trail, name);
      ChainGrows(modules, trail, name);
      KeysOfUpdate(state, name, Visiting);
      state := state[name := Visiting];
    }

    method Finish(m: Module, trail: seq<string>)
      requires Valid(trail + [m.name]) && m.name !in trail && m.name in modules.held && modules.held[m.name] == m
      requires Ready(m, ordered) && Searched(modules, ordered, trail + [m.name])
      modifies this
      ensures Valid(trail) && ordered == old(ordered) + [m] && m.name in Names(ordered) && Searched(modules, ordered, trail)
      ensures state.Keys == old(state.Keys)
    {
      assert m.name in trail + [m.name];
      Leave(modules, state, ordered, trail, m);
      Place(modules, ordered, m);
      ChainShrinks(modules, trail, m.name);
      SearchUp(modules, ordered, trail, m);
      state := state[m.name := Done];
      ordered := ordered + [m];
      assert m in ordered;
    }

    /** The dependencies of a module, in turn, with the module on the trail. */
    method VisitAll(m: Module, trail: seq<string>) returns (failure: Option<Failure>)
      requires Valid(trail + [m.name]) && m.name in modules.held && modules.held[m.name] == m
      requires Searched(modules, ordered, trail + [m.name])
      modifies this
      ensures failure.Some? ==> Justified(modules, failure.value)
      ensures failure == None ==> Valid(trail + [m.name]) && old(ordered) <= ordered
      ensures failure == None ==> Ready(m, ordered) && Searched(modules, ordered, trail + [m.name])
      ensures old(state.Keys) <= state.Keys <= modules.held.Keys
      decreases |modules.held.Keys - state.Keys|, 3
    {
      ghost var before := state.Keys;
      for i := 0 to |m.dependsOn|
        invariant Valid(trail + [m.name]) && old(ordered) <= ordered
        invariant before <= state.Keys <= modules.held.Keys
        invariant Placed(m.dependsOn, i, ordered) && Searched(modules, ordered, trail + [m.name])
      {
        NoMoreLeft(modules.held.Keys, before, state.Keys);
        ghost var earlier := ordered;
        failure := Visit(m.dependsOn[i], trail + [m.name], i);
        if failure.Some? { return; }
        PlacedMore(m.dependsOn, i, earlier, ordered);
      }
      return None;
    }
  }

  /** A choice that is neither placed nor on the trail is the one the search goes on with. */
  lemma NotPlaced(ms: Modules, state: map<string, Mark>, ordered: seq<Module>, trail: seq<string>, name: string, i: nat)
    requires Coloured(ms, state, ordered, trail) && name !in state
    requires i < |Choices(ms, trail)| && Choices(ms, trail)[i] == name && Placed(Choices(ms, trail), i, ordered)
    ensures Leads(ms, Names(ordered), trail, name)
  {}

  /** The first `n` names are in the order. */
  ghost predicate Placed(names: seq<string>, n: nat, ordered: seq<Module>)
    requires n <= |names|
  {
    forall k :: 0 <= k < n ==> names[k] in Names(ordered)
  }

  lemma PlacedMore(names: seq<string>, n: nat, earlier: seq<Module>, later: seq<Module>)
    requires n < |names| && earlier <= later && Placed(names, n, earlier) && names[n] in Names(later)
    ensures Placed(names, n + 1, later)
  {
    NamesGrow(earlier, later);
  }

  lemma NamesGrow(earlier: seq<Module>, later: seq<Module>)
    requires earlier <= later
    ensures Names(earlier) <= Names(later)
  {
    forall n | n in Names(earlier) ensures n in Names(later) {
      var m :| m in earlier && m.name == n;
      assert m in later;
    }
  }

  lemma KeysOfUpdate(state: map<string, Mark>, name: string, mark: Mark)
    ensures state[name := mark].Keys == state.Keys + {name}
  {}

  lemma FewerLeft(all: set<string>, seen: set<string>, name: string)
    requires name in all && name !in seen
    ensures |all - (seen + {name})| < |all - seen|
  {
    assert all - seen == (all - (seen + {name})) + {name};
  }

  lemma NoMoreLeft(all: set<string>, seen: set<string>, more: set<string>)
    requires seen <= more
    ensures |all - more| <= |all - seen|
  {
    assert all - seen == (all - more) + ((all - seen) * more);
  }

  lemma ChainShrinks(ms: Modules, trail: seq<string>, name: string)
    requires Chain(ms, trail + [name])
    ensures Chain(ms, trail)
  {
    forall i | 0 <= i < |trail| - 1 ensures Needs(ms, trail[i], trail[i + 1]) {
      assert Needs(ms, (trail + [name])[i], (trail + [name])[i + 1]);
    }
  }

  lemma ChainGrows(ms: Modules, trail: seq<string>, name: string)
    requires Chain(ms, trail) && (trail != [] ==> Needs(ms, trail[|trail| - 1], name))
    ensures Chain(ms, trail + [name])
  {
    var c := trail + [name];
    forall i | 0 <= i < |c| - 1 ensures Needs(ms, c[i], c[i + 1]) {
      if i + 1 < |trail| { assert Needs(ms, trail[i], trail[i + 1]); }
    }
  }

  /** From the first place of a visited name on, the trail and the name make a cycle. */
  lemma TrailCycle(ms: Modules, trail: seq<string>, name: string)
    requires name in trail && Chain(ms, trail) && Needs(ms, trail[|trail| - 1], name)
    ensures var full := trail + [name];
      name in full && IndexOf(full, name) < |trail| && IsCycle(ms, full[IndexOf(full, name)..])
  {
    var full := trail + [name];
    var k :| 0 <= k < |trail| && trail[k] == name;
    assert full[k] == name;
    ChainGrows(ms, trail, name);
    ChainFrom(ms, full, IndexOf(full, name));
  }

  lemma ChainFrom(ms: Modules, c: seq<string>, start: nat)
    requires Chain(ms, c) && start <= |c|
    ensures Chain(ms, c[start..])
  {
    var rest := c[start..];
    forall i | 0 <= i < |rest| - 1 ensures Needs(ms, rest[i], rest[i + 1]) {
      Link(ms, c, start + i);
    }
  }

  // ----- an order exists exactly when nothing is missing and nothing is circular -----

  lemma PlaceOf(order: seq<Module>, name: string) returns (i: nat)
    requires name in Names(order)
    ensures i < |order| && order[i].name == name
  {
    var m :| m in order && m.name == name;
    i :| 0 <= i < |order| && order[i] == m;
  }

  lemma SamePlace(order: seq<Module>, i: nat, j: nat)
    requires NoRepeats(order) && i < |order| && j < |order| && order[i].name == order[j].name
    ensures i == j
  {}

  lemma Link(ms: Modules, c: seq<string>, i: nat)
    requires Chain(ms, c) && i + 1 < |c|
    ensures Needs(ms, c[i], c[i + 1])
  {}

  /** In a complete order a dependency stands before whatever needs it. */
  lemma NeedsGoesBack(ms: Modules, order: seq<Module>, a: string, i: nat, b: string, j: nat)
    requires WellNamed(ms) && InOrder(ms, order)
    requires i < |order| && order[i].name == a && j < |order| && order[j].name == b && Needs(ms, a, b)
    ensures j < i
  {
    assert order[i] in order;
    assert b in order[i].dependsOn;
    var k := PlaceOf(order[..i], b);
    SamePlace(order, k, j);
  }

  lemma {:induction false} ChainGoesBack(ms: Modules, order: seq<Module>, c: seq<string>, n: nat) returns (i: nat, j: nat)
    requires WellNamed(ms) && InOrder(ms, order) && Chain(ms, c) && n < |c|
    requires forall k :: 0 <= k < |c| ==> c[k] in Names(order)
    ensures i < |order| && j < |order| && order[i].name == c[0] && order[j].name == c[n]
    ensures j <= i && (n > 0 ==> j < i)
  {
    if n == 0 {
      i := PlaceOf(order, c[0]);
      j := i;
    } else {
      var before;
      i, before := ChainGoesBack(ms, order, c, n - 1);
      j := PlaceOf(order, c[n]);
      Link(ms, c, n - 1);
      NeedsGoesBack(ms, order, c[n - 1], before, c[n], j);
    }
  }

  lemma OrderMeansAcyclic(ms: Modules, order: seq<Module>)
    requires WellNamed(ms) && InOrder(ms, order) && Names(order) == ms.held.Keys
    ensures AllKnown(ms) && Acyclic(ms)
  {
    forall n, d | n in ms.held && d in ms.held[n].dependsOn ensures d in ms.held {
      var i := PlaceOf(order, n);
      assert order[i] in order;
      var k := PlaceOf(order[..i], d);
      assert order[k] in order;
    }
    forall c ensures !IsCycle(ms, c) {
      if IsCycle(ms, c) { CycleHasNoOrder(ms, order, c); }
    }
  }

  lemma CycleHasNoOrder(ms: Modules, order: seq<Module>, c: seq<string>)
    requires WellNamed(ms) && InOrder(ms, order) && Names(order) == ms.held.Keys
    requires AllKnown(ms)
    ensures !IsCycle(ms, c)
  {
    if IsCycle(ms, c) {
      forall k | 0 <= k < |c| ensures c[k] in Names(order) {
        if k + 1 < |c| {
          Link(ms, c, k);
        } else {
          Link(ms, c, 0);
        }
      }
      var i, j := ChainGoesBack(ms, order, c, |c| - 1);
      SamePlace(order, i, j);
    }
  }

  lemma FailureMeansNoOrder(ms: Modules, f: Failure)
    requires Justified(ms, f)
    ensures !(AllKnown(ms) && Acyclic(ms))
  {
    match f
    case Cycle(trail) => assert IsCycle(ms, trail);
    case UnknownDependency(dependent, name) => assert name in ms.held[dependent].dependsOn;
  }

  /** The modules in the order they were registered in. */
  ghost function InTurn(ms: Modules): (r: seq<Module>)
    requires WellNamed(ms)
    ensures |r| == |ms.order| && forall i :: 0 <= i < |r| ==> ms.order[i] in ms.held && r[i] == ms.held[ms.order[i]]
  {
    seq(|ms.order|, i requires 0 <= i < |ms.order| => assert ms.order[i] in ms.order; ms.held[ms.order[i]])
  }

  // ----- there is one such order -----

  lemma LeadsOnce(ms: Modules, placed: set<string>, trail: seq<string>, a: string, b: string)
    requires Leads(ms, placed, trail, a) && Leads(ms, placed, trail, b)
    ensures a == b
  {}

  lemma OneLonger<T>(s: seq<T>, n: nat)
    requires 0 < n <= |s|
    ensures s[..n] == s[..n - 1] + [s[n - 1]]
  {}

  lemma {:induction false} DescentsAgree(ms: Modules, placed: set<string>, a: seq<string>, b: seq<string>, n: nat)
    requires Descent(ms, placed, a) && Descent(ms, placed, b) && n <= |a| && n <= |b|
    ensures a[..n] == b[..n]
  {
    if n > 0 {
      DescentsAgree(ms, placed, a, b, n - 1);
      LeadsOnce(ms, placed, a[..n - 1], a[n - 1], b[n - 1]);
      OneLonger(a, n);
      OneLonger(b, n);
    }
  }

  /** A descent to where nothing is left to place goes no further. */
  ghost predicate Ends(ms: Modules, placed: set<string>, c: seq<string>) {
    c != [] && Descent(ms, placed, c) && forall x :: x in Choices(ms, c) ==> x in placed
  }

  lemma EndsNowhereElse(ms: Modules, placed: set<string>, c: seq<string>, d: seq<string>)
    requires Ends(ms, placed, c)
    ensures |c| < |d| ==> !Descent(ms, placed, d)
  {
    if |c| < |d| {
      var e := d[..|c|];
      if Descent(ms, placed, e) {
        DescentsAgree(ms, placed, c, e, |c|);
        assert e == e[..|c|] == c[..|c|] == c;
        assert !Leads(ms, placed, d[..|c|], d[|c|]);
      } else {
        var k :| 0 <= k < |e| && !Leads(ms, placed, e[..k], e[k]);
        assert e[..k] == d[..k] && e[k] == d[k];
      }
    }
  }

  lemma EndIsOnly(ms: Modules, placed: set<string>, c: seq<string>, d: seq<string>)
    requires Ends(ms, placed, c) && Ends(ms, placed, d)
    ensures c == d
  {
    EndsNowhereElse(ms, placed, c, d);
    EndsNowhereElse(ms, placed, d, c);
    DescentsAgree(ms, placed, c, d, |c|);
    assert c[..|c|] == c && d[..|c|] == d;
  }

  lemma FoundHow(ms: Modules, order: seq<Module>, p: nat) returns (c: seq<string>)
    requires InOrder(ms, order) && Found(ms, order) && p < |order|
    ensures Ends(ms, Names(order[..p]), c) && c[|c| - 1] == order[p].name
    ensures order[p].name in ms.held && ms.held[order[p].name] == order[p]
  {
    assert order[p] in order && FoundAt(ms, order, p);
    c :| c != [] && Descent(ms, Names(order[..p]), c) && c[|c| - 1] == order[p].name;
    forall x | x in Choices(ms, c) ensures x in Names(order[..p]) { assert x in order[p].dependsOn; }
  }

  lemma NextIsOnly(ms: Modules, a: seq<Module>, b: seq<Module>, p: nat)
    requires InOrder(ms, a) && InOrder(ms, b) && Found(ms, a) && Found(ms, b)
    requires p < |a| && p < |b| && a[..p] == b[..p]
    ensures a[p] == b[p]
  {
    var c := FoundHow(ms, a, p);
    var d := FoundHow(ms, b, p);
    EndIsOnly(ms, Names(a[..p]), c, d);
  }

  lemma {:induction false} StartsAgree(ms: Modules, a: seq<Module>, b: seq<Module>, n: nat)
    requires InOrder(ms, a) && InOrder(ms, b) && Found(ms, a) && Found(ms, b) && n <= |a| && n <= |b|
    ensures a[..n] == b[..n]
  {
    if n > 0 {
      StartsAgree(ms, a, b, n - 1);
      NextIsOnly(ms, a, b, n - 1);
      assert a[..n] == a[..n - 1] + [a[n - 1]] && b[..n] == b[..n - 1] + [b[n - 1]];
    }
  }

  lemma NewName(order: seq<Module>, n: nat)
    requires NoRepeats(order) && n < |order|
    ensures order[n].name !in Names(order[..n])
  {
    forall m | m in order[..n] ensures m.name != order[n].name {
      var i :| 0 <= i < n && order[i] == m;
    }
  }

  lemma NoLonger(ms: Modules, a: seq<Module>, b: seq<Module>)
    requires Registered(ms, b) && NoRepeats(b) && |a| <= |b| && a == b[..|a|]
    ensures a != b ==> Names(a) != ms.held.Keys
  {
    if |a| < |b| {
      NewName(b, |a|);
      assert b[|a|] in b;
    }
  }

  lemma NoOtherOrder(ms: Modules, a: seq<Module>, b: seq<Module>)
    requires InOrder(ms, a) && InOrder(ms, b) && Found(ms, a) && Found(ms, b)
    requires Names(a) == ms.held.Keys && |a| <= |b|
    ensures a == b
  {
    StartsAgree(ms, a, b, |a|);
    assert a[..|a|] == a;
    NoLonger(ms, a, b);
  }

  /** There is one complete order in which each module is where the descent past those before it ends. */
  lemma OrderIsOnly(ms: Modules, a: seq<Module>, b: seq<Module>)
    requires InOrder(ms, a) && InOrder(ms, b) && Found(ms, a) && Found(ms, b)
    requires Names(a) == Names(b) == ms.held.Keys
    ensures a == b
  {
    if |a| <= |b| { NoOtherOrder(ms, a, b); } else { NoOtherOrder(ms, b, a); }
  }

  /** Modules registered after their dependencies keep the order they were registered in. */
  lemma RegisteredInTurn(ms: Modules, order: seq<Module>)
    requires WellNamed(ms) && Closed(InTurn(ms))
    requires InOrder(ms, order) && Found(ms, order) && Names(order) == ms.held.Keys
    ensures order == InTurn(ms)
  {
    InTurnIsFound(ms);
    InTurnIsComplete(ms);
    OrderIsOnly(ms, order, InTurn(ms));
  }

  lemma InTurnIsFound(ms: Modules)
    requires WellNamed(ms)
    ensures Found(ms, InTurn(ms))
  {
    var all := InTurn(ms);
    forall p: nat | p < |all| ensures FoundAt(ms, all, p) {
      InTurnLeads(ms, p);
      var c := [ms.order[p]];
      assert c[..0] == [] && Descent(ms, Names(all[..p]), c) && c[|c| - 1] == all[p].name;
    }
  }

  lemma InTurnIsComplete(ms: Modules)
    requires WellNamed(ms)
    ensures Registered(ms, InTurn(ms)) && NoRepeats(InTurn(ms)) && Names(InTurn(ms)) == ms.held.Keys
  {
    var all := InTurn(ms);
    forall n | n in ms.held ensures n in Names(all) {
      var i :| 0 <= i < |ms.order| && ms.order[i] == n;
      assert all[i] in all;
    }
  }

  lemma InTurnLeads(ms: Modules, p: nat)
    requires WellNamed(ms) && p < |ms.order|
    ensures Leads(ms, Names(InTurn(ms)[..p]), [], ms.order[p])
  {
    var before := InTurn(ms)[..p];
    forall m | m in before ensures m.name != ms.order[p] {
      var k :| 0 <= k < p && before[k] == m;
      assert ms.order[k] == m.name;
    }
    forall k | 0 <= k < p ensures ms.order[k] in Names(before) { assert before[k] in before; }
    assert Choices(ms, [])[p] == ms.order[p];
  }

  datatype Resolved = Order(modules: seq<Module>) | Failed(failure: Failure)

  /** Resolution returns exactly when every named dependency is registered and the graph is
      acyclic; its result lists each registered module once, after all its dependencies. */
  method ResolveOrder(modules: Modules) returns (r: Resolved)
    requires WellNamed(modules)
    ensures r.Order? <==> AllKnown(modules) && Acyclic(modules)
    ensures r.Order? ==> InOrder(modules, r.modules) && Names(r.modules) == modules.held.Keys
    ensures r.Failed? ==> Justified(modules, r.failure)
    // Each module is the one that the search from the first registered name still to place comes to.
    ensures r.Order? ==> Found(modules, r.modules)
  {
    var search := new Resolution(modules);
    for i := 0 to |modules.order|
      invariant search.Valid([]) && search.modules == modules
      invariant Placed(modules.order, i, search.ordered)
      invariant Searched(modules, search.ordered, [])
    {
      ghost var earlier := search.ordered;
      assert modules.order[i] in modules.order;
      var failure := search.Visit(modules.order[i], [], i);
      if failure.Some? {
        FailureMeansNoOrder(modules, failure.value);
        return Failed(failure.value);
      }
      PlacedMore(modules.order, i, earlier, search.ordered);
    }
    r := Order(search.ordered);
    AllPlaced(modules, r.modules);
    OrderMeansAcyclic(modules, r.modules);
  }

  lemma AllPlaced(ms: Modules, ordered: seq<Module>)
    requires WellNamed(ms) && Registered(ms, ordered) && Placed(ms.order, |ms.order|, ordered)
    ensures Names(ordered) == ms.held.Keys
  {
    forall n | n in ms.held ensures n in Names(ordered) {
      var k :| 0 <= k < |ms.order| && ms.order[k] == n;
    }
  }

  // ----- the lifecycle -----

  datatype Event =
    | Started(m: Module)
    | StartFailed(m: Module)
    | Stopped(m: Module)
    | StopFailed(m: Module)

  /** What is running after a sequence of events, as a stack: an attempted stop takes its module
      off, whether it fails or not. */
  function Running(events: seq<Event>): seq<Module> {
    if events == [] then [] else
      var before := Running(events[..|events| - 1]);
      match events[|events| - 1]
      case Started(m) => before + [m]
      case StartFailed(_) => before
      case Stopped(_) => if before == [] then [] else before[..|before| - 1]
      case StopFailed(_) => if before == [] then [] else before[..|before| - 1]
  }

  ghost predicate StopsLast(events: seq<Event>, n: nat)
    requires n < |events|
  {
    events[n].Stopped? || events[n].StopFailed? ==>
      Running(events[..n]) != [] && events[n].m == Running(events[..n])[|Running(events[..n])| - 1]
  }

  /** At every event the running modules are closed under their dependencies, and whatever is
      stopped is the last that is running. */
  ghost predicate Safe(events: seq<Event>) {
    && (forall n :: 0 <= n <= |events| ==> Closed(Running(events[..n])))
    && (forall n :: 0 <= n < |events| ==> StopsLast(events, n))
  }

  lemma RunningStep(events: seq<Event>, e: Event)
    ensures Running(events + [e]) ==
      if e.Started? then Running(events) + [e.m]
      else if e.StartFailed? || Running(events) == [] then Running(events)
      else Running(events)[..|Running(events)| - 1]
  {
    assert (events + [e])[..|events|] == events;
  }

  lemma SafeStep(events: seq<Event>, e: Event)
    requires Safe(events) && Closed(Running(events + [e]))
    requires e.Stopped? || e.StopFailed? ==> Running(events) != [] && e.m == Running(events)[|Running(events)| - 1]
    ensures Safe(events + [e])
  {
    var all := events + [e];
    forall n | 0 <= n <= |all| ensures Closed(Running(all[..n])) {
      if n <= |events| { assert all[..n] == events[..n]; } else { assert all[..n] == all; }
    }
    forall n | 0 <= n < |all| ensures StopsLast(all, n) {
      assert all[..n] == events[..n];
      if n < |events| { assert StopsLast(events, n); } else { assert events[..n] == events; }
    }
  }

  lemma ClosedPrefix(order: seq<Module>, n: nat)
    requires Closed(order) && n <= |order|
    ensures Closed(order[..n])
  {
    forall i, d | 0 <= i < n && d in order[..n][i].dependsOn ensures d in Names(order[..n][..i]) {
      assert order[..n][..i] == order[..i] && d in order[i].dependsOn;
    }
  }

  /** A closed stack stays closed under a module whose dependencies are named below it. */
  lemma ClosedPush(order: seq<Module>, m: Module)
    requires Closed(order) && forall d :: d in m.dependsOn ==> d in Names(order)
    ensures Closed(order + [m])
  {
    var all := order + [m];
    forall i, d | 0 <= i < |all| && d in all[i].dependsOn ensures d in Names(all[..i]) {
      if i < |order| { assert all[..i] == order[..i]; } else { assert all[..i] == order; }
    }
  }

  /** The stop attempts of a rollback: every started module once, the last started first, the k-th
      failing exactly when `fails(k)`. */
  ghost predicate StopsAll(events: seq<Event>, started: seq<Module>, fails: nat -> bool) {
    && |events| == |started|
    && forall k: nat :: k < |events| ==> events[k] == StopEvent(started[|started| - 1 - k], fails(k))
  }

  function StopEvent(m: Module, failed: bool): Event { if failed then StopFailed(m) else Stopped(m) }

  datatype StartError = NotResolved(failure: Failure) | ModuleFailed | LoggerFailed

  datatype StartResult = AllStarted | StartError(error: StartError, stopFailures: nat)

  class ModuleRegistry {
    var modules: Modules
    var started: seq<Module>
    /** Every call of a module's start or stop so far. */
    ghost var events: seq<Event>

    ghost predicate Valid()
      reads this
    {
      WellNamed(modules) && started == Running(events) && Safe(events)
    }

    constructor ()
      ensures Valid() && modules == Empty() && started == [] && events == []
    {
      modules, started, events := Empty(), [], [];
    }

    /** Whether the module was new; a name already taken is refused and changes nothing. */
    method Register(m: Module) returns (ok: bool)
      requires Valid()
      modifies this`modules
      ensures Valid() && ok == (m.name !in old(modules).held)
      ensures modules == if ok then old(modules).Set(m.name, m) else old(modules)
    {
      if m.name in modules.held { return false; }
      modules.MoveToEnd(m.name, m);
      modules.DeleteValid(m.name);
      modules := modules.Set(m.name, m);
      return true;
    }

    /** Stops every started module, last started first, whether or not a stop fails; `fails`
        answers for the n-th of these calls. */
    method Stop(fails: nat -> bool) returns (failures: nat, ghost stops: seq<Event>)
      requires Valid()
      modifies this`started, this`events
      ensures Valid() && started == [] && events == old(events) + stops
      ensures StopsAll(stops, old(started), fails) && failures == Failures(stops)
    {
      var n := |started|;
      failures, stops := 0, [];
      ghost var before := events;
      UnwindNone(before, started, fails);
      while n > 0
        invariant 0 <= n <= |started| && started == old(started)
        invariant Unwound(before, events, started, n, stops, failures, fails)
      {
        n := n - 1;
        var m := started[n];
        var failed := fails(|started| - 1 - n);
        ghost var e := StopEvent(m, failed);
        UnwindOne(before, events, started, n, stops, failures, fails);
        if failed { failures := failures + 1; }
        stops, events := stops + [e], events + [e];
      }
      UnwoundAll(before, events, started, stops, failures, fails);
      started := [];
    }

    /** Starts modules in turn until one fails, or the logger does. A module counts as started only once
        its start has succeeded. */
    method StartAll(order: seq<Module>, startFails: nat -> bool, logFails: nat -> bool)
      returns (error: Option<StartError>, ghost starts: seq<Event>)
      requires Valid() && Closed(order)
      modifies this`started, this`events
      ensures Valid() && events == old(events) + starts
      ensures StartsEnd(starts, order, startFails, logFails, error)
      ensures error == None ==> started == old(started) + order
    {
      starts := [];
      ghost var before, was := events, started;
      BegunNone(before, was, order);
      for i := 0 to |order|
        invariant Begun(before, events, was, started, order, i, starts) && Smooth(startFails, logFails, i)
      {
        BegunOne(before, events, was, started, order, i, starts);
        if startFails(i) {
          EndsAtStart(before, events, was, started, order, i, starts, startFails, logFails);
          starts, events := starts + [StartFailed(order[i])], events + [StartFailed(order[i])];
          return Some(ModuleFailed), starts;
        }
        started := started + [order[i]];
        starts, events := starts + [Started(order[i])], events + [Started(order[i])];
        if logFails(i) {
          EndsAtLog(before, events, was, started, order, i, starts, startFails, logFails);
          return Some(LoggerFailed), starts;
        }
      }
      BegunAll(before, events, was, started, order, starts);
      return None, starts;
    }

    /** Starts the modules in dependency order. Any failure - of the resolution, a module, or
        the logger - stops everything that was started, this time or before. */
    method Start(startFails: nat -> bool, logFails: nat -> bool, stopFails: nat -> bool)
      returns (r: StartResult, ghost order: seq<Module>, ghost starts: seq<Event>, ghost stops: seq<Event>)
      requires Valid()
      modifies this`started, this`events
      ensures Valid() && events == old(events) + starts + stops
      ensures AllKnown(modules) && Acyclic(modules) ==>
        InOrder(modules, order) && Names(order) == modules.held.Keys && Found(modules, order)
      // All of them are started exactly when there is an order and nothing in it fails.
      ensures r.AllStarted? <==> AllKnown(modules) && Acyclic(modules) && Smooth(startFails, logFails, |order|)
      ensures r.AllStarted? ==> stops == [] && starts == Starts(order) && started == old(started) + order
      ensures r.StartError? ==>
        && started == [] && StopsAll(stops, Running(old(events) + starts), stopFails) && r.stopFailures == Failures(stops)
        && (r.error.NotResolved? <==> !(AllKnown(modules) && Acyclic(modules)))
        && (if r.error.NotResolved? then Justified(modules, r.error.failure) && starts == []
            else StartsEnd(starts, order, startFails, logFails, Some(r.error)))
    {
      order, starts, stops := [], [], [];
      var failures, error;
      var resolved := ResolveOrder(modules);
      match resolved {
        case Failed(failure) => error := Some(NotResolved(failure));
        case Order(ms) =>
          order := ms;
          error, starts := StartAll(ms, startFails, logFails);
      }
      assert events == old(events) + starts;
      if error == None { return AllStarted, order, starts, stops; }
      failures, stops := Stop(stopFails);
      return StartError(error.value, failures), order, starts, stops;
    }
  }

  /** All but the first `n` of the started modules have been stopped, the last started first. Unfolded
      only where a proof mentions safety. */
  ghost predicate Unwound(before: seq<Event>, now: seq<Event>, started: seq<Module>, n: nat, stops: seq<Event>, failures: int,
                          fails: nat -> bool)
    requires n <= |started|
  {
    forall es: seq<Event> {:trigger Safe(es)} :: es == now ==>
      && Safe(es) && es == before + stops && Running(es) == started[..n]
      && StopsAll(stops, started[n..], fails) && failures == Failures(stops)
  }

  lemma UnwindNone(events: seq<Event>, started: seq<Module>, fails: nat -> bool)
    requires Safe(events) && Running(events) == started
    ensures Unwound(events, events, started, |started|, [], 0, fails)
  {
    assert started[..|started|] == started && events + [] == events;
  }

  lemma UnwindOne(before: seq<Event>, now: seq<Event>, started: seq<Module>, n: nat, stops: seq<Event>, failures: int,
                  fails: nat -> bool)
    requires n < |started| && Unwound(before, now, started, n + 1, stops, failures, fails)
    ensures var (k, e) := (|started| - 1 - n, StopEvent(started[n], fails(|started| - 1 - n)));
      Unwound(before, now + [e], started, n, stops + [e], failures + if fails(k) then 1 else 0, fails)
  {
    var e := StopEvent(started[n], fails(|started| - 1 - n));
    assert Safe(now);
    StopStep(now, started, n, e);
    assert (stops + [e])[..|stops|] == stops && before + stops + [e] == before + (stops + [e]);
    StopsOneMore(stops, started, n, fails);
  }

  lemma StopsOneMore(stops: seq<Event>, started: seq<Module>, n: nat, fails: nat -> bool)
    requires n < |started| && StopsAll(stops, started[n + 1..], fails)
    ensures StopsAll(stops + [StopEvent(started[n], fails(|started| - 1 - n))], started[n..], fails)
  {
    var (rest, all) := (started[n + 1..], started[n..]);
    forall i | 0 <= i < |rest| ensures rest[i] == all[i + 1] {}
  }

  lemma UnwoundAll(before: seq<Event>, now: seq<Event>, started: seq<Module>, stops: seq<Event>, failures: int,
                   fails: nat -> bool)
    requires Unwound(before, now, started, 0, stops, failures, fails)
    ensures Safe(now) && Running(now) == [] && now == before + stops
    ensures StopsAll(stops, started, fails) && failures == Failures(stops)
  {
    assert Safe(now) && started[0..] == started;
  }

  /** The first `i` modules of the order have been started, on top of those running before. Unfolded
      only where a proof mentions safety. */
  ghost predicate Begun(before: seq<Event>, now: seq<Event>, was: seq<Module>, started: seq<Module>, order: seq<Module>, i: nat,
                        starts: seq<Event>)
    requires i <= |order|
  {
    forall es: seq<Event> {:trigger Safe(es)} :: es == now ==>
      && Safe(es) && es == before + starts && started == Running(es) == was + order[..i] && starts == Starts(order[..i])
  }

  lemma BegunNone(events: seq<Event>, was: seq<Module>, order: seq<Module>)
    requires Safe(events) && Running(events) == was
    ensures Begun(events, events, was, was, order, 0, [])
  {
    assert was + order[..0] == was && events + [] == events;
  }

  lemma BegunOne(before: seq<Event>, now: seq<Event>, was: seq<Module>, started: seq<Module>, order: seq<Module>, i: nat,
                 starts: seq<Event>)
    requires i < |order| && Closed(order) && Begun(before, now, was, started, order, i, starts)
    ensures Begun(before, now + [Started(order[i])], was, started + [order[i]], order, i + 1, starts + [Started(order[i])])
  {
    assert Safe(now);
    StartStep(now, order, i, was);
    assert order[..i + 1] == order[..i] + [order[i]];
    StartsStep(order[..i], order[i]);
    assert before + starts + [Started(order[i])] == before + (starts + [Started(order[i])]);
    assert was + order[..i] + [order[i]] == was + order[..i + 1];
  }

  lemma BegunAll(before: seq<Event>, now: seq<Event>, was: seq<Module>, started: seq<Module>, order: seq<Module>,
                 starts: seq<Event>)
    requires Begun(before, now, was, started, order, |order|, starts)
    ensures Safe(now) && started == Running(now) == was + order && now == before + starts && starts == Starts(order)
  {
    assert Safe(now) && order[..|order|] == order;
  }

  lemma EndsAtStart(before: seq<Event>, now: seq<Event>, was: seq<Module>, started: seq<Module>, order: seq<Module>, i: nat,
                    starts: seq<Event>, startFails: nat -> bool, logFails: nat -> bool)
    requires i < |order| && Begun(before, now, was, started, order, i, starts)
    requires Smooth(startFails, logFails, i) && startFails(i)
    ensures var (all, e) := (now + [StartFailed(order[i])], StartFailed(order[i]));
      && Safe(all) && Running(all) == started && all == before + (starts + [e])
      && StartsEnd(starts + [e], order, startFails, logFails, Some(ModuleFailed))
  {
    assert Safe(now);
    StartFailedStep(now, order[i]);
  }

  lemma EndsAtLog(before: seq<Event>, now: seq<Event>, was: seq<Module>, started: seq<Module>, order: seq<Module>, i: nat,
                  starts: seq<Event>, startFails: nat -> bool, logFails: nat -> bool)
    requires i < |order| && Begun(before, now, was, started, order, i + 1, starts)
    requires Smooth(startFails, logFails, i) && !startFails(i) && logFails(i)
    ensures Safe(now) && Running(now) == started && now == before + starts
    ensures StartsEnd(starts, order, startFails, logFails, Some(LoggerFailed))
  {
    assert Safe(now);
  }

  /** Neither a start nor the logger fails at the first `n` places. */
  ghost predicate Smooth(startFails: nat -> bool, logFails: nat -> bool, n: nat) {
    forall i: nat :: i < n ==> !startFails(i) && !logFails(i)
  }

  /** The starts of a call of `start`: all of the order's modules when nothing in it fails; else those
      up to the first place where a start fails, or up to and with the first where the logger does. */
  ghost predicate StartsEnd(starts: seq<Event>, order: seq<Module>, startFails: nat -> bool, logFails: nat -> bool,
                            error: Option<StartError>) {
    match error
    case None => starts == Starts(order) && Smooth(startFails, logFails, |order|)
    case Some(NotResolved(_)) => false
    case Some(ModuleFailed) => exists n: nat {:trigger startFails(n)} ::
      n < |order| && Smooth(startFails, logFails, n) && startFails(n) && starts == Starts(order[..n]) + [StartFailed(order[n])]
    case Some(LoggerFailed) => exists n: nat {:trigger logFails(n)} ::
      n < |order| && Smooth(startFails, logFails, n) && !startFails(n) && logFails(n) && starts == Starts(order[..n + 1])
  }

  /** What fails decides where the starts end, and how. */
  lemma StartsEndOnce(order: seq<Module>, startFails: nat -> bool, logFails: nat -> bool,
                      a: seq<Event>, e: Option<StartError>, b: seq<Event>, f: Option<StartError>)
    requires StartsEnd(a, order, startFails, logFails, e) && StartsEnd(b, order, startFails, logFails, f)
    ensures a == b && e == f
  {}

  function Starts(order: seq<Module>): seq<Event> {
    if order == [] then [] else Starts(order[..|order| - 1]) + [Started(order[|order| - 1])]
  }

  lemma StartsStep(order: seq<Module>, m: Module)
    ensures Starts(order + [m]) == Starts(order) + [Started(m)]
  {
    assert (order + [m])[..|order|] == order;
  }

  function Failures(events: seq<Event>): nat {
    if events == [] then 0 else
      Failures(events[..|events| - 1]) + if events[|events| - 1].StopFailed? then 1 else 0
  }

  lemma StopStep(events: seq<Event>, started: seq<Module>, n: nat, e: Event)
    requires Safe(events) && n < |started| && Running(events) == started[..n + 1]
    requires (e.Stopped? || e.StopFailed?) && e.m == started[n]
    ensures Safe(events + [e]) && Running(events + [e]) == started[..n]
  {
    RunningStep(events, e);
    assert started[..n + 1][..n] == started[..n];
    assert events[..|events|] == events;
    ClosedPrefix(Running(events), n);
    SafeStep(events, e);
  }

  lemma StartFailedStep(events: seq<Event>, m: Module)
    requires Safe(events)
    ensures Safe(events + [StartFailed(m)]) && Running(events + [StartFailed(m)]) == Running(events)
  {
    RunningStep(events, StartFailed(m));
    assert events[..|events|] == events;
    SafeStep(events, StartFailed(m));
  }

  lemma StartStep(events: seq<Event>, order: seq<Module>, i: nat, before: seq<Module>)
    requires Safe(events) && Closed(order) && i < |order| && Running(events) == before + order[..i]
    ensures Safe(events + [Started(order[i])])
    ensures Running(events + [Started(order[i])]) == before + order[..i] + [order[i]]
  {
    var m := order[i];
    RunningStep(events, Started(m));
    assert events[..|events|] == events;
    forall d | d in m.dependsOn ensures d in Names(before + order[..i]) {
      assert d in order[i].dependsOn;
      var k := PlaceOf(order[..i], d);
      assert (before + order[..i])[|before| + k] == order[..i][k];
    }
    ClosedPush(Running(events), m);
    SafeStep(events, Started(m));
  }
}
