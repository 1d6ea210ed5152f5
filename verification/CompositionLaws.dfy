/**
 Laws of router composition over whole chains of builder and plugin calls:
 which extensions reach which endpoint, in which order, and which calls commute.
 */
module CompositionLaws {
  import opened Text
  import opened Http
  import opened Builder

  // --------------------------------------------------------- what a history adds

  /** One kind of extension: where the builder keeps it, and which calls add to it. */
  datatype Kind<!T> = Kind(
    lists: Composition -> Lists<T>, fromContext: PluginCall -> Option<Add<T>>, fromBuilder: Call -> Option<T>)

  const GUARDS: Kind<Guard> := Kind(
    (s: Composition) => s.guards,
    (c: PluginCall) =>
      match c
      case GlobalGuard(g) => Some(ToAll(g))
      case EndpointGuard(id, g) => Some(ToOne(id, g))
      case _ => None,
    (c: Call) => if c.UseGuard? then Some(c.guard) else None)

  const MIDDLEWARE: Kind<Middleware> := Kind(
    (s: Composition) => s.middleware,
    (c: PluginCall) =>
      match c
      case GlobalMiddleware(m) => Some(ToAll(m))
      case EndpointMiddleware(id, m) => Some(ToOne(id, m))
      case _ => None,
    (c: Call) => if c.UseMiddleware? then Some(c.middleware) else None)

  const HOOKS: Kind<Hook> := Kind(
    (s: Composition) => s.hooks,
    (c: PluginCall) =>
      match c
      case GlobalHook(h) => Some(ToAll(h))
      case EndpointHook(id, h) => Some(ToOne(id, h))
      case _ => None,
    (c: Call) => if c.UseHook? then Some(c.hook) else None)

  /** The id is well formed and the catalog declares it. */
  predicate Known(w: Setting, id: string) {
    w.validId(id) && exists i :: 0 <= i < |w.catalog| && w.catalog[i].id == id
  }

  /** A call that names an endpoint is refused exactly if it is not known, and says in which of two ways. */
  lemma EndpointFaultExact(w: Setting, id: string)
    ensures EndpointFault(w, id).None? <==> Known(w, id)
    ensures EndpointFault(w, id).Some? ==>
              EndpointFault(w, id).value.kind == if w.validId(id) then NotFound else Validation
  {
  }

  /** An addition that names an endpoint is dropped if the endpoint is not declared. */
  function ContextAdds<T>(w: Setting, kind: Kind<T>, c: PluginCall): seq<Add<T>> {
    match kind.fromContext(c)
    case None => []
    case Some(ToAll(x)) => [ToAll(x)]
    case Some(ToOne(id, x)) => if Known(w, id) then [ToOne(id, x)] else []
  }

  function PluginAdds<T>(w: Setting, kind: Kind<T>, calls: seq<PluginCall>): seq<Add<T>> {
    if calls == [] then []
    else PluginAdds(w, kind, calls[..|calls| - 1]) + ContextAdds(w, kind, calls[|calls| - 1])
  }

  function CallAdds<T>(w: Setting, kind: Kind<T>, c: Call): seq<Add<T>> {
    if c.Install? then PluginAdds(w, kind, c.calls)
    else if kind.fromBuilder(c).Some? then [ToAll(kind.fromBuilder(c).value)]
    else []
  }

  /** Every addition of one kind that a chain of calls makes, in call order. */
  function Adds<T>(w: Setting, kind: Kind<T>, history: seq<Call>): seq<Add<T>> {
    if history == [] then []
    else Adds(w, kind, history[..|history| - 1]) + CallAdds(w, kind, history[|history| - 1])
  }

  function ForAll<T>(adds: seq<Add<T>>): seq<T> {
    if adds == [] then []
    else ForAll(adds[..|adds| - 1]) + (if adds[|adds| - 1].ToAll? then [adds[|adds| - 1].item] else [])
  }

  function ForOne<T>(adds: seq<Add<T>>, id: string): seq<T> {
    if adds == [] then []
    else
      var last := adds[|adds| - 1];
      ForOne(adds[..|adds| - 1], id) + (if last.ToOne? && last.id == id then [last.item] else [])
  }

  function Replay<T>(l: Lists<T>, adds: seq<Add<T>>): Lists<T> {
    if adds == [] then l else Added(Replay(l, adds[..|adds| - 1]), adds[|adds| - 1])
  }

  lemma {:induction false} ReplayConcat<T>(l: Lists<T>, a: seq<Add<T>>, b: seq<Add<T>>)
    ensures Replay(l, a + b) == Replay(Replay(l, a), b)
    decreases |b|
  {
    if b == [] {
      assert a + b == a;
    } else {
      ReplayConcat(l, a, b[..|b| - 1]);
      assert (a + b)[..|a + b| - 1] == a + b[..|b| - 1];
    }
  }

  /** Replaying additions sorts them into the lists for all and for each, keeping their order. */
  lemma {:induction false} ReplayExact<T>(l: Lists<T>, adds: seq<Add<T>>, id: string)
    ensures Replay(l, adds).global == l.global + ForAll(adds)
    ensures At(Replay(l, adds).local, id) == At(l.local, id) + ForOne(adds, id)
  {
    if adds != [] {
      ReplayExact(l, adds[..|adds| - 1], id);
    }
  }

  lemma ReplayFew<T>(l: Lists<T>, a: Add<T>)
    ensures Replay(l, []) == l && Replay(l, [a]) == Added(l, a)
  {
    assert [a][..0] == [];
  }

  ghost predicate ContextKept<T(!new)>(w: Setting, kind: Kind<T>) {
    forall s, c :: kind.lists(ApplyPluginCall(w, s, c)) == Replay(kind.lists(s), ContextAdds(w, kind, c))
  }

  /** The builder changes its lists of a kind by exactly what its calls add. */
  ghost predicate Kept<T(!new)>(w: Setting, kind: Kind<T>) {
    && ContextKept(w, kind)
    && (forall s: Composition, names :: kind.lists(s.(plugins := names)) == kind.lists(s))
    && (forall s, c: Call :: !c.Install? ==>
          kind.lists(ApplyCall(w, s, c)) == Replay(kind.lists(s), CallAdds(w, kind, c)))
  }

  lemma {:induction false} PluginReplay<T(!new)>(w: Setting, kind: Kind<T>, s: Composition, calls: seq<PluginCall>)
    requires ContextKept(w, kind)
    ensures kind.lists(ApplyPluginCalls(w, s, calls)) == Replay(kind.lists(s), PluginAdds(w, kind, calls))
  {
    if calls != [] {
      var (front, last) := (calls[..|calls| - 1], calls[|calls| - 1]);
      PluginReplay(w, kind, s, front);
      ReplayConcat(kind.lists(s), PluginAdds(w, kind, front), ContextAdds(w, kind, last));
    }
  }

  /** After an accepted chain the builder holds what replaying its additions gives. */
  lemma {:induction false} HistoryReplay<T(!new)>(w: Setting, kind: Kind<T>, history: seq<Call>)
    requires Kept(w, kind) && Run(w, history).Some?
    ensures kind.lists(Run(w, history).value) == Replay(kind.lists(EMPTY), Adds(w, kind, history))
  {
    if history != [] {
      var (front, last) := (history[..|history| - 1], history[|history| - 1]);
      HistoryReplay(w, kind, front);
      var s := Run(w, front).value;
      if last.Install? {
        PluginReplay(w, kind, s, last.calls);
      }
      ReplayConcat(kind.lists(EMPTY), Adds(w, kind, front), CallAdds(w, kind, last));
    }
  }

  lemma {:induction false} PluginLeaves(w: Setting, s: Composition, calls: seq<PluginCall>)
    ensures var t := ApplyPluginCalls(w, s, calls);
            t.bindings == s.bindings && t.allowed == s.allowed && t.plugins == s.plugins && t.maxBody == s.maxBody
  {
    if calls != [] {
      PluginLeaves(w, s, calls[..|calls| - 1]);
    }
  }

  lemma GuardsKept(w: Setting)
    ensures Kept(w, GUARDS)
  {
    forall s, c
      ensures GUARDS.lists(ApplyPluginCall(w, s, c)) == Replay(GUARDS.lists(s), ContextAdds(w, GUARDS, c))
    {
      if GUARDS.fromContext(c).Some? {
        if c.EndpointGuard? {
          EndpointFaultExact(w, c.id);
        }
        ReplayFew(s.guards, GUARDS.fromContext(c).value);
      }
    }
    forall s, c: Call | !c.Install?
      ensures GUARDS.lists(ApplyCall(w, s, c)) == Replay(GUARDS.lists(s), CallAdds(w, GUARDS, c))
    {
      if GUARDS.fromBuilder(c).Some? {
        ReplayFew(s.guards, ToAll(GUARDS.fromBuilder(c).value));
      }
    }
  }

  lemma MiddlewareKept(w: Setting)
    ensures Kept(w, MIDDLEWARE)
  {
    forall s, c
      ensures MIDDLEWARE.lists(ApplyPluginCall(w, s, c)) == Replay(MIDDLEWARE.lists(s), ContextAdds(w, MIDDLEWARE, c))
    {
      if MIDDLEWARE.fromContext(c).Some? {
        if c.EndpointMiddleware? {
          EndpointFaultExact(w, c.id);
        }
        ReplayFew(s.middleware, MIDDLEWARE.fromContext(c).value);
      }
    }
    forall s, c: Call | !c.Install?
      ensures MIDDLEWARE.lists(ApplyCall(w, s, c)) == Replay(MIDDLEWARE.lists(s), CallAdds(w, MIDDLEWARE, c))
    {
      if MIDDLEWARE.fromBuilder(c).Some? {
        ReplayFew(s.middleware, ToAll(MIDDLEWARE.fromBuilder(c).value));
      }
    }
  }

  lemma HooksKept(w: Setting)
    ensures Kept(w, HOOKS)
  {
    forall s, c
      ensures HOOKS.lists(ApplyPluginCall(w, s, c)) == Replay(HOOKS.lists(s), ContextAdds(w, HOOKS, c))
    {
      if HOOKS.fromContext(c).Some? {
        if c.EndpointHook? {
          EndpointFaultExact(w, c.id);
        }
        ReplayFew(s.hooks, HOOKS.fromContext(c).value);
      }
    }
    forall s, c: Call | !c.Install?
      ensures HOOKS.lists(ApplyCall(w, s, c)) == Replay(HOOKS.lists(s), CallAdds(w, HOOKS, c))
    {
      if HOOKS.fromBuilder(c).Some? {
        ReplayFew(s.hooks, ToAll(HOOKS.fromBuilder(c).value));
      }
    }
  }

  lemma BindingsStep(w: Setting, s: Composition, c: Call)
    ensures ApplyCall(w, s, c).bindings == if c.Bind? then s.bindings[c.id := c.binding] else s.bindings
    ensures c.Bind? && CallFault(w, s, c).None? ==> c.id !in s.bindings
  {
    if c.Install? {
      PluginLeaves(w, s, c.calls);
    }
  }

  predicate Binds(c: Call, id: string) { c.Bind? && c.id == id }

  /** The builder holds exactly the bindings of the chain. */
  lemma {:induction false} Bound(w: Setting, history: seq<Call>, id: string)
    requires Run(w, history).Some?
    ensures id in Run(w, history).value.bindings <==> exists i :: 0 <= i < |history| && Binds(history[i], id)
    ensures forall i :: 0 <= i < |history| && Binds(history[i], id) ==>
              Run(w, history).value.bindings[id] == history[i].binding
  {
    if history != [] {
      var n := |history| - 1;
      var front := history[..n];
      Bound(w, front, id);
      BindingsStep(w, Run(w, front).value, history[n]);
      if i :| 0 <= i < n && Binds(front[i], id) {
        assert Binds(history[i], id);
      }
      forall i | 0 <= i < n && Binds(history[i], id)
        ensures Run(w, history).value.bindings[id] == history[i].binding
      {
        assert Binds(front[i], id);
      }
    }
  }

  /** An accepted chain binds no endpoint twice. */
  lemma {:induction false} BoundOnce(w: Setting, history: seq<Call>, i: nat, j: nat)
    requires Run(w, history).Some? && i < j < |history| && history[i].Bind? && history[j].Bind?
    ensures history[i].id != history[j].id
    decreases |history|
  {
    var n := |history| - 1;
    var front := history[..n];
    if j < n {
      assert front[i] == history[i] && front[j] == history[j];
      BoundOnce(w, front, i, j);
    } else {
      Bound(w, front, history[i].id);
      assert Binds(front[i], history[i].id);
      BindingsStep(w, Run(w, front).value, history[n]);
    }
  }

  /**
   Each endpoint's lists are what was added for all, then what plugins added
   for it, then what its own binding has, each in call order.
   */
  lemma MergedLists(w: Setting, history: seq<Call>, e: Endpoint, i: nat)
    requires Run(w, history).Some?
    requires i < |history| && history[i].Bind? && history[i].id == e.id
    ensures var (s, b) := (Run(w, history).value, history[i].binding);
            && e.id in s.bindings
            && var rt := RuntimeOf(s, e);
            && rt.target == b.target && rt.endpoint == e && rt.maxBody == s.maxBody
            && rt.guards == Merged(Adds(w, GUARDS, history), e.id) + b.guards
            && rt.middleware == Merged(Adds(w, MIDDLEWARE, history), e.id) + b.middleware
            && rt.hooks == Merged(Adds(w, HOOKS, history), e.id) + b.hooks
  {
    GuardsKept(w);
    MiddlewareKept(w);
    HooksKept(w);
    Bound(w, history, e.id);
    assert Binds(history[i], e.id);
    KindMerged(w, GUARDS, history, e.id);
    KindMerged(w, MIDDLEWARE, history, e.id);
    KindMerged(w, HOOKS, history, e.id);
  }

  /** What was added for all, then what was added for one endpoint. */
  function Merged<T>(adds: seq<Add<T>>, id: string): seq<T> { ForAll(adds) + ForOne(adds, id) }

  lemma KindMerged<T(!new)>(w: Setting, kind: Kind<T>, history: seq<Call>, id: string)
    requires Kept(w, kind) && Run(w, history).Some? && kind.lists(EMPTY) == Lists([], map[])
    ensures var l := kind.lists(Run(w, history).value);
            l.global + At(l.local, id) == Merged(Adds(w, kind, history), id)
  {
    HistoryReplay(w, kind, history);
    ReplayExact(kind.lists(EMPTY), Adds(w, kind, history), id);
    Empties(ForAll(Adds(w, kind, history)), ForOne(Adds(w, kind, history), id));
  }

  lemma Empties<T>(a: seq<T>, b: seq<T>)
    ensures [] + a == a && [] + b == b
  {
  }

  // ------------------------------------------------------------------- bind moves

  lemma OneIgnoresBindings(w: Setting, s: Composition, c: PluginCall, b: map<string, Binding>)
    ensures ApplyPluginCall(w, s.(bindings := b), c) == ApplyPluginCall(w, s, c).(bindings := b)
  {
  }

  lemma {:induction false} PluginIgnoresBindings(
    w: Setting, s: Composition, calls: seq<PluginCall>, b: map<string, Binding>)
    ensures ApplyPluginCalls(w, s.(bindings := b), calls) == ApplyPluginCalls(w, s, calls).(bindings := b)
  {
    if calls != [] {
      var front := calls[..|calls| - 1];
      PluginIgnoresBindings(w, s, front, b);
      OneIgnoresBindings(w, ApplyPluginCalls(w, s, front), calls[|calls| - 1], b);
    }
  }

  lemma SwapBind(w: Setting, s: Composition, id: string, binding: Binding, c: Call)
    requires !c.Bind?
    ensures var b := Bind(id, binding);
            && CallFault(w, ApplyCall(w, s, c), b) == CallFault(w, s, b)
            && CallFault(w, ApplyCall(w, s, b), c) == CallFault(w, s, c)
            && ApplyCall(w, ApplyCall(w, s, b), c) == ApplyCall(w, ApplyCall(w, s, c), b)
  {
    if c.Install? {
      PluginIgnoresBindings(w, s, c.calls, s.bindings[id := binding]);
      PluginLeaves(w, s, c.calls);
    }
  }

  lemma RunSnoc(w: Setting, history: seq<Call>, c: Call)
    ensures Run(w, history + [c])
         == match Run(w, history)
            case None => None
            case Some(s) => if CallFault(w, s, c).Some? then None else Some(ApplyCall(w, s, c))
  {
    assert (history + [c])[..|history + [c]| - 1] == history;
  }

  lemma {:induction false} RunSuffix(w: Setting, a: seq<Call>, b: seq<Call>, post: seq<Call>)
    requires Run(w, a) == Run(w, b)
    ensures Run(w, a + post) == Run(w, b + post)
    decreases |post|
  {
    if post == [] {
      assert a + post == a && b + post == b;
    } else {
      var (front, last) := (post[..|post| - 1], post[|post| - 1]);
      RunSuffix(w, a, b, front);
      assert a + post == (a + front) + [last] && b + post == (b + front) + [last];
      RunSnoc(w, a + front, last);
      RunSnoc(w, b + front, last);
    }
  }

  lemma SwapLast(w: Setting, pre: seq<Call>, id: string, binding: Binding, c: Call)
    requires !c.Bind?
    ensures Run(w, pre + [Bind(id, binding)] + [c]) == Run(w, pre + [c] + [Bind(id, binding)])
  {
    var b := Bind(id, binding);
    RunSnoc(w, pre, b);
    RunSnoc(w, pre, c);
    RunSnoc(w, pre + [b], c);
    RunSnoc(w, pre + [c], b);
    if Run(w, pre).Some? {
      SwapBind(w, Run(w, pre).value, id, binding, c);
    }
  }

  lemma {:induction false} BindPast(w: Setting, pre: seq<Call>, id: string, binding: Binding, cs: seq<Call>)
    requires forall i :: 0 <= i < |cs| ==> !cs[i].Bind?
    ensures Run(w, pre + [Bind(id, binding)] + cs) == Run(w, pre + cs + [Bind(id, binding)])
    decreases |cs|
  {
    var b := [Bind(id, binding)];
    if cs == [] {
      assert pre + b + cs == pre + cs + b;
    } else {
      var (front, c) := (cs[..|cs| - 1], cs[|cs| - 1]);
      BindPast(w, pre, id, binding, front);
      RunSuffix(w, pre + b + front, pre + front + b, [c]);
      SwapLast(w, pre + front, id, binding, c);
      assert pre + b + cs == (pre + b + front) + [c];
      assert pre + cs + b == (pre + front) + [c] + b;
    }
  }

  /** Moving a bind call past any calls that bind nothing changes neither acceptance nor result. */
  lemma BindMoves(w: Setting, pre: seq<Call>, id: string, binding: Binding, cs: seq<Call>, post: seq<Call>)
    requires forall i :: 0 <= i < |cs| ==> !cs[i].Bind?
    ensures Run(w, pre + [Bind(id, binding)] + cs + post) == Run(w, pre + cs + [Bind(id, binding)] + post)
  {
    BindPast(w, pre, id, binding, cs);
    RunSuffix(w, pre + [Bind(id, binding)] + cs, pre + cs + [Bind(id, binding)], post);
  }

  // --------------------------------------------------------------------- isolation

  /** The call concerns named endpoints only, and not this one. */
  predicate Elsewhere(c: Call, id: string) {
    match c
    case Bind(other, _) => other != id
    case AllowUnenforced(other, _) => other != id
    case Install(_, calls, _) => forall i :: 0 <= i < |calls| ==> NamesOther(calls[i], id)
    case _ => false
  }

  predicate NamesOther(c: PluginCall, id: string) {
    match c
    case EndpointGuard(other, _) => other != id
    case EndpointMiddleware(other, _) => other != id
    case EndpointHook(other, _) => other != id
    case _ => false
  }

  /** Two states alike in everything that concerns one endpoint. */
  predicate SameFor(s: Composition, t: Composition, id: string) {
    && t.guards.global == s.guards.global && At(t.guards.local, id) == At(s.guards.local, id)
    && t.middleware.global == s.middleware.global && At(t.middleware.local, id) == At(s.middleware.local, id)
    && t.hooks.global == s.hooks.global && At(t.hooks.local, id) == At(s.hooks.local, id)
    && t.bindings == s.bindings && t.provided == s.provided && t.allowed == s.allowed && t.maxBody == s.maxBody
  }

  lemma OneElsewhere(w: Setting, s: Composition, c: PluginCall, id: string)
    requires NamesOther(c, id)
    ensures SameFor(s, ApplyPluginCall(w, s, c), id)
  {
  }

  lemma {:induction false} PluginElsewhere(w: Setting, s: Composition, calls: seq<PluginCall>, id: string)
    requires forall i :: 0 <= i < |calls| ==> NamesOther(calls[i], id)
    ensures SameFor(s, ApplyPluginCalls(w, s, calls), id)
  {
    if calls != [] {
      var front := calls[..|calls| - 1];
      PluginElsewhere(w, s, front, id);
      OneElsewhere(w, ApplyPluginCalls(w, s, front), calls[|calls| - 1], id);
    }
  }

  /** What is added for other endpoints neither reaches this one nor changes whether it is enforced. */
  lemma AdditionsStayPut(w: Setting, s: Composition, c: Call, e: Endpoint)
    requires e.id in s.bindings && Elsewhere(c, e.id) && CallFault(w, s, c).None?
    ensures var t := ApplyCall(w, s, c);
            && e.id in t.bindings && RuntimeOf(t, e) == RuntimeOf(s, e)
            && RouteFault(w, t, RuntimeOf(t, e)) == RouteFault(w, s, RuntimeOf(s, e))
  {
    if c.Install? {
      PluginElsewhere(w, s, c.calls, e.id);
    }
  }

  // -------------------------------------------------------------------- built routers

  lemma {:induction false} RoutesExact(w: Setting, s: Composition, endpoints: seq<Endpoint>)
    requires AllBound(s, endpoints) && RoutesOf(w, s, endpoints).Ok?
    ensures var routes := RoutesOf(w, s, endpoints).value;
            && |routes| == |endpoints|
            && forall i :: 0 <= i < |endpoints| ==>
                 routes[i] == RuntimeOf(s, endpoints[i]) && RouteFault(w, s, routes[i]).None?
  {
    if endpoints != [] {
      RoutesExact(w, s, endpoints[..|endpoints| - 1]);
    }
  }

  lemma {:induction false} TransformsKeep(w: Setting, router: Router, transforms: seq<Transform>)
    requires Transformed(w, router, transforms).Ok?
    ensures var r := Transformed(w, router, transforms).value;
            r.routes == router.routes && r.layers == router.layers + transforms
    decreases |transforms|
  {
    if transforms == [] {
      assert router.layers + [] == router.layers;
    } else {
      TransformsKeep(w, router.(layers := router.layers + [transforms[0]]), transforms[1..]);
      assert router.layers + [transforms[0]] + transforms[1..] == router.layers + transforms;
    }
  }

  /**
   A router that was built has one route per catalog endpoint, merged for it
   and covered, and every augmentation was applied before any wrapper.
   */
  lemma BuiltExact(w: Setting, s: Composition)
    requires BuildOf(w, s).Ok?
    ensures var r := BuildOf(w, s).value;
            && AllBound(s, w.catalog) && |r.routes| == |w.catalog|
            && (forall i :: 0 <= i < |w.catalog| ==>
                  r.routes[i] == RuntimeOf(s, w.catalog[i]) && RouteFault(w, s, r.routes[i]).None?)
            && r.layers == s.augmentations + s.wrappers
  {
    RoutesExact(w, s, w.catalog);
    TransformsKeep(w, Router(RoutesOf(w, s, w.catalog).value, []), s.augmentations + s.wrappers);
    assert [] + (s.augmentations + s.wrappers) == s.augmentations + s.wrappers;
  }

  /** A guard can enforce the capability and one of them declares it. */
  predicate GuardEnforces(c: Capability, guards: seq<Guard>) {
    (c == Authentication || c == Capability.RateLimit || c == Csrf)
    && exists i :: 0 <= i < |guards| && c in guards[i].caps
  }

  /** A middleware can enforce the capability and one of them declares it. */
  predicate MiddlewareEnforces(c: Capability, middleware: seq<Middleware>) {
    c == RequestValidation && exists i :: 0 <= i < |middleware| && c in middleware[i].caps
  }

  lemma ProvidesWhen(c: Capability, guards: seq<Guard>, middleware: seq<Middleware>)
    ensures Provides(c, guards, middleware) <==> GuardEnforces(c, guards) || MiddlewareEnforces(c, middleware)
  {
  }

  /** The coverage check reports exactly the required capabilities that nobody excuses, provides or enforces. */
  lemma {:induction false} MissingExact(required: seq<Capability>, guards: seq<Guard>, middleware: seq<Middleware>,
                     provided: set<Capability>, excused: set<Capability>)
    ensures forall c :: c in Missing(required, guards, middleware, provided, excused)
              <==> c in required && c !in excused && c !in provided
                   && !GuardEnforces(c, guards) && !MiddlewareEnforces(c, middleware)
  {
    if required != [] {
      MissingExact(required[1..], guards, middleware, provided, excused);
      ProvidesWhen(required[0], guards, middleware);
      assert forall c :: c in required <==> c == required[0] || c in required[1..];
    }
  }

  /** Each required capability is excused, provided at the router, or enforced by an extension of the route. */
  ghost predicate CoveredBy(s: Composition, e: Endpoint, guards: seq<Guard>, middleware: seq<Middleware>) {
    forall c :: c in e.required ==>
      || c in AllowedAt(s.allowed, e.id) || c in s.provided
      || GuardEnforces(c, guards) || MiddlewareEnforces(c, middleware)
  }

  ghost predicate Ready(w: Setting, s: Composition, e: Endpoint)
    requires e.id in s.bindings
  {
    w.routable(e.verb) && CoveredBy(s, e, RuntimeOf(s, e).guards, RuntimeOf(s, e).middleware)
  }

  /** A route is refused for a method Axum does not know, or else for what is not covered. */
  lemma RouteFaultExact(w: Setting, s: Composition, e: Endpoint)
    requires e.id in s.bindings
    ensures RouteFault(w, s, RuntimeOf(s, e)).None? <==> Ready(w, s, e)
    ensures !Ready(w, s, e) ==>
              RouteFault(w, s, RuntimeOf(s, e)) == Some(Plain(if w.routable(e.verb) then Validation else Unsupported))
  {
    var rt := RuntimeOf(s, e);
    var missing := Missing(e.required, rt.guards, rt.middleware, s.provided, AllowedAt(s.allowed, e.id));
    MissingExact(e.required, rt.guards, rt.middleware, s.provided, AllowedAt(s.allowed, e.id));
    assert missing != [] ==> missing[0] in missing;
  }

  /** Routes are built exactly when every endpoint's method is supported and its enforcement is covered. */
  lemma {:induction false} RoutesWhen(w: Setting, s: Composition, endpoints: seq<Endpoint>)
    requires AllBound(s, endpoints)
    ensures RoutesOf(w, s, endpoints).Ok? <==> forall i :: 0 <= i < |endpoints| ==> Ready(w, s, endpoints[i])
  {
    if endpoints != [] {
      var n := |endpoints| - 1;
      RoutesWhen(w, s, endpoints[..n]);
      RouteFaultExact(w, s, endpoints[n]);
      assert forall i :: 0 <= i < n ==> endpoints[..n][i] == endpoints[i];
    }
  }

  /** The first endpoint that is not ready decides the error. */
  lemma RoutesRefused(w: Setting, s: Composition, endpoints: seq<Endpoint>, k: nat)
    requires AllBound(s, endpoints) && k < |endpoints| && !Ready(w, s, endpoints[k])
    requires forall i :: 0 <= i < k ==> Ready(w, s, endpoints[i])
    ensures RoutesOf(w, s, endpoints)
         == Err(Plain(if w.routable(endpoints[k].verb) then Validation else Unsupported))
  {
    RoutesWhen(w, s, endpoints[..k]);
    RouteFaultExact(w, s, endpoints[k]);
    assert endpoints[..k + 1][..k] == endpoints[..k];
    RoutesFailEarly(w, s, endpoints, k + 1);
  }

  // ------------------------------------------------------------- what a chain amounts to

  /** Call `i` is one the builder accepts after the calls before it. */
  predicate CallFits(w: Setting, history: seq<Call>, i: nat)
    requires i < |history|
  {
    match history[i]
    case Bind(id, _) => Known(w, id) && forall j :: 0 <= j < i ==> !Binds(history[j], id)
    case Install(name, _, fault) => fault.None? && forall j :: 0 <= j < i ==> !Installs(history[j], name)
    case AllowUnenforced(id, _) => Known(w, id)
    case MaxBody(bytes) => bytes > 0
    case _ => true
  }

  predicate Installs(c: Call, name: string) { c.Install? && c.name == name }

  lemma {:induction false} Installed(w: Setting, history: seq<Call>, name: string)
    requires Run(w, history).Some?
    ensures name in Run(w, history).value.plugins <==> exists i :: 0 <= i < |history| && Installs(history[i], name)
  {
    if history != [] {
      var n := |history| - 1;
      var front := history[..n];
      Installed(w, front, name);
      if history[n].Install? {
        PluginLeaves(w, Run(w, front).value, history[n].calls);
      }
      if i :| 0 <= i < n && Installs(front[i], name) {
        assert Installs(history[i], name);
      }
      assert forall i :: 0 <= i < n ==> front[i] == history[i];
    }
  }

  lemma LastFits(w: Setting, history: seq<Call>)
    requires history != [] && Run(w, history[..|history| - 1]).Some?
    ensures var n := |history| - 1;
            CallFault(w, Run(w, history[..n]).value, history[n]).None? <==> CallFits(w, history, n)
  {
    var n := |history| - 1;
    var front := history[..n];
    assert forall i :: 0 <= i < n ==> front[i] == history[i];
    match history[n] {
      case Bind(id, _) =>
        EndpointFaultExact(w, id);
        Bound(w, front, id);
      case Install(name, _, _) =>
        Installed(w, front, name);
      case AllowUnenforced(id, _) =>
        EndpointFaultExact(w, id);
      case _ =>
    }
  }

  /**
   A chain is accepted exactly if it binds and excuses only known endpoints,
   binds none twice, installs no plugin twice and none that fails, and sets no
   cap of zero.
   */
  lemma {:induction false} AcceptedExactly(w: Setting, history: seq<Call>)
    ensures Run(w, history).Some? <==> forall i: nat :: i < |history| ==> CallFits(w, history, i)
  {
    if history != [] {
      var n := |history| - 1;
      var front := history[..n];
      AcceptedExactly(w, front);
      forall i: nat | i < n
        ensures CallFits(w, front, i) <==> CallFits(w, history, i)
      {
        assert forall j :: 0 <= j <= i ==> front[j] == history[j];
      }
      if Run(w, front).Some? {
        LastFits(w, history);
      }
    }
  }

  /** The last cap set is the one that holds; two mebibytes if none was. */
  lemma {:induction false} CapExact(w: Setting, history: seq<Call>)
    requires Run(w, history).Some?
    ensures (forall i :: 0 <= i < |history| ==> !history[i].MaxBody?) ==> Run(w, history).value.maxBody == 2_097_152
    ensures forall i :: 0 <= i < |history| && history[i].MaxBody?
                        && (forall j :: i < j < |history| ==> !history[j].MaxBody?)
              ==> Run(w, history).value.maxBody == history[i].bytes
  {
    if history != [] {
      var n := |history| - 1;
      var front := history[..n];
      CapExact(w, front);
      if history[n].Install? {
        PluginLeaves(w, Run(w, front).value, history[n].calls);
      }
      assert forall i :: 0 <= i < n ==> front[i] == history[i];
    }
  }

  /** The transforms that a chain's plugins gave for one phase, in call order. */
  function Picked(pick: PluginCall -> Option<Transform>, history: seq<Call>): seq<Transform> {
    if history == [] then []
    else
      var last := history[|history| - 1];
      Picked(pick, history[..|history| - 1]) + (if last.Install? then PluginPicked(pick, last.calls) else [])
  }

  function PluginPicked(pick: PluginCall -> Option<Transform>, calls: seq<PluginCall>): seq<Transform> {
    if calls == [] then []
    else
      var last := pick(calls[|calls| - 1]);
      PluginPicked(pick, calls[..|calls| - 1]) + (if last.Some? then [last.value] else [])
  }

  const AUGMENTS := (c: PluginCall) => if c.Augment? then Some(c.transform) else None
  const WRAPS := (c: PluginCall) => if c.Wrap? then Some(c.transform) else None

  lemma {:induction false} PluginPhases(w: Setting, s: Composition, calls: seq<PluginCall>)
    ensures var t := ApplyPluginCalls(w, s, calls);
            && t.augmentations == s.augmentations + PluginPicked(AUGMENTS, calls)
            && t.wrappers == s.wrappers + PluginPicked(WRAPS, calls)
  {
    if calls != [] {
      PluginPhases(w, s, calls[..|calls| - 1]);
    }
  }

  /** Augmentations and wrappers are held apart, each in call order. */
  lemma {:induction false} PhasesExact(w: Setting, history: seq<Call>)
    requires Run(w, history).Some?
    ensures Run(w, history).value.augmentations == Picked(AUGMENTS, history)
    ensures Run(w, history).value.wrappers == Picked(WRAPS, history)
  {
    if history != [] {
      var n := |history| - 1;
      PhasesExact(w, history[..n]);
      if history[n].Install? {
        PluginPhases(w, Run(w, history[..n]).value, history[n].calls);
      }
    }
  }
}
