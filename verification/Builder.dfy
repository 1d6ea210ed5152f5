/**
 Router composition (src/router.rs, src/plugin.rs, src/binding.rs): builder and
 plugin calls accumulate extensions; `build` merges them per endpoint and
 refuses endpoints whose declared enforcement nobody provides.
 */
module Builder {
  import opened Text
  import opened Http
  import opened BodyReader

  // ----------------------------------------------------------------- extensions

  /** A guard, middleware or hook is an identity and, but for hooks, what it declares to enforce. */
  datatype Guard = Guard(id: nat, caps: set<Capability>)
  datatype Middleware = Middleware(id: nat, caps: set<Capability>)
  datatype Hook = Hook(id: nat)

  /** A router transform is an arbitrary function; only its identity and order are kept. */
  type Transform = nat

  datatype Binding = Binding(target: nat, guards: seq<Guard>, middleware: seq<Middleware>, hooks: seq<Hook>)

  // ----------------------------------------------------------------------- calls

  datatype PluginCall =
    | GlobalGuard(guard: Guard)
    | GlobalMiddleware(middleware: Middleware)
    | GlobalHook(hook: Hook)
    | EndpointGuard(id: string, guard: Guard)
    | EndpointMiddleware(id: string, middleware: Middleware)
    | EndpointHook(id: string, hook: Hook)
    | Augment(transform: Transform)
    | Wrap(transform: Transform)
    | Provide(capability: Capability)

  /**
   One builder call. A plugin is what one run of its `install` did to its
   context, in order, and how it ended.
   */
  datatype Call =
    | UseGuard(guard: Guard)
    | UseMiddleware(middleware: Middleware)
    | UseHook(hook: Hook)
    | Bind(id: string, binding: Binding)
    | Install(name: string, calls: seq<PluginCall>, fault: Option<SoapError>)
    | AllowUnenforced(id: string, capability: Capability)
    | MaxBody(bytes: nat)

  // ----------------------------------------------------------------------- state

  /** Extensions of one kind: those of all endpoints and those of one. */
  datatype Lists<T> = Lists(global: seq<T>, local: map<string, seq<T>>)

  function At<T>(m: map<string, seq<T>>, id: string): seq<T> { if id in m then m[id] else [] }

  datatype Composition = Composition(
    bindings: map<string, Binding>,
    guards: Lists<Guard>, middleware: Lists<Middleware>, hooks: Lists<Hook>,
    augmentations: seq<Transform>, wrappers: seq<Transform>,
    provided: set<Capability>, allowed: map<string, set<Capability>>,
    plugins: set<string>, maxBody: nat)

  const DEFAULT_MAX_BODY := 2 * 1024 * 1024

  const EMPTY := Composition(
    map[], Lists([], map[]), Lists([], map[]), Lists([], map[]), [], [], {}, map[], {}, DEFAULT_MAX_BODY)

  /** One catalog endpoint with everything merged for it. */
  datatype Runtime = Runtime(
    endpoint: Endpoint, target: nat,
    guards: seq<Guard>, middleware: seq<Middleware>, hooks: seq<Hook>, maxBody: nat)

  datatype Router = Router(routes: seq<Runtime>, layers: seq<Transform>)

  /**
   What the builder works with: a catalog, the id syntax and request methods
   the libraries accept, and when a router transform fails.
   */
  datatype Setting = Setting(
    catalog: seq<Endpoint>, validId: string -> bool, routable: string -> bool,
    transformFault: (Transform, Router) -> Option<SoapError>)

  predicate Declared(catalog: seq<Endpoint>, id: string) {
    exists i :: 0 <= i < |catalog| && catalog[i].id == id
  }

  function EndpointFault(w: Setting, id: string): Option<SoapError> {
    if !w.validId(id) then Some(Plain(Validation))
    else if !Declared(w.catalog, id) then Some(Plain(NotFound))
    else None
  }

  // -------------------------------------------------------------- meaning of calls

  /** An addition to one kind of extension. */
  datatype Add<T> = ToAll(item: T) | ToOne(id: string, item: T)

  function Added<T>(l: Lists<T>, a: Add<T>): Lists<T> {
    match a
    case ToAll(x) => l.(global := l.global + [x])
    case ToOne(id, x) => l.(local := l.local[id := At(l.local, id) + [x]])
  }

  /** A context call; one naming an endpoint that is not declared changes nothing. */
  function ApplyPluginCall(w: Setting, s: Composition, c: PluginCall): Composition {
    match c
    case GlobalGuard(g) => s.(guards := Added(s.guards, ToAll(g)))
    case GlobalMiddleware(m) => s.(middleware := Added(s.middleware, ToAll(m)))
    case GlobalHook(h) => s.(hooks := Added(s.hooks, ToAll(h)))
    case EndpointGuard(id, g) =>
      if EndpointFault(w, id).Some? then s else s.(guards := Added(s.guards, ToOne(id, g)))
    case EndpointMiddleware(id, m) =>
      if EndpointFault(w, id).Some? then s else s.(middleware := Added(s.middleware, ToOne(id, m)))
    case EndpointHook(id, h) =>
      if EndpointFault(w, id).Some? then s else s.(hooks := Added(s.hooks, ToOne(id, h)))
    case Augment(t) => s.(augmentations := s.augmentations + [t])
    case Wrap(t) => s.(wrappers := s.wrappers + [t])
    case Provide(c) => s.(provided := s.provided + {c})
  }

  function ApplyPluginCalls(w: Setting, s: Composition, calls: seq<PluginCall>): Composition {
    if calls == [] then s
    else ApplyPluginCall(w, ApplyPluginCalls(w, s, calls[..|calls| - 1]), calls[|calls| - 1])
  }

  function AllowedAt(m: map<string, set<Capability>>, id: string): set<Capability> {
    if id in m then m[id] else {}
  }

  function CallFault(w: Setting, s: Composition, c: Call): Option<SoapError> {
    match c
    case Bind(id, _) =>
      if EndpointFault(w, id).Some? then EndpointFault(w, id)
      else if id in s.bindings then Some(Plain(Conflict)) else None
    case Install(name, _, fault) => if name in s.plugins then Some(Plain(Conflict)) else fault
    case AllowUnenforced(id, _) => EndpointFault(w, id)
    case MaxBody(bytes) => if bytes == 0 then Some(Plain(Validation)) else None
    case _ => None
  }

  /** The state after a call that is accepted. */
  function ApplyCall(w: Setting, s: Composition, c: Call): Composition {
    match c
    case UseGuard(g) => s.(guards := Added(s.guards, ToAll(g)))
    case UseMiddleware(m) => s.(middleware := Added(s.middleware, ToAll(m)))
    case UseHook(h) => s.(hooks := Added(s.hooks, ToAll(h)))
    case Bind(id, b) => s.(bindings := s.bindings[id := b])
    case Install(name, calls, _) =>
      var t := ApplyPluginCalls(w, s, calls);
      t.(plugins := t.plugins + {name})
    case AllowUnenforced(id, cap) => s.(allowed := s.allowed[id := AllowedAt(s.allowed, id) + {cap}])
    case MaxBody(bytes) => s.(maxBody := bytes)
  }

  /** The builder after a chain of calls; None once one of them failed. */
  function Run(w: Setting, history: seq<Call>): Option<Composition> {
    if history == [] then Some(EMPTY)
    else
      match Run(w, history[..|history| - 1])
      case None => None
      case Some(s) =>
        var c := history[|history| - 1];
        if CallFault(w, s, c).Some? then None else Some(ApplyCall(w, s, c))
  }

  // ----------------------------------------------------------------------- building

  /** Whether an extension of the phase that can enforce the capability declares it. */
  predicate Provides(c: Capability, guards: seq<Guard>, middleware: seq<Middleware>) {
    match c
    case Authentication | RateLimit | Csrf => exists i :: 0 <= i < |guards| && c in guards[i].caps
    case RequestValidation => exists i :: 0 <= i < |middleware| && c in middleware[i].caps
    case Cors => false
  }

  /** The required capabilities that nobody provides and nothing excuses, in order. */
  function Missing(required: seq<Capability>, guards: seq<Guard>, middleware: seq<Middleware>,
                   provided: set<Capability>, excused: set<Capability>): seq<Capability>
  {
    if required == [] then []
    else
      (if required[0] in excused || required[0] in provided || Provides(required[0], guards, middleware)
       then [] else [required[0]])
      + Missing(required[1..], guards, middleware, provided, excused)
  }

  function RuntimeOf(s: Composition, e: Endpoint): Runtime
    requires e.id in s.bindings
  {
    var b := s.bindings[e.id];
    Runtime(e, b.target,
            s.guards.global + At(s.guards.local, e.id) + b.guards,
            s.middleware.global + At(s.middleware.local, e.id) + b.middleware,
            s.hooks.global + At(s.hooks.local, e.id) + b.hooks,
            s.maxBody)
  }

  function RouteFault(w: Setting, s: Composition, rt: Runtime): Option<SoapError> {
    if !w.routable(rt.endpoint.verb) then Some(Plain(Unsupported))
    else if Missing(rt.endpoint.required, rt.guards, rt.middleware, s.provided,
                    AllowedAt(s.allowed, rt.endpoint.id)) != []
      then Some(Plain(Validation))
    else None
  }

  predicate AllBound(s: Composition, endpoints: seq<Endpoint>) {
    forall i :: 0 <= i < |endpoints| ==> endpoints[i].id in s.bindings
  }

  /** The routes of the endpoints in order, or the first fault. */
  function RoutesOf(w: Setting, s: Composition, endpoints: seq<Endpoint>): Result<seq<Runtime>>
    requires AllBound(s, endpoints)
  {
    if endpoints == [] then Ok([])
    else
      var n := |endpoints| - 1;
      match RoutesOf(w, s, endpoints[..n])
      case Err(error) => Err(error)
      case Ok(routes) =>
        var rt := RuntimeOf(s, endpoints[n]);
        if RouteFault(w, s, rt).Some? then Err(RouteFault(w, s, rt).value) else Ok(routes + [rt])
  }

  function Transformed(w: Setting, router: Router, transforms: seq<Transform>): Result<Router>
    decreases |transforms|
  {
    if transforms == [] then Ok(router)
    else if w.transformFault(transforms[0], router).Some? then Err(w.transformFault(transforms[0], router).value)
    else Transformed(w, router.(layers := router.layers + [transforms[0]]), transforms[1..])
  }

  /** What building gives: every endpoint's merged route, then augmentations, then wrappers. */
  function BuildOf(w: Setting, s: Composition): Result<Router> {
    if !AllBound(s, w.catalog) then Err(Plain(Validation))
    else
      match RoutesOf(w, s, w.catalog)
      case Err(error) => Err(error)
      case Ok(routes) => Transformed(w, Router(routes, []), s.augmentations + s.wrappers)
  }

  predicate UniqueIds(catalog: seq<Endpoint>) {
    forall i, j :: 0 <= i < j < |catalog| ==> catalog[i].id != catalog[j].id
  }

  lemma {:induction false} RoutesFailEarly(w: Setting, s: Composition, endpoints: seq<Endpoint>, n: nat)
    requires AllBound(s, endpoints) && n <= |endpoints| && RoutesOf(w, s, endpoints[..n]).Err?
    ensures RoutesOf(w, s, endpoints) == RoutesOf(w, s, endpoints[..n])
    decreases |endpoints|
  {
    if n < |endpoints| {
      var front := endpoints[..|endpoints| - 1];
      assert front[..n] == endpoints[..n];
      RoutesFailEarly(w, s, front, n);
    } else {
      assert endpoints[..n] == endpoints;
    }
  }

  // ------------------------------------------------------------- the builder object

  class SoapRouterBuilder {
    const setting: Setting
    var bindings: map<string, Binding>
    var globalGuards: seq<Guard>
    var globalMiddleware: seq<Middleware>
    var globalHooks: seq<Hook>
    var endpointGuards: map<string, seq<Guard>>
    var endpointMiddleware: map<string, seq<Middleware>>
    var endpointHooks: map<string, seq<Hook>>
    var augmentations: seq<Transform>
    var wrappers: seq<Transform>
    var provided: set<Capability>
    var allowed: map<string, set<Capability>>
    var plugins: set<string>
    var maxBodyBytes: nat

    function State(): Composition
      reads this
    {
      Composition(bindings, Lists(globalGuards, endpointGuards), Lists(globalMiddleware, endpointMiddleware),
                  Lists(globalHooks, endpointHooks), augmentations, wrappers, provided, allowed, plugins, maxBodyBytes)
    }

    constructor (setting: Setting)
      ensures this.setting == setting && State() == EMPTY
    {
      this.setting := setting;
      bindings := map[];
      globalGuards, globalMiddleware, globalHooks := [], [], [];
      endpointGuards, endpointMiddleware, endpointHooks := map[], map[], map[];
      augmentations, wrappers := [], [];
      provided, allowed, plugins := {}, map[], {};
      maxBodyBytes := DEFAULT_MAX_BODY;
    }

    method AddGuard(g: Guard)
      modifies this
      ensures State() == ApplyCall(setting, old(State()), UseGuard(g))
    {
      globalGuards := globalGuards + [g];
    }

    method AddMiddleware(m: Middleware)
      modifies this
      ensures State() == ApplyCall(setting, old(State()), UseMiddleware(m))
    {
      globalMiddleware := globalMiddleware + [m];
    }

    method AddHook(h: Hook)
      modifies this
      ensures State() == ApplyCall(setting, old(State()), UseHook(h))
    {
      globalHooks := globalHooks + [h];
    }

    /** Replaces a binding before noticing that there was one; the chain ends there. */
    method BindEndpoint(id: string, binding: Binding) returns (r: Option<SoapError>)
      modifies this
      ensures r == CallFault(setting, old(State()), Bind(id, binding))
      ensures r.None? ==> State() == ApplyCall(setting, old(State()), Bind(id, binding))
    {
      var fault := EndpointFault(setting, id);
      if fault.Some? {
        return fault;
      }
      var bound := id in bindings;
      bindings := bindings[id := binding];
      if bound {
        return Some(Plain(Conflict));
      }
      return None;
    }

    method Allow(id: string, capability: Capability) returns (r: Option<SoapError>)
      modifies this
      ensures r == CallFault(setting, old(State()), AllowUnenforced(id, capability))
      ensures r.None? ==> State() == ApplyCall(setting, old(State()), AllowUnenforced(id, capability))
    {
      var fault := EndpointFault(setting, id);
      if fault.Some? {
        return fault;
      }
      allowed := allowed[id := AllowedAt(allowed, id) + {capability}];
      return None;
    }

    method SetMaxBody(bytes: nat) returns (r: Option<SoapError>)
      modifies this
      ensures r == CallFault(setting, old(State()), MaxBody(bytes))
      ensures r.None? ==> State() == ApplyCall(setting, old(State()), MaxBody(bytes))
    {
      if bytes == 0 {
        return Some(Plain(Validation));
      }
      maxBodyBytes := bytes;
      return None;
    }

    /** Runs a plugin's install over the shared context; a failing plugin ends the chain. */
    method InstallPlugin(name: string, calls: seq<PluginCall>, fault: Option<SoapError>)
      returns (r: Option<SoapError>)
      modifies this
      ensures r == CallFault(setting, old(State()), Install(name, calls, fault))
      ensures r.None? ==> State() == ApplyCall(setting, old(State()), Install(name, calls, fault))
    {
      if name in plugins {
        return Some(Plain(Conflict));
      }
      var context := new PluginContext(this);
      var i := 0;
      while i < |calls|
        invariant i <= |calls| && context.builder == this
        invariant State() == ApplyPluginCalls(setting, old(State()), calls[..i])
      {
        var ignored := context.Perform(calls[i]);
        assert calls[..i + 1][..|calls[..i + 1]| - 1] == calls[..i];
        i := i + 1;
      }
      assert calls[..i] == calls;
      if fault.Some? {
        return fault;
      }
      plugins := plugins + {name};
      return None;
    }

    /**
     `build`: takes each endpoint's binding and extensions out of the maps. It
     succeeds only for a catalog without repeated ids, and for such a catalog
     taking things out never shows: the result is that of looking them up, so
     the error for a binding that disappeared is never met.
     */
    method Build() returns (r: Result<Router>)
      modifies this
      ensures r.Ok? ==> UniqueIds(setting.catalog)
      ensures UniqueIds(setting.catalog) ==> r == BuildOf(setting, old(State()))
    {
      ghost var s := State();
      var catalog := setting.catalog;
      var complete := EveryBound();
      if !complete {
        return Err(Plain(Validation));
      }
      var router := Router([], []);
      assert Taken(catalog[..0]) == {};
      for i := 0 to |catalog|
        invariant Remaining(s, Taken(catalog[..i])) && UniqueIds(catalog[..i])
        invariant RoutesOf(setting, s, catalog[..i]) == Ok(router.routes) && router.layers == []
      {
        TakenStep(catalog, i);
        RoutesStep(setting, s, catalog, i);
        var taken := TakeRoute(catalog[i], s, Taken(catalog[..i]));
        if taken.Err? {
          return Err(taken.error);
        }
        UniqueStep(catalog, i);
        router := router.(routes := router.routes + [taken.value]);
      }
      assert catalog[..|catalog|] == catalog;
      r := ApplyTransforms(setting, router, augmentations, wrappers);
    }

    /** No endpoint of the catalog lacks a binding. */
    method EveryBound() returns (complete: bool)
      ensures complete <==> AllBound(State(), setting.catalog)
    {
      for i := 0 to |setting.catalog|
        invariant AllBound(State(), setting.catalog[..i])
      {
        if setting.catalog[i].id !in bindings {
          return false;
        }
      }
      return true;
    }

    /** Takes one endpoint's binding and extensions out of the maps and merges them. */
    method TakeRoute(e: Endpoint, ghost s: Composition, ghost taken: set<string>) returns (r: Result<Runtime>)
      requires Remaining(s, taken) && e.id in s.bindings
      modifies this
      ensures e.id in taken ==> r.Err?
      ensures e.id !in taken ==>
                r == if RouteFault(setting, s, RuntimeOf(s, e)).Some?
                     then Err(RouteFault(setting, s, RuntimeOf(s, e)).value)
                     else Ok(RuntimeOf(s, e))
      ensures r.Ok? ==> Remaining(s, taken + {e.id})
    {
      if e.id !in bindings {
        return Err(Plain(Infrastructure));
      }
      var binding := bindings[e.id];
      bindings := bindings - {e.id};
      if !setting.routable(e.verb) {
        return Err(Plain(Unsupported));
      }
      var guards := globalGuards + At(endpointGuards, e.id) + binding.guards;
      endpointGuards := endpointGuards - {e.id};
      var middleware := globalMiddleware + At(endpointMiddleware, e.id) + binding.middleware;
      endpointMiddleware := endpointMiddleware - {e.id};
      if Missing(e.required, guards, middleware, provided, AllowedAt(allowed, e.id)) != [] {
        return Err(Plain(Validation));
      }
      var hooks := globalHooks + At(endpointHooks, e.id) + binding.hooks;
      endpointHooks := endpointHooks - {e.id};
      TakeTwice(s.bindings, taken, e.id);
      TakeTwice(s.guards.local, taken, e.id);
      TakeTwice(s.middleware.local, taken, e.id);
      TakeTwice(s.hooks.local, taken, e.id);
      return Ok(Runtime(e, binding.target, guards, middleware, hooks, maxBodyBytes));
    }

    /** The state `s` without the bindings and extensions of the endpoints in `taken`. */
    ghost predicate Remaining(s: Composition, taken: set<string>)
      reads this
    {
      && globalGuards == s.guards.global && globalMiddleware == s.middleware.global && globalHooks == s.hooks.global
      && augmentations == s.augmentations && wrappers == s.wrappers
      && provided == s.provided && allowed == s.allowed && maxBodyBytes == s.maxBody
      && bindings == s.bindings - taken
      && endpointGuards == s.guards.local - taken
      && endpointMiddleware == s.middleware.local - taken
      && endpointHooks == s.hooks.local - taken
    }
  }

  lemma TakeTwice<V>(m: map<string, V>, taken: set<string>, id: string)
    ensures (m - taken) - {id} == m - (taken + {id})
  {
  }

  /** One more endpoint: its own fault, or its route at the end. */
  lemma RoutesStep(w: Setting, s: Composition, catalog: seq<Endpoint>, i: nat)
    requires i < |catalog| && AllBound(s, catalog) && RoutesOf(w, s, catalog[..i]).Ok?
    ensures var rt := RuntimeOf(s, catalog[i]);
            if RouteFault(w, s, rt).Some?
            then RoutesOf(w, s, catalog) == Err(RouteFault(w, s, rt).value)
            else RoutesOf(w, s, catalog[..i + 1]) == Ok(RoutesOf(w, s, catalog[..i]).value + [rt])
    ensures catalog[i].id in Taken(catalog[..i]) ==> !UniqueIds(catalog)
  {
    assert catalog[..i + 1][..i] == catalog[..i];
    if RouteFault(w, s, RuntimeOf(s, catalog[i])).Some? {
      RoutesFailEarly(w, s, catalog, i + 1);
    }
    if catalog[i].id in Taken(catalog[..i]) {
      DuplicateTaken(catalog, i);
    }
  }

  /** Every augmentation, then every wrapper, each over the router left by the one before. */
  method ApplyTransforms(w: Setting, router: Router, augmentations: seq<Transform>, wrappers: seq<Transform>)
    returns (r: Result<Router>)
    ensures r == Transformed(w, router, augmentations + wrappers)
  {
    var all := augmentations + wrappers;
    var current := router;
    var i := 0;
    assert all[0..] == all;
    while i < |all|
      invariant i <= |all|
      invariant Transformed(w, router, all) == Transformed(w, current, all[i..])
    {
      assert all[i..][0] == all[i] && all[i..][1..] == all[i + 1..];
      var fault := w.transformFault(all[i], current);
      if fault.Some? {
        return Err(fault.value);
      }
      current := current.(layers := current.layers + [all[i]]);
      i := i + 1;
    }
    return Ok(current);
  }

  function Taken(endpoints: seq<Endpoint>): set<string> {
    set i | 0 <= i < |endpoints| :: endpoints[i].id
  }

  lemma TakenStep(catalog: seq<Endpoint>, i: nat)
    requires i < |catalog|
    ensures Taken(catalog[..i + 1]) == Taken(catalog[..i]) + {catalog[i].id}
  {
    var (a, b) := (catalog[..i], catalog[..i + 1]);
    forall id
      ensures id in Taken(b) <==> id in Taken(a) || id == catalog[i].id
    {
      if id in Taken(a) {
        var k :| 0 <= k < i && a[k].id == id;
        assert b[k].id == id;
      }
      if id == catalog[i].id {
        assert b[i].id == id;
      }
      if id in Taken(b) {
        var k :| 0 <= k < i + 1 && b[k].id == id;
        assert k < i ==> a[k].id == id;
      }
    }
  }

  lemma DuplicateTaken(catalog: seq<Endpoint>, i: nat)
    requires i < |catalog| && catalog[i].id in Taken(catalog[..i])
    ensures !UniqueIds(catalog)
  {
    var k :| 0 <= k < i && catalog[..i][k].id == catalog[i].id;
    assert catalog[k].id == catalog[i].id;
  }

  lemma UniqueStep(catalog: seq<Endpoint>, i: nat)
    requires i < |catalog| && catalog[i].id !in Taken(catalog[..i]) && UniqueIds(catalog[..i])
    ensures UniqueIds(catalog[..i + 1])
  {
    var (a, b) := (catalog[..i], catalog[..i + 1]);
    forall j, k | 0 <= j < k < |b|
      ensures b[j].id != b[k].id
    {
      if k < i {
        assert a[j].id != a[k].id;
      } else {
        assert a[j].id in Taken(a);
      }
    }
  }


  /** The part of the builder that plugins can reach. */
  class PluginContext {
    const builder: SoapRouterBuilder

    constructor (builder: SoapRouterBuilder)
      ensures this.builder == builder
    {
      this.builder := builder;
    }

    method AddEndpointGuard(id: string, g: Guard) returns (r: Option<SoapError>)
      modifies builder
      ensures r == EndpointFault(builder.setting, id)
      ensures builder.State() == ApplyPluginCall(builder.setting, old(builder.State()), EndpointGuard(id, g))
    {
      r := EndpointFault(builder.setting, id);
      if r.None? {
        builder.endpointGuards := builder.endpointGuards[id := At(builder.endpointGuards, id) + [g]];
      }
    }

    method AddEndpointMiddleware(id: string, m: Middleware) returns (r: Option<SoapError>)
      modifies builder
      ensures r == EndpointFault(builder.setting, id)
      ensures builder.State() == ApplyPluginCall(builder.setting, old(builder.State()), EndpointMiddleware(id, m))
    {
      r := EndpointFault(builder.setting, id);
      if r.None? {
        builder.endpointMiddleware := builder.endpointMiddleware[id := At(builder.endpointMiddleware, id) + [m]];
      }
    }

    method AddEndpointHook(id: string, h: Hook) returns (r: Option<SoapError>)
      modifies builder
      ensures r == EndpointFault(builder.setting, id)
      ensures builder.State() == ApplyPluginCall(builder.setting, old(builder.State()), EndpointHook(id, h))
    {
      r := EndpointFault(builder.setting, id);
      if r.None? {
        builder.endpointHooks := builder.endpointHooks[id := At(builder.endpointHooks, id) + [h]];
      }
    }

    /** One call of a plugin; only calls naming an endpoint can fail. */
    method Perform(c: PluginCall) returns (r: Option<SoapError>)
      modifies builder
      ensures builder.State() == ApplyPluginCall(builder.setting, old(builder.State()), c)
      ensures r.Some? ==> builder.State() == old(builder.State())
    {
      r := None;
      match c {
        case GlobalGuard(g) => builder.globalGuards := builder.globalGuards + [g];
        case GlobalMiddleware(m) => builder.globalMiddleware := builder.globalMiddleware + [m];
        case GlobalHook(h) => builder.globalHooks := builder.globalHooks + [h];
        case EndpointGuard(id, g) => r := AddEndpointGuard(id, g);
        case EndpointMiddleware(id, m) => r := AddEndpointMiddleware(id, m);
        case EndpointHook(id, h) => r := AddEndpointHook(id, h);
        case Augment(t) => builder.augmentations := builder.augmentations + [t];
        case Wrap(t) => builder.wrappers := builder.wrappers + [t];
        case Provide(cap) => builder.provided := builder.provided + {cap};
      }
    }
  }
}
