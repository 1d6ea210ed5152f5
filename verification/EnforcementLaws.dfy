/**
 Fail closed, end to end: the build-time coverage check and the run-time order
 of guards, body and middleware together mean that no required capability is
 silently unenforced when a target runs.
 */
module EnforcementLaws {
  import opened Text
  import opened Http
  import opened Builder
  import opened CompositionLaws
  import opened RateLimit
  import opened Pipeline

  // -------------------------------------------------------------- order of events

  predicate GuardsIn(trace: seq<Event>, n: nat) { forall i :: 0 <= i < n ==> GuardPassed(i) in trace }

  predicate BodyAt(trace: seq<Event>, b: int) { 0 <= b < |trace| && trace[b].BodyRead? }

  ghost predicate BodyIn(trace: seq<Event>) { exists b :: BodyAt(trace, b) }

  /** Middleware `d` was entered after the body was read. */
  predicate EnteredAt(trace: seq<Event>, d: nat, b: int, x: int) {
    BodyAt(trace, b) && b < x < |trace| && trace[x] == Entered(d)
  }

  predicate ThroughAt(trace: seq<Event>, d: nat, b: int, x: int, y: int) {
    EnteredAt(trace, d, b, x) && x < y < |trace| && trace[y] == Delegated(d)
  }

  ghost predicate EnteredIn(trace: seq<Event>, d: nat) { exists b, x :: EnteredAt(trace, d, b, x) }

  /** Body read, then middleware `d` entered, then it delegated. */
  ghost predicate Through(trace: seq<Event>, d: nat) { exists b, x, y :: ThroughAt(trace, d, b, x, y) }

  ghost predicate AllThrough(trace: seq<Event>, n: nat) { forall d: nat :: d < n ==> Through(trace, d) }

  /** What has happened when a run stands in a phase. */
  ghost predicate Reached(m: Machine, p: Phase, trace: seq<Event>) {
    var (guards, middleware) := (|m.rt.guards|, |m.rt.middleware|);
    match p
    case Guarding(i) => i <= guards && GuardsIn(trace, i)
    case Reading => GuardsIn(trace, guards)
    case RequestHooks(_) => BodyIn(trace)
    case Before(d) => d < middleware && EnteredIn(trace, d) && AllThrough(trace, d)
    case MappingInput => AllThrough(trace, middleware)
    case Executing => AllThrough(trace, middleware)
    case MappingOutput => AllThrough(trace, middleware)
    case After(d) => d < middleware && AllThrough(trace, d + 1)
    case _ => true
  }

  /** The body is read only after every guard passed; the target runs only after all that. */
  ghost predicate Ordered(m: Machine, trace: seq<Event>) {
    && (forall b :: BodyAt(trace, b) ==> GuardsIn(trace[..b], |m.rt.guards|))
    && (forall t :: 0 <= t < |trace| && trace[t].TargetEntered? ==>
          BodyIn(trace[..t]) && AllThrough(trace[..t], |m.rt.middleware|))
  }

  lemma Grows(trace: seq<Event>, more: seq<Event>, n: nat)
    ensures GuardsIn(trace, n) ==> GuardsIn(trace + more, n)
    ensures BodyIn(trace) ==> BodyIn(trace + more)
    ensures AllThrough(trace, n) ==> AllThrough(trace + more, n)
    ensures EnteredIn(trace, n) ==> EnteredIn(trace + more, n)
  {
    var whole := trace + more;
    assert forall i :: 0 <= i < |trace| ==> whole[i] == trace[i];
    if b :| BodyAt(trace, b) {
      assert BodyAt(whole, b);
    }
    if b, x :| EnteredAt(trace, n, b, x) {
      assert EnteredAt(whole, n, b, x);
    }
    if AllThrough(trace, n) {
      forall d: nat | d < n
        ensures Through(whole, d)
      {
        assert Through(trace, d);
        var b, x, y :| ThroughAt(trace, d, b, x, y);
        assert ThroughAt(whole, d, b, x, y);
      }
    }
  }

  lemma EnteredNow(trace: seq<Event>, d: nat)
    requires BodyIn(trace)
    ensures EnteredIn(trace + [Entered(d)], d)
  {
    var b :| BodyAt(trace, b);
    assert EnteredAt(trace + [Entered(d)], d, b, |trace|);
  }

  lemma ThroughNow(trace: seq<Event>, d: nat)
    requires EnteredIn(trace, d) && AllThrough(trace, d)
    ensures AllThrough(trace + [Delegated(d)], d + 1) && BodyIn(trace + [Delegated(d)])
  {
    var whole := trace + [Delegated(d)];
    var b, x :| EnteredAt(trace, d, b, x);
    assert ThroughAt(whole, d, b, x, |trace|);
    assert BodyAt(whole, b);
    Grows(trace, [Delegated(d)], d);
  }

  /** Appending events that read no body and enter no target keeps the order. */
  lemma OrderedPlain(m: Machine, trace: seq<Event>, more: seq<Event>)
    requires Ordered(m, trace)
    requires forall i :: 0 <= i < |more| ==> !more[i].BodyRead? && !more[i].TargetEntered?
    ensures Ordered(m, trace + more)
  {
    var whole := trace + more;
    forall b | BodyAt(whole, b)
      ensures GuardsIn(whole[..b], |m.rt.guards|)
    {
      assert b < |trace| && BodyAt(trace, b) && whole[..b] == trace[..b];
    }
    forall t | 0 <= t < |whole| && whole[t].TargetEntered?
      ensures BodyIn(whole[..t]) && AllThrough(whole[..t], |m.rt.middleware|)
    {
      assert t < |trace| && whole[..t] == trace[..t];
    }
  }

  lemma OrderedBody(m: Machine, trace: seq<Event>, bytes: seq<nat>)
    requires Ordered(m, trace) && GuardsIn(trace, |m.rt.guards|)
    ensures Ordered(m, trace + [BodyRead(bytes)])
  {
    var whole := trace + [BodyRead(bytes)];
    forall b | BodyAt(whole, b)
      ensures GuardsIn(whole[..b], |m.rt.guards|)
    {
      assert b < |trace| ==> BodyAt(trace, b);
      assert whole[..b] == trace[..b];
    }
    forall t | 0 <= t < |whole| && whole[t].TargetEntered?
      ensures BodyIn(whole[..t]) && AllThrough(whole[..t], |m.rt.middleware|)
    {
      assert t < |trace| && whole[..t] == trace[..t];
    }
  }

  lemma OrderedTarget(m: Machine, trace: seq<Event>)
    requires Ordered(m, trace) && BodyIn(trace) && AllThrough(trace, |m.rt.middleware|)
    ensures Ordered(m, trace + [TargetEntered])
  {
    var whole := trace + [TargetEntered];
    forall b | BodyAt(whole, b)
      ensures GuardsIn(whole[..b], |m.rt.guards|)
    {
      assert BodyAt(trace, b) && whole[..b] == trace[..b];
    }
    forall t | 0 <= t < |whole| && whole[t].TargetEntered?
      ensures BodyIn(whole[..t]) && AllThrough(whole[..t], |m.rt.middleware|)
    {
      assert whole[..t] == trace[..t];
      assert t == |trace| ==> whole[..t] == trace;
    }
  }

  /** Entering the next part of the chain. */
  lemma EnterKeeps(m: Machine, d: nat, trace: seq<Event>)
    requires Ordered(m, trace) && BodyIn(trace) && d <= |m.rt.middleware| && AllThrough(trace, d)
    ensures var move := Enter(m, d);
            Ordered(m, trace + move.events) && Reached(m, move.phase, trace + move.events)
  {
    if d < |m.rt.middleware| {
      OrderedPlain(m, trace, [Entered(d)]);
      EnteredNow(trace, d);
      Grows(trace, [Entered(d)], d);
    } else {
      OrderedTarget(m, trace);
      Grows(trace, [TargetEntered], d);
    }
  }

  lemma DelegateKeeps(m: Machine, d: nat, trace: seq<Event>)
    requires Ordered(m, trace) && Reached(m, Before(d), trace)
    ensures var move := Step(m, Before(d), Delegate).value;
            Ordered(m, trace + move.events) && Reached(m, move.phase, trace + move.events)
  {
    ThroughNow(trace, d);
    OrderedPlain(m, trace, [Delegated(d)]);
    EnterKeeps(m, d + 1, trace + [Delegated(d)]);
    Associative(trace, [Delegated(d)], Enter(m, d + 1).events);
  }

  /** Steps that neither pass a guard, read the body nor go deeper only add to the trace. */
  lemma OutwardKeeps(m: Machine, p: Phase, c: Choice, trace: seq<Event>)
    requires Step(m, p, c).Some? && Ordered(m, trace) && Reached(m, p, trace)
    requires !p.Guarding? && !p.Reading? && !p.RequestHooks? && !c.Delegate?
    ensures var move := Step(m, p, c).value;
            Ordered(m, trace + move.events) && Reached(m, move.phase, trace + move.events)
  {
    var move := Step(m, p, c).value;
    OrderedPlain(m, trace, move.events);
    Grows(trace, move.events, |m.rt.middleware|);
    match move.phase {
      case After(d) => Grows(trace, move.events, d + 1);
      case _ =>
    }
  }

  lemma FrontKeeps(m: Machine, p: Phase, c: Choice, trace: seq<Event>)
    requires Step(m, p, c).Some? && Ordered(m, trace) && Reached(m, p, trace)
    requires p.Guarding? || p.Reading?
    ensures var move := Step(m, p, c).value;
            Ordered(m, trace + move.events) && Reached(m, move.phase, trace + move.events)
  {
    var move := Step(m, p, c).value;
    match p {
      case Reading =>
        if move.phase.RequestHooks? {
          OrderedBody(m, trace, m.body.value);
          assert BodyAt(trace + move.events, |trace|);
        } else {
          OrderedPlain(m, trace, move.events);
        }
      case Guarding(i) =>
        OrderedPlain(m, trace, move.events);
        Grows(trace, move.events, i);
        assert move.phase.Guarding? ==> GuardPassed(i) in trace + move.events;
      case _ =>
    }
  }

  lemma OrderKept(m: Machine, p: Phase, c: Choice, trace: seq<Event>)
    requires Step(m, p, c).Some? && Ordered(m, trace) && Reached(m, p, trace)
    ensures var move := Step(m, p, c).value;
            Ordered(m, trace + move.events) && Reached(m, move.phase, trace + move.events)
  {
    if p.Guarding? || p.Reading? {
      FrontKeeps(m, p, c, trace);
    } else if p.RequestHooks? {
      if p.next < |m.rt.hooks| {
        OrderedPlain(m, trace, Step(m, p, c).value.events);
        Grows(trace, Step(m, p, c).value.events, 0);
      } else {
        EnterKeeps(m, 0, trace);
      }
    } else if p.Before? && c.Delegate? {
      DelegateKeeps(m, p.depth, trace);
    } else {
      OutwardKeeps(m, p, c, trace);
    }
  }

  lemma {:induction false} OrderInvariant(m: Machine, choices: seq<Choice>)
    requires RunOf(m, choices).Some?
    ensures var s := RunOf(m, choices).value;
            Ordered(m, s.trace) && Reached(m, s.phase, s.trace)
  {
    if choices != [] {
      OrderInvariant(m, choices[..|choices| - 1]);
      var s := RunOf(m, choices[..|choices| - 1]).value;
      OrderKept(m, s.phase, choices[|choices| - 1], s.trace);
    }
  }

  // -------------------------------------------------------------- what guards answer

  function VerdictOf(e: Event): Option<(nat, Verdict)> {
    match e
    case GuardPassed(i) => Some((i, Pass))
    case GuardRefused(i, error, effects) => Some((i, Reject(error, effects)))
    case _ => None
  }

  /** Who was asked, in order, and what they answered. */
  function Verdicts(trace: seq<Event>): seq<(nat, Verdict)> { Project(VerdictOf, trace) }

  /** The first `n` guards pass, in list order. */
  function Passes(n: nat): (r: seq<(nat, Verdict)>)
    ensures |r| == n && forall i :: 0 <= i < n ==> r[i] == (i, Pass)
  {
    seq(n, i requires 0 <= i < n => (i, Pass))
  }

  /** All pass but the last, which refuses with this error; the reply is made of its answer. */
  predicate RefusedLast(m: Machine, verdicts: seq<(nat, Verdict)>, error: SoapError, reply: Reply) {
    0 < |verdicts| <= |m.rt.guards| &&
    var k := |verdicts| - 1;
    && verdicts[..k] == Passes(k)
    && verdicts[k].0 == k && verdicts[k].1.Reject?
    && verdicts[k].1.error == error && reply == m.guardExit(error, verdicts[k].1.effects)
  }

  /** The head was normalized and all guards passed. */
  predicate Admitted(m: Machine, verdicts: seq<(nat, Verdict)>) {
    m.headFault.None? && verdicts == Passes(|m.rt.guards|)
  }

  predicate CutVerdicts(m: Machine, bodySeen: bool, notice: Notice, reply: Reply, verdicts: seq<(nat, Verdict)>) {
    match notice
    case NormalizationRejected(_, _) => m.headFault.Some? && verdicts == []
    case GuardRejected(error, _) => m.headFault.None? && RefusedLast(m, verdicts, error, reply)
    case BodyRejected(error, _) => Admitted(m, verdicts) && m.body == Err(error)
    case TimeoutSeen(_, _) =>
      if bodySeen then Admitted(m, verdicts) && m.body.Ok?
      else m.headFault.None? && |verdicts| <= |m.rt.guards| && verdicts == Passes(|verdicts|)
    case _ => false
  }

  predicate VerdictsFit(m: Machine, p: Phase, verdicts: seq<(nat, Verdict)>) {
    match p
    case Starting => verdicts == []
    case HeadHooks(_) => m.headFault.None? && verdicts == []
    case Guarding(i) => m.headFault.None? && i <= |m.rt.guards| && verdicts == Passes(i)
    case Reading => Admitted(m, verdicts)
    case CutHooks(_, seen, notice, reply) => CutVerdicts(m, seen, notice, reply, verdicts)
    case Done(Cut(seen, notice), reply) => CutVerdicts(m, seen, notice, reply, verdicts)
    case _ => Admitted(m, verdicts) && m.body.Ok?
  }

  lemma PassesGrow(i: nat)
    ensures Passes(0) == [] && Passes(i) + [(i, Pass)] == Passes(i + 1)
  {
  }

  lemma VerdictsAmong(events: seq<Event>)
    requires |events| <= 2 && forall i :: 0 <= i < |events| ==> VerdictOf(events[i]).None?
    ensures Verdicts(events) == []
  {
    if |events| == 1 {
      ProjectSmall(VerdictOf, events[0], events[0]);
      assert events == [events[0]];
    } else if |events| == 2 {
      ProjectSmall(VerdictOf, events[0], events[1]);
      ProjectSmall(VerdictOf, events[1], events[1]);
      assert events == [events[0], events[1]];
    }
  }

  lemma NoVerdict(m: Machine, p: Phase, c: Choice)
    requires Step(m, p, c).Some? && !c.Answer?
    ensures var events := Step(m, p, c).value.events;
            |events| <= 2 && forall i :: 0 <= i < |events| ==> VerdictOf(events[i]).None?
  {
  }

  lemma VerdictsIn(m: Machine, p: Phase, c: Choice)
    requires Step(m, p, c).Some?
    ensures Verdicts(Step(m, p, c).value.events) == if c.Answer? then [(p.next, c.verdict)] else []
  {
    var events := Step(m, p, c).value.events;
    if c.Answer? {
      ProjectSmall(VerdictOf, events[0], events[0]);
      assert events == [events[0]];
    } else {
      NoVerdict(m, p, c);
      VerdictsAmong(events);
    }
  }

  lemma AnswerFits(m: Machine, i: nat, v: Verdict, verdicts: seq<(nat, Verdict)>)
    requires VerdictsFit(m, Guarding(i), verdicts) && i < |m.rt.guards|
    ensures VerdictsFit(m, GuardStep(m, i, v).phase, verdicts + [(i, v)])
  {
    PassesGrow(i);
    assert (verdicts + [(i, v)])[..i] == verdicts;
  }

  lemma ExpireFits(m: Machine, p: Phase, verdicts: seq<(nat, Verdict)>)
    requires Step(m, p, Expire).Some? && VerdictsFit(m, p, verdicts)
    ensures VerdictsFit(m, ExpireStep(m, p).phase, verdicts)
  {
  }

  lemma TickFits(m: Machine, p: Phase, verdicts: seq<(nat, Verdict)>)
    requires TickStep(m, p).Some? && VerdictsFit(m, p, verdicts)
    ensures VerdictsFit(m, TickStep(m, p).value.phase, verdicts)
  {
    PassesGrow(0);
  }

  lemma ChainFits(m: Machine, p: Phase, c: Choice, verdicts: seq<(nat, Verdict)>)
    requires Step(m, p, c).Some? && VerdictsFit(m, p, verdicts) && !c.Answer? && !c.Expire? && !c.Tick?
    ensures VerdictsFit(m, Step(m, p, c).value.phase, verdicts)
  {
  }

  lemma VerdictsStep(m: Machine, p: Phase, c: Choice, verdicts: seq<(nat, Verdict)>)
    requires Step(m, p, c).Some? && VerdictsFit(m, p, verdicts)
    ensures var move := Step(m, p, c).value; VerdictsFit(m, move.phase, verdicts + Verdicts(move.events))
  {
    VerdictsIn(m, p, c);
    assert verdicts + [] == verdicts;
    match c {
      case Answer(v) => AnswerFits(m, p.next, v, verdicts);
      case Expire => ExpireFits(m, p, verdicts);
      case Tick => TickFits(m, p, verdicts);
      case _ => ChainFits(m, p, c, verdicts);
    }
  }

  /**
   In every run guards are asked in list order, each at most once, none after
   one refused; the reply to a refusal is made of that guard's error and effects.
   */
  lemma {:induction false} GuardCourse(m: Machine, choices: seq<Choice>)
    requires RunOf(m, choices).Some?
    ensures var s := RunOf(m, choices).value; VerdictsFit(m, s.phase, Verdicts(s.trace))
  {
    if choices != [] {
      GuardCourse(m, choices[..|choices| - 1]);
      var s := RunOf(m, choices[..|choices| - 1]).value;
      var c := choices[|choices| - 1];
      VerdictsStep(m, s.phase, c, Verdicts(s.trace));
      ProjectConcat(VerdictOf, s.trace, Step(m, s.phase, c).value.events);
    }
  }

  /** A request ends refused for its body exactly when it got that far, no deadline cut in, and the body failed so. */
  lemma BodyRefusedExactly(m: Machine, ending: Ending, reply: Reply, verdicts: seq<(nat, Verdict)>, error: SoapError)
    requires VerdictsFit(m, Done(ending, reply), verdicts)
    ensures (ending.Cut? && ending.notice.BodyRejected? && ending.notice.error == error)
       <==> Admitted(m, verdicts) && !(ending.Cut? && ending.notice.TimeoutSeen?) && m.body == Err(error)
  {
    if ending.Cut? && ending.notice.GuardRejected? {
      assert verdicts[|verdicts| - 1].1.Reject?;
    }
  }

  // --------------------------------------------------------------- where excuses come from

  /** A plugin of the chain declared the capability for the whole router. */
  ghost predicate ProvidedBy(history: seq<Call>, c: Capability) {
    exists i, j :: 0 <= i < |history| && history[i].Install? && 0 <= j < |history[i].calls|
                   && history[i].calls[j] == Provide(c)
  }

  ghost predicate ProvidesAmong(calls: seq<PluginCall>, c: Capability) {
    exists j :: 0 <= j < |calls| && calls[j] == Provide(c)
  }

  lemma AmongStep(calls: seq<PluginCall>, c: Capability)
    requires calls != []
    ensures ProvidesAmong(calls, c)
       <==> ProvidesAmong(calls[..|calls| - 1], c) || calls[|calls| - 1] == Provide(c)
  {
    var front := calls[..|calls| - 1];
    if j :| 0 <= j < |front| && front[j] == Provide(c) {
      assert calls[j] == Provide(c);
    }
    assert forall j :: 0 <= j < |front| ==> front[j] == calls[j];
  }

  lemma OneProvides(w: Setting, s: Composition, call: PluginCall, c: Capability)
    ensures c in ApplyPluginCall(w, s, call).provided <==> c in s.provided || call == Provide(c)
  {
  }

  lemma {:induction false} PluginProvides(w: Setting, s: Composition, calls: seq<PluginCall>, c: Capability)
    ensures c in ApplyPluginCalls(w, s, calls).provided <==> c in s.provided || ProvidesAmong(calls, c)
  {
    if calls != [] {
      var front := calls[..|calls| - 1];
      PluginProvides(w, s, front, c);
      AmongStep(calls, c);
      OneProvides(w, ApplyPluginCalls(w, s, front), calls[|calls| - 1], c);
    }
  }

  lemma ProvidedStep(history: seq<Call>, c: Capability)
    requires history != []
    ensures var (front, last) := (history[..|history| - 1], history[|history| - 1]);
            ProvidedBy(history, c)
            <==> ProvidedBy(front, c)
                 || (last.Install? && exists j :: 0 <= j < |last.calls| && last.calls[j] == Provide(c))
  {
    var (front, last) := (history[..|history| - 1], history[|history| - 1]);
    if ProvidedBy(front, c) {
      var i, j :| 0 <= i < |front| && front[i].Install? && 0 <= j < |front[i].calls| && front[i].calls[j] == Provide(c);
      assert history[i] == front[i];
    }
    if last.Install? {
      if j :| 0 <= j < |last.calls| && last.calls[j] == Provide(c) {
        assert history[|history| - 1].calls[j] == Provide(c);
      }
    }
    if ProvidedBy(history, c) {
      var i, j :| 0 <= i < |history| && history[i].Install? && 0 <= j < |history[i].calls|
                  && history[i].calls[j] == Provide(c);
      assert i < |front| ==> front[i] == history[i];
    }
  }

  /** Excuses and router-level provisions held are exactly those the chain of calls made explicitly. */
  lemma {:induction false} ExcusesExact(w: Setting, history: seq<Call>, id: string, c: Capability)
    requires Run(w, history).Some?
    ensures c in AllowedAt(Run(w, history).value.allowed, id) <==> AllowUnenforced(id, c) in history
    ensures c in Run(w, history).value.provided <==> ProvidedBy(history, c)
  {
    if history != [] {
      var n := |history| - 1;
      var front := history[..n];
      ExcusesExact(w, front, id, c);
      ProvidedStep(history, c);
      var s := Run(w, front).value;
      assert history == front + [history[n]];
      if history[n].Install? {
        PluginLeaves(w, s, history[n].calls);
        PluginProvides(w, s, history[n].calls, c);
      }
    }
  }

  // ------------------------------------------------------------------- the theorem

  /** A guard that declares the capability passed before the body was read, before `t`. */
  ghost predicate GuardEnforced(m: Machine, trace: seq<Event>, t: int, c: Capability) {
    exists g: nat, p, b ::
      g < |m.rt.guards| && c in m.rt.guards[g].caps
      && 0 <= p < b < t <= |trace| && trace[p] == GuardPassed(g) && trace[b].BodyRead?
  }

  /** A middleware that declares it was entered after the body was read, and delegated, before `t`. */
  ghost predicate MiddlewareEnforced(m: Machine, trace: seq<Event>, t: int, c: Capability) {
    exists d: nat ::
      d < |m.rt.middleware| && c in m.rt.middleware[d].caps && 0 <= t <= |trace| && Through(trace[..t], d)
  }

  lemma GuardCame(m: Machine, trace: seq<Event>, t: int, g: nat, c: Capability)
    requires Ordered(m, trace) && 0 <= t < |trace| && trace[t].TargetEntered?
    requires g < |m.rt.guards| && c in m.rt.guards[g].caps
    ensures GuardEnforced(m, trace, t, c)
  {
    var b :| BodyAt(trace[..t], b);
    assert BodyAt(trace, b);
    assert GuardPassed(g) in trace[..b];
    var p :| 0 <= p < b && trace[..b][p] == GuardPassed(g);
    assert trace[p] == GuardPassed(g) && trace[b].BodyRead?;
  }

  /**
   If a router built from an accepted chain of calls serves a request whose run
   enters the target, each required capability was explicitly allowed to go
   unenforced, or was declared for the whole router by a plugin, or was
   enforced in this run by an extension of the phase that can enforce it.
   */
  lemma FailClosed(w: Setting, history: seq<Call>, m: Machine, choices: seq<Choice>, t: int, c: Capability)
    requires Run(w, history).Some? && BuildOf(w, Run(w, history).value).Ok?
    requires m.rt in BuildOf(w, Run(w, history).value).value.routes
    requires RunOf(m, choices).Some?
    requires 0 <= t < |RunOf(m, choices).value.trace| && RunOf(m, choices).value.trace[t].TargetEntered?
    requires c in m.rt.endpoint.required
    ensures var trace := RunOf(m, choices).value.trace;
            || AllowUnenforced(m.rt.endpoint.id, c) in history
            || ProvidedBy(history, c)
            || ((c.Authentication? || c.RateLimit? || c.Csrf?) && GuardEnforced(m, trace, t, c))
            || (c.RequestValidation? && MiddlewareEnforced(m, trace, t, c))
  {
    var s := Run(w, history).value;
    var trace := RunOf(m, choices).value.trace;
    var e := m.rt.endpoint;
    BuiltExact(w, s);
    MissingExact(e.required, m.rt.guards, m.rt.middleware, s.provided, AllowedAt(s.allowed, e.id));
    ExcusesExact(w, history, e.id, c);
    OrderInvariant(m, choices);
    if c !in AllowedAt(s.allowed, e.id) && c !in s.provided {
      assert RouteFault(w, s, m.rt).None?;
      assert GuardEnforces(c, m.rt.guards) || MiddlewareEnforces(c, m.rt.middleware);
      if c.RequestValidation? {
        var d :| 0 <= d < |m.rt.middleware| && c in m.rt.middleware[d].caps;
        assert Through(trace[..t], d);
      } else {
        var g :| 0 <= g < |m.rt.guards| && c in m.rt.guards[g].caps;
        GuardCame(m, trace, t, g, c);
      }
    }
  }

  // ------------------------------------------------------------------- the converse

  /** Binding `k` of the chain makes the endpoint ready: its method is supported and what it requires is met. */
  ghost predicate ReadyWith(w: Setting, history: seq<Call>, e: Endpoint, k: int) {
    && 0 <= k < |history| && Binds(history[k], e.id) && w.routable(e.verb)
    && forall c :: c in e.required ==>
         || AllowUnenforced(e.id, c) in history || ProvidedBy(history, c)
         || GuardEnforces(c, Merged(Adds(w, GUARDS, history), e.id) + history[k].binding.guards)
         || MiddlewareEnforces(c, Merged(Adds(w, MIDDLEWARE, history), e.id) + history[k].binding.middleware)
  }

  ghost predicate ReadyIn(w: Setting, history: seq<Call>, e: Endpoint) { exists k :: ReadyWith(w, history, e, k) }

  ghost predicate BoundIn(history: seq<Call>, e: Endpoint) {
    exists k :: 0 <= k < |history| && Binds(history[k], e.id)
  }

  lemma ReadyAt(w: Setting, history: seq<Call>, e: Endpoint, k: nat)
    requires Run(w, history).Some? && k < |history| && Binds(history[k], e.id)
    ensures e.id in Run(w, history).value.bindings
    ensures Ready(w, Run(w, history).value, e) <==> ReadyWith(w, history, e, k)
  {
    MergedLists(w, history, e, k);
    forall c
      ensures c in AllowedAt(Run(w, history).value.allowed, e.id) <==> AllowUnenforced(e.id, c) in history
      ensures c in Run(w, history).value.provided <==> ProvidedBy(history, c)
    {
      ExcusesExact(w, history, e.id, c);
    }
  }

  lemma ReadyWhen(w: Setting, history: seq<Call>, e: Endpoint)
    requires Run(w, history).Some?
    ensures BoundIn(history, e) <==> e.id in Run(w, history).value.bindings
    ensures BoundIn(history, e) ==> (Ready(w, Run(w, history).value, e) <==> ReadyIn(w, history, e))
  {
    Bound(w, history, e.id);
    if k :| 0 <= k < |history| && Binds(history[k], e.id) {
      ReadyAt(w, history, e, k);
    }
    if k :| ReadyWith(w, history, e, k) {
      ReadyAt(w, history, e, k);
    }
  }

  lemma {:induction false} TransformFails(w: Setting, router: Router, transforms: seq<Transform>)
    requires Transformed(w, router, transforms).Err?
    ensures exists t, r :: t in transforms && w.transformFault(t, r) == Some(Transformed(w, router, transforms).error)
    decreases |transforms|
  {
    if w.transformFault(transforms[0], router).None? {
      var next := router.(layers := router.layers + [transforms[0]]);
      TransformFails(w, next, transforms[1..]);
      var t, r :| t in transforms[1..]
                  && w.transformFault(t, r) == Some(Transformed(w, next, transforms[1..]).error);
      assert t in transforms;
    }
  }

  /** The error is that of some transform of the chain. */
  ghost predicate TransformFault(w: Setting, history: seq<Call>, error: SoapError) {
    exists t, r ::
      t in Picked(AUGMENTS, history) + Picked(WRAPS, history) && w.transformFault(t, r) == Some(error)
  }

  /**
   An accepted chain builds a router only if every endpoint of the catalog is
   ready, and if every endpoint is ready nothing but a transform can fail. The
   first endpoint that is not decides the error, an unbound one before all.
   */
  lemma BuildsExactly(w: Setting, history: seq<Call>)
    requires Run(w, history).Some?
    ensures var built := BuildOf(w, Run(w, history).value);
            && (built.Ok? ==> forall e :: e in w.catalog ==> ReadyIn(w, history, e))
            && ((forall e :: e in w.catalog ==> ReadyIn(w, history, e)) ==>
                  built.Ok? || TransformFault(w, history, built.error))
            && ((exists e :: e in w.catalog && !BoundIn(history, e)) ==> built == Err(Plain(Validation)))
  {
    var s := Run(w, history).value;
    forall e | e in w.catalog
      ensures BoundIn(history, e) <==> e.id in s.bindings
      ensures BoundIn(history, e) ==> (Ready(w, s, e) <==> ReadyIn(w, history, e))
      ensures ReadyIn(w, history, e) ==> BoundIn(history, e)
    {
      ReadyWhen(w, history, e);
    }
    if AllBound(s, w.catalog) {
      RoutesWhen(w, s, w.catalog);
      PhasesExact(w, history);
      if RoutesOf(w, s, w.catalog).Ok? && BuildOf(w, s).Err? {
        TransformFails(w, Router(RoutesOf(w, s, w.catalog).value, []), s.augmentations + s.wrappers);
      }
    }
  }

  /** Which error a chain meets that binds everything but leaves an endpoint unready. */
  lemma BuildRefused(w: Setting, history: seq<Call>, k: nat)
    requires Run(w, history).Some? && (forall e :: e in w.catalog ==> BoundIn(history, e))
    requires k < |w.catalog| && !ReadyIn(w, history, w.catalog[k])
    requires forall i :: 0 <= i < k ==> ReadyIn(w, history, w.catalog[i])
    ensures BuildOf(w, Run(w, history).value)
         == Err(Plain(if w.routable(w.catalog[k].verb) then Validation else Unsupported))
  {
    var s := Run(w, history).value;
    forall i | 0 <= i < |w.catalog|
      ensures w.catalog[i].id in s.bindings
      ensures Ready(w, s, w.catalog[i]) <==> ReadyIn(w, history, w.catalog[i])
    {
      assert w.catalog[i] in w.catalog;
      ReadyWhen(w, history, w.catalog[i]);
    }
    RoutesRefused(w, s, w.catalog, k);
  }

  /** What was read as the body is what the body came to. */
  lemma {:induction false} BodyReadIs(m: Machine, choices: seq<Choice>)
    requires RunOf(m, choices).Some?
    ensures var trace := RunOf(m, choices).value.trace;
            forall b :: 0 <= b < |trace| && trace[b].BodyRead? ==>
              m.body.Ok? && trace[b] == BodyRead(m.body.value)
  {
    if choices != [] {
      BodyReadIs(m, choices[..|choices| - 1]);
    }
  }

  /** Whoever sees the request after the body was read. */
  predicate SeesBody(e: Event) { e.BodyRead? || e.Entered? || e.TargetEntered? || (e.Told? && e.notice == RequestSeen) }

  /** The body has been read when anyone sees it. */
  ghost predicate BodyFirst(trace: seq<Event>) {
    forall t :: 0 <= t < |trace| && SeesBody(trace[t]) ==> BodyIn(trace[..t + 1])
  }

  lemma BodyFirstGrows(trace: seq<Event>, more: seq<Event>)
    requires BodyFirst(trace)
    requires BodyIn(trace) || (more != [] && more[0].BodyRead?) || forall i :: 0 <= i < |more| ==> !SeesBody(more[i])
    ensures BodyFirst(trace + more)
  {
    var whole := trace + more;
    forall t | 0 <= t < |whole| && SeesBody(whole[t])
      ensures BodyIn(whole[..t + 1])
    {
      if t < |trace| {
        assert whole[..t + 1] == trace[..t + 1];
      } else if BodyIn(trace) {
        var b :| BodyAt(trace, b);
        assert BodyAt(whole[..t + 1], b);
      } else {
        assert BodyAt(whole[..t + 1], |trace|);
      }
    }
  }

  /** Only in phases after the body is anyone shown it. */
  lemma SeesLate(m: Machine, p: Phase, c: Choice, trace: seq<Event>)
    requires Step(m, p, c).Some? && Reached(m, p, trace) && (p.CutHooks? ==> !p.notice.RequestSeen?)
    ensures var events := Step(m, p, c).value.events;
            || BodyIn(trace)
            || (events != [] && events[0].BodyRead?)
            || forall i :: 0 <= i < |events| ==> !SeesBody(events[i])
  {
    if p.Before? {
      var b, x :| EnteredAt(trace, p.depth, b, x);
      assert BodyAt(trace, b);
    }
  }

  lemma {:induction false} BodyFirstInvariant(m: Machine, choices: seq<Choice>)
    requires RunOf(m, choices).Some?
    ensures BodyFirst(RunOf(m, choices).value.trace)
  {
    if choices != [] {
      var front := choices[..|choices| - 1];
      var (s, c) := (RunOf(m, front).value, choices[|choices| - 1]);
      BodyFirstInvariant(m, front);
      OrderInvariant(m, front);
      GuardCourse(m, front);
      SeesLate(m, s.phase, c, s.trace);
      BodyFirstGrows(s.trace, Step(m, s.phase, c).value.events);
    }
  }
}
