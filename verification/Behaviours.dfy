/**
 What the pipeline calls out to, given once for a request: which answers come
 and which never do. A run of the machine obeys it when every choice taken is
 the one it dictates. Then nothing about the run is left open: the reply, and
 how the run ends, are those of one recursive reading of the behaviour.
 */
module Behaviours {
  import opened Text
  import opened Http
  import opened ResponseHeaders
  import opened RateLimit
  import opened Builder
  import opened Pipeline
  import opened EnforcementLaws

  // ------------------------------------------------------------------- behaviours

  /**
   How one middleware behaves: answer at once, never answer, or run the rest
   and answer from its outcome. `after(None)` is its answer when it stops
   waiting for a rest that hangs; None from it means that it hangs as well.
   */
  datatype MiddlewareBehaviour =
    | Answers(outcome: Outcome)
    | Hangs
    | Delegates(after: Option<Outcome> -> Option<Outcome>)

  /** `useCase` is None when the use case never ends, else its error, if any. */
  datatype TargetBehaviour = TargetBehaviour(
    input: Option<SoapError>, useCase: Option<Option<SoapError>>, output: Result<RouteResponse>)

  /** Everything the pipeline calls out to; None and false stand for an await that never ends. */
  datatype Behaviour = Behaviour(
    guards: nat -> Option<Verdict>, bodyArrives: bool, middleware: nat -> MiddlewareBehaviour, target: TargetBehaviour)

  // ------------------------------------------------------- what a behaviour comes to

  /** What asking the guards from one on comes to. */
  datatype Screening = Admitted | Refusing(guard: nat, error: SoapError, effects: Effects) | Stuck(guard: nat)

  function Screened(b: Behaviour, guards: nat, i: nat): Screening
    decreases guards - i
  {
    if i >= guards then Admitted
    else
      match b.guards(i)
      case None => Stuck(i)
      case Some(Pass) => Screened(b, guards, i + 1)
      case Some(Reject(error, effects)) => Refusing(i, error, effects)
  }

  /** Mapper, use case, mapper: the first failure, or the output; None when the use case hangs. */
  function TargetAnswer(t: TargetBehaviour): Option<Outcome> {
    match (t.input, t.useCase)
    case (Some(error), _) => Some(Outcome(Err(error), NO_EFFECTS))
    case (None, None) => None
    case (None, Some(Some(error))) => Some(Outcome(Err(error), NO_EFFECTS))
    case (None, Some(None)) => Some(Outcome(t.output, NO_EFFECTS))
  }

  /** What the chain from a depth inwards comes to. */
  function ChainAnswer(b: Behaviour, middleware: nat, depth: nat): Option<Outcome>
    decreases middleware - depth
  {
    if depth >= middleware then TargetAnswer(b.target)
    else
      match b.middleware(depth)
      case Answers(outcome) => Some(outcome)
      case Hangs => None
      case Delegates(after) => after(ChainAnswer(b, middleware, depth + 1))
  }

  datatype End = End(ending: Ending, reply: Reply)

  function Late(m: Machine, bodySeen: bool): Option<End> {
    var reply := m.errorExit(DEADLINE);
    if m.rt.endpoint.timeout.None? then None
    else Some(End(Cut(bodySeen, TimeoutSeen(DEADLINE, ViewOf(reply))), reply))
  }

  /** How the request ends and with which reply; None when it hangs without a deadline. */
  function DueEnd(m: Machine, b: Behaviour): Option<End> {
    match m.headFault
    case Some(error) =>
      var reply := m.errorExit(error);
      Some(End(Cut(false, NormalizationRejected(error, ViewOf(reply))), reply))
    case None =>
      match Screened(b, |m.rt.guards|, 0)
      case Stuck(_) => Late(m, false)
      case Refusing(_, error, effects) =>
        var reply := m.guardExit(error, effects);
        Some(End(Cut(false, GuardRejected(error, ViewOf(reply))), reply))
      case Admitted => if b.bodyArrives then DueAfterBody(m, b) else Late(m, false)
  }

  function DueAfterBody(m: Machine, b: Behaviour): Option<End> {
    match m.body
    case Err(error) =>
      var reply := m.errorExit(error);
      Some(End(Cut(false, BodyRejected(error, ViewOf(reply))), reply))
    case Ok(_) =>
      match ChainAnswer(b, |m.rt.middleware|, 0)
      case None => Late(m, true)
      case Some(o) => Some(End(Finished(o), m.outcomeExit(o)))
  }

  // ------------------------------------------------------------ choices that obey it

  /** The outcome that reached the middleware in charge; None when it dropped what it waited for. */
  function Arrived(trace: seq<Event>): Option<Outcome> {
    if trace == [] then None
    else
      match trace[|trace| - 1]
      case Left(_, o) => Some(o)
      case TargetLeft(o) => Some(o)
      case _ => None
  }

  /** What the run stands at never answers. */
  predicate Stalled(m: Machine, b: Behaviour, s: State) {
    match s.phase
    case Guarding(i) => i < |m.rt.guards| && b.guards(i).None?
    case Reading => !b.bodyArrives
    case Before(d) => b.middleware(d).Hangs?
    case Executing => b.target.useCase.None?
    case After(d) => b.middleware(d).Delegates? && b.middleware(d).after(Arrived(s.trace)).None?
    case _ => false
  }

  /** Middleware `d` waits for a rest that hangs for as long as it is let. */
  predicate Patient(b: Behaviour, d: nat) { b.middleware(d).Delegates? && b.middleware(d).after(None).None? }

  /** Everyone who waits, from a depth inwards, is patient. */
  ghost predicate PatientFrom(m: Machine, b: Behaviour, p: Phase, depth: nat) {
    forall e: nat :: depth <= e && Suspended(m, p, e) ==> Patient(b, e)
  }

  /** Nothing will ever happen but a deadline. */
  ghost predicate Halted(m: Machine, b: Behaviour, s: State) { Stalled(m, b, s) && PatientFrom(m, b, s.phase, 0) }

  /**
   The choice is the behaviour's. A rest that hangs is dropped by the innermost
   middleware that is not patient; the deadline cuts in only where all is halted.
   */
  ghost predicate Obeys(m: Machine, b: Behaviour, s: State, c: Choice) {
    var p := s.phase;
    match c
    case Tick => p.Reading? ==> b.bodyArrives
    case Answer(v) => p.Guarding? && b.guards(p.next) == Some(v)
    case Delegate => p.Before? && b.middleware(p.depth).Delegates?
    case Return(o) =>
      || (p.Before? && b.middleware(p.depth) == Answers(o))
      || (p.After? && b.middleware(p.depth).Delegates? && b.middleware(p.depth).after(Arrived(s.trace)) == Some(o))
    case Abandon(d) =>
      && Stalled(m, b, s) && PatientFrom(m, b, p, d + 1)
      && b.middleware(d).Delegates? && b.middleware(d).after(None).Some?
    case MapInput(fault) => fault == b.target.input
    case Execute(fault) => b.target.useCase == Some(fault)
    case MapOutput(result) => result == b.target.output
    case Expire => Halted(m, b, s)
  }

  /** Every choice of the run is the behaviour's. */
  ghost predicate Obeyed(m: Machine, b: Behaviour, choices: seq<Choice>) {
    choices == [] ||
    (var front := choices[..|choices| - 1];
     && Obeyed(m, b, front) && RunOf(m, front).Some?
     && Obeys(m, b, RunOf(m, front).value, choices[|choices| - 1]))
  }

  // --------------------------------------------------------- one course for a behaviour

  /** At most one choice both obeys and applies. */
  lemma OneChoice(m: Machine, b: Behaviour, s: State, c: Choice, d: Choice)
    requires Obeys(m, b, s, c) && Step(m, s.phase, c).Some?
    requires Obeys(m, b, s, d) && Step(m, s.phase, d).Some?
    ensures c == d
  {
    if c.Abandon? && d.Abandon? {
      OneDrops(m, b, s, c.depth, d.depth);
      OneDrops(m, b, s, d.depth, c.depth);
    }
  }

  lemma OneDrops(m: Machine, b: Behaviour, s: State, d: nat, e: nat)
    requires Obeys(m, b, s, Abandon(d)) && Obeys(m, b, s, Abandon(e)) && Suspended(m, s.phase, e)
    ensures e <= d
  {
    assert d + 1 <= e ==> Patient(b, e);
  }

  lemma LastChoice(m: Machine, b: Behaviour, choices: seq<Choice>)
    requires choices != [] && Obeyed(m, b, choices) && RunOf(m, choices).Some?
    ensures var n := |choices| - 1;
            && Obeyed(m, b, choices[..n]) && RunOf(m, choices[..n]).Some?
            && Obeys(m, b, RunOf(m, choices[..n]).value, choices[n])
            && Step(m, RunOf(m, choices[..n]).value.phase, choices[n]).Some?
  {
  }

  lemma SameLast<T>(x: seq<T>, y: seq<T>)
    requires |x| == |y| > 0 && x[..|x| - 1] == y[..|y| - 1] && x[|x| - 1] == y[|y| - 1]
    ensures x == y
  {
    assert x == x[..|x| - 1] + [x[|x| - 1]] && y == y[..|y| - 1] + [y[|y| - 1]];
  }

  /** Two runs of one length that obey one behaviour are the same run. */
  lemma {:induction false} OneRun(m: Machine, b: Behaviour, x: seq<Choice>, y: seq<Choice>)
    requires |x| == |y| && Obeyed(m, b, x) && Obeyed(m, b, y) && RunOf(m, x).Some? && RunOf(m, y).Some?
    ensures x == y
  {
    if x != [] {
      var n := |x| - 1;
      LastChoice(m, b, x);
      LastChoice(m, b, y);
      OneRun(m, b, x[..n], y[..n]);
      OneChoice(m, b, RunOf(m, x[..n]).value, x[n], y[n]);
      SameLast(x, y);
    }
  }

  /** Among those who wait there is an innermost one that drops the rest, or all are patient. */
  lemma {:induction false} InnermostDrops(m: Machine, b: Behaviour, p: Phase, top: nat) returns (d: Option<nat>)
    requires forall e: nat :: Suspended(m, p, e) ==> b.middleware(e).Delegates?
    requires PatientFrom(m, b, p, top)
    ensures d.None? ==> PatientFrom(m, b, p, 0)
    ensures d.Some? ==> Suspended(m, p, d.value) && !Patient(b, d.value) && PatientFrom(m, b, p, d.value + 1)
    decreases top
  {
    if top == 0 {
      d := None;
    } else if Suspended(m, p, top - 1) && !Patient(b, top - 1) {
      d := Some(top - 1);
    } else {
      d := InnermostDrops(m, b, p, top - 1);
    }
  }

  // ------------------------------------------------------------- what is still to come

  predicate AllDelegate(b: Behaviour, n: nat) { forall d: nat :: d < n ==> b.middleware(d).Delegates? }

  /** What leaves the chain when `inner` reaches middleware `depth - 1`, everyone out there having delegated. */
  function Outward(b: Behaviour, depth: nat, inner: Option<Outcome>): Option<Outcome>
    requires AllDelegate(b, depth)
  {
    if depth == 0 then inner else Outward(b, depth - 1, b.middleware(depth - 1).after(inner))
  }

  lemma {:induction false} ChainFrom(b: Behaviour, middleware: nat, depth: nat)
    requires depth <= middleware && AllDelegate(b, depth)
    ensures ChainAnswer(b, middleware, 0) == Outward(b, depth, ChainAnswer(b, middleware, depth))
  {
    if depth > 0 {
      ChainFrom(b, middleware, depth - 1);
    }
  }

  /** A rest that hangs makes everyone hang who is patient. */
  lemma {:induction false} OutwardHangs(b: Behaviour, depth: nat)
    requires AllDelegate(b, depth) && forall d: nat :: d < depth ==> Patient(b, d)
    ensures Outward(b, depth, None) == None
  {
    if depth > 0 {
      assert Patient(b, depth - 1);
      OutwardHangs(b, depth - 1);
    }
  }

  /** A rest that hangs reaches the innermost middleware that is not patient. */
  lemma {:induction false} OutwardDropped(b: Behaviour, depth: nat, d: nat)
    requires d < depth && AllDelegate(b, depth) && forall e: nat :: d < e < depth ==> Patient(b, e)
    ensures AllDelegate(b, d + 1) && Outward(b, depth, None) == Outward(b, d + 1, None)
  {
    if depth > d + 1 {
      assert Patient(b, depth - 1);
      OutwardDropped(b, depth - 1, d);
    }
  }

  /** The head, the guards and the body let the request through to the chain. */
  predicate LetThrough(m: Machine, b: Behaviour) {
    m.headFault.None? && Screened(b, |m.rt.guards|, 0) == Admitted && b.bodyArrives && m.body.Ok?
  }

  /** Where the run stands, the behaviour still comes to the same end. */
  predicate OnCourse(m: Machine, b: Behaviour, s: State) {
    var (guards, middleware) := (|m.rt.guards|, |m.rt.middleware|);
    match s.phase
    case Starting => true
    case HeadHooks(_) => m.headFault.None?
    case Guarding(i) => m.headFault.None? && i <= guards && Screened(b, guards, 0) == Screened(b, guards, i)
    case Reading => m.headFault.None? && Screened(b, guards, 0) == Admitted
    case RequestHooks(_) => LetThrough(m, b)
    case Before(d) => LetThrough(m, b) && d < middleware && AllDelegate(b, d)
    case MappingInput => LetThrough(m, b) && AllDelegate(b, middleware)
    case Executing => LetThrough(m, b) && AllDelegate(b, middleware) && b.target.input.None?
    case MappingOutput =>
      LetThrough(m, b) && AllDelegate(b, middleware) && b.target.input.None? && b.target.useCase == Some(None)
    case After(d) =>
      LetThrough(m, b) && d < middleware && AllDelegate(b, d + 1)
      && ChainAnswer(b, middleware, 0) == Outward(b, d + 1, Arrived(s.trace))
    case OutcomeHooks(_, o) => LetThrough(m, b) && ChainAnswer(b, middleware, 0) == Some(o)
    case ResponseHooks(_, o, reply) =>
      LetThrough(m, b) && ChainAnswer(b, middleware, 0) == Some(o) && reply == m.outcomeExit(o)
    case CutHooks(_, seen, notice, reply) => DueEnd(m, b) == Some(End(Cut(seen, notice), reply))
    case Done(ending, reply) => DueEnd(m, b) == Some(End(ending, reply))
  }

  /** Where a run stands that hangs inside the chain: a hanging rest reaches those who wait. */
  lemma StalledInside(m: Machine, b: Behaviour, s: State) returns (depth: nat)
    requires OnCourse(m, b, s) && Stalled(m, b, s) && BodySeen(s.phase)
    ensures LetThrough(m, b) && AllDelegate(b, depth) && ChainAnswer(b, |m.rt.middleware|, 0) == Outward(b, depth, None)
    ensures forall e: nat :: e < depth <==> Suspended(m, s.phase, e)
  {
    var middleware := |m.rt.middleware|;
    match s.phase {
      case Before(d) =>
        depth := d;
        ChainFrom(b, middleware, d);
      case Executing =>
        depth := middleware;
        ChainFrom(b, middleware, middleware);
      case After(d) =>
        depth := d;
    }
  }

  /** The middleware that drops a hanging rest is in charge of what the chain comes to. */
  lemma DropKeeps(m: Machine, b: Behaviour, s: State, d: nat)
    requires OnCourse(m, b, s) && Suspended(m, s.phase, d) && Obeys(m, b, s, Abandon(d))
    ensures OnCourse(m, b, State(After(d), s.trace + [Abandoned(d)]))
  {
    var depth := StalledInside(m, b, s);
    assert d < depth;
    forall e: nat | d < e < depth
      ensures Patient(b, e)
    {
      assert Suspended(m, s.phase, e);
    }
    OutwardDropped(b, depth, d);
  }

  /** A halted run makes the chain, or what came before it, hang. */
  lemma HaltedIsLate(m: Machine, b: Behaviour, s: State)
    requires OnCourse(m, b, s) && Halted(m, b, s)
    ensures DueEnd(m, b) == Late(m, BodySeen(s.phase))
  {
    if BodySeen(s.phase) {
      var depth := StalledInside(m, b, s);
      forall e: nat | e < depth
        ensures Patient(b, e)
      {
        assert Suspended(m, s.phase, e);
      }
      OutwardHangs(b, depth);
    }
  }

  lemma ReturnKeeps(m: Machine, b: Behaviour, s: State, o: Outcome)
    requires OnCourse(m, b, s) && (s.phase.Before? || s.phase.After?) && Obeys(m, b, s, Return(o))
    ensures OnCourse(m, b, State(Resume(s.phase.depth, o), s.trace + [Left(s.phase.depth, o)]))
  {
    var d := s.phase.depth;
    if s.phase.Before? {
      ChainFrom(b, |m.rt.middleware|, d);
    }
    assert ChainAnswer(b, |m.rt.middleware|, 0) == Outward(b, d, Some(o));
  }

  lemma DelegateKeepsCourse(m: Machine, b: Behaviour, s: State)
    requires OnCourse(m, b, s) && s.phase.Before? && b.middleware(s.phase.depth).Delegates?
    ensures var move := DelegateStep(m, s.phase.depth); OnCourse(m, b, State(move.phase, s.trace + move.events))
  {
  }

  /** Leaving the target with its answer. */
  lemma TargetKeeps(m: Machine, b: Behaviour, trace: seq<Event>, events: seq<Event>, result: Result<RouteResponse>)
    requires LetThrough(m, b) && AllDelegate(b, |m.rt.middleware|)
    requires TargetAnswer(b.target) == Some(Outcome(result, NO_EFFECTS))
    ensures var move := LeaveTarget(m, events, result); OnCourse(m, b, State(move.phase, trace + move.events))
  {
    ChainFrom(b, |m.rt.middleware|, |m.rt.middleware|);
  }

  lemma InsideKeeps(m: Machine, b: Behaviour, s: State, c: Choice)
    requires OnCourse(m, b, s) && Obeys(m, b, s, c) && Step(m, s.phase, c).Some?
    requires c.MapInput? || c.Execute? || c.MapOutput?
    ensures var move := Step(m, s.phase, c).value; OnCourse(m, b, State(move.phase, s.trace + move.events))
  {
    match c {
      case MapInput(fault) =>
        if fault.Some? {
          TargetKeeps(m, b, s.trace, [InputMapped(false)], Err(fault.value));
        }
      case Execute(fault) =>
        if fault.Some? {
          TargetKeeps(m, b, s.trace, [UseCaseDone(false)], Err(fault.value));
        }
      case MapOutput(result) =>
        TargetKeeps(m, b, s.trace, [], result);
    }
  }

  lemma TickKeeps(m: Machine, b: Behaviour, s: State)
    requires OnCourse(m, b, s) && Obeys(m, b, s, Tick) && Step(m, s.phase, Tick).Some?
    ensures var move := Step(m, s.phase, Tick).value; OnCourse(m, b, State(move.phase, s.trace + move.events))
  {
  }

  lemma CourseKept(m: Machine, b: Behaviour, s: State, c: Choice)
    requires OnCourse(m, b, s) && Obeys(m, b, s, c) && Step(m, s.phase, c).Some?
    ensures var move := Step(m, s.phase, c).value; OnCourse(m, b, State(move.phase, s.trace + move.events))
  {
    match c {
      case Tick => TickKeeps(m, b, s);
      case Answer(_) =>
      case Delegate => DelegateKeepsCourse(m, b, s);
      case Return(o) => ReturnKeeps(m, b, s, o);
      case Abandon(d) => DropKeeps(m, b, s, d);
      case Expire => HaltedIsLate(m, b, s);
      case _ => InsideKeeps(m, b, s, c);
    }
  }

  // -------------------------------------------------------------------- theorems

  lemma {:induction false} CourseInvariant(m: Machine, b: Behaviour, choices: seq<Choice>)
    requires RunOf(m, choices).Some? && Obeyed(m, b, choices)
    ensures OnCourse(m, b, RunOf(m, choices).value)
  {
    if choices != [] {
      var front := choices[..|choices| - 1];
      CourseInvariant(m, b, front);
      CourseKept(m, b, RunOf(m, front).value, choices[|choices| - 1]);
    }
  }

  /**
   A run that obeys a behaviour ends as that behaviour comes to, and stops
   short of an end only where the behaviour hangs and there is no deadline.
   */
  lemma BehaviourDecides(m: Machine, b: Behaviour, choices: seq<Choice>)
    requires RunOf(m, choices).Some? && Obeyed(m, b, choices)
    ensures var s := RunOf(m, choices).value;
            && (s.phase.Done? ==> DueEnd(m, b) == Some(End(s.phase.ending, s.phase.reply)))
            && (Halted(m, b, s) ==> DueEnd(m, b) == Late(m, BodySeen(s.phase)))
  {
    CourseInvariant(m, b, choices);
    var s := RunOf(m, choices).value;
    if Halted(m, b, s) {
      HaltedIsLate(m, b, s);
    }
  }

  /** A run that has not ended has exactly one next choice, unless it is halted without a deadline. */
  lemma NextChoice(m: Machine, b: Behaviour, choices: seq<Choice>) returns (c: Choice)
    requires RunOf(m, choices).Some? && Obeyed(m, b, choices)
    requires var s := RunOf(m, choices).value;
             !s.phase.Done? && (m.rt.endpoint.timeout.Some? || !Halted(m, b, s))
    ensures var s := RunOf(m, choices).value;
            && Obeys(m, b, s, c) && Step(m, s.phase, c).Some?
            && forall d :: Obeys(m, b, s, d) && Step(m, s.phase, d).Some? ==> d == c
  {
    CourseInvariant(m, b, choices);
    var s := RunOf(m, choices).value;
    c := SomeChoice(m, b, s);
    forall d | Obeys(m, b, s, d) && Step(m, s.phase, d).Some?
      ensures d == c
    {
      OneChoice(m, b, s, d, c);
    }
  }

  lemma SomeChoice(m: Machine, b: Behaviour, s: State) returns (c: Choice)
    requires OnCourse(m, b, s) && !s.phase.Done? && (m.rt.endpoint.timeout.Some? || !Halted(m, b, s))
    ensures Obeys(m, b, s, c) && Step(m, s.phase, c).Some?
  {
    if Stalled(m, b, s) {
      c := WhenStalled(m, b, s);
      return;
    }
    match s.phase {
      case Guarding(i) => c := if i < |m.rt.guards| then Answer(b.guards(i).value) else Tick;
      case Before(d) => c := if b.middleware(d).Answers? then Return(b.middleware(d).outcome) else Delegate;
      case MappingInput => c := MapInput(b.target.input);
      case Executing => c := Execute(b.target.useCase.value);
      case MappingOutput => c := MapOutput(b.target.output);
      case After(d) => c := Return(b.middleware(d).after(Arrived(s.trace)).value);
      case _ => c := Tick;
    }
  }

  lemma WhenStalled(m: Machine, b: Behaviour, s: State) returns (c: Choice)
    requires OnCourse(m, b, s) && Stalled(m, b, s) && (m.rt.endpoint.timeout.Some? || !Halted(m, b, s))
    ensures Obeys(m, b, s, c) && Step(m, s.phase, c).Some?
  {
    c := Expire;
    if BodySeen(s.phase) {
      var depth := StalledInside(m, b, s);
      var d := InnermostDrops(m, b, s.phase, depth);
      if d.Some? {
        c := Abandon(d.value);
      }
    }
  }

  // ------------------------------------------------------------------- corollaries

  /** Nothing the request calls out to ever hangs. */
  ghost predicate Prompt(m: Machine, b: Behaviour) {
    && (forall i: nat :: i < |m.rt.guards| ==> b.guards(i).Some?)
    && b.bodyArrives && b.target.useCase.Some?
    && forall d: nat :: d < |m.rt.middleware| ==> PromptMiddleware(b.middleware(d))
  }

  ghost predicate PromptMiddleware(w: MiddlewareBehaviour) {
    !w.Hangs? && (w.Delegates? ==> forall o :: w.after(Some(o)).Some?)
  }

  lemma {:induction false} PromptChain(m: Machine, b: Behaviour, depth: nat)
    requires Prompt(m, b)
    ensures ChainAnswer(b, |m.rt.middleware|, depth).Some?
    decreases |m.rt.middleware| - depth
  {
    if depth < |m.rt.middleware| {
      PromptChain(m, b, depth + 1);
      assert PromptMiddleware(b.middleware(depth));
      var inner := ChainAnswer(b, |m.rt.middleware|, depth + 1);
      assert inner == Some(inner.value);
    }
  }

  lemma {:induction false} PromptGuards(m: Machine, b: Behaviour, i: nat)
    requires Prompt(m, b)
    ensures !Screened(b, |m.rt.guards|, i).Stuck?
    decreases |m.rt.guards| - i
  {
    if i < |m.rt.guards| {
      PromptGuards(m, b, i + 1);
    }
  }

  lemma PromptDue(m: Machine, b: Behaviour)
    requires Prompt(m, b)
    ensures DueEnd(m, b).Some?
    ensures DueEnd(m, b).value.ending.Cut? ==> !DueEnd(m, b).value.ending.notice.TimeoutSeen?
  {
    PromptGuards(m, b, 0);
    PromptChain(m, b, 0);
  }

  /** A pipeline that is always ready is never cut by its deadline, and never hangs. */
  lemma ReadyNeverCut(m: Machine, b: Behaviour, choices: seq<Choice>)
    requires Prompt(m, b) && RunOf(m, choices).Some? && Obeyed(m, b, choices)
    ensures var p := RunOf(m, choices).value.phase;
            && !Halted(m, b, RunOf(m, choices).value)
            && (p.Done? && p.ending.Cut? ==> !p.ending.notice.TimeoutSeen?)
  {
    BehaviourDecides(m, b, choices);
    PromptDue(m, b);
  }

  /** What the behaviour must have answered for an event, `before` being the trace that led to it. */
  ghost predicate Answered(m: Machine, b: Behaviour, before: seq<Event>, e: Event) {
    match e
    case GuardPassed(i) => b.guards(i) == Some(Pass)
    case GuardRefused(i, error, effects) => b.guards(i) == Some(Reject(error, effects))
    case BodyRead(bytes) => b.bodyArrives && m.body == Ok(bytes)
    case Delegated(d) => b.middleware(d).Delegates?
    case Left(d, o) =>
      || b.middleware(d) == Answers(o)
      || (b.middleware(d).Delegates? && b.middleware(d).after(Arrived(before)) == Some(o))
    case InputMapped(ok) => ok <==> b.target.input.None?
    case UseCaseDone(ok) => b.target.useCase.Some? && (ok <==> b.target.useCase.value.None?)
    case TargetLeft(o) => TargetSays(b.target, o)
    case _ => true
  }

  /** The outcome is the first failure of mapper and use case, or the output; the target has no effects. */
  predicate TargetSays(t: TargetBehaviour, o: Outcome) {
    && o.effects == NO_EFFECTS
    && if t.input.Some? then o.result == Err(t.input.value)
       else t.useCase.Some? && o.result == if t.useCase.value.Some? then Err(t.useCase.value.value) else t.output
  }

  ghost predicate AllAnswered(m: Machine, b: Behaviour, trace: seq<Event>) {
    forall t :: 0 <= t < |trace| ==> Answered(m, b, trace[..t], trace[t])
  }

  lemma AnsweredStep(m: Machine, b: Behaviour, s: State, c: Choice)
    requires OnCourse(m, b, s) && Obeys(m, b, s, c) && Step(m, s.phase, c).Some?
    ensures var events := Step(m, s.phase, c).value.events;
            && |events| <= 2
            && (|events| >= 1 ==> Answered(m, b, s.trace, events[0]))
            && (|events| == 2 ==> forall before :: Answered(m, b, before, events[1]))
  {
  }

  lemma AnsweredGrows(m: Machine, b: Behaviour, trace: seq<Event>, events: seq<Event>)
    requires AllAnswered(m, b, trace) && |events| <= 2
    requires |events| >= 1 ==> Answered(m, b, trace, events[0])
    requires |events| == 2 ==> forall before :: Answered(m, b, before, events[1])
    ensures AllAnswered(m, b, trace + events)
  {
    var whole := trace + events;
    forall t | 0 <= t < |whole|
      ensures Answered(m, b, whole[..t], whole[t])
    {
      if t <= |trace| {
        assert whole[..t] == trace[..t];
        assert trace[..|trace|] == trace;
      }
    }
  }

  /**
   Whatever guards, middleware, mappers and use case are seen to answer in an
   obeying run, they did answer, each middleware to the outcome that reached it.
   */
  lemma {:induction false} AnswersGiven(m: Machine, b: Behaviour, choices: seq<Choice>)
    requires RunOf(m, choices).Some? && Obeyed(m, b, choices)
    ensures AllAnswered(m, b, RunOf(m, choices).value.trace)
  {
    if choices != [] {
      var front := choices[..|choices| - 1];
      var (s, c) := (RunOf(m, front).value, choices[|choices| - 1]);
      AnswersGiven(m, b, front);
      CourseInvariant(m, b, front);
      AnsweredStep(m, b, s, c);
      AnsweredGrows(m, b, s.trace, Step(m, s.phase, c).value.events);
    }
  }

  lemma PassAnswered(m: Machine, b: Behaviour, trace: seq<Event>, i: nat)
    requires AllAnswered(m, b, trace) && GuardPassed(i) in trace
    ensures b.guards(i) == Some(Pass)
  {
    var p :| 0 <= p < |trace| && trace[p] == GuardPassed(i);
    assert Answered(m, b, trace[..p], trace[p]);
  }

  /** When the target was entered, every guard had passed. */
  lemma GuardsBefore(m: Machine, trace: seq<Event>, i: nat)
    requires Ordered(m, trace) && TargetEntered in trace && i < |m.rt.guards|
    ensures GuardPassed(i) in trace
  {
    var t :| 0 <= t < |trace| && trace[t] == TargetEntered;
    var x :| BodyAt(trace[..t], x);
    assert BodyAt(trace, x);
    assert GuardPassed(i) in trace[..x];
  }

  /** The target is entered only if every guard's answer is to pass. */
  lemma TargetNeedsEveryGuard(m: Machine, b: Behaviour, choices: seq<Choice>)
    requires RunOf(m, choices).Some? && Obeyed(m, b, choices) && TargetEntered in RunOf(m, choices).value.trace
    ensures forall i: nat :: i < |m.rt.guards| ==> b.guards(i) == Some(Pass)
  {
    var trace := RunOf(m, choices).value.trace;
    OrderInvariant(m, choices);
    AnswersGiven(m, b, choices);
    forall i: nat | i < |m.rt.guards|
      ensures b.guards(i) == Some(Pass)
    {
      GuardsBefore(m, trace, i);
      PassAnswered(m, b, trace, i);
    }
  }
}
