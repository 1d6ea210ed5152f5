/**
 One request through `EndpointRuntime::dispatch` (src/router.rs,
 src/middleware.rs, src/binding.rs) as a state machine over an event trace.

 Guards, middleware, mappers and use cases answer arbitrarily. The deadline can
 cut in only where the pipeline awaits: in a guard's check, while the body is
 read, and inside the middleware chain with its target.
 */
module Pipeline {
  import opened Text
  import opened Http
  import opened ResponseHeaders
  import opened RateLimit
  import opened Builder

  // ---------------------------------------------------------------- observations

  /** What a hook can see of a response. */
  datatype View = View(status: nat, headers: Headers)

  function ViewOf(r: Reply): View { View(r.status, r.headers) }

  datatype Notice =
    | NormalizationRejected(error: SoapError, view: View)
    | HeadSeen
    | GuardRejected(error: SoapError, view: View)
    | BodyRejected(error: SoapError, view: View)
    | RequestSeen
    | OutcomeSeen(outcome: Outcome)
    | ResponseSeen(view: View)
    | TimeoutSeen(error: SoapError, view: View)

  datatype Event =
    | Told(hook: nat, notice: Notice)
    | GuardPassed(guard: nat)
    | GuardRefused(guard: nat, error: SoapError, effects: Effects)
    | BodyRead(bytes: seq<nat>)
    | Entered(depth: nat)
    | Delegated(depth: nat)
    | Abandoned(depth: nat)
    | Left(depth: nat, outcome: Outcome)
    | TargetEntered
    | InputMapped(ok: bool)
    | UseCaseCalled
    | UseCaseDone(ok: bool)
    | OutputMapperCalled
    | TargetLeft(outcome: Outcome)

  // ---------------------------------------------------------------------- machine

  /**
   What a run of one request needs: the endpoint's runtime, whether its head
   normalizes, what its body comes to, and the replies of the pipeline's exits.
   */
  datatype Machine = Machine(
    rt: Runtime, headFault: Option<SoapError>, body: Result<seq<nat>>,
    errorExit: SoapError -> Reply, guardExit: (SoapError, Effects) -> Reply, outcomeExit: Outcome -> Reply)

  /** How a run ended: with an outcome, or with one terminal notice before or after the body. */
  datatype Ending = Finished(outcome: Outcome) | Cut(bodySeen: bool, notice: Notice)

  datatype Phase =
    | Starting
    | HeadHooks(next: nat)
    | Guarding(next: nat)
    | Reading
    | RequestHooks(next: nat)
    | Before(depth: nat)
    | MappingInput
    | Executing
    | MappingOutput
    | After(depth: nat)
    | OutcomeHooks(next: nat, outcome: Outcome)
    | ResponseHooks(next: nat, outcome: Outcome, reply: Reply)
    | CutHooks(next: nat, bodySeen: bool, notice: Notice, reply: Reply)
    | Done(ending: Ending, reply: Reply)

  /** What decides the next step; `Tick` where nothing outside does. */
  datatype Choice =
    | Tick
    | Answer(verdict: Verdict)
    | Delegate
    | Return(outcome: Outcome)
    | Abandon(depth: nat)
    | MapInput(fault: Option<SoapError>)
    | Execute(fault: Option<SoapError>)
    | MapOutput(result: Result<RouteResponse>)
    | Expire

  const DEADLINE := Plain(TimedOut)

  /** The pipeline awaits something that may never be ready. */
  predicate Awaiting(m: Machine, p: Phase) {
    match p
    case Guarding(i) => i < |m.rt.guards|
    case Reading => true
    case Before(_) => true
    case Executing => true
    case After(_) => true
    case _ => false
  }

  /** Middleware `d` waits for the part of the chain that is running. */
  predicate Suspended(m: Machine, p: Phase, d: nat) {
    match p
    case Before(e) => d < e
    case After(e) => d < e
    case MappingInput => d < |m.rt.middleware|
    case Executing => d < |m.rt.middleware|
    case MappingOutput => d < |m.rt.middleware|
    case _ => false
  }

  datatype Move = Move(events: seq<Event>, phase: Phase)

  /** `EndpointNext::run` at a depth: the next middleware, or the target. */
  function Enter(m: Machine, depth: nat): Move {
    if depth < |m.rt.middleware| then Move([Entered(depth)], Before(depth)) else Move([TargetEntered], MappingInput)
  }

  /** Control returns to the middleware around `depth`, or out of the chain. */
  function Resume(depth: nat, outcome: Outcome): Phase {
    if depth == 0 then OutcomeHooks(0, outcome) else After(depth - 1)
  }

  function LeaveTarget(m: Machine, events: seq<Event>, result: Result<RouteResponse>): Move {
    var outcome := Outcome(result, NO_EFFECTS);
    Move(events + [TargetLeft(outcome)], Resume(|m.rt.middleware|, outcome))
  }

  function CutWith(bodySeen: bool, notice: Notice, reply: Reply): Move {
    Move([], CutHooks(0, bodySeen, notice, reply))
  }

  /** Whether the body had been announced to the hooks before this phase. */
  predicate BodySeen(p: Phase) { p.Before? || p.Executing? || p.After? }

  function StartStep(m: Machine): Move {
    match m.headFault
    case Some(error) =>
      var reply := m.errorExit(error);
      CutWith(false, NormalizationRejected(error, ViewOf(reply)), reply)
    case None => Move([], HeadHooks(0))
  }

  function GuardStep(m: Machine, i: nat, v: Verdict): Move {
    match v
    case Pass => Move([GuardPassed(i)], Guarding(i + 1))
    case Reject(error, effects) =>
      var reply := m.guardExit(error, effects);
      Move([GuardRefused(i, error, effects)], CutHooks(0, false, GuardRejected(error, ViewOf(reply)), reply))
  }

  function BodyStep(m: Machine): Move {
    match m.body
    case Ok(bytes) => Move([BodyRead(bytes)], RequestHooks(0))
    case Err(error) =>
      var reply := m.errorExit(error);
      CutWith(false, BodyRejected(error, ViewOf(reply)), reply)
  }

  function DelegateStep(m: Machine, d: nat): Move {
    var inner := Enter(m, d + 1);
    Move([Delegated(d)] + inner.events, inner.phase)
  }

  function ReturnStep(d: nat, o: Outcome): Move { Move([Left(d, o)], Resume(d, o)) }

  function MapInputStep(m: Machine, fault: Option<SoapError>): Move {
    match fault
    case Some(error) => LeaveTarget(m, [InputMapped(false)], Err(error))
    case None => Move([InputMapped(true), UseCaseCalled], Executing)
  }

  function ExecuteStep(m: Machine, fault: Option<SoapError>): Move {
    match fault
    case Some(error) => LeaveTarget(m, [UseCaseDone(false)], Err(error))
    case None => Move([UseCaseDone(true), OutputMapperCalled], MappingOutput)
  }

  /** Tells hook `k` if there is one, else ends the round. */
  function TellStep(m: Machine, k: nat, notice: Notice, again: Phase, ended: Move): Move {
    if k < |m.rt.hooks| then Move([Told(k, notice)], again) else ended
  }

  function ExpireStep(m: Machine, p: Phase): Move {
    var reply := m.errorExit(DEADLINE);
    CutWith(BodySeen(p), TimeoutSeen(DEADLINE, ViewOf(reply)), reply)
  }

  /** Steps that nothing outside decides. */
  function TickStep(m: Machine, p: Phase): Option<Move> {
    match p
    case Starting => Some(StartStep(m))
    case HeadHooks(k) => Some(TellStep(m, k, HeadSeen, HeadHooks(k + 1), Move([], Guarding(0))))
    case Guarding(i) => if i < |m.rt.guards| then None else Some(Move([], Reading))
    case Reading => Some(BodyStep(m))
    case RequestHooks(k) => Some(TellStep(m, k, RequestSeen, RequestHooks(k + 1), Enter(m, 0)))
    case OutcomeHooks(k, o) =>
      Some(TellStep(m, k, OutcomeSeen(o), OutcomeHooks(k + 1, o),
                    Move([], ResponseHooks(0, o, m.outcomeExit(o)))))
    case ResponseHooks(k, o, reply) =>
      Some(TellStep(m, k, ResponseSeen(ViewOf(reply)), ResponseHooks(k + 1, o, reply),
                    Move([], Done(Finished(o), reply))))
    case CutHooks(k, seen, notice, reply) =>
      Some(TellStep(m, k, notice, CutHooks(k + 1, seen, notice, reply), Move([], Done(Cut(seen, notice), reply))))
    case _ => None
  }

  /** One step: the events it emits and the phase it leads to; None where the choice does not apply. */
  function Step(m: Machine, p: Phase, c: Choice): Option<Move> {
    match c
    case Tick => TickStep(m, p)
    case Answer(v) => if p.Guarding? && p.next < |m.rt.guards| then Some(GuardStep(m, p.next, v)) else None
    case Delegate => if p.Before? then Some(DelegateStep(m, p.depth)) else None
    case Return(o) => if p.Before? || p.After? then Some(ReturnStep(p.depth, o)) else None
    case Abandon(d) => if Suspended(m, p, d) then Some(Move([Abandoned(d)], After(d))) else None
    case MapInput(fault) => if p.MappingInput? then Some(MapInputStep(m, fault)) else None
    case Execute(fault) => if p.Executing? then Some(ExecuteStep(m, fault)) else None
    case MapOutput(result) => if p.MappingOutput? then Some(LeaveTarget(m, [], result)) else None
    case Expire => if m.rt.endpoint.timeout.Some? && Awaiting(m, p) then Some(ExpireStep(m, p)) else None
  }

  datatype State = State(phase: Phase, trace: seq<Event>)

  const INITIAL := State(Starting, [])

  /** The state after a run of choices; None when one did not apply. */
  function RunOf(m: Machine, choices: seq<Choice>): Option<State> {
    if choices == [] then Some(INITIAL)
    else
      match RunOf(m, choices[..|choices| - 1])
      case None => None
      case Some(s) =>
        match Step(m, s.phase, choices[|choices| - 1])
        case None => None
        case Some(move) => Some(State(move.phase, s.trace + move.events))
  }

  // ------------------------------------------------------------------ projections

  /** The part of a trace that `pick` selects, in order. */
  function Project<T>(pick: Event -> Option<T>, trace: seq<Event>): seq<T> {
    if trace == [] then []
    else
      var last := pick(trace[|trace| - 1]);
      Project(pick, trace[..|trace| - 1]) + (if last.Some? then [last.value] else [])
  }

  lemma {:induction false} ProjectConcat<T>(pick: Event -> Option<T>, a: seq<Event>, b: seq<Event>)
    ensures Project(pick, a + b) == Project(pick, a) + Project(pick, b)
    decreases |b|
  {
    if b == [] {
      assert a + b == a;
    } else {
      var front := b[..|b| - 1];
      ProjectConcat(pick, a, front);
      assert (a + b)[..|a + b| - 1] == a + front;
    }
  }

  lemma ProjectSmall<T>(pick: Event -> Option<T>, e: Event, f: Event)
    ensures Project(pick, []) == []
    ensures Project(pick, [e]) == if pick(e).Some? then [pick(e).value] else []
    ensures Project(pick, [e, f]) == Project(pick, [e]) + Project(pick, [f])
  {
    assert [e][..0] == [] && [f][..0] == [];
    assert [e, f][..1] == [e];
  }
}
