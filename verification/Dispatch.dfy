/**
 `EndpointRuntime::dispatch` as code: loops over hooks and guards, a bounded
 body read, recursion through the middleware, and responses built in place.
 Each method is proved to follow the pipeline machine step by step, so what
 holds of all runs of the machine holds of what this code logs and returns.
 */
module Dispatch {
  import opened Text
  import opened Http
  import opened ResponseHeaders
  import opened Policy
  import opened BodyReader
  import opened RateLimit
  import opened Cookies
  import opened Query
  import opened Builder
  import opened Pipeline
  import opened HookLaws
  import opened Serving
  import opened Behaviours

  /** What middleware and target hand over has no header without values. */
  ghost predicate BehaviourOk(b: Behaviour) {
    && (forall i :: b.guards(i).Some? && b.guards(i).value.Reject? ==> WellFormed(b.guards(i).value.effects.headers))
    && (forall d :: b.middleware(d).Answers? ==> WellFormedOutcome(b.middleware(d).outcome))
    && (forall d, inner :: b.middleware(d).Delegates? && b.middleware(d).after(inner).Some? ==>
          WellFormedOutcome(b.middleware(d).after(inner).value))
    && WellFormedOutcome(Outcome(b.target.output, NO_EFFECTS))
  }

  // ------------------------------------------------------------------ the runtime

  class EndpointRuntime {
    const lib: Library
    const request: Request
    const wordMax: nat
    const m: Machine
    const behaviour: Behaviour
    /** What has happened, in order. */
    var log: seq<Event>
    ghost var phase: Phase
    ghost var choices: seq<Choice>

    /** The log is that of a run of the machine in which every choice is the behaviour's. */
    ghost predicate InRun()
      reads this
    {
      RunOf(m, choices) == Some(State(phase, log)) && Obeyed(m, behaviour, choices)
    }

    ghost predicate AtRest()
      reads this
    {
      Halted(m, behaviour, State(phase, log))
    }

    /** The machine is the one that serves the request. */
    ghost predicate Proper() {
      m == Serve(lib, m.rt, request, wordMax) && EndpointOk(m.rt.endpoint) && BehaviourOk(behaviour)
    }

    constructor (lib: Library, rt: Runtime, request: Request, wordMax: nat, behaviour: Behaviour)
      requires EndpointOk(rt.endpoint) && BehaviourOk(behaviour)
      ensures this.behaviour == behaviour
      ensures m == Serve(lib, rt, request, wordMax) && Proper() && InRun() && phase == Starting && log == []
    {
      this.lib := lib;
      this.request := request;
      this.wordMax := wordMax;
      this.m := Serve(lib, rt, request, wordMax);
      this.behaviour := behaviour;
      log := [];
      phase := Starting;
      choices := [];
    }

    /** The events just logged are those of a step of the machine. */
    ghost method Follow(c: Choice, move: Move, before: seq<Event>)
      requires RunOf(m, choices) == Some(State(phase, before)) && Obeyed(m, behaviour, choices)
      requires Obeys(m, behaviour, State(phase, before), c)
      requires Step(m, phase, c) == Some(move) && log == before + move.events
      modifies this`phase, this`choices
      ensures InRun() && phase == move.phase
    {
      var next := choices + [c];
      assert next[..|next| - 1] == choices;
      choices := next;
      phase := move.phase;
    }

    /** Tells every hook, in order; `at` names the phases of that round. */
    method Tell(notice: Notice, ghost at: nat -> Phase)
      requires InRun() && phase == at(0) && forall k: nat :: k < |m.rt.hooks| ==> !at(k).Reading?
      requires forall k: nat :: k < |m.rt.hooks| ==> Step(m, at(k), Tick) == Some(Move([Told(k, notice)], at(k + 1)))
      modifies this
      ensures InRun() && phase == at(|m.rt.hooks|)
    {
      var k: nat := 0;
      while k < |m.rt.hooks|
        invariant k <= |m.rt.hooks| && InRun() && phase == at(k)
      {
        ghost var before := log;
        log := log + [Told(k, notice)];
        Follow(Tick, Move([Told(k, notice)], at(k + 1)), before);
        k := k + 1;
      }
    }

    /** A step that logs nothing. */
    ghost method Pass(c: Choice, next: Phase)
      requires InRun() && Step(m, phase, c) == Some(Move([], next))
      requires Obeys(m, behaviour, State(phase, log), c)
      modifies this`phase, this`choices
      ensures InRun() && phase == next
    {
      assert log + [] == log;
      Follow(c, Move([], next), log);
    }

    /** Tells every hook the terminal notice and hands back the response. */
    method CutShort(ghost seen: bool, notice: Notice, response: Response)
      requires InRun() && phase == CutHooks(0, seen, notice, response.Value())
      modifies this
      ensures InRun() && phase == Done(Cut(seen, notice), old(response.Value()))
      ensures response.Value() == old(response.Value())
    {
      ghost var reply := response.Value();
      Tell(notice, (k: nat) => CutHooks(k, seen, notice, reply));
      Pass(Tick, Done(Cut(seen, notice), reply));
    }

    /**
     `dispatch`: the pipeline under the endpoint's deadline, if it has one. The
     request ends as the behaviour comes to, the deadline cutting in exactly
     where it hangs; without a deadline a request that hangs is never answered.
     */
    method DispatchRequest() returns (r: Option<Response>)
      requires Proper() && InRun() && phase == Starting
      modifies this
      ensures InRun()
      ensures r.Some? <==> DueEnd(m, behaviour).Some?
      ensures r.Some? ==> r.value.Value() == DueEnd(m, behaviour).value.reply
                          && phase == Done(DueEnd(m, behaviour).value.ending, r.value.Value())
      ensures r.Some? ==> forall hook: nat :: hook < |m.rt.hooks| ==>
                            Language(Heard(Project(ToldOf, log), hook), r.value.Value())
      ensures r.None? ==> m.rt.endpoint.timeout.None? && AtRest()
      ensures forall t :: 0 <= t < |log| && Serves(log[t]) ==> CookiesOk(request) && QueryOk(request)
    {
      r := DispatchPipeline();
      if r.None? && m.rt.endpoint.timeout.Some? {
        var response := TimeoutResponse();
        r := Some(response);
      }
      BehaviourDecides(m, behaviour, choices);
      forall t | 0 <= t < |log| && Serves(log[t])
        ensures CookiesOk(request) && QueryOk(request)
      {
        HeadChecked(lib, m.rt, request, wordMax, choices, t);
      }
      if r.Some? {
        forall hook: nat | hook < |m.rt.hooks|
          ensures Language(Heard(Project(ToldOf, log), hook), r.value.Value())
        {
          HookLanguage(m, choices, hook);
        }
      }
    }

    method TimeoutResponse() returns (response: Response)
      requires Proper() && InRun() && m.rt.endpoint.timeout.Some? && AtRest() && Awaiting(m, phase)
      modifies this
      ensures InRun() && phase.Done? && phase.reply == response.Value()
    {
      response := BuildError(DEADLINE);
      var notice := TimeoutSeen(DEADLINE, ViewOf(response.Value()));
      ghost var seen := BodySeen(phase);
      Pass(Expire, CutHooks(0, seen, notice, response.Value()));
      CutShort(seen, notice, response);
    }

    method BuildError(error: SoapError) returns (response: Response)
      requires Proper()
      ensures fresh(response) && fresh(response.headers) && response.Value() == m.errorExit(error)
    {
      response := ErrorResponseWithPolicies(lib, m.rt.endpoint, error);
    }

    method BuildRefusal(error: SoapError, effects: Effects) returns (response: Response)
      requires Proper() && WellFormed(effects.headers)
      ensures fresh(response) && fresh(response.headers) && response.Value() == m.guardExit(error, effects)
    {
      response := GuardRejectionResponse(lib, m.rt.endpoint, error, effects);
    }

    method BuildOutcome(outcome: Outcome) returns (response: Response)
      requires Proper() && WellFormedOutcome(outcome)
      ensures fresh(response) && fresh(response.headers) && response.Value() == m.outcomeExit(outcome)
    {
      response := FinalResponse(lib, m.rt.endpoint, outcome);
    }

    /** `normalize_head`: cookies, then query. */
    method NormalizeHead() returns (fault: Option<SoapError>)
      requires Proper()
      ensures fault == m.headFault
      ensures fault.None? <==> CookiesOk(request) && QueryOk(request)
    {
      NormalizeExact(request);
      var cookies := ParseCookies(request.cookies);
      if cookies.Err? {
        return Some(cookies.error);
      }
      var query := ParseQuery(request.query);
      if query.Err? {
        return Some(query.error);
      }
      return None;
    }

    /** A head that does not normalize: the error goes out before any guard. */
    method RejectHead(fault: SoapError) returns (response: Response)
      requires Proper() && InRun() && phase == Starting && m.headFault == Some(fault)
      modifies this
      ensures InRun() && phase.Done? && phase.reply == response.Value()
    {
      response := BuildError(fault);
      var notice := NormalizationRejected(fault, ViewOf(response.Value()));
      Pass(Tick, CutHooks(0, false, notice, response.Value()));
      CutShort(false, notice, response);
    }

    method RejectBody(fault: SoapError) returns (response: Response)
      requires Proper() && InRun() && phase == Reading && behaviour.bodyArrives && m.body == Err(fault)
      modifies this
      ensures InRun() && phase.Done? && phase.reply == response.Value()
    {
      response := BuildError(fault);
      var notice := BodyRejected(fault, ViewOf(response.Value()));
      Pass(Tick, CutHooks(0, false, notice, response.Value()));
      CutShort(false, notice, response);
    }

    /** The head is announced to the hooks. */
    method AnnounceHead()
      requires InRun() && phase == Starting && m.headFault.None?
      modifies this
      ensures InRun() && phase == Guarding(0)
    {
      Pass(Tick, HeadHooks(0));
      Tell(HeadSeen, (k: nat) => HeadHooks(k));
      Pass(Tick, Guarding(0));
    }

    method LogBody(bytes: seq<nat>)
      requires InRun() && phase == Reading && behaviour.bodyArrives && m.body == Ok(bytes)
      modifies this
      ensures InRun() && phase == RequestHooks(0)
    {
      ghost var before := log;
      log := log + [BodyRead(bytes)];
      Follow(Tick, Move([BodyRead(bytes)], RequestHooks(0)), before);
    }

    /** The body is in, and the whole request is announced to the hooks. */
    method AnnounceRequest(bytes: seq<nat>)
      requires InRun() && phase == Reading && behaviour.bodyArrives && m.body == Ok(bytes)
      modifies this
      ensures InRun() && phase == RequestHooks(|m.rt.hooks|)
    {
      LogBody(bytes);
      Tell(RequestSeen, (k: nat) => RequestHooks(k));
    }

    /** `dispatch_pipeline`; None exactly when something it awaits never ends. */
    method DispatchPipeline() returns (r: Option<Response>)
      requires Proper() && InRun() && phase == Starting
      modifies this
      ensures InRun()
      ensures r.Some? ==> phase.Done? && phase.reply == r.value.Value()
      ensures r.None? ==> AtRest() && Awaiting(m, phase)
    {
      var fault := NormalizeHead();
      if fault.Some? {
        var response := RejectHead(fault.value);
        return Some(response);
      }
      AnnounceHead();
      var admitted, refusal := CheckGuards();
      if !admitted {
        return refusal;
      }
      if !behaviour.bodyArrives {
        return None;
      }
      r := ServeBody();
    }

    /** The bounded body read and all that follows it. */
    method ServeBody() returns (r: Option<Response>)
      requires Proper() && InRun() && phase == Reading && behaviour.bodyArrives
      modifies this
      ensures InRun()
      ensures r.Some? ==> phase.Done? && phase.reply == r.value.Value()
      ensures r.None? ==> AtRest() && Awaiting(m, phase)
    {
      var body := ReadBody(request.chunks, BodyLimitOf(m.rt, wordMax));
      if body.Err? {
        var response := RejectBody(body.error);
        return Some(response);
      }
      AnnounceRequest(body.value);
      r := RunAndRespond();
    }

    /** The middleware chain with its target, then the response. */
    method RunAndRespond() returns (r: Option<Response>)
      requires Proper() && InRun() && phase == RequestHooks(|m.rt.hooks|)
      modifies this
      ensures InRun()
      ensures r.Some? <==> ChainAnswer(behaviour, |m.rt.middleware|, 0).Some?
      ensures r.Some? ==>
                phase == Done(Finished(ChainAnswer(behaviour, |m.rt.middleware|, 0).value), r.value.Value())
      ensures r.None? ==> AtRest() && Awaiting(m, phase)
    {
      assert log + [] == log && [] + Enter(m, 0).events == Enter(m, 0).events;
      var outcome := RunChain(0, log, Tick, []);
      if outcome.None? {
        return None;
      }
      var response := Respond(outcome.value);
      return Some(response);
    }

    method PassGuard(i: nat)
      requires InRun() && phase == Guarding(i) && i < |m.rt.guards| && behaviour.guards(i) == Some(Verdict.Pass)
      modifies this
      ensures InRun() && phase == Guarding(i + 1)
    {
      ghost var before := log;
      log := log + [GuardPassed(i)];
      Follow(Answer(Verdict.Pass), Move([GuardPassed(i)], Guarding(i + 1)), before);
    }

    /** The refusal is logged and told; `response` shows it. */
    method LogRefusal(i: nat, error: SoapError, effects: Effects, response: Response)
      requires InRun() && phase == Guarding(i) && i < |m.rt.guards| && response.Value() == m.guardExit(error, effects)
      requires behaviour.guards(i) == Some(Reject(error, effects))
      modifies this
      ensures InRun() && phase.Done? && phase.reply == response.Value() == old(response.Value())
    {
      var notice := GuardRejected(error, ViewOf(response.Value()));
      ghost var before := log;
      log := log + [GuardRefused(i, error, effects)];
      Follow(Answer(Reject(error, effects)),
             Move([GuardRefused(i, error, effects)], CutHooks(0, false, notice, response.Value())), before);
      CutShort(false, notice, response);
    }

    method Refuse(i: nat, error: SoapError, effects: Effects) returns (response: Response)
      requires Proper() && InRun() && phase == Guarding(i) && i < |m.rt.guards|
      requires behaviour.guards(i) == Some(Reject(error, effects))
      modifies this
      ensures InRun() && phase.Done? && phase.reply == response.Value() == m.guardExit(error, effects)
    {
      response := BuildRefusal(error, effects);
      LogRefusal(i, error, effects, response);
    }

    /** Every guard is asked in order until one refuses or hangs. */
    method CheckGuards() returns (admitted: bool, r: Option<Response>)
      requires Proper() && InRun() && phase == Guarding(0)
      modifies this
      ensures InRun()
      ensures match Screened(behaviour, |m.rt.guards|, 0)
              case Admitted => admitted && phase == Reading
              case Refusing(_, error, effects) =>
                !admitted && r.Some? && phase.Done? && phase.reply == r.value.Value() == m.guardExit(error, effects)
              case Stuck(i) => !admitted && r.None? && phase == Guarding(i) && i < |m.rt.guards| && AtRest()
    {
      var i: nat := 0;
      while i < |m.rt.guards|
        invariant i <= |m.rt.guards| && InRun() && phase == Guarding(i)
        invariant Screened(behaviour, |m.rt.guards|, 0) == Screened(behaviour, |m.rt.guards|, i)
      {
        var answer := behaviour.guards(i);
        if answer.None? {
          GuardHangs(i);
          return false, None;
        }
        match answer.value {
          case Pass =>
            PassGuard(i);
          case Reject(error, effects) =>
            var response := Refuse(i, error, effects);
            return false, Some(response);
        }
        i := i + 1;
      }
      CloseGuards();
      return true, None;
    }

    lemma GuardHangs(i: nat)
      requires phase == Guarding(i) && i < |m.rt.guards| && behaviour.guards(i).None?
      ensures AtRest()
    {
    }

    /** No guard is left to ask. */
    ghost method CloseGuards()
      requires InRun() && phase == Guarding(|m.rt.guards|)
      modifies this`phase, this`choices
      ensures InRun() && phase == Reading
    {
      Pass(Tick, Reading);
    }

    /**
     `EndpointNext::run`: the middleware at `depth` around the rest, or the
     target. `before`, `c` and `first` are the step that leads here: the log
     and choice it starts from and the events of it that are already logged.
     */
    method RunChain(depth: nat, ghost before: seq<Event>, ghost c: Choice, ghost first: seq<Event>)
      returns (r: Option<Outcome>)
      requires Proper() && depth <= |m.rt.middleware|
      requires RunOf(m, choices) == Some(State(phase, before)) && Obeyed(m, behaviour, choices)
      requires Obeys(m, behaviour, State(phase, before), c) && log == before + first
      requires Step(m, phase, c) == Some(Move(first + Enter(m, depth).events, Enter(m, depth).phase))
      modifies this
      ensures InRun() && r == ChainAnswer(behaviour, |m.rt.middleware|, depth)
      ensures r.Some? ==> WellFormedOutcome(r.value) && phase == Resume(depth, r.value) && Arrived(log) == r
      ensures r.None? ==> HungInside(depth)
      decreases |m.rt.middleware| - depth, 1
    {
      EnterPart(depth, before, c, first);
      if depth == |m.rt.middleware| {
        r := CallTarget();
      } else {
        r := RunMiddleware(depth);
      }
    }

    /** What runs at or inside a depth hangs; everyone inside it who waits is patient, everyone outside waits. */
    ghost predicate HungInside(depth: nat)
      reads this
    {
      && Awaiting(m, phase) && Stalled(m, behaviour, State(phase, log)) && PatientFrom(m, behaviour, phase, depth)
      && forall d: nat :: d < depth ==> Suspended(m, phase, d)
    }

    method EnterPart(depth: nat, ghost before: seq<Event>, ghost c: Choice, ghost first: seq<Event>)
      requires depth <= |m.rt.middleware|
      requires RunOf(m, choices) == Some(State(phase, before)) && Obeyed(m, behaviour, choices)
      requires Obeys(m, behaviour, State(phase, before), c) && log == before + first
      requires Step(m, phase, c) == Some(Move(first + Enter(m, depth).events, Enter(m, depth).phase))
      modifies this
      ensures InRun() && phase == Enter(m, depth).phase
    {
      Associative(before, first, Enter(m, depth).events);
      if depth == |m.rt.middleware| {
        log := log + [TargetEntered];
      } else {
        log := log + [Entered(depth)];
      }
      Follow(c, Move(first + Enter(m, depth).events, Enter(m, depth).phase), before);
    }

    /** One middleware's `handle`, already entered. */
    method RunMiddleware(depth: nat) returns (r: Option<Outcome>)
      requires Proper() && InRun() && depth < |m.rt.middleware| && phase == Before(depth)
      modifies this
      ensures InRun() && r == ChainAnswer(behaviour, |m.rt.middleware|, depth)
      ensures r.Some? ==> WellFormedOutcome(r.value) && phase == Resume(depth, r.value) && Arrived(log) == r
      ensures r.None? ==> HungInside(depth)
      decreases |m.rt.middleware| - depth, 0
    {
      match behaviour.middleware(depth) {
        case Hangs =>
          return None;
        case Answers(outcome) =>
          Leave(depth, outcome);
          return Some(outcome);
        case Delegates(after) =>
          ghost var now := log;
          log := log + [Delegated(depth)];
          var inner := RunChain(depth + 1, now, Delegate, [Delegated(depth)]);
          var outcome := after(inner);
          if outcome.None? {
            StillWaiting(inner, depth);
            return None;
          }
          if inner.None? {
            DropRest(depth);
          }
          Leave(depth, outcome.value);
          return outcome;
      }
    }

    /** A middleware that hangs after its rest answered, or with a rest that hangs, keeps the run waiting. */
    lemma StillWaiting(inner: Option<Outcome>, depth: nat)
      requires depth < |m.rt.middleware|
      requires behaviour.middleware(depth).Delegates? && behaviour.middleware(depth).after(inner).None?
      requires inner.Some? ==> phase == Resume(depth + 1, inner.value) && Arrived(log) == inner
      requires inner.None? ==> HungInside(depth + 1)
      ensures HungInside(depth)
    {
    }

    /** A middleware stops waiting for the rest. */
    method DropRest(depth: nat)
      requires InRun() && HungInside(depth + 1)
      requires behaviour.middleware(depth).Delegates? && behaviour.middleware(depth).after(None).Some?
      modifies this
      ensures InRun() && phase == After(depth) && Arrived(log) == None
    {
      ghost var before := log;
      log := log + [Abandoned(depth)];
      Follow(Abandon(depth), Move([Abandoned(depth)], After(depth)), before);
    }

    /** A middleware returns its outcome. */
    method Leave(depth: nat, outcome: Outcome)
      requires InRun() && (phase == Before(depth) || phase == After(depth))
      requires Obeys(m, behaviour, State(phase, log), Return(outcome))
      modifies this
      ensures InRun() && phase == Resume(depth, outcome) && Arrived(log) == Some(outcome)
    {
      ghost var before := log;
      log := log + [Left(depth, outcome)];
      Follow(Return(outcome), Move([Left(depth, outcome)], Resume(depth, outcome)), before);
    }

    /** The target is left with a result that carries no effects of its own. */
    method LeaveWith(ghost c: Choice, event: Option<Event>, result: Result<RouteResponse>) returns (outcome: Outcome)
      requires InRun() && Obeys(m, behaviour, State(phase, log), c)
      requires Step(m, phase, c) == Some(LeaveTarget(m, if event.Some? then [event.value] else [], result))
      modifies this
      ensures InRun() && outcome == Outcome(result, NO_EFFECTS) && phase == Resume(|m.rt.middleware|, outcome)
      ensures Arrived(log) == Some(outcome)
    {
      outcome := Outcome(result, NO_EFFECTS);
      ghost var before := log;
      ghost var events := if event.Some? then [event.value] else [];
      if event.Some? {
        log := log + [event.value];
      }
      log := log + [TargetLeft(outcome)];
      assert log == before + (events + [TargetLeft(outcome)]);
      Follow(c, LeaveTarget(m, events, result), before);
    }

    /** Input mapper, use case and output mapper in turn, leaving with the first failure. */
    method CallTarget() returns (r: Option<Outcome>)
      requires Proper() && InRun() && phase == MappingInput
      modifies this
      ensures InRun() && r == TargetAnswer(behaviour.target)
      ensures r.Some? ==> WellFormedOutcome(r.value) && phase == Resume(|m.rt.middleware|, r.value) && Arrived(log) == r
      ensures r.None? ==> HungInside(|m.rt.middleware|)
    {
      var target := behaviour.target;
      if target.input.Some? {
        r := FailWith(MapInput(target.input), InputMapped(false), target.input.value);
        return;
      }
      StartUseCase();
      if target.useCase.None? {
        return None;
      }
      if target.useCase.value.Some? {
        r := FailWith(Execute(target.useCase.value), UseCaseDone(false), target.useCase.value.value);
        return;
      }
      FinishUseCase();
      var outcome := LeaveWith(MapOutput(target.output), None, target.output);
      return Some(outcome);
    }

    method FailWith(ghost c: Choice, event: Event, error: SoapError) returns (r: Option<Outcome>)
      requires InRun() && Obeys(m, behaviour, State(phase, log), c)
      requires Step(m, phase, c) == Some(LeaveTarget(m, [event], Err(error)))
      modifies this
      ensures InRun() && r == Some(Outcome(Err(error), NO_EFFECTS))
      ensures phase == Resume(|m.rt.middleware|, r.value) && Arrived(log) == r
    {
      var failure := LeaveWith(c, Some(event), Err(error));
      return Some(failure);
    }

    /** Input mapping succeeded, and the use case is called. */
    method StartUseCase()
      requires InRun() && phase == MappingInput && behaviour.target.input.None?
      modifies this
      ensures InRun() && phase == Executing
    {
      ghost var before := log;
      log := log + [InputMapped(true), UseCaseCalled];
      Follow(MapInput(None), Move([InputMapped(true), UseCaseCalled], Executing), before);
    }

    /** The use case succeeded, and the output mapper is called. */
    method FinishUseCase()
      requires InRun() && phase == Executing && behaviour.target.useCase == Some(None)
      modifies this
      ensures InRun() && phase == MappingOutput
    {
      ghost var before := log;
      log := log + [UseCaseDone(true), OutputMapperCalled];
      Follow(Execute(None), Move([UseCaseDone(true), OutputMapperCalled], MappingOutput), before);
    }

    method TellOutcome(outcome: Outcome)
      requires InRun() && phase == OutcomeHooks(0, outcome)
      modifies this
      ensures InRun() && phase == ResponseHooks(0, outcome, m.outcomeExit(outcome))
    {
      Tell(OutcomeSeen(outcome), (k: nat) => OutcomeHooks(k, outcome));
      Pass(Tick, ResponseHooks(0, outcome, m.outcomeExit(outcome)));
    }

    method TellResponse(outcome: Outcome, reply: Reply)
      requires InRun() && phase == ResponseHooks(0, outcome, reply)
      modifies this
      ensures InRun() && phase == Done(Finished(outcome), reply)
    {
      Tell(ResponseSeen(ViewOf(reply)), (k: nat) => ResponseHooks(k, outcome, reply));
      Pass(Tick, Done(Finished(outcome), reply));
    }

    /** Outcome hooks, the response with effects and policies, response hooks. */
    method Respond(outcome: Outcome) returns (response: Response)
      requires Proper() && InRun() && phase == OutcomeHooks(0, outcome) && WellFormedOutcome(outcome)
      modifies this
      ensures InRun() && phase == Done(Finished(outcome), response.Value())
    {
      TellOutcome(outcome);
      response := BuildOutcome(outcome);
      TellResponse(outcome, response.Value());
    }
  }
}
