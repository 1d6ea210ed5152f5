/**
 The onion of middleware around the target (src/middleware.rs, src/binding.rs):
 entries go inwards in order, exits go outwards, the target runs at most once
 and exactly when everybody delegated, and mapper, use case and mapper follow
 one another.
 */
module OnionLaws {
  import opened Text
  import opened Http
  import opened Builder
  import opened Pipeline

  function EntryOf(e: Event): Option<nat> { if e.Entered? then Some(e.depth) else None }

  function DelegationOf(e: Event): Option<nat> { if e.Delegated? then Some(e.depth) else None }

  function ExitOf(e: Event): Option<nat> { if e.Left? then Some(e.depth) else None }

  function AbandonOf(e: Event): Option<nat> { if e.Abandoned? then Some(e.depth) else None }

  function OutcomeOf(e: Event): Option<Outcome> {
    if e.Left? || e.TargetLeft? then Some(e.outcome) else None
  }

  function TargetOf(e: Event): Option<Event> {
    if e.TargetEntered? || e.InputMapped? || e.UseCaseCalled? || e.UseCaseDone? || e.OutputMapperCalled?
    then Some(e) else None
  }

  function TargetEntryOf(e: Event): Option<Event> { if e.TargetEntered? then Some(e) else None }

  function Entries(trace: seq<Event>): seq<nat> { Project(EntryOf, trace) }

  function Delegations(trace: seq<Event>): seq<nat> { Project(DelegationOf, trace) }

  function Exits(trace: seq<Event>): seq<nat> { Project(ExitOf, trace) }

  function Abandons(trace: seq<Event>): seq<nat> { Project(AbandonOf, trace) }

  function Outcomes(trace: seq<Event>): seq<Outcome> { Project(OutcomeOf, trace) }

  function TargetSteps(trace: seq<Event>): seq<Event> { Project(TargetOf, trace) }

  function TargetEntries(trace: seq<Event>): seq<Event> { Project(TargetEntryOf, trace) }

  /** 0, 1, ..., n - 1. */
  function Up(n: nat): (r: seq<nat>)
    ensures |r| == n && forall i :: 0 <= i < n ==> r[i] == i
  {
    seq(n, i requires 0 <= i < n => i)
  }

  /** top - 1, ..., low. */
  function Down(top: nat, low: nat): (r: seq<nat>)
    requires low <= top
    ensures |r| == top - low && forall i :: 0 <= i < |r| ==> r[i] == top - 1 - i
  {
    seq(top - low, i requires 0 <= i < top - low => top - 1 - i)
  }

  predicate Falling(xs: seq<nat>, above: int) {
    && (forall i, j :: 0 <= i < j < |xs| ==> xs[i] > xs[j])
    && (forall i :: 0 <= i < |xs| ==> xs[i] > above)
  }

  // -------------------------------------------------------------- counting the onion

  /** The numbers a trace is summed up in. */
  datatype Tally = Tally(entries: seq<nat>, delegations: seq<nat>, exits: seq<nat>, abandons: seq<nat>, targets: nat)

  function TallyOf(trace: seq<Event>): Tally {
    Tally(Entries(trace), Delegations(trace), Exits(trace), Abandons(trace), |TargetEntries(trace)|)
  }

  function Plus(a: Tally, b: Tally): Tally {
    Tally(a.entries + b.entries, a.delegations + b.delegations, a.exits + b.exits, a.abandons + b.abandons,
          a.targets + b.targets)
  }

  const ZERO := Tally([], [], [], [], 0)

  /** The contribution of one event. */
  function One(e: Event): Tally {
    match e
    case Entered(d) => ZERO.(entries := [d])
    case Delegated(d) => ZERO.(delegations := [d])
    case Left(d, _) => ZERO.(exits := [d])
    case Abandoned(d) => ZERO.(abandons := [d])
    case TargetEntered => ZERO.(targets := 1)
    case _ => ZERO
  }

  lemma TallySnoc(trace: seq<Event>, e: Event)
    ensures TallyOf(trace + [e]) == Plus(TallyOf(trace), One(e))
  {
    var whole := trace + [e];
    assert whole[..|whole| - 1] == trace;
  }

  /** Everything inwards is done: the innermost entered delegated to the target, or cut short. */
  predicate Turned(t: Tally, middleware: nat) {
    var (entered, delegated) := (|t.entries|, |t.delegations|);
    && t.entries == Up(entered) && t.delegations == Up(delegated)
    && ((entered == middleware && delegated == middleware) || (entered == delegated + 1 && entered <= middleware))
    && t.targets == (if delegated == middleware then 1 else 0)
  }

  /** On the way out, with exits down to `low` done. */
  predicate Unwound(t: Tally, middleware: nat, low: nat) {
    && Turned(t, middleware) && low <= |t.entries|
    && Falling(t.exits, low - 1)
    && (t.abandons == [] ==> t.exits == Down(|t.entries|, low))
  }

  /** What the tally is when a run stands in a phase. */
  predicate TallyFits(m: Machine, p: Phase, t: Tally) {
    var middleware := |m.rt.middleware|;
    match p
    case Before(d) =>
      d < middleware && t == Tally(Up(d + 1), Up(d), [], [], 0)
    case MappingInput => Inside(t, middleware)
    case Executing => Inside(t, middleware)
    case MappingOutput => Inside(t, middleware)
    case After(d) => d < |t.delegations| && Unwound(t, middleware, d + 1)
    case OutcomeHooks(_, _) => Unwound(t, middleware, 0)
    case ResponseHooks(_, _, _) => Unwound(t, middleware, 0)
    case Done(Finished(_), _) => Unwound(t, middleware, 0)
    case CutHooks(_, _, _, _) => Loose(t, middleware)
    case Done(Cut(_, _), _) => Loose(t, middleware)
    case _ => t == ZERO
  }

  predicate Inside(t: Tally, middleware: nat) {
    t == Tally(Up(middleware), Up(middleware), [], [], 1)
  }

  /** What holds of any run however it is cut. */
  predicate Loose(t: Tally, middleware: nat) {
    && t.entries == Up(|t.entries|) && t.delegations == Up(|t.delegations|)
    && |t.entries| <= middleware && |t.delegations| <= |t.entries| <= |t.delegations| + 1
    && t.targets <= 1 && (t.targets == 1 ==> |t.delegations| == middleware)
    && Falling(t.exits, -1)
  }

  lemma TallyLoose(m: Machine, p: Phase, t: Tally)
    requires TallyFits(m, p, t)
    ensures Loose(t, |m.rt.middleware|)
  {
  }

  function AddAll(t: Tally, events: seq<Event>): Tally {
    if events == [] then t else Plus(AddAll(t, events[..|events| - 1]), One(events[|events| - 1]))
  }

  lemma {:induction false} TallyAppend(trace: seq<Event>, events: seq<Event>)
    ensures TallyOf(trace + events) == AddAll(TallyOf(trace), events)
    decreases |events|
  {
    if events == [] {
      assert trace + events == trace;
    } else {
      var front := events[..|events| - 1];
      TallyAppend(trace, front);
      TallySnoc(trace + front, events[|events| - 1]);
      assert trace + events == trace + front + [events[|events| - 1]];
    }
  }

  lemma AddFew(t: Tally, e: Event, f: Event)
    ensures AddAll(t, []) == t
    ensures AddAll(t, [e]) == Plus(t, One(e))
    ensures AddAll(t, [e, f]) == Plus(Plus(t, One(e)), One(f))
    ensures Plus(t, ZERO) == t
  {
    assert [e][..0] == [] && [e, f][..1] == [e];
    assert t.entries + [] == t.entries && t.delegations + [] == t.delegations;
    assert t.exits + [] == t.exits && t.abandons + [] == t.abandons;
  }

  lemma UpGrows(n: nat)
    ensures Up(n) + [n] == Up(n + 1)
  {
  }

  lemma DownGrows(top: nat, low: nat)
    requires 0 < low <= top
    ensures Down(top, low) + [low - 1] == Down(top, low - 1)
    ensures Down(top, top) == []
  {
  }

  lemma EnterTally(m: Machine, d: nat, t: Tally)
    requires d <= |m.rt.middleware| && t == Tally(Up(d), Up(d), [], [], 0)
    ensures var move := Enter(m, d);
            |move.events| == 1 && TallyFits(m, move.phase, Plus(t, One(move.events[0])))
  {
    UpGrows(d);
    AddFew(t, TargetEntered, TargetEntered);
  }

  lemma DelegateTally(m: Machine, d: nat, t: Tally)
    requires TallyFits(m, Before(d), t)
    ensures var inner := Enter(m, d + 1);
            TallyFits(m, inner.phase, AddAll(t, [Delegated(d)] + inner.events))
  {
    var inner := Enter(m, d + 1);
    var t' := Tally(Up(d + 1), Up(d + 1), [], [], 0);
    UpGrows(d);
    assert Plus(t, One(Delegated(d))) == t' by {
      AddFew(t, Delegated(d), Delegated(d));
    }
    EnterTally(m, d + 1, t');
    AddFew(t, Delegated(d), inner.events[0]);
    assert [Delegated(d)] + inner.events == [Delegated(d), inner.events[0]];
  }

  /** The exit of middleware `d` on the way out. */
  lemma ExitOne(t: Tally, middleware: nat, d: nat)
    requires Unwound(t, middleware, d + 1)
    ensures Unwound(t.(exits := t.exits + [d]), middleware, d)
  {
    var exits := t.exits + [d];
    assert Falling(exits, d - 1);
    if t.abandons == [] {
      DownGrows(|t.entries|, d + 1);
    }
  }

  /** A middleware that answers without delegating turns the run around. */
  lemma TurnHere(t: Tally, middleware: nat, d: nat)
    requires d < middleware && t == Tally(Up(d + 1), Up(d), [], [], 0)
    ensures Unwound(t, middleware, d + 1)
  {
    DownGrows(d + 1, d + 1);
  }

  lemma TurnAtTarget(middleware: nat)
    ensures Unwound(Tally(Up(middleware), Up(middleware), [], [], 1), middleware, middleware)
  {
    assert Down(middleware, middleware) == [];
  }

  lemma ResumeFits(m: Machine, d: nat, o: Outcome, t: Tally)
    requires Unwound(t, |m.rt.middleware|, d) && d <= |t.delegations|
    ensures TallyFits(m, Resume(d, o), t)
  {
  }

  lemma LeftCounts(t: Tally, d: nat, o: Outcome)
    ensures AddAll(t, [Left(d, o)]) == t.(exits := t.exits + [d])
  {
    AddFew(t, Left(d, o), Left(d, o));
    assert t.entries + [] == t.entries && t.delegations + [] == t.delegations && t.abandons + [] == t.abandons;
  }

  lemma ReturnTally(m: Machine, p: Phase, d: nat, o: Outcome, t: Tally)
    requires (p == Before(d) || p == After(d)) && TallyFits(m, p, t)
    ensures TallyFits(m, Resume(d, o), AddAll(t, [Left(d, o)]))
  {
    LeftCounts(t, d, o);
    assert Unwound(t, |m.rt.middleware|, d + 1) && d <= |t.delegations| by {
      if p.Before? {
        TurnHere(t, |m.rt.middleware|, d);
      }
    }
    ExitOne(t, |m.rt.middleware|, d);
    ResumeFits(m, d, o, t.(exits := t.exits + [d]));
  }

  lemma AbandonTally(m: Machine, p: Phase, d: nat, t: Tally)
    requires Suspended(m, p, d) && TallyFits(m, p, t)
    ensures TallyFits(m, After(d), AddAll(t, [Abandoned(d)]))
  {
    AddFew(t, Abandoned(d), Abandoned(d));
    var t' := t.(abandons := t.abandons + [d]);
    assert Plus(t, One(Abandoned(d))) == t' by {
      assert t.entries + [] == t.entries && t.delegations + [] == t.delegations && t.exits + [] == t.exits;
    }
  }

  predicate Uncounted(events: seq<Event>) {
    |events| <= 2 && forall i :: 0 <= i < |events| ==> One(events[i]) == ZERO
  }

  lemma UncountedTally(events: seq<Event>, t: Tally)
    requires Uncounted(events)
    ensures AddAll(t, events) == t
  {
    if |events| == 1 {
      AddFew(t, events[0], events[0]);
      assert events == [events[0]];
    } else if |events| == 2 {
      AddFew(t, events[0], events[1]);
      assert events == [events[0], events[1]];
    }
  }

  lemma ExpireTally(m: Machine, p: Phase, t: Tally)
    requires Step(m, p, Expire).Some? && TallyFits(m, p, t)
    ensures var move := Step(m, p, Expire).value;
            Uncounted(move.events) && TallyFits(m, move.phase, t)
  {
    TallyLoose(m, p, t);
  }

  lemma FrontTally(m: Machine, p: Phase, c: Choice, t: Tally)
    requires Step(m, p, c).Some? && TallyFits(m, p, t) && !c.Expire?
    requires p.Starting? || p.HeadHooks? || p.Guarding? || p.Reading? || (p.RequestHooks? && p.next < |m.rt.hooks|)
    ensures var move := Step(m, p, c).value;
            Uncounted(move.events) && TallyFits(m, move.phase, t)
  {
    TallyLoose(m, p, t);
  }

  lemma TargetTally(m: Machine, p: Phase, c: Choice, t: Tally)
    requires Step(m, p, c).Some? && TallyFits(m, p, t) && !c.Expire? && !c.Abandon?
    requires p.MappingInput? || p.Executing? || p.MappingOutput?
    ensures var move := Step(m, p, c).value;
            Uncounted(move.events) && TallyFits(m, move.phase, t)
  {
    var middleware := |m.rt.middleware|;
    var move := Step(m, p, c).value;
    assert Uncounted(move.events);
    TurnAtTarget(middleware);
    if move.phase.OutcomeHooks? {
      ResumeFits(m, middleware, move.phase.outcome, t);
    } else if move.phase.After? {
      ResumeFits(m, middleware, Outcome(Err(DEADLINE), NO_EFFECTS), t);
    }
  }

  lemma BackTally(m: Machine, p: Phase, c: Choice, t: Tally)
    requires Step(m, p, c).Some? && TallyFits(m, p, t)
    requires p.OutcomeHooks? || p.ResponseHooks? || p.CutHooks?
    ensures var move := Step(m, p, c).value;
            Uncounted(move.events) && TallyFits(m, move.phase, t)
  {
  }

  lemma ChainTally(m: Machine, p: Phase, c: Choice, t: Tally)
    requires Step(m, p, c).Some? && TallyFits(m, p, t) && (p.Before? || p.After?) && !c.Expire? && !c.Abandon?
    ensures var move := Step(m, p, c).value; TallyFits(m, move.phase, AddAll(t, move.events))
  {
    if c.Delegate? {
      DelegateTally(m, p.depth, t);
    } else {
      ReturnTally(m, p, p.depth, c.outcome, t);
    }
  }

  lemma RequestTally(m: Machine, k: nat, t: Tally)
    requires TallyFits(m, RequestHooks(k), t) && k >= |m.rt.hooks|
    ensures var move := Enter(m, 0); TallyFits(m, move.phase, AddAll(t, move.events))
  {
    assert Up(0) == [];
    EnterTally(m, 0, t);
    OneCounts(t, Enter(m, 0).events);
  }

  lemma OneCounts(t: Tally, events: seq<Event>)
    requires |events| == 1
    ensures AddAll(t, events) == Plus(t, One(events[0]))
  {
    AddFew(t, events[0], events[0]);
    assert events == [events[0]];
  }

  lemma Counted(m: Machine, move: Move, t: Tally)
    requires Uncounted(move.events) && TallyFits(m, move.phase, t)
    ensures TallyFits(m, move.phase, AddAll(t, move.events))
  {
    UncountedTally(move.events, t);
  }

  lemma LastRequestHook(m: Machine, k: nat, c: Choice)
    requires k >= |m.rt.hooks| && Step(m, RequestHooks(k), c).Some?
    ensures Step(m, RequestHooks(k), c) == Some(Enter(m, 0))
  {
  }

  lemma InwardTally(m: Machine, p: Phase, c: Choice, t: Tally)
    requires Step(m, p, c).Some? && TallyFits(m, p, t) && !c.Expire? && !c.Abandon?
    requires p.Starting? || p.HeadHooks? || p.Guarding? || p.Reading? || p.RequestHooks?
    ensures var move := Step(m, p, c).value; TallyFits(m, move.phase, AddAll(t, move.events))
  {
    if p.RequestHooks? && p.next >= |m.rt.hooks| {
      LastRequestHook(m, p.next, c);
      RequestTally(m, p.next, t);
    } else {
      var move := Step(m, p, c).value;
      FrontTally(m, p, c, t);
      Counted(m, move, t);
    }
  }

  /** No step leaves a finished run, and only a suspended chain can be abandoned. */
  lemma StepShape(m: Machine, p: Phase, c: Choice)
    requires Step(m, p, c).Some?
    ensures !p.Done?
    ensures c.Abandon? ==> Suspended(m, p, c.depth) && Step(m, p, c).value == Move([Abandoned(c.depth)], After(c.depth))
  {
  }

  lemma TallyStep(m: Machine, p: Phase, c: Choice, t: Tally)
    requires Step(m, p, c).Some? && TallyFits(m, p, t)
    ensures var move := Step(m, p, c).value;
            TallyFits(m, move.phase, AddAll(t, move.events))
  {
    StepShape(m, p, c);
    if c.Abandon? {
      AbandonTally(m, p, c.depth, t);
    } else if c.Expire? {
      ExpireTally(m, p, t);
      Counted(m, Step(m, p, c).value, t);
    } else if p.Before? || p.After? {
      ChainTally(m, p, c, t);
    } else if p.OutcomeHooks? || p.ResponseHooks? || p.CutHooks? {
      BackTally(m, p, c, t);
      Counted(m, Step(m, p, c).value, t);
    } else if p.MappingInput? || p.Executing? || p.MappingOutput? {
      TargetTally(m, p, c, t);
      Counted(m, Step(m, p, c).value, t);
    } else {
      InwardTally(m, p, c, t);
    }
  }

  lemma {:induction false} TallyInvariant(m: Machine, choices: seq<Choice>)
    requires RunOf(m, choices).Some?
    ensures var s := RunOf(m, choices).value; TallyFits(m, s.phase, TallyOf(s.trace))
  {
    if choices != [] {
      TallyInvariant(m, choices[..|choices| - 1]);
      var s := RunOf(m, choices[..|choices| - 1]).value;
      var c := choices[|choices| - 1];
      TallyStep(m, s.phase, c, TallyOf(s.trace));
      TallyAppend(s.trace, Step(m, s.phase, c).value.events);
    }
  }

  // --------------------------------------------------------------------- theorems

  /** In every run, cut short or not, the target is entered at most once, and only after all delegated. */
  lemma TargetAtMostOnce(m: Machine, choices: seq<Choice>)
    requires RunOf(m, choices).Some?
    ensures var trace := RunOf(m, choices).value.trace;
            && |TargetEntries(trace)| <= 1
            && (|TargetEntries(trace)| == 1 ==> Delegations(trace) == Up(|m.rt.middleware|))
            && Entries(trace) == Up(|Entries(trace)|) && |Entries(trace)| <= |m.rt.middleware|
            && Falling(Exits(trace), -1)
  {
    TallyInvariant(m, choices);
    TallyLoose(m, RunOf(m, choices).value.phase, TallyOf(RunOf(m, choices).value.trace));
  }

  /**
   A run that ends with an outcome entered middleware 0, 1, ... as far as each
   delegated, ran the target exactly when all did, and left them from the
   innermost out, everyone, unless a middleware dropped what was inside it.
   */
  lemma OnionOrder(m: Machine, choices: seq<Choice>)
    requires RunOf(m, choices).Some?
    requires RunOf(m, choices).value.phase.Done? && RunOf(m, choices).value.phase.ending.Finished?
    ensures var trace := RunOf(m, choices).value.trace;
            var (entered, middleware) := (|Entries(trace)|, |m.rt.middleware|);
            && Entries(trace) == Up(entered)
            && Delegations(trace) == Up(|Delegations(trace)|)
            && (|Delegations(trace)| == middleware || entered == |Delegations(trace)| + 1)
            && (|TargetEntries(trace)| == 1 <==> |Delegations(trace)| == middleware)
            && |TargetEntries(trace)| <= 1
            && Falling(Exits(trace), -1)
            && (Abandons(trace) == [] ==> Exits(trace) == Down(entered, 0))
  {
    TallyInvariant(m, choices);
  }

  // ----------------------------------------------------------- the outcome that counts

  /** Once the chain is left, the outcome at hand is the last one returned. */
  predicate OutcomeFits(p: Phase, outcomes: seq<Outcome>) {
    match p
    case OutcomeHooks(_, o) => outcomes != [] && outcomes[|outcomes| - 1] == o
    case ResponseHooks(_, o, _) => outcomes != [] && outcomes[|outcomes| - 1] == o
    case Done(Finished(o), _) => outcomes != [] && outcomes[|outcomes| - 1] == o
    case _ => true
  }

  lemma OutcomesIn(events: seq<Event>)
    requires |events| <= 2
    ensures events != [] && OutcomeOf(events[|events| - 1]).Some? ==>
              var all := Outcomes(events);
              all != [] && all[|all| - 1] == OutcomeOf(events[|events| - 1]).value
    ensures |events| == 1 && OutcomeOf(events[0]).None? ==> Outcomes(events) == []
  {
    if |events| == 1 {
      ProjectSmall(OutcomeOf, events[0], events[0]);
      assert events == [events[0]];
    }
  }

  /** A step out of the chain ends with the event that carries its outcome; later steps carry none. */
  lemma OutcomeEvents(m: Machine, p: Phase, c: Choice)
    requires Step(m, p, c).Some?
    ensures var move := Step(m, p, c).value;
            && |move.events| <= 2
            && (move.phase.OutcomeHooks? && !p.OutcomeHooks? ==>
                  move.events != [] && OutcomeOf(move.events[|move.events| - 1]) == Some(move.phase.outcome))
            && (p.OutcomeHooks? || p.ResponseHooks? ==>
                  (move.events == [] || (|move.events| == 1 && OutcomeOf(move.events[0]).None?)))
  {
  }

  lemma OutcomePhases(m: Machine, p: Phase, c: Choice)
    requires Step(m, p, c).Some?
    ensures var next := Step(m, p, c).value.phase;
            && (p.OutcomeHooks? ==> (next.OutcomeHooks? || next.ResponseHooks?) && next.outcome == p.outcome)
            && (p.ResponseHooks? ==>
                  (next.ResponseHooks? && next.outcome == p.outcome)
                  || (next.Done? && next.ending == Finished(p.outcome)))
            && (!p.OutcomeHooks? && !p.ResponseHooks? ==>
                  !next.ResponseHooks? && !(next.Done? && next.ending.Finished?))
  {
  }

  lemma OutcomeStep(m: Machine, p: Phase, c: Choice, trace: seq<Event>)
    requires Step(m, p, c).Some? && OutcomeFits(p, Outcomes(trace))
    ensures var move := Step(m, p, c).value; OutcomeFits(move.phase, Outcomes(trace + move.events))
  {
    OutcomeEvents(m, p, c);
    OutcomePhases(m, p, c);
    var move := Step(m, p, c).value;
    OutcomeAppend(p, move, trace);
  }

  lemma OutcomeAppend(p: Phase, move: Move, trace: seq<Event>)
    requires |move.events| <= 2 && OutcomeFits(p, Outcomes(trace))
    requires move.phase.OutcomeHooks? && !p.OutcomeHooks? ==>
               move.events != [] && OutcomeOf(move.events[|move.events| - 1]) == Some(move.phase.outcome)
    requires p.OutcomeHooks? || p.ResponseHooks? ==>
               (move.events == [] || (|move.events| == 1 && OutcomeOf(move.events[0]).None?))
    requires p.OutcomeHooks? ==>
               (move.phase.OutcomeHooks? || move.phase.ResponseHooks?) && move.phase.outcome == p.outcome
    requires p.ResponseHooks? ==>
               (move.phase.ResponseHooks? && move.phase.outcome == p.outcome)
               || (move.phase.Done? && move.phase.ending == Finished(p.outcome))
    requires !p.OutcomeHooks? && !p.ResponseHooks? ==>
               !move.phase.ResponseHooks? && !(move.phase.Done? && move.phase.ending.Finished?)
    ensures OutcomeFits(move.phase, Outcomes(trace + move.events))
  {
    OutcomesIn(move.events);
    ProjectConcat(OutcomeOf, trace, move.events);
    assert Outcomes(trace) + [] == Outcomes(trace);
  }

  /** The outcome hooks see, and the response is made from, is the outermost one returned. */
  lemma {:induction false} OutcomeInvariant(m: Machine, choices: seq<Choice>)
    requires RunOf(m, choices).Some?
    ensures var s := RunOf(m, choices).value; OutcomeFits(s.phase, Outcomes(s.trace))
  {
    if choices != [] {
      OutcomeInvariant(m, choices[..|choices| - 1]);
      var s := RunOf(m, choices[..|choices| - 1]).value;
      OutcomeStep(m, s.phase, choices[|choices| - 1], s.trace);
    }
  }

  // ------------------------------------------------------------------ inside the target

  const MAPPING_FAILED: seq<Event> := [TargetEntered, InputMapped(false)]
  const USE_CASE_FAILED: seq<Event> := [TargetEntered, InputMapped(true), UseCaseCalled, UseCaseDone(false)]
  const ALL_CALLED: seq<Event> :=
    [TargetEntered, InputMapped(true), UseCaseCalled, UseCaseDone(true), OutputMapperCalled]

  /** A target's steps so far, on one of its three courses. */
  predicate Course(steps: seq<Event>) {
    steps <= MAPPING_FAILED || steps <= USE_CASE_FAILED || steps <= ALL_CALLED
  }

  predicate StepsFit(p: Phase, steps: seq<Event>) {
    match p
    case MappingInput => steps == [TargetEntered]
    case Executing => steps == [TargetEntered, InputMapped(true), UseCaseCalled]
    case MappingOutput => steps == ALL_CALLED
    case Before(_) => steps == []
    case After(_) => Course(steps)
    case OutcomeHooks(_, _) => Course(steps)
    case ResponseHooks(_, _, _) => Course(steps)
    case CutHooks(_, _, _, _) => Course(steps)
    case Done(_, _) => Course(steps)
    case _ => steps == []
  }

  lemma StepsIn(events: seq<Event>)
    requires |events| <= 2
    ensures (forall i :: 0 <= i < |events| ==> TargetOf(events[i]).None?) ==> TargetSteps(events) == []
    ensures |events| == 1 && TargetOf(events[0]).Some? ==> TargetSteps(events) == events
    ensures |events| == 2 && TargetOf(events[0]).Some? && TargetOf(events[1]).Some? ==> TargetSteps(events) == events
    ensures |events| == 2 && TargetOf(events[0]).Some? && TargetOf(events[1]).None?
        ==> TargetSteps(events) == [events[0]]
    ensures |events| == 2 && TargetOf(events[0]).None? && TargetOf(events[1]).Some?
        ==> TargetSteps(events) == [events[1]]
  {
    if |events| == 1 {
      ProjectSmall(TargetOf, events[0], events[0]);
      assert events == [events[0]];
    } else if |events| == 2 {
      ProjectSmall(TargetOf, events[0], events[1]);
      ProjectSmall(TargetOf, events[1], events[1]);
      assert events == [events[0], events[1]];
    }
  }

  lemma MappingSteps(m: Machine, c: Choice)
    requires Step(m, MappingInput, c).Some? && c.MapInput?
    ensures TargetSteps(Step(m, MappingInput, c).value.events)
         == if c.fault.Some? then [InputMapped(false)] else [InputMapped(true), UseCaseCalled]
  {
    StepsIn(Step(m, MappingInput, c).value.events);
  }

  lemma ExecutingSteps(m: Machine, c: Choice)
    requires Step(m, Executing, c).Some? && c.Execute?
    ensures TargetSteps(Step(m, Executing, c).value.events)
         == if c.fault.Some? then [UseCaseDone(false)] else [UseCaseDone(true), OutputMapperCalled]
  {
    StepsIn(Step(m, Executing, c).value.events);
  }

  lemma EnterEvents(m: Machine, d: nat)
    ensures var move := Enter(m, d);
            |move.events| == 1 && (TargetOf(move.events[0]).Some? <==> move.phase.MappingInput?)
            && (move.phase.MappingInput? ==> move.events == [TargetEntered])
  {
  }

  lemma DelegateSteps(m: Machine, d: nat)
    ensures var move := DelegateStep(m, d);
            TargetSteps(move.events) == if move.phase.MappingInput? then [TargetEntered] else []
  {
    var inner := Enter(m, d + 1);
    EnterEvents(m, d + 1);
    StepsIn([Delegated(d), inner.events[0]]);
    assert [Delegated(d)] + inner.events == [Delegated(d), inner.events[0]];
  }

  lemma FirstSteps(m: Machine, k: nat)
    ensures var move := TellStep(m, k, RequestSeen, RequestHooks(k + 1), Enter(m, 0));
            TargetSteps(move.events) == if move.phase.MappingInput? then [TargetEntered] else []
  {
    EnterEvents(m, 0);
    StepsIn(Enter(m, 0).events);
    StepsIn([Told(k, RequestSeen)]);
  }

  /** What entering the chain or going deeper into it can be. */
  lemma EnteringMoves(m: Machine, p: Phase, c: Choice)
    requires Step(m, p, c).Some? && (p.Before? || p.RequestHooks?)
    ensures var move := Step(m, p, c).value;
            || (p.Before? && move == DelegateStep(m, p.depth))
            || (p.RequestHooks? && move == TellStep(m, p.next, RequestSeen, RequestHooks(p.next + 1), Enter(m, 0)))
            || (!move.phase.MappingInput? && |move.events| <= 2
                && forall i :: 0 <= i < |move.events| ==> TargetOf(move.events[i]).None?)
  {
  }

  lemma EnteringSteps(m: Machine, p: Phase, c: Choice)
    requires Step(m, p, c).Some? && (p.Before? || p.RequestHooks?)
    ensures var move := Step(m, p, c).value;
            TargetSteps(move.events) == if move.phase.MappingInput? then [TargetEntered] else []
  {
    EnteringMoves(m, p, c);
    var move := Step(m, p, c).value;
    if p.Before? {
      DelegateSteps(m, p.depth);
    } else {
      FirstSteps(m, p.next);
    }
    if |move.events| <= 2 {
      StepsIn(move.events);
    }
  }

  lemma OtherEvents(m: Machine, p: Phase, c: Choice)
    requires Step(m, p, c).Some? && !p.Before? && !p.RequestHooks?
    requires !(p.MappingInput? && c.MapInput?) && !(p.Executing? && c.Execute?)
    ensures var events := Step(m, p, c).value.events;
            |events| <= 2 && forall i :: 0 <= i < |events| ==> TargetOf(events[i]).None?
    ensures !Step(m, p, c).value.phase.MappingInput?
  {
  }

  lemma StepsOf(m: Machine, p: Phase, c: Choice)
    requires Step(m, p, c).Some?
    ensures var move := Step(m, p, c).value;
            TargetSteps(move.events)
            == if move.phase.MappingInput? then [TargetEntered]
               else if p.MappingInput? && c.MapInput? then
                 (if c.fault.Some? then [InputMapped(false)] else [InputMapped(true), UseCaseCalled])
               else if p.Executing? && c.Execute? then
                 (if c.fault.Some? then [UseCaseDone(false)] else [UseCaseDone(true), OutputMapperCalled])
               else []
  {
    if p.MappingInput? && c.MapInput? {
      MappingSteps(m, c);
    } else if p.Executing? && c.Execute? {
      ExecutingSteps(m, c);
    } else if p.Before? || p.RequestHooks? {
      EnteringSteps(m, p, c);
    } else {
      OtherEvents(m, p, c);
      StepsIn(Step(m, p, c).value.events);
    }
  }

  /** How a step moves between the phases that matter to the target's course. */
  lemma CoursePhases(m: Machine, p: Phase, c: Choice)
    requires Step(m, p, c).Some?
    ensures var next := Step(m, p, c).value.phase;
            && (next.MappingInput? ==> p.Before? || p.RequestHooks?)
            && (next.Executing? ==> p.MappingInput? && c.MapInput? && c.fault.None?)
            && (next.MappingOutput? ==> p.Executing? && c.Execute? && c.fault.None?)
            && (next.Before? ==> p.Before? || p.RequestHooks?)
            && (next.Starting? || next.HeadHooks? || next.Guarding? || next.Reading? || next.RequestHooks? ==>
                  p.Starting? || p.HeadHooks? || p.Guarding? || p.Reading? || p.RequestHooks?)
  {
  }

  lemma StepsStep(m: Machine, p: Phase, c: Choice, steps: seq<Event>)
    requires Step(m, p, c).Some? && StepsFit(p, steps)
    ensures var move := Step(m, p, c).value; StepsFit(move.phase, steps + TargetSteps(move.events))
  {
    StepsOf(m, p, c);
    CoursePhases(m, p, c);
    CourseGrows(p, steps);
  }

  /** The courses after each phase's own steps. */
  lemma CourseGrows(p: Phase, steps: seq<Event>)
    requires StepsFit(p, steps)
    ensures steps + [] == steps && Course(steps)
    ensures p.MappingInput? ==> steps + [InputMapped(false)] == MAPPING_FAILED
    ensures p.MappingInput? ==> steps + [InputMapped(true), UseCaseCalled] <= ALL_CALLED
    ensures p.Executing? ==> steps + [UseCaseDone(false)] == USE_CASE_FAILED
    ensures p.Executing? ==> steps + [UseCaseDone(true), OutputMapperCalled] == ALL_CALLED
  {
    assert ALL_CALLED[..3] == [TargetEntered, InputMapped(true), UseCaseCalled];
  }

  /**
   In every run the use case is called only after input mapping succeeded, and
   the output mapper only after the use case did.
   */
  lemma {:induction false} TargetCourse(m: Machine, choices: seq<Choice>)
    requires RunOf(m, choices).Some?
    ensures var s := RunOf(m, choices).value;
            StepsFit(s.phase, TargetSteps(s.trace)) && Course(TargetSteps(s.trace))
  {
    if choices != [] {
      TargetCourse(m, choices[..|choices| - 1]);
      var s := RunOf(m, choices[..|choices| - 1]).value;
      var c := choices[|choices| - 1];
      StepsStep(m, s.phase, c, TargetSteps(s.trace));
      ProjectConcat(TargetOf, s.trace, Step(m, s.phase, c).value.events);
    }
  }
}
