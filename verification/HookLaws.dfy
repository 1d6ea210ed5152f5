/**
 What lifecycle hooks observe over every run of the pipeline, with the deadline
 free to cut in at any await: the exact sequence of notices, who hears them in
 which order, and that the last one shows the response that is returned.
 */
module HookLaws {
  import opened Text
  import opened Http
  import opened ResponseHeaders
  import opened Builder
  import opened RateLimit
  import opened Pipeline

  // ----------------------------------------------------------------- vocabulary

  type Tolds = seq<(nat, Notice)>

  function ToldOf(e: Event): Option<(nat, Notice)> {
    if e.Told? then Some((e.hook, e.notice)) else None
  }

  /** The first `k` hooks are told, in list order. */
  function Round(k: nat, notice: Notice): (r: Tolds)
    ensures |r| == k && forall i :: 0 <= i < k ==> r[i] == (i, notice)
  {
    seq(k, i requires 0 <= i < k => (i, notice))
  }

  /** All hooks are told each notice in turn. */
  function Rounds(hooks: nat, notices: seq<Notice>): Tolds {
    if notices == [] then [] else Rounds(hooks, notices[..|notices| - 1]) + Round(hooks, notices[|notices| - 1])
  }

  /** What one hook hears. */
  function Heard(tolds: Tolds, hook: nat): seq<Notice> {
    if tolds == [] then []
    else
      var last := tolds[|tolds| - 1];
      Heard(tolds[..|tolds| - 1], hook) + (if last.0 == hook then [last.1] else [])
  }

  /** What was announced before a terminal notice. */
  function Prelude(bodySeen: bool, notice: Notice): seq<Notice> {
    if notice.NormalizationRejected? then []
    else if bodySeen then [HeadSeen, RequestSeen]
    else [HeadSeen]
  }

  /** The whole sequence of notices of a run that ended this way with this reply. */
  function Script(ending: Ending, reply: Reply): seq<Notice> {
    match ending
    case Finished(o) => [HeadSeen, RequestSeen, OutcomeSeen(o), ResponseSeen(ViewOf(reply))]
    case Cut(seen, notice) => Prelude(seen, notice) + [notice]
  }

  // ------------------------------------------------------------------ invariants

  /** A terminal notice that fits the machine, its prelude and the reply. */
  predicate CutFits(m: Machine, bodySeen: bool, notice: Notice, reply: Reply) {
    match notice
    case NormalizationRejected(e, v) =>
      !bodySeen && v == ViewOf(reply) && m.headFault == Some(e) && reply == m.errorExit(e)
    case GuardRejected(_, v) => !bodySeen && v == ViewOf(reply)
    case BodyRejected(e, v) =>
      !bodySeen && v == ViewOf(reply) && m.body == Err(e) && reply == m.errorExit(e)
    case TimeoutSeen(e, v) =>
      v == ViewOf(reply) && m.rt.endpoint.timeout.Some? && e == DEADLINE && reply == m.errorExit(e)
    case _ => false
  }

  predicate PhaseFits(m: Machine, p: Phase) {
    var hooks := |m.rt.hooks|;
    match p
    case HeadHooks(k) => k <= hooks
    case RequestHooks(k) => k <= hooks
    case OutcomeHooks(k, _) => k <= hooks
    case ResponseHooks(k, o, reply) => k <= hooks && reply == m.outcomeExit(o)
    case CutHooks(k, seen, notice, reply) => k <= hooks && CutFits(m, seen, notice, reply)
    case Done(Finished(o), reply) => reply == m.outcomeExit(o)
    case Done(Cut(seen, notice), reply) => CutFits(m, seen, notice, reply)
    case _ => true
  }

  /** Exactly what the hooks have been told when a run stands in a phase. */
  function ToldBy(m: Machine, p: Phase): Tolds {
    var hooks := |m.rt.hooks|;
    match p
    case Starting => []
    case HeadHooks(k) => Round(k, HeadSeen)
    case Guarding(_) => Rounds(hooks, [HeadSeen])
    case Reading => Rounds(hooks, [HeadSeen])
    case RequestHooks(k) => Rounds(hooks, [HeadSeen]) + Round(k, RequestSeen)
    case Before(_) => Rounds(hooks, [HeadSeen, RequestSeen])
    case MappingInput => Rounds(hooks, [HeadSeen, RequestSeen])
    case Executing => Rounds(hooks, [HeadSeen, RequestSeen])
    case MappingOutput => Rounds(hooks, [HeadSeen, RequestSeen])
    case After(_) => Rounds(hooks, [HeadSeen, RequestSeen])
    case OutcomeHooks(k, o) => Rounds(hooks, [HeadSeen, RequestSeen]) + Round(k, OutcomeSeen(o))
    case ResponseHooks(k, o, reply) =>
      Rounds(hooks, [HeadSeen, RequestSeen, OutcomeSeen(o)]) + Round(k, ResponseSeen(ViewOf(reply)))
    case CutHooks(k, seen, notice, _) => Rounds(hooks, Prelude(seen, notice)) + Round(k, notice)
    case Done(ending, reply) => Rounds(hooks, Script(ending, reply))
  }

  lemma RoundGrows(k: nat, notice: Notice)
    ensures Round(k, notice) + [(k, notice)] == Round(k + 1, notice)
    ensures Round(0, notice) == []
  {
  }

  lemma RoundsGrow(hooks: nat, notices: seq<Notice>, notice: Notice)
    ensures Rounds(hooks, notices + [notice]) == Rounds(hooks, notices) + Round(hooks, notice)
  {
    assert (notices + [notice])[..|notices|] == notices;
  }

  /** The rounds the six scripts are made of. */
  lemma ScriptRounds(hooks: nat, o: Outcome, v: View)
    ensures Rounds(hooks, []) == []
    ensures Rounds(hooks, [HeadSeen]) == Round(hooks, HeadSeen)
    ensures Rounds(hooks, [HeadSeen, RequestSeen]) == Rounds(hooks, [HeadSeen]) + Round(hooks, RequestSeen)
    ensures Rounds(hooks, [HeadSeen, RequestSeen, OutcomeSeen(o)])
         == Rounds(hooks, [HeadSeen, RequestSeen]) + Round(hooks, OutcomeSeen(o))
    ensures Rounds(hooks, [HeadSeen, RequestSeen, OutcomeSeen(o), ResponseSeen(v)])
         == Rounds(hooks, [HeadSeen, RequestSeen, OutcomeSeen(o)]) + Round(hooks, ResponseSeen(v))
  {
    RoundsGrow(hooks, [], HeadSeen);
    assert [] + [HeadSeen] == [HeadSeen] && [] + Round(hooks, HeadSeen) == Round(hooks, HeadSeen);
    RoundsGrow(hooks, [HeadSeen], RequestSeen);
    assert [HeadSeen] + [RequestSeen] == [HeadSeen, RequestSeen];
    RoundsGrow(hooks, [HeadSeen, RequestSeen], OutcomeSeen(o));
    assert [HeadSeen, RequestSeen] + [OutcomeSeen(o)] == [HeadSeen, RequestSeen, OutcomeSeen(o)];
    RoundsGrow(hooks, [HeadSeen, RequestSeen, OutcomeSeen(o)], ResponseSeen(v));
    assert [HeadSeen, RequestSeen, OutcomeSeen(o)] + [ResponseSeen(v)]
        == [HeadSeen, RequestSeen, OutcomeSeen(o), ResponseSeen(v)];
  }

  /** A step emits at most two events, and a notice only alone. */
  lemma FewEvents(m: Machine, p: Phase, c: Choice)
    requires Step(m, p, c).Some?
    ensures var events := Step(m, p, c).value.events;
            |events| <= 2 && (|events| == 2 ==> !events[0].Told? && !events[1].Told?)
  {
  }

  lemma ToldAmong(events: seq<Event>)
    requires |events| <= 2 && (|events| == 2 ==> !events[0].Told? && !events[1].Told?)
    ensures Project(ToldOf, events)
         == if |events| == 1 && events[0].Told? then [(events[0].hook, events[0].notice)] else []
  {
    if |events| == 1 {
      ProjectSmall(ToldOf, events[0], events[0]);
      assert events == [events[0]];
    } else if |events| == 2 {
      ProjectSmall(ToldOf, events[0], events[1]);
      ProjectSmall(ToldOf, events[1], events[1]);
      assert events == [events[0], events[1]];
    }
  }

  lemma ToldInStep(m: Machine, p: Phase, c: Choice)
    requires Step(m, p, c).Some?
    ensures var events := Step(m, p, c).value.events;
            Project(ToldOf, events)
            == if |events| == 1 && events[0].Told? then [(events[0].hook, events[0].notice)] else []
  {
    FewEvents(m, p, c);
    ToldAmong(Step(m, p, c).value.events);
  }

  lemma PhaseKept(m: Machine, p: Phase, c: Choice)
    requires Step(m, p, c).Some? && PhaseFits(m, p)
    ensures PhaseFits(m, Step(m, p, c).value.phase)
  {
  }

  /** Telling hook `k` extends the current round; past the last hook the round is whole. */
  lemma ToldNext(before: Tolds, hooks: nat, k: nat, notice: Notice)
    ensures before + Round(k, notice) + [(k, notice)] == before + Round(k + 1, notice)
    ensures before + Round(0, notice) == before
  {
    RoundGrows(k, notice);
    Associative(before, Round(k, notice), [(k, notice)]);
  }

  lemma ToldHead(m: Machine, k: nat, c: Choice)
    requires Step(m, HeadHooks(k), c).Some? && k <= |m.rt.hooks|
    ensures var move := Step(m, HeadHooks(k), c).value;
            ToldBy(m, move.phase) == ToldBy(m, HeadHooks(k)) + Project(ToldOf, move.events)
  {
    ToldInStep(m, HeadHooks(k), c);
    RoundGrows(k, HeadSeen);
    ScriptRounds(|m.rt.hooks|, Outcome(Err(DEADLINE), NO_EFFECTS), View(0, map[]));
    assert Round(k, HeadSeen) + [] == Round(k, HeadSeen);
  }

  lemma ToldRequest(m: Machine, k: nat, c: Choice)
    requires Step(m, RequestHooks(k), c).Some? && k <= |m.rt.hooks|
    ensures var move := Step(m, RequestHooks(k), c).value;
            ToldBy(m, move.phase) == ToldBy(m, RequestHooks(k)) + Project(ToldOf, move.events)
  {
    ToldInStep(m, RequestHooks(k), c);
    var hooks := |m.rt.hooks|;
    ToldNext(Rounds(hooks, [HeadSeen]), hooks, k, RequestSeen);
    ScriptRounds(hooks, Outcome(Err(DEADLINE), NO_EFFECTS), View(0, map[]));
    assert ToldBy(m, RequestHooks(k)) + [] == ToldBy(m, RequestHooks(k));
  }

  lemma ToldOutcome(m: Machine, k: nat, o: Outcome, c: Choice)
    requires Step(m, OutcomeHooks(k, o), c).Some? && k <= |m.rt.hooks|
    ensures var move := Step(m, OutcomeHooks(k, o), c).value;
            ToldBy(m, move.phase) == ToldBy(m, OutcomeHooks(k, o)) + Project(ToldOf, move.events)
  {
    ToldInStep(m, OutcomeHooks(k, o), c);
    var hooks := |m.rt.hooks|;
    ToldNext(Rounds(hooks, [HeadSeen, RequestSeen]), hooks, k, OutcomeSeen(o));
    var reply := m.outcomeExit(o);
    ScriptRounds(hooks, o, ViewOf(reply));
    ToldNext(Rounds(hooks, [HeadSeen, RequestSeen, OutcomeSeen(o)]), hooks, 0, ResponseSeen(ViewOf(reply)));
    assert ToldBy(m, OutcomeHooks(k, o)) + [] == ToldBy(m, OutcomeHooks(k, o));
  }

  lemma ToldResponse(m: Machine, k: nat, o: Outcome, reply: Reply, c: Choice)
    requires Step(m, ResponseHooks(k, o, reply), c).Some? && k <= |m.rt.hooks|
    ensures var move := Step(m, ResponseHooks(k, o, reply), c).value;
            ToldBy(m, move.phase) == ToldBy(m, ResponseHooks(k, o, reply)) + Project(ToldOf, move.events)
  {
    var p := ResponseHooks(k, o, reply);
    ToldInStep(m, p, c);
    var hooks := |m.rt.hooks|;
    ToldNext(Rounds(hooks, [HeadSeen, RequestSeen, OutcomeSeen(o)]), hooks, k, ResponseSeen(ViewOf(reply)));
    ScriptRounds(hooks, o, ViewOf(reply));
    assert ToldBy(m, p) + [] == ToldBy(m, p);
  }

  lemma ToldCut(m: Machine, k: nat, seen: bool, notice: Notice, reply: Reply, c: Choice)
    requires Step(m, CutHooks(k, seen, notice, reply), c).Some? && k <= |m.rt.hooks|
    ensures var move := Step(m, CutHooks(k, seen, notice, reply), c).value;
            ToldBy(m, move.phase) == ToldBy(m, CutHooks(k, seen, notice, reply)) + Project(ToldOf, move.events)
  {
    var p := CutHooks(k, seen, notice, reply);
    ToldInStep(m, p, c);
    var hooks := |m.rt.hooks|;
    ToldNext(Rounds(hooks, Prelude(seen, notice)), hooks, k, notice);
    RoundsGrow(hooks, Prelude(seen, notice), notice);
    assert ToldBy(m, p) + [] == ToldBy(m, p);
  }

  /** A phase in which no hook is being told anything. */
  predicate Quiet(p: Phase) {
    !p.HeadHooks? && !p.RequestHooks? && !p.OutcomeHooks? && !p.ResponseHooks? && !p.CutHooks?
  }

  /** Entering a hook phase starts its round with nobody told. */
  lemma ToldAtStart(m: Machine, o: Outcome, seen: bool, notice: Notice, reply: Reply)
    ensures ToldBy(m, HeadHooks(0)) == []
    ensures ToldBy(m, RequestHooks(0)) == ToldBy(m, Reading)
    ensures ToldBy(m, OutcomeHooks(0, o)) == ToldBy(m, MappingInput)
    ensures ToldBy(m, CutHooks(0, seen, notice, reply)) == Rounds(|m.rt.hooks|, Prelude(seen, notice))
  {
    var hooks := |m.rt.hooks|;
    RoundGrows(0, HeadSeen);
    ToldNext(Rounds(hooks, Prelude(seen, notice)), hooks, 0, notice);
    ToldNext(Rounds(hooks, [HeadSeen]), hooks, 0, RequestSeen);
    ToldNext(Rounds(hooks, [HeadSeen, RequestSeen]), hooks, 0, OutcomeSeen(o));
  }

  lemma ToldExpire(m: Machine, p: Phase)
    requires Step(m, p, Expire).Some? && Quiet(p)
    ensures ToldBy(m, Step(m, p, Expire).value.phase) == ToldBy(m, p)
  {
    var next := Step(m, p, Expire).value.phase;
    ToldAtStart(m, Outcome(Err(DEADLINE), NO_EFFECTS), next.bodySeen, next.notice, next.reply);
  }

  lemma ToldFront(m: Machine, p: Phase, c: Choice)
    requires Step(m, p, c).Some? && (p.Starting? || p.Guarding? || p.Reading?) && !c.Expire?
    ensures ToldBy(m, Step(m, p, c).value.phase) == ToldBy(m, p)
  {
    var next := Step(m, p, c).value.phase;
    ToldAtStart(m, Outcome(Err(DEADLINE), NO_EFFECTS), false, HeadSeen, m.errorExit(DEADLINE));
    if next.CutHooks? {
      ToldAtStart(m, Outcome(Err(DEADLINE), NO_EFFECTS), next.bodySeen, next.notice, next.reply);
    }
  }

  lemma ToldInside(m: Machine, p: Phase, c: Choice)
    requires Step(m, p, c).Some? && !c.Expire?
    requires p.Before? || p.MappingInput? || p.Executing? || p.MappingOutput? || p.After?
    ensures ToldBy(m, Step(m, p, c).value.phase) == ToldBy(m, p)
  {
    var next := Step(m, p, c).value.phase;
    if next.OutcomeHooks? {
      ToldAtStart(m, next.outcome, false, HeadSeen, m.errorExit(DEADLINE));
    }
  }

  /** The deadline cuts in only while a guard, the body, a middleware or the use case is awaited. */
  lemma CutOnlyAtAwaits(m: Machine, p: Phase)
    requires Step(m, p, Expire).Some?
    ensures m.rt.endpoint.timeout.Some?
    ensures (p.Guarding? && p.next < |m.rt.guards|) || p.Reading? || p.Before? || p.Executing? || p.After?
  {
  }

  /** Steps between the rounds tell nobody anything. */
  lemma ToldQuiet(m: Machine, p: Phase, c: Choice)
    requires Step(m, p, c).Some? && Quiet(p)
    ensures var move := Step(m, p, c).value;
            Project(ToldOf, move.events) == [] && ToldBy(m, move.phase) == ToldBy(m, p)
  {
    ToldInStep(m, p, c);
    if c.Expire? {
      ToldExpire(m, p);
    } else if p.Starting? || p.Guarding? || p.Reading? {
      ToldFront(m, p, c);
    } else {
      ToldInside(m, p, c);
    }
  }

  lemma ToldStep(m: Machine, p: Phase, c: Choice)
    requires Step(m, p, c).Some? && PhaseFits(m, p)
    ensures var move := Step(m, p, c).value;
            ToldBy(m, move.phase) == ToldBy(m, p) + Project(ToldOf, move.events)
  {
    match p {
      case HeadHooks(k) => ToldHead(m, k, c);
      case RequestHooks(k) => ToldRequest(m, k, c);
      case OutcomeHooks(k, o) => ToldOutcome(m, k, o, c);
      case ResponseHooks(k, o, reply) => ToldResponse(m, k, o, reply, c);
      case CutHooks(k, seen, notice, reply) => ToldCut(m, k, seen, notice, reply, c);
      case _ =>
        ToldQuiet(m, p, c);
        assert ToldBy(m, p) + [] == ToldBy(m, p);
    }
  }

  // -------------------------------------------------------------------- theorems

  /** In every reachable state the hooks have been told exactly what the phase says. */
  lemma {:induction false} ToldInvariant(m: Machine, choices: seq<Choice>)
    requires RunOf(m, choices).Some?
    ensures var s := RunOf(m, choices).value;
            PhaseFits(m, s.phase) && Project(ToldOf, s.trace) == ToldBy(m, s.phase)
  {
    if choices != [] {
      var front := choices[..|choices| - 1];
      ToldInvariant(m, front);
      var s := RunOf(m, front).value;
      var c := choices[|choices| - 1];
      var move := Step(m, s.phase, c).value;
      PhaseKept(m, s.phase, c);
      ToldStep(m, s.phase, c);
      ProjectConcat(ToldOf, s.trace, move.events);
    }
  }

  /** The six sequences a hook can hear, with the last view that of the reply. */
  ghost predicate Language(notices: seq<Notice>, reply: Reply) {
    var v := View(reply.status, reply.headers);
    || (exists e :: notices == [NormalizationRejected(e, v)])
    || (exists e :: notices == [HeadSeen, GuardRejected(e, v)])
    || (exists e :: notices == [HeadSeen, BodyRejected(e, v)])
    || (exists o :: notices == [HeadSeen, RequestSeen, OutcomeSeen(o), ResponseSeen(v)])
    || (exists e :: notices == [HeadSeen, TimeoutSeen(e, v)])
    || (exists e :: notices == [HeadSeen, RequestSeen, TimeoutSeen(e, v)])
  }

  predicate Terminal(n: Notice) {
    n.NormalizationRejected? || n.GuardRejected? || n.BodyRejected? || n.ResponseSeen? || n.TimeoutSeen?
  }

  lemma ScriptInLanguage(m: Machine, ending: Ending, reply: Reply)
    requires PhaseFits(m, Done(ending, reply))
    ensures Language(Script(ending, reply), reply)
    ensures var notices := Script(ending, reply);
            && Terminal(notices[|notices| - 1])
            && forall i :: 0 <= i < |notices| - 1 ==> !Terminal(notices[i])
  {
    var v := ViewOf(reply);
    match ending {
      case Finished(o) =>
        assert Script(ending, reply) == [HeadSeen, RequestSeen, OutcomeSeen(o), ResponseSeen(v)];
      case Cut(seen, notice) =>
        match notice {
          case NormalizationRejected(e, w) => assert Script(ending, reply) == [NormalizationRejected(e, v)];
          case GuardRejected(e, w) => assert Script(ending, reply) == [HeadSeen, GuardRejected(e, v)];
          case BodyRejected(e, w) => assert Script(ending, reply) == [HeadSeen, BodyRejected(e, v)];
          case TimeoutSeen(e, w) =>
            if seen {
              assert Script(ending, reply) == [HeadSeen, RequestSeen, TimeoutSeen(e, v)];
            } else {
              assert Script(ending, reply) == [HeadSeen, TimeoutSeen(e, v)];
            }
          case _ =>
        }
    }
  }

  lemma {:induction false} HeardConcat(a: Tolds, b: Tolds, hook: nat)
    ensures Heard(a + b, hook) == Heard(a, hook) + Heard(b, hook)
    decreases |b|
  {
    if b == [] {
      assert a + b == a;
    } else {
      var front := b[..|b| - 1];
      HeardConcat(a, front, hook);
      assert (a + b)[..|a + b| - 1] == a + front;
    }
  }

  lemma {:induction false} HeardRound(k: nat, notice: Notice, hook: nat)
    ensures Heard(Round(k, notice), hook) == if hook < k then [notice] else []
  {
    if k > 0 {
      HeardRound(k - 1, notice, hook);
      RoundGrows(k - 1, notice);
      assert Round(k, notice)[..k - 1] == Round(k - 1, notice);
    }
  }

  lemma {:induction false} HeardRounds(hooks: nat, notices: seq<Notice>, hook: nat)
    requires hook < hooks
    ensures Heard(Rounds(hooks, notices), hook) == notices
  {
    if notices != [] {
      var front := notices[..|notices| - 1];
      HeardRounds(hooks, front, hook);
      HeardConcat(Rounds(hooks, front), Round(hooks, notices[|notices| - 1]), hook);
      HeardRound(hooks, notices[|notices| - 1], hook);
    }
  }

  /**
   Every run that ends has told its hooks, round by round and in list order,
   one script of the six; each hook heard exactly it, with one terminal notice
   at its end that shows the returned reply.
   */
  lemma HookLanguage(m: Machine, choices: seq<Choice>, hook: nat)
    requires RunOf(m, choices).Some? && RunOf(m, choices).value.phase.Done? && hook < |m.rt.hooks|
    ensures var s := RunOf(m, choices).value;
            var notices := Script(s.phase.ending, s.phase.reply);
            && Project(ToldOf, s.trace) == Rounds(|m.rt.hooks|, notices)
            && Heard(Project(ToldOf, s.trace), hook) == notices
            && Language(notices, s.phase.reply)
            && Terminal(notices[|notices| - 1])
            && forall i :: 0 <= i < |notices| - 1 ==> !Terminal(notices[i])
  {
    ToldInvariant(m, choices);
    var s := RunOf(m, choices).value;
    ScriptInLanguage(m, s.phase.ending, s.phase.reply);
    HeardRounds(|m.rt.hooks|, Script(s.phase.ending, s.phase.reply), hook);
  }
}
