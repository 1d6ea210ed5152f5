/**
 The pipeline machine of an actual request: normalization, body and exits as
 src/router.rs computes them.
 */
module Serving {
  import opened Text
  import opened Http
  import opened ResponseHeaders
  import opened Policy
  import opened BodyReader
  import opened RateLimit
  import opened Cookies
  import opened Utf8
  import opened Query
  import opened Builder
  import opened Pipeline
  import opened HookLaws
  import opened EnforcementLaws

  datatype Request = Request(cookies: seq<string>, query: Option<Bytes>, chunks: seq<Chunk>)

  /** `normalize_head`: cookies first, then the query. */
  function NormalizeFault(q: Request): Option<SoapError> {
    if Jarred(q.cookies).None? then Some(BAD_COOKIES) else QueryFault(q.query)
  }

  function BodyLimitOf(rt: Runtime, wordMax: nat): nat { Limit(rt.endpoint.bodyLimit, rt.maxBody, wordMax) }

  /** The machine that serves a request with a built runtime. */
  function Serve(lib: Library, rt: Runtime, request: Request, wordMax: nat): Machine {
    Machine(rt, NormalizeFault(request), BodyOf(request.chunks, BodyLimitOf(rt, wordMax)),
            (error: SoapError) => WithPolicies(lib, rt.endpoint, ErrorReply(lib, error)),
            (error: SoapError, effects: Effects) => GuardReply(lib, rt.endpoint, error, effects),
            (outcome: Outcome) => FinalReply(lib, rt.endpoint, outcome))
  }

  /**
   The reply before policies that an ending stands for; `verdicts` is what the
   guards answered, the last of them being the refusal, if there was one.
   */
  predicate EndedFrom(lib: Library, e: Endpoint, ending: Ending, verdicts: seq<(nat, Verdict)>, base: Reply) {
    match ending
    case Finished(o) => base == OutcomeReply(lib, e.successStatus, o)
    case Cut(_, notice) =>
      match notice
      case NormalizationRejected(error, _) => base == ErrorReply(lib, error)
      case BodyRejected(error, _) => base == ErrorReply(lib, error)
      case TimeoutSeen(error, _) => error.kind == TimedOut && base == ErrorReply(lib, error)
      case GuardRejected(error, _) =>
        verdicts != [] &&
        var last := verdicts[|verdicts| - 1].1;
        last.Reject? && last.error == error && base == GuardBase(lib, error, last.effects)
      case _ => false
  }

  /**
   Whatever way a run ends, the endpoint's policies were applied to the reply
   that ending stands for: every declared header is there, or the reply is the
   mapped policy error.
   */
  lemma EveryExitCovered(lib: Library, rt: Runtime, request: Request, wordMax: nat, choices: seq<Choice>)
    returns (base: Reply)
    requires var run := RunOf(Serve(lib, rt, request, wordMax), choices); run.Some? && run.value.phase.Done?
    ensures var run := RunOf(Serve(lib, rt, request, wordMax), choices).value;
            var done := run.phase;
            && EndedFrom(lib, rt.endpoint, done.ending, Verdicts(run.trace), base)
            && done.reply == WithPolicies(lib, rt.endpoint, base)
            && if PolicyFault(lib, rt.endpoint, base.headers).None?
               then Covered(rt.endpoint, base.headers, done.reply.headers) && done.reply.status == base.status
               else done.reply == ErrorReply(lib, PolicyFault(lib, rt.endpoint, base.headers).value)
  {
    var m := Serve(lib, rt, request, wordMax);
    ToldInvariant(m, choices);
    GuardCourse(m, choices);
    var run := RunOf(m, choices).value;
    match run.phase.ending {
      case Finished(o) =>
        base := OutcomeReply(lib, rt.endpoint.successStatus, o);
      case Cut(_, notice) =>
        if notice.GuardRejected? {
          var verdicts := Verdicts(run.trace);
          base := GuardBase(lib, notice.error, verdicts[|verdicts| - 1].1.effects);
        } else {
          base := ErrorReply(lib, notice.error);
        }
    }
    ExitCovered(lib, rt.endpoint, base);
  }

  // ---------------------------------------------------------------------- the head

  /** Every Cookie header is made of grammatical pairs, and no two of them have one name. */
  ghost predicate CookiesOk(q: Request) { (forall h :: h in q.cookies ==> HeaderOk(h)) && NamesApart(q.cookies) }

  /** A query, if there is one, is percent-encoded text. */
  predicate QueryOk(q: Request) {
    q.query.Some? ==> PercentOk(q.query.value) && ValidUtf8(Decode(q.query.value))
  }

  lemma NormalizeExact(q: Request)
    ensures NormalizeFault(q).None? <==> CookiesOk(q) && QueryOk(q)
    ensures NormalizeFault(q).Some? ==>
              NormalizeFault(q).value
              == BadRequest(if !CookiesOk(q) then "malformed Cookie header"
                            else if !PercentOk(q.query.value) then "query string contains invalid percent encoding"
                            else "query string is not valid UTF-8")
  {
    ParsingExact(q.cookies);
  }

  /** The pipeline does something that only a request with a proper head should cause. */
  predicate Serves(e: Event) { !(e.Told? && e.notice.NormalizationRejected?) }

  lemma {:induction false} FaultyHead(m: Machine, choices: seq<Choice>)
    requires RunOf(m, choices).Some? && m.headFault.Some?
    ensures var s := RunOf(m, choices).value;
            && (forall t :: 0 <= t < |s.trace| ==> !Serves(s.trace[t]))
            && match s.phase
               case Starting => true
               case CutHooks(_, _, notice, _) => notice.NormalizationRejected?
               case Done(Cut(_, notice), _) => notice.NormalizationRejected?
               case _ => false
  {
    if choices != [] {
      FaultyHead(m, choices[..|choices| - 1]);
    }
  }

  /**
   Hooks hear of the head, guards are asked, the body is read and anyone runs
   only for a request whose cookies and query are both well formed.
   */
  lemma HeadChecked(lib: Library, rt: Runtime, request: Request, wordMax: nat, choices: seq<Choice>, t: int)
    requires var run := RunOf(Serve(lib, rt, request, wordMax), choices);
             run.Some? && 0 <= t < |run.value.trace| && Serves(run.value.trace[t])
    ensures CookiesOk(request) && QueryOk(request)
  {
    NormalizeExact(request);
    if Serve(lib, rt, request, wordMax).headFault.Some? {
      FaultyHead(Serve(lib, rt, request, wordMax), choices);
    }
  }

  /**
   An ended run was refused for its head exactly when its cookies or its query
   are malformed, cookies first, with a rejection that maps to a 400.
   */
  lemma HeadRefusedExactly(lib: Library, rt: Runtime, request: Request, wordMax: nat, choices: seq<Choice>)
    requires var run := RunOf(Serve(lib, rt, request, wordMax), choices); run.Some? && run.value.phase.Done?
    ensures var ending := RunOf(Serve(lib, rt, request, wordMax), choices).value.phase.ending;
            && (ending.Cut? && ending.notice.NormalizationRejected? <==> !CookiesOk(request) || !QueryOk(request))
            && (ending.Cut? && ending.notice.NormalizationRejected? ==>
                  && ending.notice.error
                     == BadRequest(if !CookiesOk(request) then "malformed Cookie header"
                                   else if !PercentOk(request.query.value)
                                   then "query string contains invalid percent encoding"
                                   else "query string is not valid UTF-8")
                  && ErrorReply(lib, ending.notice.error).status == 400)
  {
    var m := Serve(lib, rt, request, wordMax);
    NormalizeExact(request);
    GuardCourse(m, choices);
    ToldInvariant(m, choices);
    if m.headFault.Some? {
      FaultyHead(m, choices);
    }
  }

  // ---------------------------------------------------------------------- the body

  /** The bytes fit the cap and the endpoint's own limit, if it has one. */
  predicate Fits(rt: Runtime, chunks: seq<Chunk>) {
    && |Received(chunks)| <= rt.maxBody
    && (rt.endpoint.bodyLimit.Some? ==> |Received(chunks)| <= rt.endpoint.bodyLimit.value)
  }

  lemma FitsWhen(rt: Runtime, chunks: seq<Chunk>, wordMax: nat)
    requires rt.maxBody <= wordMax
    ensures |Received(chunks)| <= BodyLimitOf(rt, wordMax) <==> Fits(rt, chunks)
  {
    LimitExact(rt.endpoint.bodyLimit, rt.maxBody, wordMax);
  }

  /**
   Whoever is shown the request after its body was read - a hook, a middleware,
   the target - is shown the whole body, intact and within the limit.
   */
  lemma WholeBodySeen(lib: Library, rt: Runtime, request: Request, wordMax: nat, choices: seq<Choice>, t: int)
    requires rt.maxBody <= wordMax
    requires var run := RunOf(Serve(lib, rt, request, wordMax), choices);
             run.Some? && 0 <= t < |run.value.trace| && SeesBody(run.value.trace[t])
    ensures var trace := RunOf(Serve(lib, rt, request, wordMax), choices).value.trace;
            && (exists b :: 0 <= b <= t && trace[b] == BodyRead(Received(request.chunks)))
            && Intact(request.chunks) && Fits(rt, request.chunks)
  {
    FitsWhen(rt, request.chunks, wordMax);
    var m := Serve(lib, rt, request, wordMax);
    BodyFirstInvariant(m, choices);
    BodyReadIs(m, choices);
    var trace := RunOf(m, choices).value.trace;
    var b :| BodyAt(trace[..t + 1], b);
    assert trace[b].BodyRead?;
  }

  /**
   An ended run was refused for its size exactly when the request got as far as
   its body, no deadline cut in, and the body does not fit.
   */
  lemma TooLargeExactly(lib: Library, rt: Runtime, request: Request, wordMax: nat, choices: seq<Choice>)
    requires rt.maxBody <= wordMax
    requires var run := RunOf(Serve(lib, rt, request, wordMax), choices); run.Some? && run.value.phase.Done?
    ensures var run := RunOf(Serve(lib, rt, request, wordMax), choices).value;
            var ending := run.phase.ending;
            (ending.Cut? && ending.notice.BodyRejected? && ending.notice.error == PayloadTooLarge())
            <==> (CookiesOk(request) && QueryOk(request) && Verdicts(run.trace) == Passes(|rt.guards|)
                  && !(ending.Cut? && ending.notice.TimeoutSeen?) && !Fits(rt, request.chunks))
    ensures PayloadTooLarge().source.Rejection? && PayloadTooLarge().source.status == 413
  {
    FitsWhen(rt, request.chunks, wordMax);
    NormalizeExact(request);
    var m := Serve(lib, rt, request, wordMax);
    var run := RunOf(m, choices).value;
    GuardCourse(m, choices);
    BodyRefusedExactly(m, run.phase.ending, run.phase.reply, Verdicts(run.trace), PayloadTooLarge());
    TooLargeWhen(request.chunks, BodyLimitOf(rt, wordMax));
  }

  lemma TooLargeWhen(chunks: seq<Chunk>, limit: nat)
    ensures BodyOf(chunks, limit) == Err(PayloadTooLarge()) <==> |Received(chunks)| > limit
  {
  }

  /** How the stream cuts a body into chunks never shows: not in what anyone sees, nor in any reply. */
  lemma {:induction false} ChunkingNeverShows(
    lib: Library, rt: Runtime, q: Request, r: Request, wordMax: nat, choices: seq<Choice>)
    requires q.cookies == r.cookies && q.query == r.query
    requires Received(q.chunks) == Received(r.chunks) && (Intact(q.chunks) <==> Intact(r.chunks))
    ensures RunOf(Serve(lib, rt, q, wordMax), choices) == RunOf(Serve(lib, rt, r, wordMax), choices)
  {
    if choices != [] {
      ChunkingNeverShows(lib, rt, q, r, wordMax, choices[..|choices| - 1]);
    }
  }
}
