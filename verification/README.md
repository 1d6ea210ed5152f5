# Verified model of the soaprs Axum adapter

This project models `soaprs-axum`, the adapter that turns an endpoint catalog
into an HTTP router, and proves what its code and its documentation promise:
which extensions reach which endpoint, in which order a request meets guards,
body, middleware and target, what hooks see, which headers leave, and how the
small text formats at the HTTP boundary are read and written.

`dafny verify dfyconfig.toml` verifies everything. Dafny 4.11.

## What is modelled

- **Composition** (`Builder.dfy`, `CompositionLaws.dfy`). `SoapRouterBuilder`
  and `PluginContext` are classes whose methods change the builder's lists and
  maps in place. A chain of calls is replayed by `Run`; a plugin is the calls
  one run of its `install` made and how it ended, so every plugin is covered.
  `Build` takes bindings out of its maps like the source does.
- **The pipeline** (`Pipeline.dfy`, `Serving.dfy`). A state machine whose steps
  emit events. Guards pass or refuse with any effects. Middleware answers,
  delegates, or stops waiting for what it delegated to. Mappers and use cases
  succeed or fail. The deadline may cut in at the three awaits of
  `dispatch_pipeline` and only there. `HookLaws.dfy`, `OnionLaws.dfy` and
  `EnforcementLaws.dfy` hold the theorems over all runs.
- **Behaviours** (`Behaviours.dfy`). What guards, body, middleware and target
  answer in one request, and which of them never do. A run obeys a behaviour
  when every choice in it is the behaviour's. There is one such run, and its
  end and reply are those of a short recursive reading of the behaviour.
- **The pipeline as code** (`Dispatch.dfy`). Loops over hooks and guards,
  recursion through the middleware and responses built in place, proved to
  follow the machine step by step and to obey the behaviour it is given; what
  holds of every run, and of every obeying run, therefore holds of this code.
- **Responses** (`ResponseHeaders.dfy`, `Policy.dfy`, `Vary.dfy`,
  `Recipients.dfy`). An in-place header map and response, the layers of effects,
  the response policies, and what recipients read in the headers they set.
- **Text formats** (`SetCookie.dfy`, `Cookies.dfy`, `Utf8.dfy`, `Query.dfy`,
  `Accept.dfy`, `RateLimit.dfy`, `BodyReader.dfy`) over the string operations
  in `Text.dfy`.

Library behaviour enters as arbitrary functions (`Library`, `Setting`) or as
preconditions:

- `HttpResponseEffects::validate`, `ResponseCookie::validate`, the policies'
  `validate`, the error mapper and the id syntax are arbitrary total functions.
- A validated cookie has a token name, an unquoted cookie-octet value and no
  `;` in path or domain (`SetCookie.Valid`).
- Catalog ids are unique where a theorem says so.
- A header value holds bytes from 0x20 up except 0x7F, and tab; reading it as
  text needs visible ASCII, space or tab. Header names are lower case and map
  to non-empty lists. Header values are written with one char per byte.
- Tokio's timeout polls the pipeline before the timer: in an obeying run the
  deadline cuts in only where nothing else will ever happen (`Obeys`), so a
  pipeline that is always ready is never cut (`ReadyNeverCut`). The machine by
  itself lets it cut in at any await.
- The body cap is a machine word (`rt.maxBody <= wordMax`).
- Addresses print over digits, `a` to `f`, `:` and `.`, one text per address.

## Findings

Where the code falls short of a property one would expect of it, the exact
condition is proved, and a lemma shows an input that fails.

- `SetCookie.ReadBackExactly` (src/router.rs:726-737): a user agent following
  section 5.2 of RFC 6265 does not keep every `Path` and `Domain` that a cookie
  may carry. It keeps them exactly when the path is absolute and has no blank at
  either end, and the domain is lower case, unpadded, not empty and without a
  leading dot. The encoding is injective all the same (`RenderInjective`).
  Failing inputs, for any cookie validation that lets them through: paths `a`
  and ` /a`, domain `Example.org` (`PlacesLost`).
- `Vary.MergeIdempotent` (src/policy.rs:98-124): merging Vary twice equals
  merging once except when no `*` was there before and the policy brings one in
  beside another name, its own or one already there. Failing input: no Vary line, policy `*, accept`
  (`StarMergedTwice`).
- `RateLimit.RetryLeast` (src/rate_limit.rs:161-169): the delay sent is too short
  in one case, a duration of `u64::MAX` seconds and a fraction (`RetryTooShort`).
- `Policy.DeclaredWhen` (src/router.rs:502-508, README.md:173-175): the README of
  the crate says that security defaults cover error responses. When a policy
  does not apply, the response is the mapped policy error, and a declared
  header is on it only if the application's own error mapper put it there.
  Failing input: one Vary line that is not text, under a cache policy that
  names a member (`DeclaredHeaderLost`).

## Model

| member | source | states |
|---|---|---|
| EnforcementLaws.FailClosed | src/router.rs:210-337 | for every accepted chain of builder calls, built router and run that enters the target: each required capability was explicitly allowed, declared for the router by a plugin, or enforced in this run by a guard that passed before the body was read, or by a middleware entered after it that delegated |
| EnforcementLaws.OrderInvariant | src/router.rs:378-405 | in every run the body is read only after all guards passed, and the target entered only after the body was read and every middleware was entered and delegated |
| EnforcementLaws.BuildsExactly | src/router.rs:210-337 | an accepted chain builds a router only if every catalog endpoint is ready - bound, with a supported method, each required capability excused, provided at the router or declared by an extension of the right phase - and if all are, nothing but a transform can fail |
| EnforcementLaws.BuildRefused | src/router.rs:226-259 | the first endpoint that is not ready decides the error: an unsupported method, else what is not covered |
| EnforcementLaws.ExcusesExact | src/router.rs:191-207 | the excuses and router-level provisions the builder holds are exactly those the chain's calls made |
| Serving.HeadChecked | src/router.rs:363-423 | hooks hear of the head, guards are asked, the body is read and anyone runs only for a request whose cookies are grammatical with distinct names and whose query is percent-encoded UTF-8 |
| Serving.HeadRefusedExactly | src/router.rs:425-450 | an ended run was refused for its head exactly when cookies or query are malformed, cookies first, with a 400 |
| Serving.WholeBodySeen | src/router.rs:384-405 | in every run whoever is shown the request with its body - hook, middleware, target - sees it after the whole body was read, intact, within the cap and within the endpoint's own limit |
| Serving.TooLargeExactly | src/router.rs:384-395 | an ended run was refused for its size, with a 413, exactly when head and guards let it through, no deadline cut in and the body exceeds the cap or the endpoint's limit |
| Serving.ChunkingNeverShows | src/router.rs:451-469 | two streams of the same bytes have the same runs, events and replies |
| EnforcementLaws.GuardCourse | src/router.rs:378-382 | in every run guards are asked in list order, each at most once and none after one refused; the reply to a refusal is made of that guard's own error and effects |
| Behaviours.BehaviourDecides | src/router.rs:350-423 | a run that obeys a behaviour ends as reading the behaviour says, with that reply, and is stuck only where the behaviour hangs |
| Behaviours.AnswersGiven | src/binding.rs:27-40 | in an obeying run guards, body, middleware, mappers and use case answer as they do: the target with its first failure or its output, each middleware to the outcome that reached it |
| Behaviours.OneRun | src/router.rs:350-423 | two runs of one length that obey one behaviour are the same run |
| Behaviours.NextChoice | src/router.rs:350-423 | an obeying run that has not ended has exactly one next step, unless it hangs without a deadline |
| Behaviours.ReadyNeverCut | src/router.rs:351-356 | a pipeline that is always ready is never cut by its deadline and never hangs |
| Behaviours.TargetNeedsEveryGuard | src/router.rs:378-405 | the target is entered only if every guard's answer was to pass |
| HookLaws.HookLanguage | src/router.rs:350-423 | in every ended run, with the deadline free to cut in at any await, hooks are told round by round in list order one of six scripts, each hears exactly it, with one terminal notice at the end that shows the returned response |
| HookLaws.ToldInvariant | src/router.rs:362-423 | in every reachable state the hooks have been told exactly what the phase says |
| HookLaws.CutOnlyAtAwaits | src/router.rs:379-405 | the deadline cuts in only while a guard, the body, a middleware or the use case is awaited |
| Serving.EveryExitCovered | src/router.rs:481-508 | whatever way a run ends, the endpoint's policies were applied to the reply that end stands for, a refusal's being made of the effects of the guard that refused: declared headers are all there, or it is the mapped policy error |
| OnionLaws.OnionOrder | src/middleware.rs:92-104 | a run that ends with an outcome entered 0, 1, ... as far as each delegated, ran the target exactly if all did, and left from the inside out, everyone unless someone dropped the rest |
| OnionLaws.TargetAtMostOnce | src/middleware.rs:92-104 | in every run, cut or not, the target is entered at most once and only after all delegated; exits only go outwards |
| OnionLaws.OutcomeInvariant | src/router.rs:405-414 | hooks see, and the response is made from, the last outcome returned by the chain |
| OnionLaws.TargetCourse | src/binding.rs:27-40 | the use case is called only after input mapping succeeded and the output mapper only after the use case did |
| Dispatch.EndpointRuntime.DispatchRequest | src/router.rs:350-360 | the code takes the run the behaviour dictates: end and response are those it comes to, every hook hears a script of the language, no response comes exactly when something hangs and there is no deadline, and nothing but the refusal happens unless cookies and query are well formed |
| Dispatch.EndpointRuntime.DispatchPipeline | src/router.rs:362-423 | the code obeys the behaviour to an end, or to an await that never ends with everyone around it waiting for good |
| Dispatch.EndpointRuntime.RunChain | src/middleware.rs:92-104 | recursion through the middleware returns what the behaviours from this depth inwards come to, each layer answering from the outcome that reached it |
| Dispatch.EndpointRuntime.CheckGuards | src/router.rs:378-382 | admits exactly if all guards pass; else the reply is that of the first refusal, or the run stands at the first guard that hangs |
| Dispatch.EndpointRuntime.CallTarget | src/binding.rs:27-40 | mapper, use case and mapper are called in turn; the outcome is the first failure, or the output |
| Builder.SoapRouterBuilder.Build | src/router.rs:210-293 | succeeds only for unique ids, and then taking bindings out of the maps gives what looking them up would, so a binding never disappears |
| Builder.SoapRouterBuilder.TakeRoute | src/router.rs:226-274 | one endpoint's route is merged and checked, and only its own entries leave the maps |
| Builder.SoapRouterBuilder.BindEndpoint | src/router.rs:98-111 | refuses an unknown id or a second binding, else adds exactly this binding |
| Builder.SoapRouterBuilder.InstallPlugin | src/router.rs:134-159 | refuses a repeated name, else leaves exactly what the plugin's calls did |
| Builder.SoapRouterBuilder.Allow | src/router.rs:191-207 | adds one capability for one declared endpoint |
| Builder.PluginContext.Perform | src/plugin.rs:46-138 | each context call adds where it says, and a call for an undeclared endpoint changes nothing |
| Builder.ApplyTransforms | src/router.rs:286-292 | augmentations then wrappers, each over the router left by the one before, first failure wins |
| CompositionLaws.MergedLists | src/router.rs:241-264 | an endpoint's guards, middleware and hooks are what was added for all, then by plugins for it, then by its binding, each in call order |
| CompositionLaws.BindMoves | src/router.rs:98-111 | moving a bind call past any calls that bind nothing changes neither acceptance nor result |
| CompositionLaws.BoundOnce | src/router.rs:105-109 | an accepted chain binds no endpoint twice |
| CompositionLaws.AcceptedExactly | src/router.rs:91-207 | a chain is accepted exactly if it binds and excuses only known endpoints, binds none twice, installs no plugin twice and none that fails, and sets no cap of zero |
| CompositionLaws.EndpointFaultExact | src/plugin.rs:140-148 | a call that names an endpoint is refused exactly if its id is malformed or not in the catalog |
| CompositionLaws.CapExact | src/router.rs:175-183 | the last body cap a chain sets is the one that holds, two mebibytes if it sets none |
| CompositionLaws.PhasesExact | src/router.rs:286-292 | augmentations and wrappers are held apart, each in call order |
| CompositionLaws.AdditionsStayPut | src/plugin.rs:102-138 | what is added for other endpoints changes neither this endpoint's route nor whether it is enforced |
| CompositionLaws.BuiltExact | src/router.rs:226-292 | a built router has one merged, covered route per endpoint, and all augmentations come before all wrappers |
| CompositionLaws.RoutesWhen | src/router.rs:226-285 | routes are built exactly when every method is supported and every endpoint covered |
| CompositionLaws.MissingExact | src/router.rs:296-337 | the coverage check reports exactly the required capabilities that are neither excused nor provided at the router nor declared by a guard (authentication, rate limit, CSRF) or a middleware (request validation) |
| CompositionLaws.RouteFaultExact | src/router.rs:232-259 | a route is refused for its method, else for its coverage, else not at all |
| ResponseHeaders.HeaderMap.ReplaceHeaders | src/router.rs:714-721 | every name of the source gets the source's values, whatever order names are visited in, and no other name changes |
| ResponseHeaders.ReplaceComposes | src/router.rs:714-721 | replacing is idempotent and composes with the later source winning |
| ResponseHeaders.ApplyEffects | src/router.rs:701-712 | on success status, headers and cookies are all applied; the error is that of the first effect that fails, and the response then has what came before it |
| ResponseHeaders.SuccessResponse | src/router.rs:645-656 | route status, headers and body under the route's effects, or the first fault |
| ResponseHeaders.OutcomeResponse | src/router.rs:623-643 | the response is the reply of both layers, or the bare mapped error |
| ResponseHeaders.EffectsAllOrNothing | src/router.rs:623-656 | when both layers can be sent the reply carries every middleware effect, else it is the mapped error of the first part that cannot and nothing else |
| ResponseHeaders.LayerPrecedence | src/router.rs:632-655 | status, each header and Set-Cookie of a successful outcome, layer by layer |
| ResponseHeaders.FailurePrecedence | src/router.rs:628-642 | the reply to a failed outcome has the body of this very error as mapped, and status, each header and Set-Cookie layer by layer |
| ResponseHeaders.RefusalMapped | src/router.rs:623-656 | of the errors of middleware effects, route layer and middleware cookies, the first in this order is the one that is mapped |
| ResponseHeaders.EncodeFaultExact | src/router.rs:723-755 | a cookie is sent only if the library accepts it and it is header text; else the error is the library's or an encoding error |
| Http.RejectionWins | src/rejection.rs:86-95 | a protocol rejection decides the error response however deep it is wrapped |
| Http.MapperAsked | src/router.rs:665-691 | an error without a rejection is answered by the application's mapper, for this very error, with a JSON content type |
| Policy.ApplyResponsePolicies | src/policy.rs:18-29 | fails with the first policy fault, else leaves exactly the declared headers over the old ones |
| Policy.ApplySecurityHeaders | src/policy.rs:31-73 | declared security headers are laid over the old ones, all of them or a fault |
| Policy.ApplyCacheHeaders | src/policy.rs:75-96 | cache control is set and Vary merged, or the first fault |
| Policy.SecurityDeclared | src/policy.rs:36-71 | the headers laid down are exactly those the policy declares for each name |
| Policy.PoliciesCover | src/policy.rs:18-124 | after policies every name has its declared value, the merged Vary, or what it had |
| Policy.PolicyFaultWhen | src/policy.rs:31-124 | policies fail exactly for a policy that does not validate or encode, or a non-text Vary line met before any star while the policy names members |
| Policy.PolicyFaultExact | src/policy.rs:31-133 | which error policies fail with: the security policy's or its encoding's, else the cache policy's, its missing age's or the unreadable Vary line's |
| Policy.ExitCovered | src/router.rs:502-508 | a reply after policies is covered with its status and body kept, or is the mapped policy error |
| Policy.DeclaredWhen | src/router.rs:502-508 | a declared header leaves the pipeline if the policies apply, and otherwise exactly if the mapper itself sets it on the policy error |
| Policy.DeclaredHeaderLost | src/router.rs:502-508 | one Vary line that is not text takes a declared `nosniff` off a reply |
| Policy.FinalPrecedence | src/router.rs:410-417 | on a successful exchange policy wins over middleware effects, those over route effects, those over route headers; Vary merges and Set-Cookie accumulates |
| Policy.FailureFinal | src/router.rs:410-417 | on a failed exchange policy wins over middleware effects, those over the error as mapped, and the body is this very error's |
| Policy.GuardRejectionResponse | src/router.rs:471-489 | a refusal is the mapped error with its effects and the policies |
| Policy.GuardAllOrNothing | src/router.rs:477-480 | a refusal is the mapped error with all its effects over it, header by header, or is the mapped error of the first effect that cannot be sent |
| Recipients.DeclarationRead | src/policy.rs:31-96 | when policies apply, a recipient finds in the headers what is declared: literal values, and HSTS and Cache-Control by their grammars; status and body are untouched |
| Recipients.CacheReadBack | src/policy.rs:77-93 | read as section 5.2 of RFC 9111 has it, Cache-Control gives the declared visibility and whole seconds |
| Recipients.HstsReadBack | src/policy.rs:58-70 | read as section 6.1 of RFC 6797 has it, Strict-Transport-Security gives the declared seconds and flags |
| Vary.MergeVary | src/policy.rs:98-124 | changes only Vary, to the merged line, a star, or not at all on a fault |
| Vary.PushUniqueInto | src/policy.rs:126-133 | adds a name unless it is there under some spelling |
| Vary.MergeExact | src/policy.rs:98-124 | what a merge comes to on the text of the lines: untouched, a star, the union, or a fault |
| Vary.MergeIsUnion | src/policy.rs:102-122 | without a star the one line holds every name there or in the policy, once under its first spelling, in the order of first places, and so existing names first |
| Vary.MembersExact | src/policy.rs:107-111 | each part between commas stands for its trimmed text, or nothing if that is empty, in order |
| Vary.AllNamesExact | src/policy.rs:103-115 | each line stands for the members between its commas, in order of lines |
| Vary.StarReached | src/policy.rs:103-115 | the result is a star exactly when a star stands on a line and every line up to it is text |
| Vary.MergeIdempotent | src/policy.rs:98-124 | merging twice equals merging once exactly when the policy brings no star beside another name |
| Vary.StarMergedTwice | src/policy.rs:98-124 | on no Vary line, a policy of `*` and `accept` does not merge twice as it does once |
| Vary.NamesOfJoin | src/policy.rs:107-122 | splitting and trimming undo joining |
| SetCookie.EncodeCookie | src/router.rs:723-755 | appends to the pair exactly the attributes present, or reports the fault |
| SetCookie.ReadBack | src/router.rs:723-755 | a user agent following section 5.2 of RFC 6265 reads back name, value, flags, SameSite, whole-second max-age, and path and domain as that section normalizes them |
| SetCookie.ReadBackExactly | src/router.rs:726-737 | it keeps every field exactly if path and domain are already in that normal form |
| SetCookie.PlacesLost | src/router.rs:726-737 | the paths `a` and ` /a` and the domain `Example.org` are not read back as they were set |
| SetCookie.RenderInjective | src/router.rs:723-755 | two valid cookies with one encoding differ at most in fractions of a second of max-age |
| SetCookie.CookieOctetExact | src/router.rs:592-597 | the octets of cookie values are the visible characters but quotes, commas, semicolons and backslashes |
| Text.TokenCharExact | src/router.rs:599-621 | the characters of cookie names are the visible ones but the delimiters |
| Text.AlikeExact | src/policy.rs:126-133 | names are alike exactly when they agree letter by letter but for case |
| Cookies.ParseCookies | src/router.rs:549-581 | the method accepts and returns what the headers mean, else a bad request |
| Cookies.ReadPairExact | src/router.rs:562-571 | a segment is read exactly on the grammar, with the pair it spells |
| Cookies.ParsingExact | src/router.rs:549-621 | parsing succeeds exactly when all headers are visible text of blank or grammatical segments and no two segments of any headers spell one name; the map then holds exactly the pairs spelled |
| Cookies.HeaderOrderIrrelevant | src/router.rs:551-579 | permuting the headers changes neither success nor result |
| Cookies.PrintParse | src/router.rs:549-581 | printing any cookies with distinct names and parsing them gives them back |
| Cookies.SentBack | src/router.rs:723-725 | the leading pair of an encoded response cookie parses back to that cookie |
| Query.ValidatePercentEncoding | src/router.rs:530-547 | accepts exactly the text in which every percent sign starts a triple |
| Query.ParseQuery | src/router.rs:511-528 | gives the grouped pairs of a query that passes both checks, else the matching error |
| Query.ParsedExactly | src/router.rs:511-528 | a query that passes the checks is read as one pair per non-empty piece, in order - the name up to the first `=`, the value after it or empty, triples and `+` decoded - grouped by name in byte order with values in order |
| Query.PercentExact | src/router.rs:530-547 | the check accepts exactly what is written with bytes other than `%` and triples of hex digits of either case |
| Query.DecodeExact | src/router.rs:514-520 | such text decodes to what its bytes and triples mean, digit by digit |
| Query.EncodeExact | src/request.rs:357-362 | the serializer leaves letters, digits and `*-._`, writes a space as `+`, and all else as a triple with upper-case digits |
| Query.StrictMeansLossless | src/router.rs:514-520 | when the whole query passes both checks, every raw name and value is itself well formed and decoded without replacement |
| Query.QueryRoundTrip | src/request.rs:357-363 | parsing what is printed for any ordered multimap of texts gives the multimap back |
| Query.DecoderSeesSortedPairs | src/request.rs:357-363 | the typed decoder of a parsed query reads all its pairs, stably sorted by name, from text that passes the same checks |
| Query.SerializeQuery | src/request.rs:357-362 | the nested loops print the map's pairs in map order |
| Query.ReemittedStably | src/router.rs:520-525 | grouping sorts pairs by name and keeps each name's values in query order |
| Utf8.LossyExact | src/router.rs:520-524 | lossy decoding changes nothing exactly on well-formed text |
| Utf8.ValidExact | src/router.rs:515-519 | text is well formed exactly if it encodes a sequence of scalar values as section 3 of RFC 3629 lays out their bits |
| Utf8.AsciiCut | src/router.rs:515-520 | cutting well-formed text at an ASCII byte leaves well-formed text on both sides |
| Accept.QualityGrammar | src/request.rs:563-573 | a text is accepted exactly on the qvalue grammar |
| Accept.QualityPositive | src/request.rs:563-573 | an accepted text is read as allowing exactly when its value in thousandths is positive |
| Accept.ItemExact | src/request.rs:529-558 | a range is well formed exactly if it is type, `/`, subtype and well-formed parameters, and allows JSON exactly if type and subtype are `*` or spell `application` and `json` and its last quality is positive or absent |
| Accept.AcceptExact | src/request.rs:467-486 | the verdict over all lines on their text: the first line that is no text, or has a malformed or allowing range, decides |
| Accept.AcceptValueAllowsJson | src/request.rs:527-561 | true exactly when a range allows JSON and it and all earlier ones are well formed; an error, 400, exactly when a malformed one comes first |
| Accept.RequireJsonAcceptable | src/request.rs:467-486 | passes exactly without Accept lines or when a line allows JSON before anything malformed, else 400 if something malformed came first, or 406 |
| Accept.ScanAllows | src/request.rs:527-561 | true exactly when some range allows JSON and it and all earlier ranges are well formed |
| Accept.ScanBreaks | src/request.rs:527-561 | malformed exactly when a malformed range comes before any that allows JSON |
| Accept.ParametersExact | src/request.rs:537-552 | parameters are accepted exactly if each is well formed, and the last quality decides |
| Accept.LinesOrJoined | src/request.rs:467-486 | scanning lines gives the verdict of the one line that joins them |
| BodyReader.ReadBody | src/router.rs:451-469 | the outcome depends on the bytes and the first failure only |
| BodyReader.BodyExact | src/router.rs:451-469 | a body is refused for its size exactly when what arrived exceeds policy or cap, else for a failed transport, and else read whole |
| BodyReader.ReceivedExact | src/router.rs:458-458 | each chunk adds its bytes at the end, and nothing counts after a failure |
| BodyReader.LimitExact | src/router.rs:452-457 | narrowing the policy's limit to a machine word never loosens the cap |
| RateLimit.KeysInjective | src/rate_limit.rs:38-58 | two requests share a built-in key only for one endpoint, scope and client address |
| RateLimit.KeyGiven | src/rate_limit.rs:38-58 | built-in keys are global or, with a known address, by client; other scopes are unsupported and a missing address is an infrastructure error |
| RateLimit.RetryLeast | src/rate_limit.rs:161-169 | the delay is the least whole number of seconds, at least one, that waits out the limit, except at 64-bit saturation |
| RateLimit.RetryTooShort | src/rate_limit.rs:161-169 | the largest count of seconds and a fraction get a delay that is too short |
| RateLimit.RetryMonotone | src/rate_limit.rs:161-169 | longer limits never get shorter delays |
| RateLimit.Check | src/rate_limit.rs:114-150 | passes exactly without a policy or when the limiter allows; else the error is the first of rule, key and limiter to fail, bare, or a refusal that carries the delay |
| RateLimit.RefusalTellsDelay | src/rate_limit.rs:136-147 | the client of a refused request reads a header that spells the delay |

## Left out

- Axum routing, path conflicts between routes, method filters beyond support, extractors and server start-up: library behaviour.
- Real asynchronous scheduling: only the awaits, the deadline and hanging calls are kept.
- JSON encoding and decoding, typed mappers, `decode_path`, `optional_header`, `header_values` and `require_json_content_type`: opaque library calls or one-branch checks.
- The texts of error messages and diagnostic ids, except where a client sees a fixed message; one error stands for the four messages of a refused Cookie header.
- Request data that guards and middleware pass on: a guard or middleware is its answers, not what it does to the request.
- `error_mapper`: a builder call that only replaces one arbitrary mapper by another.
- Router transforms: arbitrary, kept as identities in the order they are applied.
- White space other than space and tab in trimming: it cannot occur in text accepted as visible ASCII.
- Policy.ApplySecurityHeaders: what the headers look like after a fault is left open, because the response is replaced.
- Policy.ApplyCacheHeaders: what the headers look like after a fault is left open, because the response is replaced.
- Policy.ApplyResponsePolicies: what the headers look like after a fault is left open, because the response is replaced.
- RateLimit.KeysInjective: takes the printed address as given; printing addresses is not part of this model.
- Dispatch.EndpointRuntime.RunChain: a middleware that stops waiting does so only once what it waits for hangs; the machine, and the theorems over all its runs, let it stop at any time.
