/** How a failed call to the Java facade becomes a recovery recommendation: the transport
    mapping, the result envelope and the failure normalizer. */
module WriteFailure {
  import opened Wrappers
  import opened ErrorCodes

  // ----- the envelope -----

  datatype SideEffect = NONE | NOT_STARTED | POSSIBLE | UNKNOWN | CONFIRMED

  /** A side-effect name found in a hint, in evidence or in a state; `Garbled` names nothing. */
  datatype EffectName = Unsaid | Says(effect: SideEffect) | Garbled

  /** The state keys that matter to recovery. */
  datatype State = State(started: Option<bool>, effect: EffectName, resultKnown: Option<bool>)

  const NO_STATE := State(None, Unsaid, None)

  /** `requestSent` is None when delivery itself is unknown. */
  datatype ToolResult = ToolResult(
    ok: bool, code: Code, retryable: bool, requestSent: Option<bool>, state: Option<State>)

  const SUCCESS := ToolResult(true, OK, false, Some(true), None)

  function Failure(code: Code, retryable: bool, requestSent: Option<bool>, state: Option<State>): ToolResult {
    ToolResult(false, code, retryable, requestSent, state)
  }

  const BACKEND_UNAVAILABLE := Failure(JAVA_BACKEND_UNAVAILABLE, true, Some(false), None)
  const NOT_SENT := Failure(REQUEST_NOT_SENT, true, Some(false), None)
  const OUTCOME_UNKNOWN := Failure(RESULT_UNKNOWN, false, None, Some(State(Some(true), Says(POSSIBLE), Some(false))))
  const READ_TIMED_OUT := Failure(TIMEOUT, true, Some(true), Some(State(Some(false), Says(NONE), Some(false))))

  // ----- the transport -----

  /** How one HTTP exchange ended. `code` is the structured error code, an empty foreign text when
      the body carries none; `readable` tells whether a success body is empty or JSON. */
  datatype Transport =
    | ConnectError | ConnectTimeout | ReadTimeout | WriteTimeout | PoolTimeout
    | OtherTimeout | ConnectionLost
    | Response(status: int, code: Code, readable: bool)

  /** The structured error mapping, first match wins. */
  function MapError(status: int, code: Code): ToolResult {
    var unknown := code.RESULT_UNKNOWN? || code.UNKNOWN_SIDE_EFFECT_OUTCOME?;
    var unavailable := code.DEPENDENCY_UNAVAILABLE? || code.BACKEND_TEMPORARY_UNAVAILABLE?;
    var state :=
      if 400 <= status < 500 && !unknown
      then State(Some(false), Says(NOT_STARTED), Some(true)) else NO_STATE;
    if code.FIELD_TOO_LONG? || code.INVALID_DRAFT_METADATA? then
      Failure(code, false, Some(false), Some(state))
    else if code.VALIDATION_ERROR? || code.BAD_REQUEST? || status == 400 || status == 422 then
      Failure(if code.Foreign? && code.text == "" then VALIDATION_ERROR else code, false, Some(false), Some(state))
    else if status == 401 || code.AUTHENTICATION_REQUIRED? || code.UNAUTHORIZED? then
      Failure(AUTHENTICATION_FAILED, false, Some(true), Some(state))
    else if status == 403 || code.FORBIDDEN? || code.PERMISSION_DENIED? then
      Failure(AUTHORIZATION_DENIED, false, Some(true), Some(state))
    else if status == 404 || code.NOT_FOUND? then
      Failure(NOT_FOUND, false, Some(true), Some(state))
    else if code.DRAFT_VERSION_CONFLICT? || code.IDEMPOTENCY_CONFLICT? || code.BUSINESS_REJECTED? then
      Failure(code, false, Some(true), Some(state))
    else if unknown then
      OUTCOME_UNKNOWN
    else if status == 409 || code.CONFLICT? then
      Failure(CONFLICT, false, Some(true), Some(state))
    else if unavailable || status == 502 || status == 503 || status == 504 then
      BACKEND_UNAVAILABLE.(state := Some(state))
    else if code.INTERNAL_ERROR? || code.SERVER_FAILURE? || status >= 500 then
      Failure(SERVER_FAILURE, false, Some(true), Some(state))
    else
      Failure(INTERNAL_ERROR, false, Some(false), Some(state))
  }

  /** `_request`: a response of any kind proves that the request was sent. */
  function Request(isWrite: bool, t: Transport): ToolResult {
    match t
    case ConnectError => BACKEND_UNAVAILABLE
    case ConnectTimeout => BACKEND_UNAVAILABLE
    case ReadTimeout => if isWrite then OUTCOME_UNKNOWN else READ_TIMED_OUT
    case WriteTimeout => NOT_SENT
    case PoolTimeout => BACKEND_UNAVAILABLE
    case OtherTimeout => if isWrite then OUTCOME_UNKNOWN else READ_TIMED_OUT
    case ConnectionLost => if isWrite then OUTCOME_UNKNOWN else BACKEND_UNAVAILABLE
    case Response(status, code, readable) =>
      if status == 204 then SUCCESS
      else if 200 <= status < 300 then
        if readable then SUCCESS else Failure(BAD_GATEWAY, false, Some(isWrite), None)
      else MapError(status, code).(requestSent := Some(true))
  }

  // ----- the normalizer -----

  datatype Action = RETRY | WAIT_DEPENDENCY | RECONCILE | REAUTH | FAIL

  datatype Evidence = Evidence(errorCode: Option<Code>, effect: EffectName, started: Option<bool>)

  const NO_EVIDENCE := Evidence(None, Unsaid, None)

  predicate IsAuthCode(code: Code) {
    || code.AUTH_FAILURE? || code.AUTHENTICATION_FAILED? || code.AUTHENTICATION_REQUIRED?
    || code.UNAUTHORIZED? || code.TOKEN_EXPIRED? || code.INVALID_TOKEN?
  }

  predicate IsRuntimeCode(code: Code) {
    code.INTERNAL_ERROR? || code.TOOL_EXECUTION_FAILED? || code.RUN_FAILED? || code.MODEL_REQUEST_FAILED?
  }

  /** Authoritative negative answers: the mutation was not applied. */
  predicate KnownNonApplying(code: Code) {
    || IsAuthCode(code) || IsRuntimeCode(code)
    || code.VALIDATION_ERROR? || code.INVALID_ARGUMENT? || code.INVALID_REQUEST? || code.BAD_REQUEST?
    || code.INVALID_TOOL_ARGUMENT? || code.TOOL_ARGUMENT_VALIDATION_FAILED?
    || code.PRE_EXECUTION_VALIDATION_FAILED? || code.MISSING_REQUIRED_FIELD? || code.FIELD_TOO_LONG?
    || code.INVALID_DRAFT_METADATA? || code.PERMANENT_INPUT?
    || code.PERMISSION_DENIED? || code.AUTHORIZATION_DENIED? || code.FORBIDDEN?
    || code.NOT_FOUND? || code.ARTIFACT_NOT_FOUND? || code.TASK_NOT_FOUND?
    || code.DRAFT_NOT_FOUND? || code.SCHEDULE_NOT_FOUND?
    || code.CONFLICT? || code.STATE_CONFLICT? || code.DRAFT_VERSION_CONFLICT?
    || code.IDEMPOTENCY_CONFLICT? || code.VERSION_CONFLICT?
    || code.BUSINESS_REJECTED? || code.BUSINESS_RULE_REJECTED?
  }

  function StateOf(result: ToolResult): State {
    if result.state.Some? then result.state.value else NO_STATE
  }

  /** None where the program raises on an unknown state name. */
  function ResolveEffect(result: ToolResult, hint: EffectName, evidence: Evidence, code: Code): Option<SideEffect> {
    var state := StateOf(result);
    var raw := if hint != Unsaid then hint else if evidence.effect != Unsaid then evidence.effect else state.effect;
    var started := if evidence.started.Some? then evidence.started else state.started;
    if raw == Garbled then None
    else if raw.Says? then Some(raw.effect)
    else if KnownNonApplying(code) then Some(NOT_STARTED)
    else if started.Some? then Some(if started.value then POSSIBLE else NOT_STARTED)
    else if result.requestSent.None? then Some(UNKNOWN)
    else Some(if result.requestSent.value then POSSIBLE else NOT_STARTED)
  }

  function RecoveryAction(retryable: bool, code: Code, effect: SideEffect): Action {
    if IsAuthCode(code) then REAUTH
    else if code.RATE_LIMIT? || code.TOO_MANY_REQUESTS? then WAIT_DEPENDENCY
    else if IsRuntimeCode(code) then if effect == POSSIBLE || effect == CONFIRMED then RECONCILE else FAIL
    else if KnownNonApplying(code) then FAIL
    else if effect == POSSIBLE || effect == UNKNOWN || effect == CONFIRMED then RECONCILE
    else if retryable then RETRY
    else FAIL
  }

  function CodeOf(result: ToolResult, evidence: Evidence): Code {
    Normal(if evidence.errorCode.Some? then evidence.errorCode.value else result.code)
  }

  /** `normalize_external_failure`: None where it raises, for a success or an unknown state. */
  function Normalize(result: ToolResult, hint: EffectName, evidence: Evidence): Option<Action> {
    if result.ok then None
    else
      var effect := ResolveEffect(result, hint, evidence, CodeOf(result, evidence));
      if effect.None? then None
      else Some(RecoveryAction(result.retryable, CodeOf(result, evidence), effect.value))
  }

  // ----- the normalizer in plain terms -----

  const AUTH_CODES: set<Code> :=
    {AUTH_FAILURE, AUTHENTICATION_FAILED, AUTHENTICATION_REQUIRED, UNAUTHORIZED, TOKEN_EXPIRED, INVALID_TOKEN}

  const RUNTIME_CODES: set<Code> := {INTERNAL_ERROR, TOOL_EXECUTION_FAILED, RUN_FAILED, MODEL_REQUEST_FAILED}

  const REFUSAL_CODES: set<Code> :=
    {VALIDATION_ERROR, INVALID_ARGUMENT, INVALID_REQUEST, BAD_REQUEST, INVALID_TOOL_ARGUMENT,
     TOOL_ARGUMENT_VALIDATION_FAILED, PRE_EXECUTION_VALIDATION_FAILED, MISSING_REQUIRED_FIELD, FIELD_TOO_LONG,
     INVALID_DRAFT_METADATA, PERMANENT_INPUT, PERMISSION_DENIED, AUTHORIZATION_DENIED, FORBIDDEN, NOT_FOUND,
     ARTIFACT_NOT_FOUND, TASK_NOT_FOUND, DRAFT_NOT_FOUND, SCHEDULE_NOT_FOUND, CONFLICT, STATE_CONFLICT,
     DRAFT_VERSION_CONFLICT, IDEMPOTENCY_CONFLICT, VERSION_CONFLICT, BUSINESS_REJECTED, BUSINESS_RULE_REJECTED}

  const THROTTLE_CODES: set<Code> := {RATE_LIMIT, TOO_MANY_REQUESTS}

  lemma RefusalsAreKnown(code: Code)
    requires code in REFUSAL_CODES
    ensures KnownNonApplying(code)
  {
  }

  lemma KnownAreRefusals(code: Code)
    requires KnownNonApplying(code) && !IsAuthCode(code) && !IsRuntimeCode(code)
    ensures code in REFUSAL_CODES
  {
  }

  lemma CodesAreListed(code: Code)
    ensures IsAuthCode(code) <==> code in AUTH_CODES
    ensures IsRuntimeCode(code) <==> code in RUNTIME_CODES
    ensures KnownNonApplying(code) <==> code in AUTH_CODES || code in RUNTIME_CODES || code in REFUSAL_CODES
    ensures (code.RATE_LIMIT? || code.TOO_MANY_REQUESTS?) <==> code in THROTTLE_CODES
  {
    if code in REFUSAL_CODES {
      RefusalsAreKnown(code);
    } else if KnownNonApplying(code) && !IsAuthCode(code) && !IsRuntimeCode(code) {
      KnownAreRefusals(code);
    }
  }

  /** A code as the normalizer sees it. */
  function Seen(code: Code): Code {
    match code
    case Spelled(_, named) => named
    case _ => code
  }

  /** The code that counts: the evidence's before the result's. */
  function ReportedCode(result: ToolResult, evidence: Evidence): Code {
    Seen(if evidence.errorCode == None then result.code else evidence.errorCode.value)
  }

  /** The code settles nothing: it is no refusal, no login, no runtime failure and no throttle. */
  predicate IsOpenCode(code: Code) {
    code !in AUTH_CODES && code !in RUNTIME_CODES && code !in REFUSAL_CODES && code !in THROTTLE_CODES
  }

  /** The first side effect that the hint, the evidence or the state names. */
  function FirstSaid(result: ToolResult, hint: EffectName, evidence: Evidence): EffectName {
    if hint != Unsaid then hint
    else if evidence.effect != Unsaid then evidence.effect
    else if result.state == None then Unsaid
    else result.state.value.effect
  }

  /** The first that the evidence or the state says about a start. */
  function FirstStarted(result: ToolResult, evidence: Evidence): Option<bool> {
    if evidence.started != None then evidence.started
    else if result.state == None then None
    else result.state.value.started
  }

  /** The side effect has not begun: the first that is said names NONE or NOT_STARTED; or nothing is
      said and the first word on a start denies it; or there is no word at all and the request was
      not sent. */
  predicate NotBegun(result: ToolResult, hint: EffectName, evidence: Evidence) {
    match FirstSaid(result, hint, evidence)
    case Says(effect) => effect == NONE || effect == NOT_STARTED
    case Garbled => false
    case Unsaid =>
      match FirstStarted(result, evidence)
      case Some(started) => !started
      case None => result.requestSent == Some(false)
  }

  lemma EffectMeans(result: ToolResult, hint: EffectName, evidence: Evidence)
    requires IsOpenCode(ReportedCode(result, evidence))
    ensures var effect := ResolveEffect(result, hint, evidence, ReportedCode(result, evidence));
            && (effect == None <==> FirstSaid(result, hint, evidence) == Garbled)
            && (effect == Some(NONE) || effect == Some(NOT_STARTED) <==> NotBegun(result, hint, evidence))
  {
    CodesAreListed(ReportedCode(result, evidence));
  }

  lemma SettledEffectMeans(result: ToolResult, hint: EffectName, evidence: Evidence)
    requires !IsOpenCode(ReportedCode(result, evidence)) && ReportedCode(result, evidence) !in THROTTLE_CODES
    ensures ResolveEffect(result, hint, evidence, ReportedCode(result, evidence)) ==
              match FirstSaid(result, hint, evidence)
              case Garbled => None
              case Says(effect) => Some(effect)
              case Unsaid => Some(NOT_STARTED)
  {
    CodesAreListed(ReportedCode(result, evidence));
  }

  lemma SameCode(result: ToolResult, evidence: Evidence)
    ensures CodeOf(result, evidence) == ReportedCode(result, evidence)
  {
  }

  /** The advice as a chain over the plain terms. */
  function PlainAdvice(result: ToolResult, hint: EffectName, evidence: Evidence): Option<Action> {
    var code, said := ReportedCode(result, evidence), FirstSaid(result, hint, evidence);
    if result.ok || said == Garbled then None
    else if code in AUTH_CODES then Some(REAUTH)
    else if code in THROTTLE_CODES then Some(WAIT_DEPENDENCY)
    else if code in RUNTIME_CODES then Some(if said == Says(POSSIBLE) || said == Says(CONFIRMED) then RECONCILE else FAIL)
    else if code in REFUSAL_CODES then Some(FAIL)
    else if !NotBegun(result, hint, evidence) then Some(RECONCILE)
    else Some(if result.retryable then RETRY else FAIL)
  }

  lemma ThrottledAdvice(result: ToolResult, hint: EffectName, evidence: Evidence)
    requires !result.ok && ReportedCode(result, evidence) in THROTTLE_CODES
    ensures Normalize(result, hint, evidence) ==
              if FirstSaid(result, hint, evidence) == Garbled then None else Some(WAIT_DEPENDENCY)
  {
    SameCode(result, evidence);
  }

  lemma AdviceIsPlain(result: ToolResult, hint: EffectName, evidence: Evidence)
    ensures Normalize(result, hint, evidence) == PlainAdvice(result, hint, evidence)
  {
    var code := ReportedCode(result, evidence);
    SameCode(result, evidence);
    CodesAreListed(code);
    if !result.ok {
      if code in THROTTLE_CODES {
        ThrottledAdvice(result, hint, evidence);
      } else if IsOpenCode(code) {
        EffectMeans(result, hint, evidence);
      } else {
        SettledEffectMeans(result, hint, evidence);
      }
    }
  }

  /** Whatever the result, the hint and the evidence say: the advice is RETRY exactly for a failed,
      retryable result whose code settles nothing and whose side effect has not begun. */
  lemma RetryExactly(result: ToolResult, hint: EffectName, evidence: Evidence)
    ensures Normalize(result, hint, evidence) == Some(RETRY) <==>
              && !result.ok && result.retryable
              && IsOpenCode(ReportedCode(result, evidence)) && NotBegun(result, hint, evidence)
  {
    AdviceIsPlain(result, hint, evidence);
  }

  /** RECONCILE exactly for a runtime failure whose side effect is said to be possible or confirmed,
      and for a code that settles nothing while the side effect may have begun. */
  lemma ReconcileExactly(result: ToolResult, hint: EffectName, evidence: Evidence)
    ensures var code, said := ReportedCode(result, evidence), FirstSaid(result, hint, evidence);
            Normalize(result, hint, evidence) == Some(RECONCILE) <==>
              && !result.ok && said != Garbled
              && (|| (code in RUNTIME_CODES && said in {Says(POSSIBLE), Says(CONFIRMED)})
                  || (IsOpenCode(code) && !NotBegun(result, hint, evidence)))
  {
    AdviceIsPlain(result, hint, evidence);
  }

  /** A new login exactly for a login code, a wait exactly for a throttle, and no advice at all, for
      the program raises, exactly for a success or a name that is no side effect. */
  lemma OtherAdviceExactly(result: ToolResult, hint: EffectName, evidence: Evidence)
    ensures var code, said := ReportedCode(result, evidence), FirstSaid(result, hint, evidence);
            && (Normalize(result, hint, evidence) == Some(REAUTH) <==> !result.ok && said != Garbled && code in AUTH_CODES)
            && (Normalize(result, hint, evidence) == Some(WAIT_DEPENDENCY) <==> !result.ok && said != Garbled && code in THROTTLE_CODES)
            && (Normalize(result, hint, evidence) == None <==> result.ok || said == Garbled)
  {
    AdviceIsPlain(result, hint, evidence);
  }

  // ----- writes through the Java client -----

  predicate SaysUnknown(code: Code) {
    code in {RESULT_UNKNOWN, UNKNOWN_SIDE_EFFECT_OUTCOME}
  }

  predicate SaysUnavailable(code: Code) {
    code in {DEPENDENCY_UNAVAILABLE, BACKEND_TEMPORARY_UNAVAILABLE}
  }

  predicate PreSend(t: Transport) {
    t == ConnectError || t == ConnectTimeout || t == PoolTimeout || t == WriteTimeout
  }

  function WriteAction(t: Transport): Option<Action> {
    Normalize(Request(true, t), Unsaid, NO_EVIDENCE)
  }

  /** A 4xx the mapping does not settle before it looks at availability. */
  predicate OpenRejection(status: int) {
    400 <= status < 500 && status != 400 && status != 401 && status != 403
    && status != 404 && status != 409 && status != 422
  }

  /** A replay of a write is recommended exactly after the four pre-send failures and after a
      4xx answer that names an unavailable backend and nothing more specific. */
  lemma WriteRetryExactly(t: Transport)
    ensures WriteAction(t) == Some(RETRY) <==>
              PreSend(t) || (t.Response? && OpenRejection(t.status) && SaysUnavailable(t.code))
  {
    match t
    case Response(status, code, readable) =>
      ResponseRetryExactly(status, code, readable);
    case _ =>
      UnansweredRetryExactly(t);
  }

  /** The results the client builds itself, without an answer to map. */
  lemma UnavailableRetries(state: Option<State>)
    requires state == None || state == Some(NO_STATE)
    ensures Normalize(BACKEND_UNAVAILABLE.(state := state), Unsaid, NO_EVIDENCE) == Some(RETRY)
  {
    assert !KnownNonApplying(JAVA_BACKEND_UNAVAILABLE);
  }

  lemma NotSentRetries()
    ensures Normalize(NOT_SENT, Unsaid, NO_EVIDENCE) == Some(RETRY)
  {
    assert !KnownNonApplying(REQUEST_NOT_SENT);
  }

  lemma UnknownReconciles()
    ensures Normalize(OUTCOME_UNKNOWN, Unsaid, NO_EVIDENCE) == Some(RECONCILE)
  {
    assert !KnownNonApplying(RESULT_UNKNOWN);
  }

  lemma UnansweredRetryExactly(t: Transport)
    requires !t.Response?
    ensures WriteAction(t) == Some(if PreSend(t) then RETRY else RECONCILE)
  {
    match t
    case ConnectError => UnavailableRetries(None);
    case ConnectTimeout => UnavailableRetries(None);
    case PoolTimeout => UnavailableRetries(None);
    case WriteTimeout => NotSentRetries();
    case _ => UnknownReconciles();
  }

  lemma ResponseRetryExactly(status: int, code: Code, readable: bool)
    ensures WriteAction(Response(status, code, readable)) == Some(RETRY) <==> OpenRejection(status) && SaysUnavailable(code)
  {
    var r := Request(true, Response(status, code, readable));
    RetryExactly(r, Unsaid, NO_EVIDENCE);
    MappedRetryable(status, code);
    if 200 <= status < 300 {
      assert !r.retryable;
    } else {
      assert StateOf(r) == StateOf(MapError(status, code)) && r.retryable == MapError(status, code).retryable;
    }
  }

  /** The error mapping marks only the unavailable backend retryable; then the state says
      NOT_STARTED for a 4xx and nothing otherwise. */
  lemma MappedRetryable(status: int, code: Code)
    ensures var r := MapError(status, code);
            && (r.retryable ==>
                  && r.code.JAVA_BACKEND_UNAVAILABLE?
                  && StateOf(r) == if 400 <= status < 500 then State(Some(false), Says(NOT_STARTED), Some(true)) else NO_STATE)
            && (r.retryable && 400 <= status < 500 <==> OpenRejection(status) && SaysUnavailable(code))
  {
  }

  // ----- every way a write can end -----

  /** Codes that the error mapping takes for a refusal under every status it can. */
  predicate NamesRefusal(code: Code) {
    || code.FIELD_TOO_LONG? || code.INVALID_DRAFT_METADATA? || code.VALIDATION_ERROR? || code.BAD_REQUEST?
    || code.AUTHENTICATION_REQUIRED? || code.UNAUTHORIZED? || code.FORBIDDEN? || code.PERMISSION_DENIED?
    || code.NOT_FOUND? || code.DRAFT_VERSION_CONFLICT? || code.IDEMPOTENCY_CONFLICT? || code.BUSINESS_REJECTED?
    || code.CONFLICT?
  }

  predicate AsksLogin(code: Code) {
    code.AUTHENTICATION_REQUIRED? || code.UNAUTHORIZED?
  }

  /** The input codes, which are looked at before the status. */
  predicate NamesInput(code: Code) {
    code.FIELD_TOO_LONG? || code.INVALID_DRAFT_METADATA? || code.VALIDATION_ERROR? || code.BAD_REQUEST?
  }

  predicate Succeeds(t: Transport) {
    t.Response? && (t.status == 204 || (200 <= t.status < 300 && t.readable))
  }

  /** An answer whose write may have been applied. */
  predicate AnswersAmbiguously(status: int, code: Code) {
    if status >= 500 then !NamesRefusal(code)
    else if 400 <= status < 500 then SaysUnknown(code) && status != 401 && status != 403 && status != 404
    else if 200 <= status < 300 then status != 204
    else SaysUnknown(code) || SaysUnavailable(code) || code.INTERNAL_ERROR? || code.SERVER_FAILURE?
  }

  predicate AnswersLogin(status: int, code: Code) {
    if status == 400 || status == 422 then Seen(code) in AUTH_CODES && !NamesInput(code)
    else if status == 401 then !NamesInput(code)
    else !(200 <= status < 300) && AsksLogin(code)
  }

  predicate AnswersWait(status: int, code: Code) {
    (status == 400 || status == 422) && Seen(code) in THROTTLE_CODES
  }

  lemma RefusalAdvice(r: ToolResult)
    requires !r.ok && !r.retryable
    requires StateOf(r).effect == Says(NOT_STARTED) || (StateOf(r).effect == Unsaid && KnownNonApplying(Seen(r.code)))
    ensures Normalize(r, Unsaid, NO_EVIDENCE)
         == Some(if Seen(r.code) in AUTH_CODES then REAUTH else if Seen(r.code) in THROTTLE_CODES then WAIT_DEPENDENCY else FAIL)
  {
  }

  /** Sent, with no word on the side effect, and a code that settles nothing. */
  lemma OpenAdvice(r: ToolResult)
    requires !r.ok && r.requestSent == Some(true)
    requires StateOf(r).effect == Unsaid && StateOf(r).started == None
    requires !KnownNonApplying(Seen(r.code)) && Seen(r.code) !in THROTTLE_CODES
    ensures Normalize(r, Unsaid, NO_EVIDENCE) == Some(RECONCILE)
  {
  }

  /** What the error mapping reports, one branch at a time. */
  lemma InputAnswers(status: int, code: Code)
    requires NamesInput(code) && !(200 <= status < 300)
    ensures WriteAction(Response(status, code, true)) == Some(FAIL)
  {
    RefusalAdvice(Request(true, Response(status, code, true)));
  }

  lemma BadRequestUnknown(status: int, code: Code)
    requires (status == 400 || status == 422) && SaysUnknown(code)
    ensures WriteAction(Response(status, code, true)) == Some(RECONCILE)
  {
    OpenAdvice(Request(true, Response(status, code, true)));
  }

  lemma BadRequestReport(status: int, code: Code)
    requires (status == 400 || status == 422) && !NamesInput(code) && !SaysUnknown(code)
    ensures var r := Request(true, Response(status, code, true));
            && !r.ok && !r.retryable
            && r.state == Some(State(Some(false), Says(NOT_STARTED), Some(true)))
            && r.code == if code == Foreign("") then VALIDATION_ERROR else code
  {
  }

  lemma BadRequestAnswers(status: int, code: Code)
    requires (status == 400 || status == 422) && !NamesInput(code)
    ensures WriteAction(Response(status, code, true))
         == Some(if SaysUnknown(code) then RECONCILE
                 else if Seen(code) in AUTH_CODES then REAUTH
                 else if Seen(code) in THROTTLE_CODES then WAIT_DEPENDENCY
                 else FAIL)
  {
    if SaysUnknown(code) {
      BadRequestUnknown(status, code);
    } else {
      BadRequestReport(status, code);
      RefusalAdvice(Request(true, Response(status, code, true)));
    }
  }

  /** Past the input checks: authentication, permission, absence and the named conflicts. */
  predicate RefusedByStatus(status: int, code: Code) {
    || status == 401 || status == 403 || status == 404
    || AsksLogin(code) || code.FORBIDDEN? || code.PERMISSION_DENIED? || code.NOT_FOUND?
    || code.DRAFT_VERSION_CONFLICT? || code.IDEMPOTENCY_CONFLICT? || code.BUSINESS_REJECTED?
  }

  lemma RefusalReport(status: int, code: Code)
    requires !(200 <= status < 300) && status != 400 && status != 422 && !NamesInput(code)
    requires RefusedByStatus(status, code)
    ensures var r := Request(true, Response(status, code, true));
            && !r.ok && !r.retryable && KnownNonApplying(r.code)
            && StateOf(r).effect == (if 400 <= status < 500 && !SaysUnknown(code) then Says(NOT_STARTED) else Unsaid)
            && (r.code in AUTH_CODES <==> status == 401 || AsksLogin(code))
            && r.code !in THROTTLE_CODES && Seen(r.code) == r.code
  {
  }

  lemma RefusalAnswers(status: int, code: Code)
    requires !(200 <= status < 300) && status != 400 && status != 422 && !NamesInput(code)
    requires RefusedByStatus(status, code)
    ensures WriteAction(Response(status, code, true)) == Some(if status == 401 || AsksLogin(code) then REAUTH else FAIL)
  {
    RefusalReport(status, code);
    RefusalAdvice(Request(true, Response(status, code, true)));
  }

  /** The statuses and codes that reach the last branches of the error mapping. */
  predicate Late(status: int, code: Code) {
    && !(200 <= status < 300) && status != 400 && status != 422
    && !NamesInput(code) && !RefusedByStatus(status, code)
  }

  lemma LateUnknown(status: int, code: Code)
    requires Late(status, code) && SaysUnknown(code)
    ensures WriteAction(Response(status, code, true)) == Some(RECONCILE)
  {
    UnknownReconciles();
  }

  lemma LateConflict(status: int, code: Code)
    requires Late(status, code) && !SaysUnknown(code) && (status == 409 || code.CONFLICT?)
    ensures WriteAction(Response(status, code, true)) == Some(FAIL)
  {
    RefusalAdvice(Request(true, Response(status, code, true)));
  }

  /** Past the named outcomes: neither an unknown outcome nor a conflict. */
  predicate Later(status: int, code: Code) {
    Late(status, code) && !SaysUnknown(code) && status != 409 && !code.CONFLICT?
  }

  lemma LateUnavailable(status: int, code: Code)
    requires Later(status, code) && SaysUnavailable(code)
    ensures WriteAction(Response(status, code, true)) == Some(if 400 <= status < 500 then RETRY else RECONCILE)
  {
  }

  lemma LateServerError(status: int, code: Code)
    requires Later(status, code) && !SaysUnavailable(code) && status >= 500
    ensures WriteAction(Response(status, code, true)) == Some(RECONCILE)
  {
  }

  lemma LateRuntime(status: int, code: Code)
    requires Later(status, code) && status < 500 && (code.INTERNAL_ERROR? || code.SERVER_FAILURE?)
    ensures WriteAction(Response(status, code, true)) == Some(if status < 400 then RECONCILE else FAIL)
  {
  }

  lemma LateOther(status: int, code: Code)
    requires Later(status, code) && !SaysUnavailable(code) && status < 500
    requires !code.INTERNAL_ERROR? && !code.SERVER_FAILURE?
    ensures WriteAction(Response(status, code, true)) == Some(FAIL)
  {
  }

  lemma LateAnswers(status: int, code: Code)
    requires Late(status, code)
    ensures WriteAction(Response(status, code, true))
         == Some(if SaysUnknown(code) then RECONCILE
                 else if status == 409 || code.CONFLICT? then FAIL
                 else if SaysUnavailable(code) && 400 <= status < 500 then RETRY
                 else if status >= 500 || SaysUnavailable(code) then RECONCILE
                 else if (code.INTERNAL_ERROR? || code.SERVER_FAILURE?) && status < 400 then RECONCILE
                 else FAIL)
  {
    if SaysUnknown(code) {
      LateUnknown(status, code);
    } else if status == 409 || code.CONFLICT? {
      LateConflict(status, code);
    } else if SaysUnavailable(code) {
      LateUnavailable(status, code);
    } else if status >= 500 {
      LateServerError(status, code);
    } else if code.INTERNAL_ERROR? || code.SERVER_FAILURE? {
      LateRuntime(status, code);
    } else {
      LateOther(status, code);
    }
  }

  /** The branches together. */
  function AdviceOn(status: int, code: Code): Action {
    if NamesInput(code) then FAIL
    else if status == 400 || status == 422 then
      if SaysUnknown(code) then RECONCILE
      else if Seen(code) in AUTH_CODES then REAUTH
      else if Seen(code) in THROTTLE_CODES then WAIT_DEPENDENCY
      else FAIL
    else if RefusedByStatus(status, code) then
      if status == 401 || AsksLogin(code) then REAUTH else FAIL
    else if SaysUnknown(code) then RECONCILE
    else if status == 409 || code.CONFLICT? then FAIL
    else if SaysUnavailable(code) && 400 <= status < 500 then RETRY
    else if status >= 500 || SaysUnavailable(code) then RECONCILE
    else if (code.INTERNAL_ERROR? || code.SERVER_FAILURE?) && status < 400 then RECONCILE
    else FAIL
  }

  lemma AdviceIsGiven(status: int, code: Code, readable: bool)
    requires !(200 <= status < 300)
    ensures WriteAction(Response(status, code, readable)) == Some(AdviceOn(status, code))
  {
    assert WriteAction(Response(status, code, readable)) == WriteAction(Response(status, code, true));
    if NamesInput(code) {
      InputAnswers(status, code);
    } else if status == 400 || status == 422 {
      BadRequestAnswers(status, code);
    } else if RefusedByStatus(status, code) {
      RefusalAnswers(status, code);
    } else {
      LateAnswers(status, code);
    }
  }

  predicate Classified(status: int, code: Code, action: Action) {
    && (action == RETRY <==> OpenRejection(status) && SaysUnavailable(code))
    && (action == RECONCILE <==> AnswersAmbiguously(status, code))
    && (action == REAUTH <==> AnswersLogin(status, code))
    && (action == WAIT_DEPENDENCY <==> AnswersWait(status, code))
  }

  lemma BadRequestClasses(status: int, code: Code)
    requires status == 400 || status == 422
    ensures Classified(status, code, AdviceOn(status, code))
  {
  }

  lemma ServerErrorClasses(status: int, code: Code)
    requires status >= 500
    ensures Classified(status, code, AdviceOn(status, code))
  {
  }

  lemma OtherClasses(status: int, code: Code)
    requires !(200 <= status < 300) && status < 500 && status != 400 && status != 422
    ensures Classified(status, code, AdviceOn(status, code))
  {
  }

  /** The advice on every answer that is not a success. */
  lemma AnswersExactly(status: int, code: Code, readable: bool)
    requires !(200 <= status < 300)
    ensures var action := WriteAction(Response(status, code, readable));
            && (action == Some(RETRY) <==> OpenRejection(status) && SaysUnavailable(code))
            && (action == Some(RECONCILE) <==> AnswersAmbiguously(status, code))
            && (action == Some(REAUTH) <==> AnswersLogin(status, code))
            && (action == Some(WAIT_DEPENDENCY) <==> AnswersWait(status, code))
            && action != None
  {
    AdviceIsGiven(status, code, readable);
    if status == 400 || status == 422 {
      BadRequestClasses(status, code);
    } else if status >= 500 {
      ServerErrorClasses(status, code);
    } else {
      OtherClasses(status, code);
    }
  }

  lemma SuccessAnswers(status: int, code: Code, readable: bool)
    requires 200 <= status < 300
    ensures WriteAction(Response(status, code, readable))
         == if status == 204 || readable then None else Some(RECONCILE)
  {
    if status != 204 && !readable {
      OpenAdvice(Request(true, Response(status, code, readable)));
    }
  }

  /** No advice exactly for a success. */
  lemma NoAdviceExactly(t: Transport)
    ensures WriteAction(t) == None <==> Succeeds(t)
  {
    match t
    case Response(status, code, readable) =>
      if 200 <= status < 300 {
        SuccessAnswers(status, code, readable);
      } else {
        AnswersExactly(status, code, readable);
      }
    case _ =>
      UnansweredRetryExactly(t);
  }

  /** A write is sent to reconciliation exactly when it ends without success and may have been
      applied: an exchange that broke off after sending, an unreadable success, or an answer that
      leaves it open. */
  lemma AmbiguousWritesReconcile(t: Transport)
    ensures WriteAction(t) == Some(RECONCILE) <==>
              if t.Response? then !Succeeds(t) && AnswersAmbiguously(t.status, t.code) else !PreSend(t)
  {
    match t
    case Response(status, code, readable) =>
      if 200 <= status < 300 {
        SuccessAnswers(status, code, readable);
      } else {
        AnswersExactly(status, code, readable);
      }
    case _ =>
      UnansweredRetryExactly(t);
  }

  /** A 5xx is reconciled exactly when its body names no refusal; a refusal in a 5xx is believed:
      a new login for the two login codes, a plain failure for the others. */
  lemma ServerErrorsExactly(status: int, code: Code, readable: bool)
    requires status >= 500
    ensures WriteAction(Response(status, code, readable))
         == Some(if !NamesRefusal(code) then RECONCILE else if AsksLogin(code) then REAUTH else FAIL)
  {
    AnswersExactly(status, code, readable);
  }

  /** The advice to wait is given for 400 and 422 only: a 429 that names a rate limit fails. */
  lemma RateLimitFails(readable: bool)
    ensures WriteAction(Response(429, RATE_LIMIT, readable)) == Some(FAIL)
  {
    AnswersExactly(429, RATE_LIMIT, readable);
  }

  // ----- reads -----

  function ReadAction(t: Transport): Option<Action> {
    Normalize(Request(false, t), Unsaid, NO_EVIDENCE)
  }

  lemma UnansweredReadRetries(t: Transport)
    requires !t.Response?
    ensures ReadAction(t) == Some(RETRY)
  {
    if t.ReadTimeout? || t.OtherTimeout? {
      assert !KnownNonApplying(TIMEOUT);
    } else if t.WriteTimeout? {
      NotSentRetries();
    } else {
      UnavailableRetries(None);
    }
  }

  /** A read that got no answer is always repeated, one with an unreadable success fails, and every
      other answer is treated as the same answer to a write. */
  lemma ReadAdviceExactly(t: Transport)
    ensures ReadAction(t) ==
              if !t.Response? then Some(RETRY)
              else if 200 <= t.status < 300 && t.status != 204 && !t.readable then Some(FAIL)
              else WriteAction(t)
  {
    if !t.Response? {
      UnansweredReadRetries(t);
    }
  }

  // ----- at most one commit -----

  /** How many of the attempts applied the write. */
  function Commits<T>(attempts: seq<T>, commits: T -> bool): nat {
    if attempts == [] then 0
    else Commits(attempts[..|attempts| - 1], commits) + (if commits(attempts[|attempts| - 1]) then 1 else 0)
  }

  lemma {:induction false} NoneCommits<T>(attempts: seq<T>, commits: T -> bool)
    requires forall i :: 0 <= i < |attempts| ==> !commits(attempts[i])
    ensures Commits(attempts, commits) == 0
  {
    if attempts != [] {
      NoneCommits(attempts[..|attempts| - 1], commits);
    }
  }

  /** If nothing but the last attempt commits, there is one commit at most. */
  lemma OnlyLastCommits<T>(attempts: seq<T>, commits: T -> bool)
    requires forall i :: 0 <= i < |attempts| - 1 ==> !commits(attempts[i])
    ensures Commits(attempts, commits) <= 1
  {
    if attempts != [] {
      NoneCommits(attempts[..|attempts| - 1], commits);
    }
  }

  /** One attempt of a write: what was reported of it, and whether the write was applied. */
  datatype Report = Report(result: ToolResult, hint: EffectName, evidence: Evidence, commits: bool)

  /** A report is truthful if a write that it says has not begun was not applied. */
  predicate Truthful(r: Report) {
    NotBegun(r.result, r.hint, r.evidence) ==> !r.commits
  }

  /** Over every sequence of truthful reports, whatever they say in hint, evidence and state, a driver
      that replays only on RETRY applies the write at most once, and only in its last attempt. */
  lemma TruthfulCommitOnce(reports: seq<Report>)
    requires forall i :: 0 <= i < |reports| ==> Truthful(reports[i])
    requires forall i :: 0 <= i < |reports| - 1 ==>
               Normalize(reports[i].result, reports[i].hint, reports[i].evidence) == Some(RETRY)
    ensures Commits(reports, (r: Report) => r.commits) <= 1
    ensures forall i :: 0 <= i < |reports| && reports[i].commits ==> i == |reports| - 1
  {
    forall i | 0 <= i < |reports| - 1
      ensures !reports[i].commits
    {
      RetryExactly(reports[i].result, reports[i].hint, reports[i].evidence);
    }
    OnlyLastCommits(reports, (r: Report) => r.commits);
  }

  /** A side effect that is reported as begun, with nothing else said, is never replayed: it is
      reconciled unless the code settles the matter. */
  lemma BegunIsReconciled(result: ToolResult, hint: EffectName, evidence: Evidence)
    requires !result.ok && FirstSaid(result, hint, evidence) == Unsaid
    requires FirstStarted(result, evidence) == Some(true)
    ensures Normalize(result, hint, evidence) != Some(RETRY)
    ensures Normalize(result, hint, evidence) == Some(RECONCILE) <==> IsOpenCode(ReportedCode(result, evidence))
  {
    RetryExactly(result, hint, evidence);
    ReconcileExactly(result, hint, evidence);
  }

  // ----- at most one commit through the Java client -----

  /** One attempt of a write: how the exchange ended, and whether the write was applied. */
  datatype Attempt = Attempt(transport: Transport, commits: bool)

  /** What the downstream guarantees: a request not sent, and a 4xx that does not itself say the
      outcome is unknown, applied nothing. Everything else may have applied the write. */
  predicate Honest(a: Attempt) {
    && (PreSend(a.transport) ==> !a.commits)
    && (a.transport.Response? && 400 <= a.transport.status < 500 && !SaysUnknown(a.transport.code) ==> !a.commits)
  }

  /** A driver replays only where RETRY is recommended; it may stop at any time. */
  predicate Drives(attempts: seq<Attempt>) {
    && (forall i :: 0 <= i < |attempts| ==> Honest(attempts[i]))
    && (forall i :: 0 <= i < |attempts| - 1 ==> WriteAction(attempts[i].transport) == Some(RETRY))
  }

  /** Over every sequence of transport outcomes, statuses and codes, a driver that replays only on
      RETRY applies the write at most once, and only in its last attempt. */
  lemma AtMostOneCommit(attempts: seq<Attempt>)
    requires Drives(attempts)
    ensures Commits(attempts, (a: Attempt) => a.commits) <= 1
    ensures forall i :: 0 <= i < |attempts| && attempts[i].commits ==> i == |attempts| - 1
  {
    forall i | 0 <= i < |attempts| - 1
      ensures !attempts[i].commits
    {
      WriteRetryExactly(attempts[i].transport);
    }
    OnlyLastCommits(attempts, (a: Attempt) => a.commits);
  }

  /** After a committing attempt the driver is done: it was reported as success, or as a failure
      that no driver replays. */
  lemma CommitEndsTheDrive(a: Attempt)
    requires Honest(a) && a.commits
    ensures Request(true, a.transport).ok || WriteAction(a.transport) != Some(RETRY)
  {
    WriteRetryExactly(a.transport);
  }
}
