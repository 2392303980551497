/** The error codes of the write path, as the Java client and the failure normalizer read them. */
module ErrorCodes {
  import opened Wrappers
  import opened Text

  /** The codes the client and the normalizer compare with. `Spelled` is a text that only becomes
      one of them when it is trimmed and upper-cased, `Foreign` any other text. */
  datatype Code =
    | OK | TIMEOUT | REQUEST_NOT_SENT | RESULT_UNKNOWN | UNKNOWN_SIDE_EFFECT_OUTCOME | UNKNOWN_ERROR
    | JAVA_BACKEND_UNAVAILABLE | DEPENDENCY_UNAVAILABLE | BACKEND_TEMPORARY_UNAVAILABLE
    | BAD_GATEWAY | SERVER_FAILURE
    | MCP_UNAVAILABLE | MCP_TIMEOUT | CONTRACT_MISMATCH | MODEL_TIMEOUT | LLM_TIMEOUT | RATE_LIMIT | TOO_MANY_REQUESTS
    | VALIDATION_ERROR | INVALID_ARGUMENT | INVALID_REQUEST | BAD_REQUEST | INVALID_TOOL_ARGUMENT
    | TOOL_ARGUMENT_VALIDATION_FAILED | PRE_EXECUTION_VALIDATION_FAILED | MISSING_REQUIRED_FIELD
    | FIELD_TOO_LONG | INVALID_DRAFT_METADATA | PERMANENT_INPUT
    | AUTH_FAILURE | AUTHENTICATION_FAILED | AUTHENTICATION_REQUIRED | UNAUTHORIZED | TOKEN_EXPIRED | INVALID_TOKEN
    | PERMISSION_DENIED | AUTHORIZATION_DENIED | FORBIDDEN
    | NOT_FOUND | ARTIFACT_NOT_FOUND | TASK_NOT_FOUND | DRAFT_NOT_FOUND | SCHEDULE_NOT_FOUND
    | CONFLICT | STATE_CONFLICT | DRAFT_VERSION_CONFLICT | IDEMPOTENCY_CONFLICT | VERSION_CONFLICT
    | BUSINESS_REJECTED | BUSINESS_RULE_REJECTED
    | INTERNAL_ERROR | TOOL_EXECUTION_FAILED | RUN_FAILED | MODEL_REQUEST_FAILED
    | Spelled(text: string, code: Code)
    | Foreign(text: string)

  /** The normalizer compares the trimmed, upper-cased text; the client compares it as it is. */
  function Normal(code: Code): Code {
    if code.Spelled? then code.code else code
  }

  // ----- reading a text -----

  /** The text a code stands for. */
  function Spelling(code: Code): string {
    match code
    case OK => "OK"
    case TIMEOUT => "TIMEOUT"
    case REQUEST_NOT_SENT => "REQUEST_NOT_SENT"
    case RESULT_UNKNOWN => "RESULT_UNKNOWN"
    case UNKNOWN_SIDE_EFFECT_OUTCOME => "UNKNOWN_SIDE_EFFECT_OUTCOME"
    case UNKNOWN_ERROR => "UNKNOWN_ERROR"
    case JAVA_BACKEND_UNAVAILABLE => "JAVA_BACKEND_UNAVAILABLE"
    case DEPENDENCY_UNAVAILABLE => "DEPENDENCY_UNAVAILABLE"
    case BACKEND_TEMPORARY_UNAVAILABLE => "BACKEND_TEMPORARY_UNAVAILABLE"
    case BAD_GATEWAY => "BAD_GATEWAY"
    case SERVER_FAILURE => "SERVER_FAILURE"
    case MCP_UNAVAILABLE => "MCP_UNAVAILABLE"
    case MCP_TIMEOUT => "MCP_TIMEOUT"
    case CONTRACT_MISMATCH => "CONTRACT_MISMATCH"
    case MODEL_TIMEOUT => "MODEL_TIMEOUT"
    case LLM_TIMEOUT => "LLM_TIMEOUT"
    case RATE_LIMIT => "RATE_LIMIT"
    case TOO_MANY_REQUESTS => "TOO_MANY_REQUESTS"
    case VALIDATION_ERROR => "VALIDATION_ERROR"
    case INVALID_ARGUMENT => "INVALID_ARGUMENT"
    case INVALID_REQUEST => "INVALID_REQUEST"
    case BAD_REQUEST => "BAD_REQUEST"
    case INVALID_TOOL_ARGUMENT => "INVALID_TOOL_ARGUMENT"
    case TOOL_ARGUMENT_VALIDATION_FAILED => "TOOL_ARGUMENT_VALIDATION_FAILED"
    case PRE_EXECUTION_VALIDATION_FAILED => "PRE_EXECUTION_VALIDATION_FAILED"
    case MISSING_REQUIRED_FIELD => "MISSING_REQUIRED_FIELD"
    case FIELD_TOO_LONG => "FIELD_TOO_LONG"
    case INVALID_DRAFT_METADATA => "INVALID_DRAFT_METADATA"
    case PERMANENT_INPUT => "PERMANENT_INPUT"
    case AUTH_FAILURE => "AUTH_FAILURE"
    case AUTHENTICATION_FAILED => "AUTHENTICATION_FAILED"
    case AUTHENTICATION_REQUIRED => "AUTHENTICATION_REQUIRED"
    case UNAUTHORIZED => "UNAUTHORIZED"
    case TOKEN_EXPIRED => "TOKEN_EXPIRED"
    case INVALID_TOKEN => "INVALID_TOKEN"
    case PERMISSION_DENIED => "PERMISSION_DENIED"
    case AUTHORIZATION_DENIED => "AUTHORIZATION_DENIED"
    case FORBIDDEN => "FORBIDDEN"
    case NOT_FOUND => "NOT_FOUND"
    case ARTIFACT_NOT_FOUND => "ARTIFACT_NOT_FOUND"
    case TASK_NOT_FOUND => "TASK_NOT_FOUND"
    case DRAFT_NOT_FOUND => "DRAFT_NOT_FOUND"
    case SCHEDULE_NOT_FOUND => "SCHEDULE_NOT_FOUND"
    case CONFLICT => "CONFLICT"
    case STATE_CONFLICT => "STATE_CONFLICT"
    case DRAFT_VERSION_CONFLICT => "DRAFT_VERSION_CONFLICT"
    case IDEMPOTENCY_CONFLICT => "IDEMPOTENCY_CONFLICT"
    case VERSION_CONFLICT => "VERSION_CONFLICT"
    case BUSINESS_REJECTED => "BUSINESS_REJECTED"
    case BUSINESS_RULE_REJECTED => "BUSINESS_RULE_REJECTED"
    case INTERNAL_ERROR => "INTERNAL_ERROR"
    case TOOL_EXECUTION_FAILED => "TOOL_EXECUTION_FAILED"
    case RUN_FAILED => "RUN_FAILED"
    case MODEL_REQUEST_FAILED => "MODEL_REQUEST_FAILED"
    case Spelled(text, _) => text
    case Foreign(text) => text
  }

  /** Every named code. */
  function Named(): seq<Code> {
    [OK, TIMEOUT, REQUEST_NOT_SENT, RESULT_UNKNOWN, UNKNOWN_SIDE_EFFECT_OUTCOME, UNKNOWN_ERROR,
     JAVA_BACKEND_UNAVAILABLE, DEPENDENCY_UNAVAILABLE, BACKEND_TEMPORARY_UNAVAILABLE, BAD_GATEWAY,
     SERVER_FAILURE, MCP_UNAVAILABLE, MCP_TIMEOUT, CONTRACT_MISMATCH, MODEL_TIMEOUT, LLM_TIMEOUT, RATE_LIMIT, TOO_MANY_REQUESTS,
     VALIDATION_ERROR, INVALID_ARGUMENT, INVALID_REQUEST, BAD_REQUEST, INVALID_TOOL_ARGUMENT,
     TOOL_ARGUMENT_VALIDATION_FAILED, PRE_EXECUTION_VALIDATION_FAILED, MISSING_REQUIRED_FIELD,
     FIELD_TOO_LONG, INVALID_DRAFT_METADATA, PERMANENT_INPUT, AUTH_FAILURE, AUTHENTICATION_FAILED,
     AUTHENTICATION_REQUIRED, UNAUTHORIZED, TOKEN_EXPIRED, INVALID_TOKEN, PERMISSION_DENIED,
     AUTHORIZATION_DENIED, FORBIDDEN, NOT_FOUND, ARTIFACT_NOT_FOUND, TASK_NOT_FOUND, DRAFT_NOT_FOUND,
     SCHEDULE_NOT_FOUND, CONFLICT, STATE_CONFLICT, DRAFT_VERSION_CONFLICT, IDEMPOTENCY_CONFLICT,
     VERSION_CONFLICT, BUSINESS_REJECTED, BUSINESS_RULE_REJECTED, INTERNAL_ERROR, TOOL_EXECUTION_FAILED,
     RUN_FAILED, MODEL_REQUEST_FAILED]
  }

  /** The code with a given text. */
  function Lookup(codes: seq<Code>, text: string): Option<Code> {
    if codes == [] then None
    else if Spelling(codes[0]) == text then Some(codes[0])
    else Lookup(codes[1..], text)
  }

  /** The upper-casing of ASCII. */
  function Upper(s: string): (r: string)
    ensures |r| == |s| && forall k :: 0 <= k < |s| ==> r[k] == if 'a' <= s[k] <= 'z' then s[k] - 'a' + 'A' else s[k]
  {
    if s == "" then ""
    else [if 'a' <= s[0] <= 'z' then (s[0] as int - 32) as char else s[0]] + Upper(s[1..])
  }

  function Canonical(text: string): string {
    Upper(Strip(text))
  }

  function ReadWith(codes: seq<Code>, text: string): Code {
    match Lookup(codes, Canonical(text))
    case None => Foreign(text)
    case Some(code) => if text == Canonical(text) then code else Spelled(text, code)
  }

  /** All names are in canonical form, so a text that is not canonical is none of them. */
  function ReadCode(text: string): Code {
    ReadWith(Named(), text)
  }

  lemma {:induction false} LookupExactly(codes: seq<Code>, text: string)
    ensures match Lookup(codes, text)
            case Some(code) => code in codes && Spelling(code) == text
            case None => forall code :: code in codes ==> Spelling(code) != text
  {
    if codes != [] && Spelling(codes[0]) != text {
      LookupExactly(codes[1..], text);
      assert codes == [codes[0]] + codes[1..];
    }
  }

  /** With any list of codes: the normalizer sees one of them exactly in a text whose trimmed,
      upper-cased form spells it; the client sees it only in that form itself. */
  lemma ReadsExactly(codes: seq<Code>, text: string)
    requires forall code :: code in codes ==> !code.Spelled? && !code.Foreign?
    ensures var code := ReadWith(codes, text);
            if code.Foreign? then Normal(code) == code && forall named :: named in codes ==> Spelling(named) != Upper(Strip(text))
            else && Normal(code) in codes && Spelling(Normal(code)) == Upper(Strip(text))
                 && (code == Normal(code) <==> text == Upper(Strip(text)))
  {
    LookupExactly(codes, Canonical(text));
  }
}
