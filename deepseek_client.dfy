/**
  The desktop application's request to the DeepSeek chat API with retries
  (code.py, `translate_text_deepseek`). The HTTP exchange is a parameter:
  `respond(k)` is what attempt `k` (counted from 0) comes back with, and
  the waits between attempts are returned as numbers of seconds instead of
  being slept.
*/
module DeepseekClient {
  import opened Wrappers
  import opened Strings

  /** `RETRY_ATTEMPTS` and `RETRY_DELAY` (seconds). */
  const RetryAttempts: nat := 3
  const RetryDelay: nat := 2

  /** What one attempt comes back with. */
  datatype Reply =
    | Answered(content: string)            // a JSON body with a non-empty `choices`; the message content, unstripped
    | NoChoices                            // a JSON body without a non-empty `choices`
    | RequestFailed(status: Option<int>)   // a `requests` exception, with the HTTP status when a response arrived
    | Crashed                              // any other exception (a content that is not text, ...)

  /** The remark the "Network/API Error" message gets for its status. */
  datatype Hint = NoHint | RateLimited | ServerFault

  /** What the caller sees raised. */
  datatype TranslateError =
    | AuthenticationError            // `ValueError`, at once on HTTP 401
    | ConnectionFailed(hint: Hint)   // `ConnectionError` after the last attempt
    | UnexpectedFailure              // `RuntimeError` after the last attempt

  function HintOf(status: Option<int>): Hint {
    match status
    case None => NoHint
    case Some(code) => if code == 429 then RateLimited else if code >= 500 then ServerFault else NoHint
  }

  /** An attempt that ends the loop at once, whatever attempt it is. */
  predicate Settles(reply: Reply) {
    reply.Answered? || reply == RequestFailed(Some(401))
  }

  /** The first attempt from `from` on that settles, or `RetryAttempts` when none does. */
  function FirstSettling(respond: nat -> Reply, from: nat): (k: nat)
    requires from <= RetryAttempts
    ensures from <= k <= RetryAttempts
    ensures forall j :: from <= j < k ==> !Settles(respond(j))
    ensures k < RetryAttempts ==> Settles(respond(k))
    decreases RetryAttempts - from
  {
    if from == RetryAttempts || Settles(respond(from)) then from
    else FirstSettling(respond, from + 1)
  }

  /** The text an answer yields: its stripped content, or the original text when
      that is empty. */
  function Accepted(text: string, content: string): string {
    if PyStrip(content) != [] then PyStrip(content) else text
  }

  /** How the last attempt's failure is raised when no attempt settles. */
  function FinalFailure(reply: Reply): TranslateError {
    match reply
    case RequestFailed(status) => ConnectionFailed(HintOf(status))
    case _ => UnexpectedFailure
  }

  /** What `translate_text_deepseek` returns or raises. */
  function Translation(text: string, respond: nat -> Reply): Result<string, TranslateError> {
    var k := FirstSettling(respond, 0);
    if k == RetryAttempts then Err(FinalFailure(respond(RetryAttempts - 1)))
    else if respond(k).Answered? then Ok(Accepted(text, respond(k).content))
    else Err(AuthenticationError)
  }

  /** The number of requests made. */
  function AttemptsMade(respond: nat -> Reply): (n: nat)
    ensures 1 <= n <= RetryAttempts
  {
    var k := FirstSettling(respond, 0);
    if k < RetryAttempts then k + 1 else RetryAttempts
  }

  /** The wait after a failed attempt: longer and longer after request errors,
      fixed after the others. */
  function DelayAfter(reply: Reply, attempt: nat): nat {
    if reply.RequestFailed? then RetryDelay * (attempt + 1) else RetryDelay
  }

  /** The waits after the first `n` attempts. */
  function DelaysBefore(respond: nat -> Reply, n: nat): (d: seq<nat>)
    ensures |d| == n
  {
    if n == 0 then [] else DelaysBefore(respond, n - 1) + [DelayAfter(respond(n - 1), n - 1)]
  }

  lemma DelaysBeforeNext(respond: nat -> Reply, n: nat)
    ensures DelaysBefore(respond, n + 1) == DelaysBefore(respond, n) + [DelayAfter(respond(n), n)]
  {
  }

  lemma {:induction false} DelayAt(respond: nat -> Reply, n: nat, k: nat)
    requires k < n
    ensures DelaysBefore(respond, n)[k] == DelayAfter(respond(k), k)
    decreases n
  {
    if k < n - 1 {
      DelayAt(respond, n - 1, k);
    }
  }

  /** The waits, one between each two consecutive attempts. */
  function Delays(respond: nat -> Reply): (d: seq<nat>)
    ensures |d| == AttemptsMade(respond) - 1
  {
    DelaysBefore(respond, AttemptsMade(respond) - 1)
  }

  /** Where the search for a settling attempt stops, seen from an attempt that
      ends the loop. */
  lemma LoopEnds(respond: nat -> Reply, attempt: nat)
    requires attempt < RetryAttempts && attempt <= FirstSettling(respond, 0)
    requires Settles(respond(attempt)) || attempt == RetryAttempts - 1
    ensures Settles(respond(attempt)) ==> FirstSettling(respond, 0) == attempt
    ensures !Settles(respond(attempt)) ==> FirstSettling(respond, 0) == RetryAttempts
    ensures AttemptsMade(respond) == attempt + 1
  {
  }

  /** The attempt loop of `translate_text_deepseek`. */
  method TranslateTextDeepseek(text: string, respond: nat -> Reply)
    returns (r: Result<string, TranslateError>, attempts: nat, delays: seq<nat>)
    ensures r == Translation(text, respond)
    ensures attempts == AttemptsMade(respond)
    ensures delays == Delays(respond)
  {
    attempts, delays := 0, [];
    var attempt := 0;
    while attempt < RetryAttempts
      invariant attempt < RetryAttempts && attempt <= FirstSettling(respond, 0)
      invariant attempts == attempt
      invariant delays == DelaysBefore(respond, attempt)
    {
      var reply := respond(attempt);
      attempts := attempts + 1;
      DelaysBeforeNext(respond, attempt);
      if Settles(reply) || attempt == RetryAttempts - 1 {
        LoopEnds(respond, attempt);
      }
      match reply {
        case Answered(content) =>
          var translated := PyStrip(content);
          if translated != [] {
            return Ok(translated), attempts, delays;
          } else {
            return Ok(text), attempts, delays;
          }
        case NoChoices =>
          // The `ValueError` of the last attempt is caught by the generic handler.
          if attempt < RetryAttempts - 1 {
            delays := delays + [RetryDelay];
          } else {
            return Err(UnexpectedFailure), attempts, delays;
          }
        case RequestFailed(status) =>
          if status == Some(401) {
            return Err(AuthenticationError), attempts, delays;
          }
          if attempt < RetryAttempts - 1 {
            delays := delays + [RetryDelay * (attempt + 1)];
          } else {
            return Err(ConnectionFailed(HintOf(status))), attempts, delays;
          }
        case Crashed =>
          if attempt < RetryAttempts - 1 {
            delays := delays + [RetryDelay];
          } else {
            return Err(UnexpectedFailure), attempts, delays;
          }
      }
      attempt := attempt + 1;
    }
    // The fallback after the loop: every path of the last attempt has returned.
    assert false;
    return Ok(text), attempts, delays;
  }

  // ---------------------------------------------------------------------
  // What the policy promises
  // ---------------------------------------------------------------------

  /** A translation is returned exactly when some attempt gets an answer and
      every earlier one failed with a retryable error; the text returned is that
      attempt's stripped answer, or the original text when the answer is blank. */
  lemma AnswerIsReturned(text: string, respond: nat -> Reply)
    ensures Translation(text, respond).Ok? <==>
      exists k :: 0 <= k < RetryAttempts && respond(k).Answered? && forall j :: 0 <= j < k ==> !Settles(respond(j))
    ensures forall k :: 0 <= k < RetryAttempts && respond(k).Answered? && (forall j :: 0 <= j < k ==> !Settles(respond(j))) ==>
      var answer := PyStrip(respond(k).content);
      Translation(text, respond) == Ok(if answer != [] then answer else text)
    ensures Translation(text, respond).Ok? ==>
      var t := Translation(text, respond).value;
      t == text || (t != [] && IsTrimmed(t, IsPySpace))
  {
    var k := FirstSettling(respond, 0);
    forall k' | 0 <= k' < RetryAttempts && respond(k').Answered? && forall j :: 0 <= j < k' ==> !Settles(respond(j))
      ensures k' == k
      ensures Translation(text, respond) == Ok(Accepted(text, respond(k').content))
    {
      assert k <= k';
    }
    if k < RetryAttempts && respond(k).Answered? {
      AcceptedShape(text, respond(k).content);
    }
  }

  /** The accepted text is the original one or a stripped, non-empty answer. */
  lemma AcceptedShape(text: string, content: string)
    ensures Accepted(text, content) == text || (Accepted(text, content) != [] && IsTrimmed(Accepted(text, content), IsPySpace))
  {
  }

  /** HTTP 401 raises the authentication error at once, without another attempt. */
  lemma UnauthorisedStopsAtOnce(text: string, respond: nat -> Reply, k: nat)
    requires k < RetryAttempts && respond(k) == RequestFailed(Some(401))
    requires forall j :: 0 <= j < k ==> !Settles(respond(j))
    ensures Translation(text, respond) == Err(AuthenticationError)
    ensures AttemptsMade(respond) == k + 1
  {
    assert FirstSettling(respond, 0) == k;
  }

  /** When no attempt settles, the last attempt raises: the loop never falls
      through to returning the original text. */
  lemma LastAttemptRaises(text: string, respond: nat -> Reply)
    requires forall k :: 0 <= k < RetryAttempts ==> !Settles(respond(k))
    ensures Translation(text, respond).Err?
    ensures Translation(text, respond).error != AuthenticationError
    ensures AttemptsMade(respond) == RetryAttempts
  {
    assert FirstSettling(respond, 0) == RetryAttempts;
  }

  /** The waits: 2·(k+1) seconds after a request error in attempt k, 2 seconds
      after any other failure, so never more than 2 + 4 seconds in all. */
  lemma DelaysBounded(respond: nat -> Reply)
    ensures forall k :: 0 <= k < |Delays(respond)| ==>
      Delays(respond)[k] == (if respond(k).RequestFailed? then 2 * (k + 1) else 2)
    ensures |Delays(respond)| <= RetryAttempts - 1
    ensures Sum(Delays(respond)) <= 6
  {
    var d := Delays(respond);
    forall k | 0 <= k < |d|
      ensures d[k] == (if respond(k).RequestFailed? then 2 * (k + 1) else 2)
    {
      DelayAt(respond, |d|, k);
    }
    if |d| == 2 {
      assert d == [d[0], d[1]];
      assert d[0] == 2 && d[1] <= 4;
      SumPair(d[0], d[1]);
    } else if |d| == 1 {
      assert d == [d[0]];
      assert Sum([d[0]]) == d[0] + Sum([]);
    }
  }

  function Sum(s: seq<nat>): nat {
    if s == [] then 0 else s[0] + Sum(s[1..])
  }

  lemma SumPair(a: nat, b: nat)
    ensures Sum([a, b]) == a + b
  {
    assert [b][1..] == [];
    assert Sum([b]) == b;
    assert [a, b][1..] == [b];
  }
}
