/**
  The browser page's DeepSeek client (HTML/api.js, `DeepSeekAPI`): one text
  translated with a bounded number of retries and capped exponential
  backoff, and a list of texts translated in parallel or one after another.
  `fetch` is a parameter: `fetch(prompt, r)` is what the request with
  prompt `prompt` comes back with on retry `r` (counted from 0). The waits
  between attempts are returned as numbers of milliseconds instead of
  being awaited. The two settings of config.js the code reads are passed
  in as a `Config`.
*/
module WebApi {
  import opened Wrappers
  import opened Strings

  /** The key config.js ships with, which the client refuses to send. */
  const PlaceholderKey := "YOUR_DEEPSEEK_API_KEY"
  /** The message thrown for the placeholder key. */
  const ConfigMessage := "Please configure your DeepSeek API key in config.js"
  /** A message containing this is never retried. */
  const ConfigPhrase := "configure your DeepSeek API key"
  /** The longest wait between two attempts, in milliseconds. */
  const MaxDelay: nat := 10000
  /** Lists of at most this many texts are translated in parallel. */
  const ParallelLimit: nat := 5

  /** `config.apiKey` and `config.maxRetries`. */
  datatype Config = Config(apiKey: string, maxRetries: int)

  /** A thrown `Error`, reduced to its message. */
  datatype JsError = JsError(message: string)

  /** How an async call settles: with a value, or by throwing (`None` is a thrown `null`). */
  datatype Completion<T> = Returned(value: T) | Threw(error: Option<JsError>)

  /** What one request comes back with. */
  datatype FetchReply =
    | Answered(content: string)                    // an ok response; `choices[0].message.content`, "" when falsy
    | HttpFailure(status: int, serverMessage: string)  // a response that is not ok; the body's `message`, "" when absent or falsy
    | Failed(message: string)                      // `fetch` rejected (network error, timeout abort) or the body had no `choices[0]`

  /** The error the `try` block throws for a failed request. */
  function ErrorOf(reply: FetchReply): JsError
    requires !reply.Answered?
  {
    match reply
    case HttpFailure(status, serverMessage) =>
      JsError(if serverMessage != "" then serverMessage else "API request failed with status " + IntToString(status))
    case Failed(message) => JsError(message)
  }

  // ---------------------------------------------------------------------
  // The prompt
  // ---------------------------------------------------------------------

  /** The text with each CR LF, then each remaining LF, replaced by a space. */
  function Flatten(text: string): string {
    ReplaceAll(ReplaceAll(text, "\r\n", " "), "\n", " ")
  }

  /** The same, one character at a time: a CR LF pair or a lone LF becomes one
      space, every other character stays. No LF is left, nothing gets longer,
      and a text without LF is left as it is. */
  function LineBreaksAsSpaces(s: string): (r: string)
    ensures '\n' !in r && |r| <= |s|
    ensures '\n' !in s ==> r == s
  {
    if s == [] then []
    else if |s| >= 2 && s[0] == '\r' && s[1] == '\n' then " " + LineBreaksAsSpaces(s[2..])
    else if s[0] == '\n' then " " + LineBreaksAsSpaces(s[1..])
    else [s[0]] + LineBreaksAsSpaces(s[1..])
  }

  /** The two global replacements do what the one-pass reference does. */
  lemma {:induction false} FlattenIsLineBreaksAsSpaces(s: string)
    ensures Flatten(s) == LineBreaksAsSpaces(s)
    decreases |s|
  {
    if s == [] {
    } else if |s| >= 2 && s[0] == '\r' && s[1] == '\n' {
      assert s[..2] == "\r\n";
      assert ReplaceAll(s, "\r\n", " ") == " " + ReplaceAll(s[2..], "\r\n", " ");
      ReplaceAfterOther(' ', ReplaceAll(s[2..], "\r\n", " "));
      FlattenIsLineBreaksAsSpaces(s[2..]);
    } else {
      var inner := ReplaceAll(s[1..], "\r\n", " ");
      assert ReplaceAll(s, "\r\n", " ") == [s[0]] + inner by {
        if |s| >= 2 {
          assert s[..2] != "\r\n" by { assert s[..2][0] == s[0] && s[..2][1] == s[1]; }
        } else {
          assert s[1..] == [] && [s[0]] == s;
        }
      }
      if s[0] == '\n' {
        assert ([s[0]] + inner)[..1] == "\n";
        assert ([s[0]] + inner)[1..] == inner;
      } else {
        ReplaceAfterOther(s[0], inner);
      }
      FlattenIsLineBreaksAsSpaces(s[1..]);
    }
  }

  lemma ReplaceAfterOther(c: char, x: string)
    requires c != '\n'
    ensures ReplaceAll([c] + x, "\n", " ") == [c] + ReplaceAll(x, "\n", " ")
  {
    assert ([c] + x)[..1] == [c];
    assert ([c] + x)[1..] == x;
  }

  /** The content of the request's single user message. */
  function Prompt(text: string, targetLang: string): string {
    "Please translate this text '" + Flatten(text) + "' into " + targetLang
  }

  // ---------------------------------------------------------------------
  // The waits
  // ---------------------------------------------------------------------

  function Pow2(n: nat): (r: nat)
    ensures r >= 1
  {
    if n == 0 then 1 else 2 * Pow2(n - 1)
  }

  /** The wait after the failure of retry `r`: `min(1000 * 2^r, 10000)` milliseconds. */
  function Backoff(r: nat): (d: nat)
    ensures 1000 <= d <= MaxDelay
  {
    if 1000 * Pow2(r) < MaxDelay then 1000 * Pow2(r) else MaxDelay
  }

  /** The waits after the first `n` attempts. */
  function Backoffs(n: nat): (d: seq<nat>)
    ensures |d| == n
  {
    seq(n, r requires 0 <= r < n => Backoff(r))
  }

  lemma {:induction false} Pow2Grows(n: nat, m: nat)
    requires n <= m
    ensures Pow2(n) <= Pow2(m)
    decreases m - n
  {
    if n < m {
      Pow2Grows(n, m - 1);
    }
  }

  /** The waits double from one second and stay at ten seconds from the fifth
      retry on; with three retries they are one, two and four seconds. */
  lemma BackoffSchedule(r: nat)
    ensures Backoff(r) <= Backoff(r + 1)
    ensures r < 4 ==> Backoff(r) == 1000 * Pow2(r)
    ensures r >= 4 ==> Backoff(r) == MaxDelay
    ensures Backoffs(3) == [1000, 2000, 4000]
  {
    Pow2Grows(r, r + 1);
    if r >= 4 {
      Pow2Grows(4, r);
    }
    assert Pow2(2) == 4;
  }

  // ---------------------------------------------------------------------
  // One text
  // ---------------------------------------------------------------------

  /** `!text || text.trim() === ''`. */
  predicate IsBlank(text: string) {
    text == [] || JsTrim(text) == []
  }

  /** The loop ends after retry `r`: with an answer, after the last retry, or
      on an error about the API key. */
  predicate GivesUp(reply: FetchReply, r: int, maxRetries: int) {
    reply.Answered? || r >= maxRetries || Contains(ErrorOf(reply).message, ConfigPhrase)
  }

  /** The retry the loop ends on, counting from `from`. */
  function FinalRetry(fetch: (string, nat) -> FetchReply, prompt: string, maxRetries: int, from: nat): (k: nat)
    requires from <= maxRetries
    ensures from <= k <= maxRetries
    ensures GivesUp(fetch(prompt, k), k, maxRetries)
    ensures forall j :: from <= j < k ==> !GivesUp(fetch(prompt, j), j, maxRetries)
    decreases maxRetries - from
  {
    if GivesUp(fetch(prompt, from), from, maxRetries) then from
    else FinalRetry(fetch, prompt, maxRetries, from + 1)
  }

  /** What the retry loop and the `throw` after it settle with: `null` is
      thrown when the loop never runs, otherwise the answer or the error of
      the retry the loop ends on. */
  function RetryOutcome(fetch: (string, nat) -> FetchReply, prompt: string, maxRetries: int): (r: Completion<string>)
    ensures r == Threw(None) <==> maxRetries < 0
  {
    if maxRetries < 0 then Threw(None)
    else
      var reply := fetch(prompt, FinalRetry(fetch, prompt, maxRetries, 0));
      if reply.Answered? then Returned(reply.content) else Threw(Some(ErrorOf(reply)))
  }

  /** How many requests the retry loop sends. */
  function RetryRequests(fetch: (string, nat) -> FetchReply, prompt: string, maxRetries: int): (n: nat)
    ensures n == 0 <==> maxRetries < 0
    ensures maxRetries >= 0 ==> n <= maxRetries + 1
  {
    if maxRetries < 0 then 0 else FinalRetry(fetch, prompt, maxRetries, 0) + 1
  }

  /** What `translateText` settles with. */
  function TextTranslation(text: string, targetLang: string, config: Config, fetch: (string, nat) -> FetchReply)
    : (r: Completion<string>)
    ensures IsBlank(text) ==> r == Returned("")
    ensures !IsBlank(text) && config.apiKey == PlaceholderKey ==> r == Threw(Some(JsError(ConfigMessage)))
    ensures r == Threw(None) <==> !IsBlank(text) && config.apiKey != PlaceholderKey && config.maxRetries < 0
  {
    if IsBlank(text) then Returned("")
    else if config.apiKey == PlaceholderKey then Threw(Some(JsError(ConfigMessage)))
    else RetryOutcome(fetch, Prompt(text, targetLang), config.maxRetries)
  }

  /** How many requests `translateText` sends: none for a blank text, the
      placeholder key or a negative retry count, and at most `maxRetries + 1`. */
  function Requests(text: string, targetLang: string, config: Config, fetch: (string, nat) -> FetchReply): (n: nat)
    ensures n == 0 <==> IsBlank(text) || config.apiKey == PlaceholderKey || config.maxRetries < 0
    ensures n > 0 ==> n <= config.maxRetries + 1
  {
    if IsBlank(text) || config.apiKey == PlaceholderKey then 0
    else RetryRequests(fetch, Prompt(text, targetLang), config.maxRetries)
  }

  /** `DeepSeekAPI.translateText`. `sourceLang` is accepted and not used, as in the source. */
  method TranslateText(text: string, sourceLang: string, targetLang: string, config: Config,
                       fetch: (string, nat) -> FetchReply)
    returns (r: Completion<string>, attempts: nat, waits: seq<nat>)
    ensures r == TextTranslation(text, targetLang, config, fetch)
    ensures attempts == Requests(text, targetLang, config, fetch)
    ensures waits == Backoffs(if attempts == 0 then 0 else attempts - 1)
  {
    if text == [] || JsTrim(text) == [] {
      return Returned(""), 0, [];
    }
    if config.apiKey == PlaceholderKey {
      return Threw(Some(JsError(ConfigMessage))), 0, [];
    }
    var flattened := ReplaceAll(ReplaceAll(text, "\r\n", " "), "\n", " ");
    var prompt := "Please translate this text '" + flattened + "' into " + targetLang;
    assert prompt == Prompt(text, targetLang);
    r, attempts, waits := RetryLoop(prompt, config.maxRetries, fetch);
  }

  /** The retry loop of `translateText` and the `throw lastError` after it. */
  method RetryLoop(prompt: string, maxRetries: int, fetch: (string, nat) -> FetchReply)
    returns (r: Completion<string>, attempts: nat, waits: seq<nat>)
    ensures r == RetryOutcome(fetch, prompt, maxRetries)
    ensures attempts == RetryRequests(fetch, prompt, maxRetries)
    ensures waits == Backoffs(if attempts == 0 then 0 else attempts - 1)
  {
    var retries: nat := 0;
    var lastError: Option<JsError> := None;
    attempts, waits := 0, [];
    while retries <= maxRetries
      invariant retries <= maxRetries ==> retries <= FinalRetry(fetch, prompt, maxRetries, 0)
      invariant maxRetries >= 0 ==> retries <= maxRetries
      invariant maxRetries < 0 ==> retries == 0
      invariant attempts == retries && waits == Backoffs(retries)
      invariant retries == 0 ==> lastError == None
      decreases maxRetries - retries
    {
      var reply := fetch(prompt, retries);
      attempts := attempts + 1;
      if reply.Answered? {
        return Returned(reply.content), attempts, waits;
      }
      lastError := Some(ErrorOf(reply));
      if retries >= maxRetries || Contains(lastError.value.message, ConfigPhrase) {
        return Threw(lastError), attempts, waits;
      }
      var delay := if 1000 * Pow2(retries) < MaxDelay then 1000 * Pow2(retries) else MaxDelay;
      waits := waits + [delay];
      retries := retries + 1;
    }
    return Threw(lastError), attempts, waits;
  }

  /** A text is returned exactly when some attempt within the budget is answered
      and no earlier one failed with an error that stops the loop; the value is
      that answer's content. */
  lemma AnswerReturned(text: string, targetLang: string, config: Config, fetch: (string, nat) -> FetchReply)
    requires !IsBlank(text) && config.apiKey != PlaceholderKey && config.maxRetries >= 0
    ensures TextTranslation(text, targetLang, config, fetch).Returned? <==>
      exists k: nat :: k <= config.maxRetries && fetch(Prompt(text, targetLang), k).Answered?
        && forall j :: 0 <= j < k ==> !GivesUp(fetch(Prompt(text, targetLang), j), j, config.maxRetries)
    ensures forall k: nat ::
      (k <= config.maxRetries && fetch(Prompt(text, targetLang), k).Answered? &&
       (forall j :: 0 <= j < k ==> !GivesUp(fetch(Prompt(text, targetLang), j), j, config.maxRetries))) ==>
      TextTranslation(text, targetLang, config, fetch) == Returned(fetch(Prompt(text, targetLang), k).content)
  {
    AnswerExists(text, targetLang, config, fetch);
    AnswerValue(text, targetLang, config, fetch);
  }

  lemma AnswerExists(text: string, targetLang: string, config: Config, fetch: (string, nat) -> FetchReply)
    requires !IsBlank(text) && config.apiKey != PlaceholderKey && config.maxRetries >= 0
    ensures TextTranslation(text, targetLang, config, fetch).Returned? <==>
      exists k: nat :: k <= config.maxRetries && fetch(Prompt(text, targetLang), k).Answered?
        && forall j :: 0 <= j < k ==> !GivesUp(fetch(Prompt(text, targetLang), j), j, config.maxRetries)
  {
    FinalRetryAnswered(fetch, Prompt(text, targetLang), config.maxRetries);
  }

  /** The value returned is the content of the answer the loop ends on. */
  lemma AnswerValue(text: string, targetLang: string, config: Config, fetch: (string, nat) -> FetchReply)
    requires !IsBlank(text) && config.apiKey != PlaceholderKey && config.maxRetries >= 0
    ensures forall k: nat ::
      (k <= config.maxRetries && fetch(Prompt(text, targetLang), k).Answered? &&
       (forall j :: 0 <= j < k ==> !GivesUp(fetch(Prompt(text, targetLang), j), j, config.maxRetries))) ==>
      TextTranslation(text, targetLang, config, fetch) == Returned(fetch(Prompt(text, targetLang), k).content)
  {
    TranslationIsRetryOutcome(text, targetLang, config, fetch);
    RetryAnswered(fetch, Prompt(text, targetLang), config.maxRetries);
  }

  /** Past the blank-text and placeholder-key checks, `translateText` settles
      as its retry loop does. */
  lemma TranslationIsRetryOutcome(text: string, targetLang: string, config: Config, fetch: (string, nat) -> FetchReply)
    requires !IsBlank(text) && config.apiKey != PlaceholderKey
    ensures TextTranslation(text, targetLang, config, fetch) == RetryOutcome(fetch, Prompt(text, targetLang), config.maxRetries)
  {
  }

  /** The retry loop returns exactly when some retry is answered before any
      other ends the loop, and it returns that retry's content. */
  lemma RetryAnswered(fetch: (string, nat) -> FetchReply, prompt: string, maxRetries: int)
    requires maxRetries >= 0
    ensures RetryOutcome(fetch, prompt, maxRetries).Returned? <==>
      exists k: nat :: k <= maxRetries && fetch(prompt, k).Answered?
        && forall j :: 0 <= j < k ==> !GivesUp(fetch(prompt, j), j, maxRetries)
    ensures forall k: nat ::
      (k <= maxRetries && fetch(prompt, k).Answered? &&
       (forall j :: 0 <= j < k ==> !GivesUp(fetch(prompt, j), j, maxRetries))) ==>
      RetryOutcome(fetch, prompt, maxRetries) == Returned(fetch(prompt, k).content)
  {
    FinalRetryAnswered(fetch, prompt, maxRetries);
  }

  /** The retry the loop ends on is answered exactly when some retry is
      answered before any other ends the loop, and it is then that retry. */
  lemma FinalRetryAnswered(fetch: (string, nat) -> FetchReply, prompt: string, maxRetries: int)
    requires maxRetries >= 0
    ensures fetch(prompt, FinalRetry(fetch, prompt, maxRetries, 0)).Answered? <==>
      exists k: nat :: k <= maxRetries && fetch(prompt, k).Answered?
        && forall j :: 0 <= j < k ==> !GivesUp(fetch(prompt, j), j, maxRetries)
    ensures forall k: nat ::
      (k <= maxRetries && fetch(prompt, k).Answered? &&
       (forall j :: 0 <= j < k ==> !GivesUp(fetch(prompt, j), j, maxRetries))) ==>
      k == FinalRetry(fetch, prompt, maxRetries, 0)
  {
    var f := FinalRetry(fetch, prompt, maxRetries, 0);
    forall k: nat | k <= maxRetries && fetch(prompt, k).Answered?
        && forall j :: 0 <= j < k ==> !GivesUp(fetch(prompt, j), j, maxRetries)
      ensures k == f
    {
      assert f <= k;
    }
  }

  /** An error whose message mentions the API key ends the loop on the attempt
      that raised it, and that error is what is thrown. */
  lemma KeyErrorNotRetried(text: string, targetLang: string, config: Config,
                           fetch: (string, nat) -> FetchReply, k: nat)
    requires !IsBlank(text) && config.apiKey != PlaceholderKey && k <= config.maxRetries
    requires !fetch(Prompt(text, targetLang), k).Answered?
    requires Contains(ErrorOf(fetch(Prompt(text, targetLang), k)).message, ConfigPhrase)
    requires forall j :: 0 <= j < k ==> !GivesUp(fetch(Prompt(text, targetLang), j), j, config.maxRetries)
    ensures TextTranslation(text, targetLang, config, fetch) == Threw(Some(ErrorOf(fetch(Prompt(text, targetLang), k))))
    ensures Requests(text, targetLang, config, fetch) == k + 1
  {
    assert FinalRetry(fetch, Prompt(text, targetLang), config.maxRetries, 0) == k;
  }

  /** When every attempt fails with an ordinary error, `maxRetries + 1` requests
      are sent and the last attempt's error is thrown: the `throw lastError`
      after the loop is reached only when `maxRetries` is negative. */
  lemma ExhaustedThrowsLastError(text: string, targetLang: string, config: Config,
                                 fetch: (string, nat) -> FetchReply)
    requires !IsBlank(text) && config.apiKey != PlaceholderKey && config.maxRetries >= 0
    requires forall j: nat :: j <= config.maxRetries ==>
      !fetch(Prompt(text, targetLang), j).Answered? && !Contains(ErrorOf(fetch(Prompt(text, targetLang), j)).message, ConfigPhrase)
    ensures TextTranslation(text, targetLang, config, fetch)
         == Threw(Some(ErrorOf(fetch(Prompt(text, targetLang), config.maxRetries as nat))))
    ensures Requests(text, targetLang, config, fetch) == config.maxRetries + 1
  {
    var prompt := Prompt(text, targetLang);
    var f := FinalRetry(fetch, prompt, config.maxRetries, 0);
    assert !fetch(prompt, f).Answered?;
    assert f == config.maxRetries;
  }

  // ---------------------------------------------------------------------
  // A list of texts
  // ---------------------------------------------------------------------

  /** What each text's own `translateText` call would settle with; text `i`
      talks to `fetchFor(i)`. */
  function Translations(texts: seq<string>, targetLang: string, config: Config,
                        fetchFor: nat -> (string, nat) -> FetchReply): (r: seq<Completion<string>>)
    ensures |r| == |texts|
    ensures forall i :: 0 <= i < |texts| ==> r[i] == TextTranslation(texts[i], targetLang, config, fetchFor(i))
  {
    seq(|texts|, i requires 0 <= i < |texts| => TextTranslation(texts[i], targetLang, config, fetchFor(i)))
  }

  predicate AllReturned(outcomes: seq<Completion<string>>) {
    forall i :: 0 <= i < |outcomes| ==> outcomes[i].Returned?
  }

  function Values(outcomes: seq<Completion<string>>): (r: seq<string>)
    requires AllReturned(outcomes)
    ensures |r| == |outcomes|
    ensures forall i :: 0 <= i < |outcomes| ==> r[i] == outcomes[i].value
  {
    seq(|outcomes|, i requires 0 <= i < |outcomes| => outcomes[i].value)
  }

  /** The first call, in settling order, that threw: every call that settled
      before it returned. */
  function FirstRejected(outcomes: seq<Completion<string>>, order: seq<nat>): (r: Option<nat>)
    ensures r.Some? ==> r.value in order && r.value < |outcomes| && outcomes[r.value].Threw?
    ensures r.Some? ==>
      exists k :: 0 <= k < |order| && order[k] == r.value &&
        (forall j :: 0 <= j < k && order[j] < |outcomes| ==> outcomes[order[j]].Returned?)
    ensures r.None? ==> forall k :: 0 <= k < |order| && order[k] < |outcomes| ==> outcomes[order[k]].Returned?
  {
    var k := FirstRejectedAt(outcomes, order, 0);
    if k == |order| then None else Some(order[k])
  }

  /** Where, in settling order from `from` on, the first call that threw settles;
      the length of `order` when none did. */
  function FirstRejectedAt(outcomes: seq<Completion<string>>, order: seq<nat>, from: nat): (k: nat)
    requires from <= |order|
    ensures from <= k <= |order|
    ensures forall j :: from <= j < k && order[j] < |outcomes| ==> outcomes[order[j]].Returned?
    ensures k < |order| ==> order[k] < |outcomes| && outcomes[order[k]].Threw?
    decreases |order| - from
  {
    if from == |order| then from
    else if order[from] < |outcomes| && outcomes[order[from]].Threw? then from
    else FirstRejectedAt(outcomes, order, from + 1)
  }

  /** `Promise.all`: every value in position order when every call returns,
      otherwise the reason of the first call to throw; `order` is the order in
      which the calls settle. */
  function PromiseAll(outcomes: seq<Completion<string>>, order: seq<nat>): (r: Completion<seq<string>>)
    requires forall i :: 0 <= i < |outcomes| ==> i in order
    ensures r.Returned? <==> AllReturned(outcomes)
    ensures r.Returned? ==> r.value == Values(outcomes)
    ensures r.Threw? ==> exists i :: 0 <= i < |outcomes| && outcomes[i] == Threw(r.error)
    ensures r.Threw? ==> FirstRejected(outcomes, order).Some? && outcomes[FirstRejected(outcomes, order).value] == Threw(r.error)
  {
    match FirstRejected(outcomes, order)
    case Some(i) =>
      assert outcomes[i] == Threw(outcomes[i].error);
      Threw(outcomes[i].error)
    case None =>
      assert AllReturned(outcomes) by {
        forall i | 0 <= i < |outcomes| ensures outcomes[i].Returned? {
          assert i in order;
          var k :| 0 <= k < |order| && order[k] == i;
        }
      }
      Returned(Values(outcomes))
  }

  /** The position of the first call that threw, or the length when none did. */
  function FirstThrown(outcomes: seq<Completion<string>>): (k: nat)
    ensures k <= |outcomes|
    ensures forall j :: 0 <= j < k ==> outcomes[j].Returned?
    ensures k < |outcomes| ==> outcomes[k].Threw?
  {
    if outcomes == [] || outcomes[0].Threw? then 0 else 1 + FirstThrown(outcomes[1..])
  }

  /** The sequential loop: every value in position order when every call
      returns, otherwise the error of the first call to throw. */
  function InSequence(outcomes: seq<Completion<string>>): (r: Completion<seq<string>>)
    ensures r.Returned? <==> AllReturned(outcomes)
    ensures r.Returned? ==> r.value == Values(outcomes)
    ensures r.Threw? ==> FirstThrown(outcomes) < |outcomes| && outcomes[FirstThrown(outcomes)] == Threw(r.error)
  {
    var k := FirstThrown(outcomes);
    if k == |outcomes| then Returned(Values(outcomes))
    else
      assert outcomes[k] == Threw(outcomes[k].error);
      Threw(outcomes[k].error)
  }

  /** What `translateBatch` settles with. */
  function BatchOutcome(texts: seq<string>, targetLang: string, config: Config,
                            fetchFor: nat -> (string, nat) -> FetchReply, order: seq<nat>)
    : Completion<seq<string>>
    requires |texts| <= ParallelLimit ==> forall i :: 0 <= i < |texts| ==> i in order
  {
    var outcomes := Translations(texts, targetLang, config, fetchFor);
    if |texts| <= ParallelLimit then PromiseAll(outcomes, order) else InSequence(outcomes)
  }

  /** How many texts `translateBatch` starts a `translateText` call for: all of
      them in parallel, and in sequence those up to the first failure. */
  function BatchCalls(texts: seq<string>, targetLang: string, config: Config,
                      fetchFor: nat -> (string, nat) -> FetchReply): (n: nat)
    ensures n <= |texts|
  {
    var k := FirstThrown(Translations(texts, targetLang, config, fetchFor));
    if |texts| <= ParallelLimit || k == |texts| then |texts| else k + 1
  }

  lemma ValuesSnoc(outcomes: seq<Completion<string>>, i: nat)
    requires i < |outcomes| && AllReturned(outcomes[..i]) && outcomes[i].Returned?
    ensures AllReturned(outcomes[..i + 1])
    ensures Values(outcomes[..i + 1]) == Values(outcomes[..i]) + [outcomes[i].value]
  {
    assert outcomes[..i + 1] == outcomes[..i] + [outcomes[i]];
  }

  /** `DeepSeekAPI.translateBatch`: the parallel branch for short lists, the
      sequential loop otherwise. */
  method TranslateBatch(texts: seq<string>, sourceLang: string, targetLang: string, config: Config,
                        fetchFor: nat -> (string, nat) -> FetchReply, order: seq<nat>)
    returns (r: Completion<seq<string>>, calls: nat)
    requires |texts| <= ParallelLimit ==> forall i :: 0 <= i < |texts| ==> i in order
    ensures r == BatchOutcome(texts, targetLang, config, fetchFor, order)
    ensures calls == BatchCalls(texts, targetLang, config, fetchFor)
  {
    if |texts| <= ParallelLimit {
      return PromiseAll(Translations(texts, targetLang, config, fetchFor), order), |texts|;
    }
    r, calls := TranslateInSequence(texts, sourceLang, targetLang, config, fetchFor);
  }

  /** The `for ... of` loop of `translateBatch`: one call after another,
      stopping at the first that throws. */
  method TranslateInSequence(texts: seq<string>, sourceLang: string, targetLang: string, config: Config,
                             fetchFor: nat -> (string, nat) -> FetchReply)
    returns (r: Completion<seq<string>>, calls: nat)
    ensures r == InSequence(Translations(texts, targetLang, config, fetchFor))
    ensures calls == (var k := FirstThrown(Translations(texts, targetLang, config, fetchFor));
                      if k == |texts| then k else k + 1)
  {
    ghost var outcomes := Translations(texts, targetLang, config, fetchFor);
    var results := [];
    for i := 0 to |texts|
      invariant AllReturned(outcomes[..i]) && results == Values(outcomes[..i])
    {
      var t, _, _ := TranslateText(texts[i], sourceLang, targetLang, config, fetchFor(i));
      assert t == outcomes[i];
      if t.Threw? {
        FirstThrownAt(outcomes, i);
        return Threw(t.error), i + 1;
      }
      ValuesSnoc(outcomes, i);
      results := results + [t.value];
    }
    assert outcomes[..|texts|] == outcomes;
    r, calls := Returned(results), |texts|;
  }

  lemma FirstThrownAt(outcomes: seq<Completion<string>>, i: nat)
    requires i < |outcomes| && AllReturned(outcomes[..i]) && outcomes[i].Threw?
    ensures FirstThrown(outcomes) == i
  {
    assert forall j :: 0 <= j < i ==> outcomes[..i][j] == outcomes[j];
  }

  /** The values come back one per text, in the order of the texts, whichever
      branch runs and whatever order the parallel calls settle in. */
  lemma BatchKeepsOrder(texts: seq<string>, targetLang: string, config: Config,
                        fetchFor: nat -> (string, nat) -> FetchReply, order: seq<nat>)
    requires |texts| <= ParallelLimit ==> forall i :: 0 <= i < |texts| ==> i in order
    ensures BatchOutcome(texts, targetLang, config, fetchFor, order).Returned? <==>
      forall i :: 0 <= i < |texts| ==> TextTranslation(texts[i], targetLang, config, fetchFor(i)).Returned?
    ensures BatchOutcome(texts, targetLang, config, fetchFor, order).Returned? ==>
      var values := BatchOutcome(texts, targetLang, config, fetchFor, order).value;
      |values| == |texts| &&
      forall i :: 0 <= i < |texts| ==> values[i] == TextTranslation(texts[i], targetLang, config, fetchFor(i)).value
  {
    var outcomes := Translations(texts, targetLang, config, fetchFor);
    if |texts| <= ParallelLimit {
      var first := FirstRejected(outcomes, order);
      if first.Some? {
        assert !outcomes[first.value].Returned?;
      }
    } else {
      var k := FirstThrown(outcomes);
      if k < |texts| {
        assert !outcomes[k].Returned?;
      }
    }
  }

  /** When the list fails, what it throws is what one of its calls threw; in
      sequence it is the first failing text's error. */
  lemma BatchRejection(texts: seq<string>, targetLang: string, config: Config,
                       fetchFor: nat -> (string, nat) -> FetchReply, order: seq<nat>)
    requires |texts| <= ParallelLimit ==> forall i :: 0 <= i < |texts| ==> i in order
    ensures BatchOutcome(texts, targetLang, config, fetchFor, order).Threw? ==>
      exists i :: 0 <= i < |texts| &&
        TextTranslation(texts[i], targetLang, config, fetchFor(i))
          == Threw(BatchOutcome(texts, targetLang, config, fetchFor, order).error)
    ensures |texts| > ParallelLimit && BatchOutcome(texts, targetLang, config, fetchFor, order).Threw? ==>
      var k := FirstThrown(Translations(texts, targetLang, config, fetchFor));
      k < |texts| && BatchCalls(texts, targetLang, config, fetchFor) == k + 1 &&
      TextTranslation(texts[k], targetLang, config, fetchFor(k))
        == Threw(BatchOutcome(texts, targetLang, config, fetchFor, order).error)
  {
    var outcomes := Translations(texts, targetLang, config, fetchFor);
    if |texts| <= ParallelLimit {
      var first := FirstRejected(outcomes, order);
      if first.Some? {
        assert outcomes[first.value] == Threw(outcomes[first.value].error);
      }
    } else {
      var k := FirstThrown(outcomes);
      if k < |texts| {
        assert outcomes[k] == Threw(outcomes[k].error);
      }
    }
  }
}
