/** The `IntelligentRetry` plugin (main.py:18-135): its settings, and the
    `check_and_retry` hook that re-asks the model when the reply is bad.

    The model call `_perform_retry` is an oracle: `respond(k)` is what attempt `k`
    yields, `None` when there is no provider, the call raised, or the response has
    no completion text. */
module Plugin {
  import opened Wrappers
  import opened Text
  import opened Keywords
  import opened Classifier

  /** What the hook leaves the event with. */
  datatype Outcome = Untouched | Replaced(text: string) | ClearedAndStopped

  /** One run of the hook: its outcome, the number of model calls and the number of
      pauses of `retry_delay` it took. */
  datatype Run = Run(outcome: Outcome, calls: nat, delays: nat)

  /** The text one attempt yields (main.py:122): the stripped completion text, or
      the empty text when the call produced none. */
  function AttemptText(response: Option<string>): (text: string)
    ensures IsTrimmed(text)
    ensures response.None? ==> text == ""
    ensures response.Some? ==> (text == "" <==> IsBlank(response.value))
  {
    match response
    case None => ""
    case Some(completion) => Strip(completion)
  }

  /** An attempt's text is taken as the new reply when it is non-empty and its
      lower-cased form holds no keyword (main.py:123). */
  predicate Acceptable(text: string, keywords: seq<string>) {
    text != "" && !HasKeyword(Lower(text), keywords)
  }

  /** Attempt number `attempt` produces an acceptable text. */
  predicate Succeeds(keywords: seq<string>, respond: nat -> Option<string>, attempt: nat) {
    Acceptable(AttemptText(respond(attempt)), keywords)
  }

  /** The first attempt in `from..last` that succeeds, or `last + 1` when none does. */
  function FirstSuccess(keywords: seq<string>, respond: nat -> Option<string>, from: nat, last: nat): (k: nat)
    requires from <= last + 1
    ensures from <= k <= last + 1
    ensures k <= last ==> Succeeds(keywords, respond, k)
    ensures forall j :: from <= j < k ==> !Succeeds(keywords, respond, j)
    decreases last + 1 - from
  {
    if from > last then from
    else if Succeeds(keywords, respond, from) then from
    else FirstSuccess(keywords, respond, from + 1, last)
  }

  /** An attempt that succeeds after only failures is the first success. */
  lemma FirstSuccessAt(keywords: seq<string>, respond: nat -> Option<string>, from: nat, last: nat, k: nat)
    requires from <= k <= last
    requires Succeeds(keywords, respond, k)
    requires forall j :: from <= j < k ==> !Succeeds(keywords, respond, j)
    ensures FirstSuccess(keywords, respond, from, last) == k
  {
  }

  /** The hook retries only when retries are enabled, there is a result, the result is
      bad and the user's own message is not blank (main.py:86-92, 116). */
  predicate RetryEnabled(maxAttempts: int, keywords: seq<string>, userMessage: string, result: Option<Reply>) {
    maxAttempts > 0 && result.Some? && IsBadReply(result.value, keywords) && !IsBlank(userMessage)
  }

  /** What `check_and_retry` does, in closed form: attempts 1, 2, ... run until the
      first acceptable one, with a pause after every failed attempt but the last. */
  function Decide(maxAttempts: int, keywords: seq<string>, userMessage: string,
                  result: Option<Reply>, respond: nat -> Option<string>): Run
  {
    if !RetryEnabled(maxAttempts, keywords, userMessage, result) then
      Run(Untouched, 0, 0)
    else
      var k := FirstSuccess(keywords, respond, 1, maxAttempts);
      if k <= maxAttempts then Run(Replaced(AttemptText(respond(k))), k, k - 1)
      else Run(ClearedAndStopped, maxAttempts, maxAttempts - 1)
  }

  /** The result is left alone, with no model call and no pause, exactly when
      retries are disabled, there is no result, the result is not bad, or the
      user's message strips to nothing. */
  lemma UntouchedIff(maxAttempts: int, keywords: seq<string>, userMessage: string,
                     result: Option<Reply>, respond: nat -> Option<string>)
    ensures var run := Decide(maxAttempts, keywords, userMessage, result, respond);
      (run.outcome == Untouched <==>
         maxAttempts <= 0 || result.None? || !IsBadReply(result.value, keywords) || Strip(userMessage) == "")
      && (run.outcome == Untouched ==> run.calls == 0 && run.delays == 0)
  {
  }

  /** A replacement is the text of the first acceptable attempt: that attempt is the
      last call made, every earlier attempt failed, and one pause followed each of them. */
  lemma ReplacedIsFirstAcceptable(maxAttempts: int, keywords: seq<string>, userMessage: string,
                                  result: Option<Reply>, respond: nat -> Option<string>)
    ensures var run := Decide(maxAttempts, keywords, userMessage, result, respond);
      run.outcome.Replaced? ==>
        && 1 <= run.calls <= maxAttempts
        && run.outcome.text == AttemptText(respond(run.calls))
        && Succeeds(keywords, respond, run.calls)
        && (forall j :: 1 <= j < run.calls ==> !Succeeds(keywords, respond, j))
        && run.delays == run.calls - 1
  {
  }

  /** A replacement is a clean reply: non-empty, trimmed, keyword-free, and not a bad
      reply itself, so the hook would leave it alone. */
  lemma ReplacementIsClean(maxAttempts: int, keywords: seq<string>, userMessage: string,
                           result: Option<Reply>, respond: nat -> Option<string>)
    ensures var run := Decide(maxAttempts, keywords, userMessage, result, respond);
      run.outcome.Replaced? ==>
        && run.outcome.text != ""
        && IsTrimmed(run.outcome.text)
        && !HasKeyword(Lower(run.outcome.text), keywords)
        && !IsBadReply(PlainResult(run.outcome.text), keywords)
  {
    var run := Decide(maxAttempts, keywords, userMessage, result, respond);
    if run.outcome.Replaced? {
      var t := run.outcome.text;
      StripTrimmed(t);
      PlainResultHasContent(t);
    }
  }

  /** The result is replaced exactly when retrying is enabled and some attempt within
      the budget succeeds. */
  lemma ReplacedIff(maxAttempts: int, keywords: seq<string>, userMessage: string,
                    result: Option<Reply>, respond: nat -> Option<string>)
    ensures Decide(maxAttempts, keywords, userMessage, result, respond).outcome.Replaced? <==>
      RetryEnabled(maxAttempts, keywords, userMessage, result) &&
      exists k :: 1 <= k <= maxAttempts && Succeeds(keywords, respond, k)
  {
  }

  /** The result is cleared and the event stopped exactly when retrying is enabled and
      every attempt fails; then all `maxAttempts` calls were made with a pause between
      consecutive ones and none after the last. */
  lemma ExhaustedIff(maxAttempts: int, keywords: seq<string>, userMessage: string,
                     result: Option<Reply>, respond: nat -> Option<string>)
    ensures var run := Decide(maxAttempts, keywords, userMessage, result, respond);
      (run.outcome == ClearedAndStopped <==>
         RetryEnabled(maxAttempts, keywords, userMessage, result) &&
         forall k :: 1 <= k <= maxAttempts ==> !Succeeds(keywords, respond, k))
      && (run.outcome == ClearedAndStopped ==> run.calls == maxAttempts && run.delays == maxAttempts - 1)
  {
  }

  /** At most `maxAttempts` calls are made, and never a pause after the last call. */
  lemma CallsBounded(maxAttempts: int, keywords: seq<string>, userMessage: string,
                     result: Option<Reply>, respond: nat -> Option<string>)
    ensures var run := Decide(maxAttempts, keywords, userMessage, result, respond);
      && run.calls <= (if maxAttempts > 0 then maxAttempts else 0)
      && run.delays == (if run.calls > 0 then run.calls - 1 else 0)
  {
  }

  /** A call that yields nothing is a failed attempt, not an error. */
  lemma MissingResponseFails(keywords: seq<string>, respond: nat -> Option<string>, attempt: nat)
    requires respond(attempt).None?
    ensures !Succeeds(keywords, respond, attempt)
  {
  }

  /** With the default budget of three attempts and a model that never yields text,
      the hook makes three calls, pauses twice, and clears the result. */
  lemma ThreeSilentAttemptsExhaust(keywords: seq<string>, userMessage: string, result: Option<Reply>)
    requires RetryEnabled(DefaultMaxAttempts, keywords, userMessage, result)
    ensures Decide(DefaultMaxAttempts, keywords, userMessage, result, _ => None) == Run(ClearedAndStopped, 3, 2)
  {
    var silent: nat -> Option<string> := _ => None;
    assert FirstSuccess(keywords, silent, 1, 3) == 4;
  }

  /** The event `check_and_retry` decorates: the user's message, the current result,
      and whether the event's propagation was stopped. */
  class Event {
    const messageStr: string
    var result: Option<Reply>
    var stopped: bool

    constructor (messageStr: string, result: Option<Reply>)
      ensures this.messageStr == messageStr && this.result == result && !stopped
    {
      this.messageStr := messageStr;
      this.result := result;
      this.stopped := false;
    }
  }

  /** The plugin: its settings are fixed at construction, and the hook changes only
      the event it is given. */
  class IntelligentRetry {
    const maxAttempts: int
    const retryDelay: int
    const errorKeywords: seq<string>

    /** `__init__` (main.py:26-36): each key falls back to its default when absent. */
    constructor (config: Config)
      ensures maxAttempts == config.maxAttempts.GetOr(DefaultMaxAttempts)
      ensures retryDelay == config.retryDelay.GetOr(DefaultRetryDelay)
      ensures errorKeywords == ParseKeywords(config.errorKeywords.GetOr(DefaultKeywordText))
      ensures config.errorKeywords.None? ==> errorKeywords == DefaultKeywords
      ensures forall i :: 0 <= i < |errorKeywords| ==> IsStoredKeyword(errorKeywords[i])
    {
      maxAttempts := config.maxAttempts.GetOr(DefaultMaxAttempts);
      retryDelay := config.retryDelay.GetOr(DefaultRetryDelay);
      var keywordsText := config.errorKeywords.GetOr(DefaultKeywordText);
      errorKeywords := ParseKeywords(keywordsText);
      if config.errorKeywords.None? {
        DefaultKeywordsParsed();
      }
    }

    /** `check_and_retry` (main.py:81-135). Returns the number of model calls and the
        number of pauses of `retryDelay`; the event ends as `Decide` says. */
    method CheckAndRetry(event: Event, respond: nat -> Option<string>) returns (calls: nat, delays: nat)
      modifies event
      ensures var run := Decide(maxAttempts, errorKeywords, event.messageStr, old(event.result), respond);
        && calls == run.calls
        && delays == run.delays
        && (run.outcome == Untouched ==> event.result == old(event.result) && event.stopped == old(event.stopped))
        && (run.outcome.Replaced? ==>
              event.result == Some(PlainResult(run.outcome.text)) && event.stopped == old(event.stopped))
        && (run.outcome == ClearedAndStopped ==> event.result == None && event.stopped)
    {
      calls, delays := 0, 0;
      if maxAttempts <= 0 {
        return;
      }
      var result := event.result;
      if result.None? {
        return;
      }
      var messageStr := result.value.plainText;
      var shouldRetry := false;
      if messageStr != "" {
        var lowerMessageStr := Lower(messageStr);
        if HasKeyword(lowerMessageStr, errorKeywords) {
          shouldRetry := true;
        }
      }
      if !shouldRetry {
        var hasContent := HasContent(result.value.chain);
        if !hasContent {
          shouldRetry := true;
        }
      }
      assert shouldRetry == IsBadReply(result.value, errorKeywords);
      if shouldRetry && Strip(event.messageStr) != "" {
        for attempt := 1 to maxAttempts + 1
          invariant calls == attempt - 1
          invariant delays == if attempt <= maxAttempts then attempt - 1 else maxAttempts - 1
          invariant forall j :: 1 <= j < attempt ==> !Succeeds(errorKeywords, respond, j)
          invariant event.result == old(event.result) && event.stopped == old(event.stopped)
        {
          var newResponse := respond(attempt);
          calls := calls + 1;
          var newText := AttemptText(newResponse);
          if newText != "" && !HasKeyword(Lower(newText), errorKeywords) {
            event.result := Some(PlainResult(newText));
            assert Succeeds(errorKeywords, respond, attempt);
            FirstSuccessAt(errorKeywords, respond, 1, maxAttempts, attempt);
            return;
          }
          if attempt < maxAttempts {
            delays := delays + 1;
          }
        }
        event.result := None;
        event.stopped := true;
      }
    }
  }
}
