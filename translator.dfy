/**
 * `translate`: one call to the remote language model, reduced to what the
 * batch loop sees of it — the cleaned translation and its token count, or a
 * failure classed as quota exhaustion or as any other error. The network call
 * itself is not modelled; its answer is a `Reply` value.
 */
module Translator {
  import opened Wrappers
  import opened Text

  /** What the remote call comes back with: a response (its text and, when the
      response carries usage metadata, the total token count) or a raised
      exception, of which only the message matters. */
  datatype Reply =
    | Response(text: string, usage: Option<nat>)
    | Raised(message: string)

  datatype Failure = QuotaExhausted | OtherError

  /** The outcome of `translate` as the caller sees it. */
  datatype Translation =
    | Translated(text: string, tokens: nat)
    | Failed(failure: Failure)

  /** The instruction sent to the model; the source text is quoted at its end. */
  function Prompt(text: string, source: string, target: string): string {
    "Translate the following " + source + " text to " + target + ":\n\n\"" + text + "\""
  }

  /** The prompt ends with the source text in double quotes. */
  lemma PromptQuotesText(text: string, source: string, target: string)
    ensures var p := Prompt(text, source, target);
      |p| >= |text| + 2 && p[|p| - |text| - 2..] == "\"" + text + "\""
  {
  }

  /** `pattern` occurs in `s` starting at position `i`. */
  predicate OccursAt(s: string, pattern: string, i: nat) {
    i + |pattern| <= |s| && s[i..i + |pattern|] == pattern
  }

  ghost predicate HasSubstring(s: string, pattern: string) {
    exists i: nat :: OccursAt(s, pattern, i)
  }

  /** Python's `pattern in s` on strings. */
  function Contains(s: string, pattern: string): (b: bool)
    ensures b <==> HasSubstring(s, pattern)
    decreases |s|
  {
    if OccursAt(s, pattern, 0) then
      true
    else if s == [] then
      false
    else
      var b := Contains(s[1..], pattern);
      assert b ==> HasSubstring(s, pattern) by {
        if b {
          var i: nat :| OccursAt(s[1..], pattern, i);
          assert s[1..][i..i + |pattern|] == s[i + 1..i + 1 + |pattern|];
          assert OccursAt(s, pattern, i + 1);
        }
      }
      assert HasSubstring(s, pattern) ==> b by {
        if HasSubstring(s, pattern) {
          var i: nat :| OccursAt(s, pattern, i);
          assert i != 0;
          assert s[1..][i - 1..i - 1 + |pattern|] == s[i..i + |pattern|];
          assert OccursAt(s[1..], pattern, i - 1);
        }
      }
      b
  }

  /** A failure counts as quota exhaustion when its message mentions
      RESOURCE_EXHAUSTED or the HTTP status 429. */
  function Classify(message: string): (f: Failure)
    ensures f == QuotaExhausted <==>
      HasSubstring(message, "RESOURCE_EXHAUSTED") || HasSubstring(message, "429")
  {
    if Contains(message, "RESOURCE_EXHAUSTED") || Contains(message, "429") then QuotaExhausted
    else OtherError
  }

  /** `translate`: the response text is stripped and cleaned; a response
      without usage metadata counts zero tokens; an exception becomes a
      classified failure. */
  function Translate(reply: Reply): (t: Translation)
    ensures t.Translated? <==> reply.Response?
  {
    match reply
    case Response(text, usage) => Translated(CleanText(Strip(text)), usage.GetOr(0))
    case Raised(message) => Failed(Classify(message))
  }

  /** What the caller gets from `translate`: a successful reply yields the
      input's words joined by single spaces (stripping first makes no
      difference) and the reported token count, or zero when none is reported;
      a raised exception yields a failure that is classed as quota exhaustion
      exactly when its message mentions RESOURCE_EXHAUSTED or 429. */
  lemma TranslateOutcome(reply: Reply)
    ensures var t := Translate(reply);
      && (t.Translated? ==>
        && t.text == CleanText(reply.text)
        && IsClean(t.text)
        && Split(t.text) == Split(reply.text)
        && t.tokens == (if reply.usage.Some? then reply.usage.value else 0))
      && (t.Failed? ==>
        (t.failure == QuotaExhausted <==>
          HasSubstring(reply.message, "RESOURCE_EXHAUSTED") || HasSubstring(reply.message, "429")))
  {
    match reply
    case Response(text, usage) =>
      CleanTextAfterStrip(text);
      CleanTextShape(text);
      CleanTextKeepsWords(text);
    case Raised(message) =>
      var f := Classify(message);
  }
}
