/**
 * The slug derivation of src/utils/slug.ts: the offline heuristic
 * (`generateSimpleSlug`), the post-processing of the CLI's answer
 * (`callClaudeCode`), the cleanup of the long-prompt answer
 * (`generateLongPromptSlug`) and the first-success chain of `generateSlug`.
 *
 * The clock, the environment, the CLI subprocess and the HTTP API are not
 * modelled; what they answer is passed in (`now`, `Collaborators`).
 */
module Slug {
  import opened Wrappers
  import opened JsString
  import opened Words

  // ---------------------------------------------------------------------------
  // Constants
  // ---------------------------------------------------------------------------

  const FallbackPrefix: string := "dmux-"

  const SimpleMaxWords: nat := 3
  const SimpleMaxLength: nat := 30
  const LongMaxWords: nat := 5
  const LongMaxLength: nat := 40
  const LongPromptChars: nat := 100
  const LongPromptWords: nat := 15

  /** The words `generateSimpleSlug` drops: the set literal of lines 14-22,
      one constant per source line. */
  const StopwordsPart1: set<string> := {"the", "a", "an", "and", "or", "but", "in", "on", "at", "to", "for"}
  const StopwordsPart2: set<string> := {"of", "with", "from", "by", "as", "is", "are", "was", "were", "be"}
  const StopwordsPart3: set<string> := {"been", "being", "have", "has", "had", "do", "does", "did", "will"}
  const StopwordsPart4: set<string> := {"would", "should", "could", "may", "might", "can", "this", "that"}
  const StopwordsPart5: set<string> := {"these", "those", "it", "its", "new", "page", "please", "just", "into"}
  const StopwordsPart6: set<string> := {"than", "them", "then", "now", "only", "some", "all", "my", "your"}
  const StopwordsPart7: set<string> := {"our", "their"}
  const Stopwords: set<string> :=
    StopwordsPart1 + StopwordsPart2 + StopwordsPart3 + StopwordsPart4
    + StopwordsPart5 + StopwordsPart6 + StopwordsPart7

  /** The remote models, in the order they are tried. */
  const Models: seq<string> := ["google/gemini-2.5-flash", "x-ai/grok-4-fast:free", "openai/gpt-4o-mini"]

  // ---------------------------------------------------------------------------
  // Shapes of results
  // ---------------------------------------------------------------------------

  /** `[a-z0-9_-]`: what the heuristic can emit. */
  predicate IsHeuristicChar(c: char)
  {
    IsSlugChar(c) || c == '_'
  }

  predicate NoDoubleHyphen(s: string)
  {
    forall i :: 0 <= i < |s| - 1 ==> !(s[i] == '-' && s[i + 1] == '-')
  }

  /** `^[a-z0-9-]+$` with no leading or trailing hyphen and no `--`. */
  predicate IsKebab(s: string)
  {
    && s != []
    && (forall i :: 0 <= i < |s| ==> IsSlugChar(s[i]))
    && s[0] != '-'
    && s[|s| - 1] != '-'
    && NoDoubleHyphen(s)
  }

  predicate StartsWith(s: string, prefix: string)
  {
    |prefix| <= |s| && s[..|prefix|] == prefix
  }

  // ---------------------------------------------------------------------------
  // Shared pieces
  // ---------------------------------------------------------------------------

  /** `dmux-${Date.now()}`, with the clock reading passed in: `^dmux-\d+$`. */
  function Fallback(now: nat): (r: string)
    ensures StartsWith(r, FallbackPrefix) && |r| > |FallbackPrefix|
    ensures forall i :: |FallbackPrefix| <= i < |r| ==> '0' <= r[i] <= '9'
  {
    FallbackPrefix + Decimal(now)
  }

  /** `xs.slice(0, n)` */
  function Take<T>(xs: seq<T>, n: nat): (r: seq<T>)
    ensures |r| == if |xs| <= n then |xs| else n
    ensures r == xs[..|r|]
  {
    if |xs| <= n then xs else xs[..n]
  }

  /** Lines 43-47 and 127-131: cut to `max` characters, then back to the last
      hyphen of the cut when that hyphen is after index 0. */
  function CapLength(s: string, max: nat): (r: string)
    ensures |s| <= max ==> r == s
    ensures |s| > max ==> |r| <= max && r == s[..|r|]
    ensures s != [] && max > 0 ==> r != []
  {
    if |s| > max then
      var cut := s[..max];
      var lastHyphen := LastIndexOf(cut, '-');
      if lastHyphen > 0 then cut[..lastHyphen] else cut
    else s
  }

  /** `.trim().toLowerCase().replace(/[^a-z0-9-]/g, '')`, applied to the API's
      and to the short CLI call's answers. */
  function SlugChars(text: string): (r: string)
    ensures forall i :: 0 <= i < |r| ==> IsSlugChar(r[i])
  {
    Retain(ToLower(Trim(text)), IsSlugChar)
  }

  // ---------------------------------------------------------------------------
  // generateSimpleSlug (lines 8-50)
  // ---------------------------------------------------------------------------

  /** `[\w-]` */
  predicate IsTokenChar(c: char)
  {
    IsWordChar(c) || c == '-'
  }

  predicate IsTokenCharOrSpace(c: char)
  {
    IsTokenChar(c) || IsSpace(c)
  }

  /** `prompt.toLowerCase().replace(/[^\w\s-]/g, ' ')` */
  function Blank(prompt: string): (r: string)
  {
    ReplaceOutside(ToLower(prompt), IsTokenCharOrSpace, ' ')
  }

  /** `filter(word => word.length > 0 && !stopwords.has(word))` */
  function KeepMeaningful(ws: seq<string>): (r: seq<string>)
    ensures forall k :: 0 <= k < |r| ==> r[k] != [] && r[k] !in Stopwords && r[k] in ws
  {
    if ws == [] then []
    else (if ws[0] != [] && ws[0] !in Stopwords then [ws[0]] else []) + KeepMeaningful(ws[1..])
  }

  /** `filter(word => !stopwords.has(word))` on a list of words. */
  function DropStopwords(ws: seq<string>): (r: seq<string>)
    ensures forall k :: 0 <= k < |r| ==> r[k] !in Stopwords
  {
    if ws == [] then []
    else (if ws[0] !in Stopwords then [ws[0]] else []) + DropStopwords(ws[1..])
  }

  /** Lines 25-31: the surviving words of the prompt. */
  function Tokens(prompt: string): seq<string>
  {
    KeepMeaningful(Split(Trim(CollapseSpaces(Blank(prompt), ' ')), ' '))
  }

  /** `generateSimpleSlug(prompt)` with `Date.now()` read as `now`. */
  function SimpleSlug(prompt: string, now: nat): (r: string)
  {
    if prompt == [] || Trim(prompt) == [] then Fallback(now)
    else
      var words := Tokens(prompt);
      if |words| == 0 then Fallback(now)
      else CapLength(Join(Take(words, SimpleMaxWords), "-"), SimpleMaxLength)
  }

  // ---------------------------------------------------------------------------
  // callClaudeCode (lines 57-82), after the subprocess
  // ---------------------------------------------------------------------------

  /** Lines 67-68: `result.trim().split('\n')`, then `lines.join(' ').trim()`. */
  function JoinLines(output: string): string
  {
    Trim(Join(Split(Trim(output), '\n'), " "))
  }

  /** What `callClaudeCode` returns, given what the subprocess did: `None` when
      it threw (not found, timeout, failure), otherwise its captured standard
      output. `maxWords == 0` stands for an absent (falsy) `maxWords`. */
  function ClaudeResponse(output: Option<string>, maxWords: nat): (r: Option<string>)
    ensures r.Some? ==> r.value != []
  {
    match output
    case None => None
    case Some(out) =>
      var response := JoinLines(out);
      var capped :=
        if maxWords > 0 && response != [] then
          var words := SplitSpaces(response);
          if |words| > maxWords then Join(Take(words, maxWords), "-") else response
        else response;
      if capped == [] then None else Some(capped)
  }

  // ---------------------------------------------------------------------------
  // generateLongPromptSlug (lines 100-140)
  // ---------------------------------------------------------------------------

  predicate IsSlugCharOrSpace(c: char)
  {
    IsSlugChar(c) || IsSpace(c)
  }

  /** Lines 115-119: lower-case, keep `[a-z0-9\s-]`, whitespace runs to `-`. */
  function LongReplyText(response: string): (r: string)
    ensures forall i :: 0 <= i < |r| ==> IsSlugChar(r[i])
  {
    var kept := Retain(ToLower(Trim(response)), IsSlugCharOrSpace);
    CollapseSlugText(kept);
    CollapseSpaces(kept, '-')
  }

  /** Collapsing whitespace runs of a text over `[a-z0-9\s-]` into `-` leaves
      only `[a-z0-9-]`. */
  lemma CollapseSlugText(s: string)
    requires forall i :: 0 <= i < |s| ==> IsSlugCharOrSpace(s[i])
    ensures forall i :: 0 <= i < |CollapseSpaces(s, '-')| ==> IsSlugChar(CollapseSpaces(s, '-')[i])
  {
    var r := CollapseSpaces(s, '-');
    forall i | 0 <= i < |r|
      ensures IsSlugChar(r[i])
    {
      if r[i] != '-' {
        CollapseSource(s, '-', i);
      }
    }
  }

  /** Lines 115-123: the text of lines 115-119 with its empty segments dropped
      and at most five kept. */
  function CleanLongReply(response: string): string
  {
    Join(Take(DropEmpty(Split(LongReplyText(response), '-')), LongMaxWords), "-")
  }

  /** `generateLongPromptSlug(prompt)`, given whether `which claude` succeeds
      and what the CLI printed for the meta-prompt. */
  function LongPromptSlug(claudeAvailable: bool, output: Option<string>): (r: Option<string>)
    ensures r.Some? ==> r.value != []
  {
    if !claudeAvailable then None
    else
      match ClaudeResponse(output, 0)
      case None => None
      case Some(response) =>
        var slug := CleanLongReply(response);
        if |slug| > LongMaxLength then Some(CapLength(slug, LongMaxLength))
        else if slug == [] then None
        else Some(slug)
  }

  // ---------------------------------------------------------------------------
  // generateSlug (lines 142-212)
  // ---------------------------------------------------------------------------

  /** What the collaborators of one `generateSlug` call answer. */
  datatype Collaborators = Collaborators(
    // OPENROUTER_API_KEY is set to a non-empty string
    apiKeySet: bool,
    // per model, `choices[0].message.content` of a 2xx answer; None when the
    // request, the status or the payload fails
    apiReply: string -> Option<string>,
    // `which claude` succeeds
    claudeAvailable: bool,
    // the CLI's captured output for the long-prompt meta-prompt, None when it throws
    longOutput: Option<string>,
    // the CLI's captured output for the short 1-2 word prompt, None when it throws
    shortOutput: Option<string>)

  /** A model's answer ends the API loop when it leaves some slug characters. */
  predicate Usable(reply: Option<string>)
  {
    reply.Some? && SlugChars(reply.value) != []
  }

  /** Lines 154-184: the first model, in order, whose answer is usable. */
  function FirstApiSlug(models: seq<string>, reply: string -> Option<string>): (r: Option<string>)
    ensures r.None? <==> forall k :: 0 <= k < |models| ==> !Usable(reply(models[k]))
    ensures r.Some? ==> r.value != [] && forall i :: 0 <= i < |r.value| ==> IsSlugChar(r.value[i])
  {
    if models == [] then None
    else if Usable(reply(models[0])) then Some(SlugChars(reply(models[0]).value))
    else
      var r := FirstApiSlug(models[1..], reply);
      assert forall k :: 1 <= k < |models| ==> models[k] == models[1..][k - 1];
      r
  }

  /** Lines 146-147: more than 100 characters, or more than 15 pieces in
      `prompt.split(/\s+/)`. */
  predicate IsLongPrompt(prompt: string)
  {
    |prompt| > LongPromptChars || |SplitSpaces(prompt)| > LongPromptWords
  }

  /** Lines 150-184: the API step, tried only when a key is set. */
  function ApiAttempt(env: Collaborators): Option<string>
  {
    if env.apiKeySet then FirstApiSlug(Models, env.apiReply) else None
  }

  /** Lines 186-192: the meta-prompt step, tried only for a long prompt. */
  function LongAttempt(prompt: string, env: Collaborators): Option<string>
  {
    if IsLongPrompt(prompt) then LongPromptSlug(env.claudeAvailable, env.longOutput) else None
  }

  /** Lines 194-201: the short CLI step, whose answer is stripped to `[a-z0-9-]`. */
  function ShortAttempt(env: Collaborators): (r: Option<string>)
    ensures r.Some? ==> r.value != []
  {
    match ClaudeResponse(env.shortOutput, 0)
    case None => None
    case Some(response) =>
      var slug := SlugChars(response);
      if slug != [] then Some(slug) else None
  }

  /** Lines 203-207: the heuristic step, refused when it answers with the
      fallback prefix. */
  function HeuristicAttempt(prompt: string, now: nat): (r: Option<string>)
    ensures r.Some? ==> r.value != [] && !StartsWith(r.value, FallbackPrefix)
  {
    var simple := SimpleSlug(prompt, now);
    if simple != [] && !StartsWith(simple, FallbackPrefix) then Some(simple) else None
  }

  /** `generateSlug(prompt)`, with `Date.now()` read as `now`: the first step
      that answers, and the timestamp when none does. */
  function GenerateSlug(prompt: string, now: nat, env: Collaborators): (r: string)
  {
    if prompt == [] then Fallback(now)
    else if ApiAttempt(env).Some? then ApiAttempt(env).value
    else if LongAttempt(prompt, env).Some? then LongAttempt(prompt, env).value
    else if ShortAttempt(env).Some? then ShortAttempt(env).value
    else if HeuristicAttempt(prompt, now).Some? then HeuristicAttempt(prompt, now).value
    else Fallback(now)
  }

}
