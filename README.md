# dmux slug generation, modelled in Dafny

dmux names each new worktree pane after a short slug derived from the
user's prompt. `src/utils/slug.ts` derives it by trying a chain of sources in
order:

- the remote chat API, over three models in turn;
- the Claude CLI with a meta-prompt, only for long prompts;
- the Claude CLI with a short prompt;
- an offline word heuristic;
- finally the timestamp slug `dmux-<ms>`.

This project models that chain and the text processing each step applies. It
proves the shape of what every step can return, and what the heuristic, the
CLI post-processing and the long-prompt cleanup compute, against an
independent definition of the words of a text. For the chain itself, it
proves three things:

- the API step, when it answers, decides the slug;
- a prompt that is not long never reaches the long-prompt step;
- with no key, no CLI for the long prompt and no usable short answer, the
  heuristic's slug or the timestamp comes out. A missing `claude` counts as no
  usable short answer (`ShortAttemptBlank`).

The order between the long-prompt step, the short CLI step and the heuristic is
stated only by the definition of `GenerateSlug`, not by a separate lemma.

The project has five modules:

- `Wrappers` (`wrappers.dfy`): `Option`.
- `JsString` (`js_string.dfy`): the JavaScript string operations the source
  uses. This covers `\s` whitespace (the full ECMAScript set), `\w`,
  `toLowerCase` on ASCII, `trim`, `replace(/\s+/g, c)`, `split(c)`,
  `split(/\s+/)`, `join`, `lastIndexOf`, and the decimal rendering of
  `Date.now()`. Each comes with the laws the rest of the model needs.
- `Words` (`words.dfy`): `WordsOf`, the whitespace-separated words of a text.
  It is the reference definition against which the source's
  trim/collapse/split pipelines are proved.
- `Slug` (`slug.dfy`): the four operations of the core:
  - `SimpleSlug` models `generateSimpleSlug`;
  - `ClaudeResponse` models the post-processing inside `callClaudeCode`;
  - `LongPromptSlug` models `generateLongPromptSlug`;
  - `GenerateSlug` models `generateSlug`.
- `SlugProperties` (`slug_properties.dfy`): the lemmas about them.

The source reads the outside world in several places. Here each reading is
an input:

- The clock is the parameter `now`, used for both `Date.now()` readings.
- Everything else is a `Collaborators` value:
  - whether `OPENROUTER_API_KEY` is set;
  - what each remote model answers, as `None` when the request, the status or
    the JSON fails;
  - whether `which claude` succeeds;
  - what the CLI printed for the long and for the short prompt, as `None`
    when `execSync` throws. A missing `claude` does not make it throw: the
    pipeline ends in `head`, which exits 0, so the output is empty.

Every operation is pure, so the model is written with functions and lemmas.
The source has no loop that updates state, other than the `for` over the
models, which returns on the first success. `FirstApiSlug` models that loop
by recursion.

The model follows the code where it differs from the comments around it:

- The heuristic keeps `_` (from `\w`) and keeps a lone `-`. `"u - v"` becomes
  `u---v` (`HeuristicKeepsLoneHyphen`), so it is not always kebab-case.
- `generateSlug` sends a whitespace-only prompt to the API and the CLI. Only
  the empty string goes straight to the timestamp (`BlankPromptStillAsksApi`).
- The "15 words" test counts the pieces of `split(/\s+/)`, empty pieces
  included (`LongPromptCountsEmptyPieces`).
- An API or short-CLI answer is only stripped to `[a-z0-9-]`. It may start
  with `dmux-`, or keep leading, trailing or doubled hyphens
  (`ApiAnswerTakenAsIs`).
- A heuristic slug that happens to start with `dmux-` is thrown away for a
  timestamp (`HeuristicDmuxPrefixRejected`).
- The short CLI step runs without the `which claude` check. It depends only on
  what the subprocess printed. Without `claude` that is empty output, not a
  failure, and line 78 turns it into `null`, so the chain moves on
  (`ShortAttemptBlank`).

## Model

| member | source | states |
|---|---|---|
| Slug.Fallback | src/utils/slug.ts:10 | the timestamp slug starts with `dmux-` and is followed by at least one character, all of them decimal digits |
| SlugProperties.FallbackInjective | src/utils/slug.ts:10 | two clock readings give the same timestamp slug only when they are equal, so the decimal part renders `now` faithfully |
| JsString.DecimalRoundTrip | src/utils/slug.ts:10 | reading back the decimal rendering of `Date.now()` gives the number itself |
| Slug.Take | src/utils/slug.ts:39 | `slice(0, n)` returns the first `n` elements of a longer list, exactly `n` of them, and the whole list when it is no longer than `n` |
| Slug.CapLength | src/utils/slug.ts:43-47 | the length cap leaves a text within the limit unchanged; a longer text becomes a prefix no longer than the limit, which is non-empty when the text is non-empty and the limit positive |
| SlugProperties.CapLengthCut | src/utils/slug.ts:43-47 | an over-long text is cut either at exactly `max` characters (when no hyphen after index 0 lies in the cut) or just before the last hyphen of the cut |
| SlugProperties.CapLengthNoTrailingHyphen | src/utils/slug.ts:43-47 | an over-long text without `--`, capped at a limit of at least 2, is cut to a non-empty text that does not end with a hyphen |
| SlugProperties.CapLengthKeepsKebab | src/utils/slug.ts:127-131 | capping a kebab-case slug yields a kebab-case slug with no more hyphens than before |
| JsString.LastIndexOf | src/utils/slug.ts:45 | `lastIndexOf` returns -1 or the index of the character, with no occurrence after it |
| JsString.TrimStart | src/utils/slug.ts:29 | trimming the start removes exactly a leading run of whitespace and leaves the text starting with a non-space |
| JsString.TrimEnd | src/utils/slug.ts:29 | trimming the end removes exactly a trailing run of whitespace and leaves the text ending with a non-space |
| JsString.TrimProperties | src/utils/slug.ts:9 | `trim()` is empty exactly when the text is all whitespace, and otherwise starts and ends with a non-space |
| JsString.TrimOfTrimmed | src/utils/slug.ts:29 | a text that neither starts nor ends with whitespace is its own trim |
| JsString.ToLowerChar | src/utils/slug.ts:26 | lower-casing maps each letter `A`–`Z` to the same letter in `a`–`z`, changes no other character, and keeps the `\w` and `\s` classes of each character |
| JsString.CollapseSpaces | src/utils/slug.ts:28 | replacing whitespace runs keeps the text's emptiness and never lengthens it; its first character is the replacement exactly when the text starts with whitespace |
| JsString.CollapseNoDoubleSpace | src/utils/slug.ts:28 | after `replace(/\s+/g, ' ')` no two whitespace characters are adjacent |
| JsString.CollapseLast | src/utils/slug.ts:119 | after replacing whitespace runs, a non-empty text ends with the replacement if it ended with whitespace, and otherwise with its own last character |
| JsString.CollapseSource | src/utils/slug.ts:119 | every character of the collapsed text other than the replacement is a non-space character of the original |
| JsString.CollapseKeepsNonSpace | src/utils/slug.ts:119 | every non-space character of the original survives the collapse |
| JsString.Retain | src/utils/slug.ts:118 | deleting the characters outside a class keeps only characters of the class, all taken from the text, and keeps a text already in the class unchanged; the order of what it keeps is stated by `RetainAppend` |
| JsString.RetainAppend | src/utils/slug.ts:118 | the deletion works piece by piece: what it keeps of `a + b` is what it keeps of `a` followed by what it keeps of `b`, so the kept characters stay in the input's order |
| JsString.ToLowerAppend | src/utils/slug.ts:26 | lower-casing a concatenation is the concatenation of the lower-cased parts |
| JsString.RetainEmpty | src/utils/slug.ts:177 | the deletion leaves nothing exactly when no character of the text is in the class |
| JsString.Split | src/utils/slug.ts:30 | `split(c)` yields at least one piece, no piece contains `c`, and the first piece is empty exactly when the text is empty or starts with `c` |
| JsString.SplitLength | src/utils/slug.ts:120 | `split(c)` yields one more piece than the text has occurrences of `c` |
| JsString.SplitJoin | src/utils/slug.ts:123 | splitting a join of `c`-free pieces on `c` gives the pieces back |
| JsString.JoinSplit | src/utils/slug.ts:67-68 | joining the pieces of `split(c)` with `d` is the text with every `c` replaced by `d` |
| Words.WordsOf | src/utils/slug.ts:72 | the words of a text are non-empty and contain no whitespace |
| Words.NoWordsIffAllSpace | src/utils/slug.ts:9 | a text has no words exactly when it is all whitespace |
| Words.WordsOfTrim | src/utils/slug.ts:29 | trimming a text keeps its words |
| Words.WordsOfCollapse | src/utils/slug.ts:28 | collapsing whitespace runs to single spaces keeps the words |
| Words.SplitSpacesWords | src/utils/slug.ts:146 | the pieces of `split(/\s+/)`, once the empty ones are dropped, are the words of the text |
| Words.SplitSpacesOfTrimmed | src/utils/slug.ts:72 | on a non-empty text that neither starts nor ends with whitespace, `split(/\s+/)` yields exactly its words, with no empty piece |
| Words.DropEmptySplitEmpty | src/utils/slug.ts:120-121 | splitting on `c` and dropping empty pieces leaves nothing exactly when the text is made only of `c` |
| SlugProperties.BlankChars | src/utils/slug.ts:26-27 | lower-casing and blanking punctuation keeps the length; every character becomes whitespace or one of `[a-z0-9_-]`, whitespace stays whitespace, and a kept character was a `[\w-]` character |
| Slug.KeepMeaningful | src/utils/slug.ts:31 | the filter keeps only non-empty, non-stopword words of its input |
| SlugProperties.KeepMeaningfulSplits | src/utils/slug.ts:31 | the filter is dropping the empty words followed by dropping the stopwords |
| SlugProperties.TokensAreWords | src/utils/slug.ts:25-31 | the heuristic's word list is exactly the non-stopword words of the blanked prompt |
| SlugProperties.TokensShape | src/utils/slug.ts:25-31 | every word the heuristic keeps is non-empty and made of `[a-z0-9_-]` |
| SlugProperties.BlankPromptHasNoTokens | src/utils/slug.ts:9-11 | a whitespace-only prompt leaves the heuristic no words |
| SlugProperties.SimpleSlugFallbackCases | src/utils/slug.ts:33-36 | the heuristic gives the timestamp slug for a whitespace-only prompt, a prompt whose words are all stopwords, and a prompt with no `[\w-]` character |
| SlugProperties.SimpleSlugIsCappedJoin | src/utils/slug.ts:38-49 | once words survive, the heuristic's slug is the first three joined with hyphens and capped at 30 characters |
| SlugProperties.SimpleSlugFromTokens | src/utils/slug.ts:38-49 | once words survive, the slug is non-empty, at most 30 characters of `[a-z0-9_-]`, and a prefix of the joined first three words, equal to it when that fits; a cut join without `--` does not end with a hyphen |
| SlugProperties.SimpleSlugFits | src/utils/slug.ts:49 | when the joined first three words fit in 30 characters they are the slug itself |
| SlugProperties.CappedJoinShape | src/utils/slug.ts:39-47 | capping a join of at most three non-empty `[a-z0-9_-]` words gives a non-empty prefix of the join of at most 30 such characters |
| SlugProperties.SingleWordSlug | src/utils/slug.ts:25-49 | a single lower-case non-stopword word of at most 30 characters is its own slug |
| SlugProperties.NotStopword | src/utils/slug.ts:14-22 | a word holding a character outside `a-z` is never a stopword |
| SlugProperties.HeuristicKeepsLoneHyphen | src/utils/slug.ts:25-39 | the prompt `u - v` (two plain words around a lone hyphen) gives the slug `u---v`, so the heuristic can emit `--` |
| SlugProperties.HeuristicKeepsUnderscore | src/utils/slug.ts:27 | `_` is a `\w` character, so the prompt `u_v` gives the slug `u_v` |
| SlugProperties.JoinLinesIsTrim | src/utils/slug.ts:67-68 | joining the trimmed output's lines with spaces and trimming is the trimmed output with newlines turned into spaces, trimmed again |
| SlugProperties.JoinLinesKeepsWords | src/utils/slug.ts:67-68 | joining the output's lines keeps its words, leaves no newline, and neither starts nor ends with whitespace |
| SlugProperties.JoinLinesEmpty | src/utils/slug.ts:67-68 | the joined response is empty exactly when the CLI printed only whitespace |
| Slug.ClaudeResponse | src/utils/slug.ts:78 | `callClaudeCode` never returns an empty string: an empty response becomes `null` |
| SlugProperties.CappedJoin | src/utils/slug.ts:71 | cutting a longer word list to `maxWords` keeps its first `maxWords` words, and joining them gives a non-empty text when the first word is non-empty |
| SlugProperties.ClaudeResponseSpec | src/utils/slug.ts:67-78 | the CLI answers `null` exactly when its output is all whitespace; within the word limit (or with no limit) it answers the joined lines; over the limit it answers the first `maxWords` words of the output joined with hyphens |
| SlugProperties.ResponseWords | src/utils/slug.ts:72 | splitting a non-empty joined response on `/\s+/` yields exactly the words of the CLI's output |
| Slug.LongReplyText | src/utils/slug.ts:115-119 | after lower-casing, deleting, and turning whitespace runs into hyphens, the long-prompt answer holds only `[a-z0-9-]` |
| SlugProperties.LongReplySegments | src/utils/slug.ts:115-121 | the non-empty hyphen-separated segments of the cleaned answer are exactly, in order, the words of the lower-cased, filtered answer with its hyphens read as spaces: its maximal runs of `[a-z0-9]` |
| SlugProperties.CleanLongReplyIsFirstWords | src/utils/slug.ts:115-123 | the cleaned answer is the first five of those words, joined with hyphens |
| SlugProperties.WordsOfHyphenCollapse | src/utils/slug.ts:119 | turning each whitespace run into one hyphen does not change the words, once hyphens are read as spaces |
| SlugProperties.HyphenSplitWords | src/utils/slug.ts:120-121 | on a `[a-z0-9-]` text, the non-empty pieces of `split('-')` are its words with hyphens read as spaces |
| SlugProperties.CleanLongReplyShape | src/utils/slug.ts:115-123 | the cleaned long-prompt answer is empty, or kebab-case (no leading, trailing or doubled hyphen) with at most five segments |
| SlugProperties.CleanLongReplyEmpty | src/utils/slug.ts:115-123 | the cleaned answer is empty exactly when the CLI's answer holds no ASCII letter or digit |
| SlugProperties.CapLongSlugShape | src/utils/slug.ts:126-131 | capping a kebab-case slug of at most five segments at 40 characters keeps it kebab-case with at most five segments |
| SlugProperties.LongPromptSlugNone | src/utils/slug.ts:100-140 | `generateLongPromptSlug` gives `null` exactly when the CLI is unavailable, the CLI call fails, or its answer holds no ASCII letter or digit |
| SlugProperties.LongPromptSlugShape | src/utils/slug.ts:100-140 | a long-prompt slug, when there is one, is kebab-case, at most 40 characters, and at most five segments |
| Slug.LongPromptSlug | src/utils/slug.ts:133 | `generateLongPromptSlug` never returns an empty string |
| Slug.SlugChars | src/utils/slug.ts:177 | stripping an answer leaves only `[a-z0-9-]` |
| SlugProperties.SlugCharsIgnoresTrim | src/utils/slug.ts:177 | the stripped answer is exactly the `[a-z0-9-]` characters of the lower-cased answer, in order; the `trim()` before it removes nothing that would be kept |
| SlugProperties.SlugCharsEmpty | src/utils/slug.ts:200 | stripping leaves nothing exactly when no character of the answer lower-cases into `[a-z0-9-]` |
| JsString.RetainLowerEmpty | src/utils/slug.ts:200 | lower-casing and keeping `[a-z0-9-]` leaves nothing exactly when no character of the text lower-cases into that class |
| JsString.TrimSurround | src/utils/slug.ts:177 | a text is its leading whitespace, then its `trim()`, then its trailing whitespace |
| SlugProperties.SlugCharsFixesSlugs | src/utils/slug.ts:200 | an answer already made of `[a-z0-9-]` is kept unchanged by the stripping |
| SlugProperties.SlugCharsIdempotent | src/utils/slug.ts:177 | stripping twice is stripping once |
| Slug.FirstApiSlug | src/utils/slug.ts:154-184 | the API loop gives up exactly when no model's answer is usable; a slug it returns is non-empty `[a-z0-9-]` |
| SlugProperties.FirstApiSlugIsFirstUsable | src/utils/slug.ts:154-184 | the API loop answers with the stripped answer of the first model, in order, whose answer is usable |
| Slug.ShortAttempt | src/utils/slug.ts:194-201 | the short CLI step answers only with a non-empty stripped slug |
| Slug.HeuristicAttempt | src/utils/slug.ts:203-207 | the heuristic step answers only with a non-empty slug that does not start with `dmux-` |
| SlugProperties.HeuristicAttemptShape | src/utils/slug.ts:205-207 | the heuristic step's slug is made of `[a-z0-9_-]` |
| SlugProperties.GenerateSlugShape | src/utils/slug.ts:142-212 | `generateSlug` never returns an empty string; an empty prompt gives the timestamp slug; any other result is the timestamp slug or made of `[a-z0-9_-]` |
| SlugProperties.GenerateSlugApiFirst | src/utils/slug.ts:150-184 | with a key set, the first model whose answer is usable decides the slug, whatever the CLI or the heuristic would answer |
| SlugProperties.GenerateSlugShortPromptSkipsLongCall | src/utils/slug.ts:145-147 | for a prompt that is not long, neither the CLI's availability nor its meta-prompt answer changes the slug |
| SlugProperties.GenerateSlugOffline | src/utils/slug.ts:203-211 | with no key, no CLI for the long prompt, and no usable short answer (which includes the empty output of a missing CLI): a prompt with no surviving words gives the timestamp slug; otherwise, unless the joined words start with `dmux-`, the heuristic's slug |
| SlugProperties.ShortAttemptBlank | src/utils/slug.ts:60-78 | a short CLI call that fails or prints only whitespace, as a missing CLI does, gives the short step no answer |
| SlugProperties.OfflineChain | src/utils/slug.ts:204-211 | with no key, no CLI for the long prompt, and no usable short answer, `generateSlug` answers the heuristic's slug unless it starts with `dmux-`, and then the timestamp slug |
| SlugProperties.LongPromptCountsEmptyPieces | src/utils/slug.ts:146 | `" x ".split(/\s+/)` has three pieces although the text has one word, so padding counts toward the 15-word threshold |
| SlugProperties.HeuristicDmuxPrefixRejected | src/utils/slug.ts:204-211 | the prompt `dmux-t` gives the heuristic slug `dmux-t`; with no key, no long-prompt CLI and no usable short answer, the chain throws it away for the timestamp slug |
| SlugProperties.BlankPromptStillAsksApi | src/utils/slug.ts:143 | a whitespace-only prompt, for which the heuristic gives only the timestamp, is still sent to the API, and a usable answer becomes the slug |
| SlugProperties.ApiAnswerTakenAsIs | src/utils/slug.ts:177-178 | any non-empty `[a-z0-9-]` answer of the first model is the slug as it is, including one starting with `dmux-` or with stray hyphens |

## Left out

- The subprocess (`execSync`, `echo … | claude … | head -n 5`, its 5-second timeout and `2>/dev/null`) is not modelled. Its captured output, or its failure, is an input. So keeping only the first five lines is the subprocess's business, not the model's.
- The shell quoting of the prompt (line 60) and the wording of the meta-prompt and the short prompt (lines 105-109, 167, 197) are not modelled, because they only shape what the oracle is asked.
- The HTTP request to the chat API (URL, headers, body, `max_tokens`, `temperature`) is not modelled, because only its outcome per model matters. A thrown request, a non-2xx status and a malformed JSON payload all become `None`.
- `process.env`, `isClaudeAvailable` (`which claude`) and `Date.now()` are inputs. One `now` stands for both clock readings in a call, which differ in the source by the time the call takes.
- Promises, `async`/`await` and the `try`/`catch` blocks are not modelled; a caught exception is the `None` of the oracle it came from.
- `toLowerCase` is modelled on ASCII letters only, and lengths count characters, not UTF-16 code units. JavaScript also lower-cases some non-ASCII characters into ASCII: U+212A (Kelvin sign) becomes `k`, and U+0130 becomes `i` followed by U+0307. Such characters then survive the filters of lines 27, 118, 177 and 200. The model drops them instead. For example, a CLI answer made of U+212A gives the slug `k` in the program and `None` in the model. So the "no ASCII letter or digit" conditions of `CleanLongReplyEmpty` and `LongPromptSlugNone` hold only for text without such characters.
- `callClaudeCode`'s `maxWords` is a `nat` with 0 for absent. A negative, fractional or `NaN` argument is not modelled; the source never passes one.
- Slug.KeepMeaningful: states that every kept word comes from the input, not that the input's order is preserved; `KeepMeaningfulSplits` gives the exact list.
