/**
 * What src/utils/slug.ts promises about its results, proved of the model in
 * module Slug.
 */
module SlugProperties {
  import opened Wrappers
  import opened JsString
  import opened Words
  import opened Slug

  // ---------------------------------------------------------------------------
  // The timestamp fallback
  // ---------------------------------------------------------------------------

  /** Two different clock readings give two different fallback slugs. */
  lemma FallbackInjective(a: nat, b: nat)
    requires Fallback(a) == Fallback(b)
    ensures a == b
  {
    var p := |FallbackPrefix|;
    assert Fallback(a)[p..] == Decimal(a);
    assert Fallback(b)[p..] == Decimal(b);
    DecimalRoundTrip(a);
    DecimalRoundTrip(b);
  }

  // ---------------------------------------------------------------------------
  // The length cap (lines 41-47 and 125-131)
  // ---------------------------------------------------------------------------

  /** The cap without `lastIndexOf`: a string longer than `max` is cut to its
      first `max` characters when none of positions 1 .. max-1 holds a hyphen,
      and otherwise just before the last hyphen among them. A hyphen at
      position 0 is ignored (`lastHyphen > 0`). */
  lemma CapLengthCut(s: string, max: nat)
    requires |s| > max
    ensures var r := CapLength(s, max);
      || (r == s[..max] && forall i :: 0 < i < max ==> s[i] != '-')
      || (0 < |r| < max && s[|r|] == '-' && forall i :: |r| < i < max ==> s[i] != '-')
  {
    var cut := s[..max];
    var h := LastIndexOf(cut, '-');
    if h <= 0 {
      forall i | 0 < i < max ensures s[i] != '-' {
        assert cut[i] == s[i];
      }
    } else {
      forall i | h < i < max ensures s[i] != '-' {
        assert cut[i] == s[i];
      }
    }
  }

  /** Cutting a string without `--` that is longer than `max` (at least 2)
      never leaves a trailing hyphen. */
  lemma CapLengthNoTrailingHyphen(s: string, max: nat)
    requires |s| > max >= 2 && NoDoubleHyphen(s)
    ensures var r := CapLength(s, max); r != [] && r[|r| - 1] != '-'
  {
    CapLengthCut(s, max);
  }

  /** The cap keeps a kebab-case slug kebab-case and adds no hyphen. */
  lemma CapLengthKeepsKebab(s: string, max: nat)
    requires IsKebab(s) && max > 0
    ensures IsKebab(CapLength(s, max))
    ensures Count(CapLength(s, max), '-') <= Count(s, '-')
  {
    var r := CapLength(s, max);
    if |s| > max {
      CapLengthCut(s, max);
      CountPrefix(s, '-', |r|);
      assert r == s[..|r|];
      if |r| == max {
        assert max == 1 || s[max - 1] != '-';
      }
    }
  }

  // ---------------------------------------------------------------------------
  // Joining segments with hyphens
  // ---------------------------------------------------------------------------

  /** Non-empty `[a-z0-9]` segments joined with `-` form a kebab-case slug. */
  lemma {:induction false} JoinKebab(ps: seq<string>)
    requires ps != []
    requires forall k :: 0 <= k < |ps| ==> ps[k] != []
    requires forall k, i :: 0 <= k < |ps| && 0 <= i < |ps[k]| ==> IsLowerAlnum(ps[k][i])
    ensures IsKebab(Join(ps, "-"))
  {
    JoinChars(ps, "-", IsSlugChar);
    if |ps| > 1 {
      JoinKebab(ps[1..]);
      var tail := Join(ps[1..], "-");
      var j := Join(ps, "-");
      var n := |ps[0]|;
      assert j == ps[0] + "-" + tail;
      assert j[0] == ps[0][0];
      assert j[|j| - 1] == tail[|tail| - 1];
      forall i | 0 <= i < |j| - 1 ensures !(j[i] == '-' && j[i + 1] == '-') {
        if i < n - 1 {
          assert j[i] == ps[0][i];
        } else if i == n - 1 {
          assert j[i] == ps[0][n - 1];
        } else if i == n {
          assert j[i + 1] == tail[0];
        } else {
          assert j[i] == tail[i - n - 1] && j[i + 1] == tail[i - n];
        }
      }
    }
  }

  // ---------------------------------------------------------------------------
  // generateSimpleSlug: tokenisation (lines 25-31)
  // ---------------------------------------------------------------------------

  /** After lower-casing and blanking, every character is whitespace or one of `[a-z0-9_-]`. */
  lemma BlankChars(prompt: string)
    ensures |Blank(prompt)| == |prompt|
    ensures forall i :: 0 <= i < |prompt| ==> IsSpace(Blank(prompt)[i]) || IsHeuristicChar(Blank(prompt)[i])
    ensures forall i :: 0 <= i < |prompt| && IsSpace(prompt[i]) ==> IsSpace(Blank(prompt)[i])
    ensures forall i :: 0 <= i < |prompt| && !IsSpace(Blank(prompt)[i]) ==> IsTokenChar(prompt[i])
  {
    forall i | 0 <= i < |prompt| ensures IsSpace(Blank(prompt)[i]) || IsHeuristicChar(Blank(prompt)[i]) {
      var c := ToLowerChar(prompt[i]);
      assert Blank(prompt)[i] == (if IsTokenCharOrSpace(c) then c else ' ');
    }
  }

  /** A word of the blanked prompt is made of `[a-z0-9_-]`. */
  lemma BlankWordChars(prompt: string, w: string)
    requires w in WordsOf(Blank(prompt))
    ensures forall i :: 0 <= i < |w| ==> IsHeuristicChar(w[i])
  {
    var b := Blank(prompt);
    var ws := WordsOf(b);
    var m :| 0 <= m < |ws| && ws[m] == w;
    BlankChars(prompt);
    forall i | 0 <= i < |w| ensures IsHeuristicChar(w[i]) {
      WordsOfSource(b, m, i);
      assert !IsSpace(ws[m][i]);
    }
  }

  /** The filter of line 31 drops the empty pieces and then the stopwords. */
  lemma {:induction false} KeepMeaningfulSplits(ws: seq<string>)
    ensures KeepMeaningful(ws) == DropStopwords(DropEmpty(ws))
  {
    if ws != [] {
      KeepMeaningfulSplits(ws[1..]);
      var rest := DropEmpty(ws[1..]);
      if ws[0] != [] {
        assert DropEmpty(ws) == [ws[0]] + rest;
        assert ([ws[0]] + rest)[1..] == rest;
      } else {
        assert DropEmpty(ws) == rest;
      }
    }
  }

  /** Lines 25-31 against the reference: the tokens are the whitespace-separated
      words of the lower-cased prompt in which every character outside
      `[\w\s-]` became a space, minus the stopwords. So a hyphen never splits a
      token, and runs of whitespace or punctuation only separate tokens. */
  lemma TokensAreWords(prompt: string)
    ensures Tokens(prompt) == DropStopwords(WordsOf(Blank(prompt)))
  {
    var b := Blank(prompt);
    var c := CollapseSpaces(b, ' ');
    var t := Trim(c);
    assert forall i :: 0 <= i < |t| && IsSpace(t[i]) ==> t[i] == ' ' by {
      CollapseSpacesOnlyRep(b, ' ');
      TrimProperties(c);
      forall i | 0 <= i < |t| && IsSpace(t[i]) ensures t[i] == ' ' {
        assert t[i] in c;
      }
    }
    assert DropEmpty(Split(t, ' ')) == WordsOf(b) by {
      SplitOnSpaceIsWords(t);
      WordsOfTrim(c);
      WordsOfCollapse(b);
    }
    KeepMeaningfulSplits(Split(t, ' '));
  }

  /** Every token is non-empty and made of `[a-z0-9_-]` (that no token is a
      stopword is the contract of `KeepMeaningful`). */
  lemma TokensShape(prompt: string)
    ensures forall k :: 0 <= k < |Tokens(prompt)| ==> Tokens(prompt)[k] != []
    ensures forall k, i :: 0 <= k < |Tokens(prompt)| && 0 <= i < |Tokens(prompt)[k]| ==> IsHeuristicChar(Tokens(prompt)[k][i])
  {
    TokensAreWords(prompt);
    MeaningfulWordsShape(prompt);
  }

  lemma MeaningfulWordsShape(prompt: string)
    ensures var ts := DropStopwords(WordsOf(Blank(prompt)));
      && (forall k :: 0 <= k < |ts| ==> ts[k] != [])
      && (forall k, i :: 0 <= k < |ts| && 0 <= i < |ts[k]| ==> IsHeuristicChar(ts[k][i]))
  {
    var ws := WordsOf(Blank(prompt));
    var ts := DropStopwords(ws);
    forall k | 0 <= k < |ts| ensures ts[k] != [] && forall i :: 0 <= i < |ts[k]| ==> IsHeuristicChar(ts[k][i]) {
      DropStopwordsSource(ws, k);
      BlankWordChars(prompt, ts[k]);
    }
  }

  /** A prompt that is all whitespace has no tokens: the early return of
      line 9 agrees with the one of line 34. */
  lemma BlankPromptHasNoTokens(prompt: string)
    requires AllSpace(prompt)
    ensures Tokens(prompt) == []
  {
    var b := Blank(prompt);
    assert AllSpace(b) by {
      BlankChars(prompt);
    }
    assert WordsOf(b) == [] by {
      NoWordsIffAllSpace(b);
    }
    TokensAreWords(prompt);
  }

  // ---------------------------------------------------------------------------
  // generateSimpleSlug: results (lines 8-50)
  // ---------------------------------------------------------------------------

  /** The three ways to the timestamp (lines 9-11 and 33-36): a prompt that is
      empty or whitespace, one whose words are all stopwords, and one without
      any `\w` or `-` character. */
  lemma SimpleSlugFallbackCases(prompt: string, now: nat)
    ensures AllSpace(prompt) ==> SimpleSlug(prompt, now) == Fallback(now)
    ensures (forall k :: 0 <= k < |WordsOf(Blank(prompt))| ==> WordsOf(Blank(prompt))[k] in Stopwords)
            ==> SimpleSlug(prompt, now) == Fallback(now)
    ensures (forall i :: 0 <= i < |prompt| ==> !IsTokenChar(prompt[i]))
            ==> SimpleSlug(prompt, now) == Fallback(now)
  {
    var ws := WordsOf(Blank(prompt));
    assert Tokens(prompt) == DropStopwords(ws) by {
      TokensAreWords(prompt);
    }
    if forall k :: 0 <= k < |ws| ==> ws[k] in Stopwords {
      DropStopwordsAll(ws);
    }
    if AllSpace(prompt) {
      TrimProperties(prompt);
    }
    if forall i :: 0 <= i < |prompt| ==> !IsTokenChar(prompt[i]) {
      BlankChars(prompt);
      NoWordsIffAllSpace(Blank(prompt));
    }
  }

  /** The stopword filter empties a list made of stopwords only. */
  lemma {:induction false} DropStopwordsAll(ws: seq<string>)
    requires forall k :: 0 <= k < |ws| ==> ws[k] in Stopwords
    ensures DropStopwords(ws) == []
  {
    if ws != [] {
      DropStopwordsAll(ws[1..]);
    }
  }

  /** When some token survives (lines 38-49): the result is a non-empty prefix
      of the hyphen-join of the first (at most) three tokens, at most 30
      characters long, equal to that join when it fits, made of `[a-z0-9_-]`,
      and without a trailing hyphen after a cut when the join has no `--`. */
  lemma SimpleSlugFromTokens(prompt: string, now: nat)
    requires Tokens(prompt) != []
    ensures var joined := Join(Take(Tokens(prompt), SimpleMaxWords), "-");
            var r := SimpleSlug(prompt, now);
      && r != [] && |r| <= SimpleMaxLength && r <= joined
      && (|joined| <= SimpleMaxLength ==> r == joined)
      && (forall i :: 0 <= i < |r| ==> IsHeuristicChar(r[i]))
      && (|joined| > SimpleMaxLength && NoDoubleHyphen(joined) ==> r[|r| - 1] != '-')
  {
    SimpleSlugIsCappedJoin(prompt, now);
    TokensShape(prompt);
    CappedJoinShape(Tokens(prompt));
  }

  /** With some token left, lines 39-47 decide the heuristic slug. */
  lemma SimpleSlugIsCappedJoin(prompt: string, now: nat)
    requires Tokens(prompt) != []
    ensures SimpleSlug(prompt, now) == CapLength(Join(Take(Tokens(prompt), SimpleMaxWords), "-"), SimpleMaxLength)
  {
    assert Trim(prompt) != [] by {
      if AllSpace(prompt) {
        BlankPromptHasNoTokens(prompt);
      }
      TrimProperties(prompt);
    }
  }

  /** Lines 39-47 on any non-empty list of non-empty `[a-z0-9_-]` tokens. */
  lemma CappedJoinShape(ts: seq<string>)
    requires ts != [] && forall k :: 0 <= k < |ts| ==> ts[k] != []
    requires forall k, i :: 0 <= k < |ts| && 0 <= i < |ts[k]| ==> IsHeuristicChar(ts[k][i])
    ensures var joined := Join(Take(ts, SimpleMaxWords), "-");
            var r := CapLength(joined, SimpleMaxLength);
      && r != [] && |r| <= SimpleMaxLength && r <= joined
      && (|joined| <= SimpleMaxLength ==> r == joined)
      && (forall i :: 0 <= i < |r| ==> IsHeuristicChar(r[i]))
      && (|joined| > SimpleMaxLength && NoDoubleHyphen(joined) ==> r[|r| - 1] != '-')
  {
    var first := Take(ts, SimpleMaxWords);
    var joined := Join(first, "-");
    assert first[0] == ts[0];
    FirstThreeChars(first, ts);
    JoinChars(first, "-", IsHeuristicChar);
    var r := CapLength(joined, SimpleMaxLength);
    forall i | 0 <= i < |r| ensures IsHeuristicChar(r[i]) {
      assert r[i] == joined[i];
    }
    if |joined| > SimpleMaxLength && NoDoubleHyphen(joined) {
      CapLengthNoTrailingHyphen(joined, SimpleMaxLength);
    }
  }

  lemma FirstThreeChars(first: seq<string>, ts: seq<string>)
    requires |first| <= |ts| && first == ts[..|first|]
    requires forall k, i :: 0 <= k < |ts| && 0 <= i < |ts[k]| ==> IsHeuristicChar(ts[k][i])
    ensures forall k, i :: 0 <= k < |first| && 0 <= i < |first[k]| ==> IsHeuristicChar(first[k][i])
  {
    forall k, i | 0 <= k < |first| && 0 <= i < |first[k]| ensures IsHeuristicChar(first[k][i]) {
      assert first[k] == ts[k];
    }
  }

  // ---------------------------------------------------------------------------
  // callClaudeCode: post-processing of the captured output (lines 67-78)
  // ---------------------------------------------------------------------------

  /** Lines 67-68 amount to trimming the text with its newlines turned into spaces. */
  lemma JoinLinesIsTrim(output: string)
    ensures JoinLines(output) == Trim(ReplaceChar(Trim(output), '\n', ' '))
  {
    JoinSplit(Trim(output), '\n', ' ');
  }

  /** Joining the lines with spaces and trimming (lines 67-68) keeps the words
      of the output and leaves no newline and no whitespace at either end. */
  lemma JoinLinesKeepsWords(output: string)
    ensures WordsOf(JoinLines(output)) == WordsOf(output)
    ensures '\n' !in JoinLines(output)
    ensures var r := JoinLines(output); r == [] || (!IsSpace(r[0]) && !IsSpace(r[|r| - 1]))
  {
    var t := Trim(output);
    var y := ReplaceChar(t, '\n', ' ');
    JoinLinesIsTrim(output);
    NewlinesToSpacesKeepWords(t);
    WordsOfTrim(output);
    NoNewlineAfterReplace(t);
    TrimProperties(y);
  }

  lemma NewlinesToSpacesKeepWords(t: string)
    ensures WordsOf(Trim(ReplaceChar(t, '\n', ' '))) == WordsOf(t)
  {
    var y := ReplaceChar(t, '\n', ' ');
    WordsOfSameShape(t, y);
    WordsOfTrim(y);
  }

  lemma NoNewlineAfterReplace(t: string)
    ensures '\n' !in Trim(ReplaceChar(t, '\n', ' '))
  {
    var y := ReplaceChar(t, '\n', ' ');
    TrimProperties(y);
    forall i | 0 <= i < |Trim(y)| ensures Trim(y)[i] != '\n' {
      assert Trim(y)[i] in y;
    }
  }

  /** The output is empty after lines 67-68 exactly when it was all whitespace. */
  lemma JoinLinesEmpty(output: string)
    ensures JoinLines(output) == [] <==> AllSpace(output)
  {
    JoinLinesKeepsWords(output);
    TrimProperties(JoinLines(output));
    NoWordsIffAllSpace(JoinLines(output));
    NoWordsIffAllSpace(output);
  }

  /** Line 71's `slice(0, maxWords).join('-')` on a longer list whose first
      word is non-empty gives the first `maxWords` words, and a non-empty text. */
  lemma CappedJoin(words: seq<string>, n: nat)
    requires 0 < n < |words| && words[0] != []
    ensures Take(words, n) == words[..n]
    ensures Join(Take(words, n), "-") != []
  {
    var first := Take(words, n);
    assert first[0] == words[0];
  }

  /** What `callClaudeCode` returns once the subprocess has printed `output`:
      nothing when the output is blank (line 78); the lines joined with single
      spaces when no word cap applies; and, when `maxWords` is given and the
      text has more words, its first `maxWords` words joined with `-`. */
  lemma ClaudeResponseSpec(output: string, maxWords: nat)
    ensures ClaudeResponse(Some(output), maxWords).None? <==> AllSpace(output)
    ensures !AllSpace(output) && (maxWords == 0 || |WordsOf(output)| <= maxWords)
            ==> ClaudeResponse(Some(output), maxWords) == Some(JoinLines(output))
    ensures maxWords > 0 && |WordsOf(output)| > maxWords
            ==> ClaudeResponse(Some(output), maxWords) == Some(Join(WordsOf(output)[..maxWords], "-"))
  {
    var response := JoinLines(output);
    JoinLinesEmpty(output);
    NoWordsIffAllSpace(output);
    if response == [] {
      assert ClaudeResponse(Some(output), maxWords) == None;
    } else if maxWords == 0 {
      assert ClaudeResponse(Some(output), maxWords) == Some(response);
    } else {
      var words := SplitSpaces(response);
      assert words == WordsOf(output) by {
        ResponseWords(output);
      }
      if |words| > maxWords {
        assert words[0] != [];
        CappedJoin(words, maxWords);
        assert ClaudeResponse(Some(output), maxWords) == Some(Join(Take(words, maxWords), "-"));
      } else {
        assert ClaudeResponse(Some(output), maxWords) == Some(response);
      }
    }
  }

  /** Line 72 splits the joined lines into exactly the words of the output. */
  lemma ResponseWords(output: string)
    requires JoinLines(output) != []
    ensures SplitSpaces(JoinLines(output)) == WordsOf(output)
  {
    var response := JoinLines(output);
    JoinLinesKeepsWords(output);
    SplitSpacesOfTrimmed(response);
  }

  // ---------------------------------------------------------------------------
  // generateLongPromptSlug (lines 100-140)
  // ---------------------------------------------------------------------------

  /** Some character of `s` lower-cases into `[a-z0-9]`. */
  predicate HasAlnum(s: string)
  {
    exists i :: 0 <= i < |s| && IsLowerAlnum(ToLowerChar(s[i]))
  }

  /** Lines 115-123 produce either nothing or a kebab-case slug of at most five
      segments. */
  lemma CleanLongReplyShape(response: string)
    ensures var c := CleanLongReply(response);
      c == [] || (IsKebab(c) && |Split(c, '-')| <= LongMaxWords)
  {
    var text := LongReplyText(response);
    var ps := Split(text, '-');
    SplitChars(text, '-', IsSlugChar);
    var qs := DropEmpty(ps);
    var first := Take(qs, LongMaxWords);
    if first != [] {
      forall k, i | 0 <= k < |first| && 0 <= i < |first[k]| ensures IsLowerAlnum(first[k][i]) {
        assert first[k] == qs[k];
        DropEmptySource(ps, k);
        var m :| 0 <= m < |ps| && ps[m] == qs[k];
        assert IsSlugChar(ps[m][i]) && ps[m][i] != '-';
      }
      JoinKebab(first);
      SplitJoin(first, '-');
    }
  }

  /** The segments of lines 120-121 are the words of the text of lines
      115-118 once its hyphens are read as spaces: the maximal runs of
      `[a-z0-9]`, in order. */
  lemma LongReplySegments(response: string)
    ensures DropEmpty(Split(LongReplyText(response), '-'))
            == WordsOf(ReplaceChar(Retain(ToLower(Trim(response)), IsSlugCharOrSpace), '-', ' '))
  {
    var kept := Retain(ToLower(Trim(response)), IsSlugCharOrSpace);
    assert LongReplyText(response) == CollapseSpaces(kept, '-');
    HyphenSplitWords(LongReplyText(response));
    WordsOfHyphenCollapse(kept);
  }

  /** Lines 115-123 keep the first five of those words, joined with hyphens. */
  lemma CleanLongReplyIsFirstWords(response: string)
    ensures CleanLongReply(response)
            == Join(Take(WordsOf(ReplaceChar(Retain(ToLower(Trim(response)), IsSlugCharOrSpace), '-', ' ')),
                         LongMaxWords), "-")
  {
    LongReplySegments(response);
  }

  /** On a text over `[a-z0-9-]`, the non-empty pieces of `split('-')` are the
      words of the text with its hyphens read as spaces. */
  lemma HyphenSplitWords(s: string)
    requires forall i :: 0 <= i < |s| ==> IsSlugChar(s[i])
    ensures DropEmpty(Split(s, '-')) == WordsOf(ReplaceChar(s, '-', ' '))
  {
    var ps := Split(s, '-');
    var h := ReplaceChar(s, '-', ' ');
    assert Split(h, ' ') == ps by {
      PiecesHaveNoSpace(s);
      JoinSplit(s, '-', ' ');
      SplitJoin(ps, ' ');
    }
    assert forall i :: 0 <= i < |h| && IsSpace(h[i]) ==> h[i] == ' ' by {
      HyphensAsSpaces(s);
    }
    SplitOnSpaceIsWords(h);
  }

  /** The pieces of a `[a-z0-9-]` text hold no space. */
  lemma PiecesHaveNoSpace(s: string)
    requires forall i :: 0 <= i < |s| ==> IsSlugChar(s[i])
    ensures forall k :: 0 <= k < |Split(s, '-')| ==> ' ' !in Split(s, '-')[k]
  {
    var ps := Split(s, '-');
    SplitChars(s, '-', IsSlugChar);
    forall k | 0 <= k < |ps| ensures ' ' !in ps[k] {
      assert forall i :: 0 <= i < |ps[k]| ==> ps[k][i] != ' ';
    }
  }

  /** With its hyphens read as spaces, a `[a-z0-9-]` text has `' '` as its
      only whitespace character. */
  lemma HyphensAsSpaces(s: string)
    requires forall i :: 0 <= i < |s| ==> IsSlugChar(s[i])
    ensures forall i :: 0 <= i < |ReplaceChar(s, '-', ' ')| && IsSpace(ReplaceChar(s, '-', ' ')[i])
                        ==> ReplaceChar(s, '-', ' ')[i] == ' '
  {
    var h := ReplaceChar(s, '-', ' ');
    forall i | 0 <= i < |h| && IsSpace(h[i]) ensures h[i] == ' ' {
      assert h[i] == if s[i] == '-' then ' ' else s[i];
    }
  }

  /** Turning whitespace runs into one hyphen (line 119) does not change the
      words once hyphens are read as spaces. */
  lemma {:induction false} WordsOfHyphenCollapse(k: string)
    decreases |k|
    ensures WordsOf(ReplaceChar(CollapseSpaces(k, '-'), '-', ' ')) == WordsOf(ReplaceChar(k, '-', ' '))
  {
    if k != [] {
      var x := k[0];
      assert k == [x] + k[1..];
      if IsSpace(x) {
        var t := TrimStart(k[1..]);
        assert CollapseSpaces(k, '-') == ['-'] + CollapseSpaces(t, '-');
        HyphenStartWords('-', CollapseSpaces(t, '-'));
        WordsOfHyphenCollapse(t);
        SpaceRunWords(k);
      } else if x == '-' {
        assert CollapseSpaces(k, '-') == ['-'] + CollapseSpaces(k[1..], '-');
        HyphenStartWords('-', CollapseSpaces(k[1..], '-'));
        HyphenStartWords('-', k[1..]);
        WordsOfHyphenCollapse(k[1..]);
      } else {
        assert CollapseSpaces(k, '-') == [x] + CollapseSpaces(k[1..], '-');
        WordsOfHyphenCollapse(k[1..]);
        PlainStartWords(x, k[1..]);
      }
    }
  }

  /** A leading whitespace character or hyphen adds no word once hyphens are
      read as spaces. */
  lemma HyphenStartWords(x: char, s: string)
    requires IsSpace(x) || x == '-'
    ensures WordsOf(ReplaceChar([x] + s, '-', ' ')) == WordsOf(ReplaceChar(s, '-', ' '))
  {
    ReplaceCharAppend([x], s, '-', ' ');
    var y := ReplaceChar([x], '-', ' ');
    assert y == [if x == '-' then ' ' else x];
    assert AllSpace(y);
    WordsOfPrependSpaces(y, ReplaceChar(s, '-', ' '));
  }

  /** A whitespace run reads the same whether or not all of it is there. */
  lemma SpaceRunWords(k: string)
    requires k != [] && IsSpace(k[0])
    ensures WordsOf(ReplaceChar(k, '-', ' ')) == WordsOf(ReplaceChar(TrimStart(k[1..]), '-', ' '))
  {
    var t := TrimStart(k[1..]);
    var p := k[..|k| - |t|];
    LeadingRun(k);
    ReplaceCharAppend(p, t, '-', ' ');
    ReplaceKeepsSpaces(p);
    WordsOfPrependSpaces(p, ReplaceChar(t, '-', ' '));
  }

  /** A text starting with whitespace is its leading whitespace run followed
      by what `trimStart()` leaves of the rest. */
  lemma LeadingRun(k: string)
    requires k != [] && IsSpace(k[0])
    ensures k == k[..|k| - |TrimStart(k[1..])|] + TrimStart(k[1..])
    ensures AllSpace(k[..|k| - |TrimStart(k[1..])|])
  {
    LeadingRunSplits(k);
    LeadingRunSpaces(k);
  }

  /** What `trimStart()` leaves of `k[1..]` is a suffix of `k`. */
  lemma LeadingRunSplits(k: string)
    requires k != []
    ensures k == k[..|k| - |TrimStart(k[1..])|] + TrimStart(k[1..])
  {
    var t := TrimStart(k[1..]);
    assert t == k[1..][|k| - 1 - |t|..];
    assert k[1..][|k| - 1 - |t|..] == k[|k| - |t|..];
    Sandwich(k, t, t);
    assert t[|t|..] == [];
  }

  /** The part before that suffix is whitespace. */
  lemma LeadingRunSpaces(k: string)
    requires k != [] && IsSpace(k[0])
    ensures AllSpace(k[..|k| - |TrimStart(k[1..])|])
  {
    var t := TrimStart(k[1..]);
    var p := k[..|k| - |t|];
    forall i | 0 <= i < |p| ensures IsSpace(p[i]) {
      if i > 0 {
        assert p[i] == k[1..][i - 1];
      }
    }
  }

  /** Whitespace contains no hyphen, so turning hyphens into spaces leaves it
      unchanged. */
  lemma ReplaceKeepsSpaces(p: string)
    requires AllSpace(p)
    ensures ReplaceChar(p, '-', ' ') == p
  {
    assert !IsSpace('-');
  }

  /** In front of texts with the same words and the same kind of first
      character, a character other than whitespace or a hyphen gives the same
      words. */
  lemma PlainStartWords(x: char, s: string)
    requires !IsSpace(x) && x != '-'
    requires WordsOf(ReplaceChar(CollapseSpaces(s, '-'), '-', ' ')) == WordsOf(ReplaceChar(s, '-', ' '))
    ensures WordsOf(ReplaceChar([x] + CollapseSpaces(s, '-'), '-', ' ')) == WordsOf(ReplaceChar([x] + s, '-', ' '))
  {
    var a := ReplaceChar(CollapseSpaces(s, '-'), '-', ' ');
    var b := ReplaceChar(s, '-', ' ');
    ReplaceCharAppend([x], CollapseSpaces(s, '-'), '-', ' ');
    ReplaceCharAppend([x], s, '-', ' ');
    assert ReplaceChar([x], '-', ' ') == [x];
    if s != [] {
      assert IsSpace(a[0]) == IsSpace(b[0]);
    }
    WordsOfConsSame(x, a, b);
  }

  /** `trim()` neither adds nor removes a character that lower-cases into `[a-z0-9]`. */
  lemma TrimHasAlnum(s: string)
    ensures HasAlnum(Trim(s)) <==> HasAlnum(s)
  {
    if HasAlnum(s) {
      var i :| 0 <= i < |s| && IsLowerAlnum(ToLowerChar(s[i]));
      TrimKeepsNonSpace(s, i);
      var j :| 0 <= j < |Trim(s)| && Trim(s)[j] == s[i];
    }
    if HasAlnum(Trim(s)) {
      var j :| 0 <= j < |Trim(s)| && IsLowerAlnum(ToLowerChar(Trim(s)[j]));
      TrimProperties(s);
      assert Trim(s)[j] in s;
      var i :| 0 <= i < |s| && s[i] == Trim(s)[j];
    }
  }

  /** Turning newlines into spaces neither adds nor removes such a character. */
  lemma NewlinesToSpacesHasAlnum(t: string)
    ensures HasAlnum(ReplaceChar(t, '\n', ' ')) <==> HasAlnum(t)
  {
    var y := ReplaceChar(t, '\n', ' ');
    if HasAlnum(t) {
      var i :| 0 <= i < |t| && IsLowerAlnum(ToLowerChar(t[i]));
      assert y[i] == t[i];
    }
    if HasAlnum(y) {
      var i :| 0 <= i < |y| && IsLowerAlnum(ToLowerChar(y[i]));
      assert y[i] == t[i];
    }
  }

  /** Lines 67-68 neither add nor remove a character that lower-cases into `[a-z0-9]`. */
  lemma JoinLinesHasAlnum(output: string)
    ensures HasAlnum(JoinLines(output)) <==> HasAlnum(output)
  {
    var t := Trim(output);
    JoinSplit(t, '\n', ' ');
    var y := ReplaceChar(t, '\n', ' ');
    assert JoinLines(output) == Trim(y);
    TrimHasAlnum(output);
    NewlinesToSpacesHasAlnum(t);
    TrimHasAlnum(y);
  }

  /** A character of the answer that lower-cases into `[a-z0-9]` survives
      lines 115-119. */
  lemma AlnumSurvivesLongReplyText(response: string, i: nat)
    requires i < |response| && IsLowerAlnum(ToLowerChar(response[i]))
    ensures exists n :: 0 <= n < |LongReplyText(response)| && LongReplyText(response)[n] != '-'
  {
    var t := Trim(response);
    var a := ToLower(t);
    var b := Retain(a, IsSlugCharOrSpace);
    var text := LongReplyText(response);
    var c := ToLowerChar(response[i]);
    assert response[i] in t by {
      assert !IsSpace(response[i]);
      TrimKeepsNonSpace(response, i);
    }
    assert c in a by {
      var j :| 0 <= j < |t| && t[j] == response[i];
      assert a[j] == c;
    }
    assert c in b by {
      var j :| 0 <= j < |a| && a[j] == c;
      RetainKeeps(a, IsSlugCharOrSpace, j);
    }
    assert c in text by {
      var m :| 0 <= m < |b| && b[m] == c;
      CollapseKeepsNonSpace(b, '-', m);
    }
    var n :| 0 <= n < |text| && text[n] == c;
  }

  /** Every character left by lines 115-119 other than `-` comes from a
      character of the answer that lower-cases into `[a-z0-9]`. */
  lemma LongReplyTextHasAlnum(response: string, n: nat)
    requires n < |LongReplyText(response)| && LongReplyText(response)[n] != '-'
    ensures HasAlnum(response)
  {
    var t := Trim(response);
    var a := ToLower(t);
    var b := Retain(a, IsSlugCharOrSpace);
    var text := LongReplyText(response);
    CollapseSource(b, '-', n);
    assert text[n] in a;
    var j :| 0 <= j < |a| && a[j] == text[n];
    assert IsLowerAlnum(ToLowerChar(t[j]));
    assert HasAlnum(t);
    TrimHasAlnum(response);
  }

  /** Lines 115-123 leave nothing exactly when no character of the answer
      lower-cases into `[a-z0-9]`. */
  lemma CleanLongReplyEmpty(response: string)
    ensures CleanLongReply(response) == [] <==> !HasAlnum(response)
  {
    var text := LongReplyText(response);
    var qs := DropEmpty(Split(text, '-'));
    DropEmptySplitEmpty(text, '-');
    if qs != [] {
      var first := Take(qs, LongMaxWords);
      assert first[0] == qs[0] != [];
      assert Join(first, "-") != [];
      var n :| 0 <= n < |text| && text[n] != '-';
      LongReplyTextHasAlnum(response, n);
    } else if HasAlnum(response) {
      var i :| 0 <= i < |response| && IsLowerAlnum(ToLowerChar(response[i]));
      AlnumSurvivesLongReplyText(response, i);
    }
  }

  /** Lines 126-132: cutting a kebab-case slug of at most five segments to 40
      characters keeps it kebab-case with at most five segments. */
  lemma CapLongSlugShape(slug: string)
    requires IsKebab(slug) && |Split(slug, '-')| <= LongMaxWords
    ensures var r := CapLength(slug, LongMaxLength);
      IsKebab(r) && |r| <= LongMaxLength && |Split(r, '-')| <= LongMaxWords
  {
    if |slug| > LongMaxLength {
      CapLengthKeepsKebab(slug, LongMaxLength);
      var capped := CapLength(slug, LongMaxLength);
      SplitLength(capped, '-');
      SplitLength(slug, '-');
    }
  }

  /** `generateLongPromptSlug` (lines 100-140) answers nothing exactly when the
      CLI is missing, the call fails, or no character of the output lower-cases
      into `[a-z0-9]`. */
  lemma LongPromptSlugNone(claudeAvailable: bool, output: Option<string>)
    ensures LongPromptSlug(claudeAvailable, output).None?
            <==> !claudeAvailable || output.None? || !HasAlnum(output.value)
  {
    if claudeAvailable && output.Some? {
      if AllSpace(output.value) {
        BlankOutputNoLongSlug(output.value);
      } else {
        TextOutputLongSlug(output.value);
      }
    }
  }

  lemma BlankOutputNoLongSlug(out: string)
    requires AllSpace(out)
    ensures LongPromptSlug(true, Some(out)).None? && !HasAlnum(out)
  {
    assert ClaudeResponse(Some(out), 0) == None by {
      ClaudeResponseSpec(out, 0);
    }
    BlankHasNoAlnum(out);
  }

  lemma BlankHasNoAlnum(s: string)
    requires AllSpace(s)
    ensures !HasAlnum(s)
  {
    forall i | 0 <= i < |s| ensures !IsLowerAlnum(ToLowerChar(s[i])) {
      assert IsSpace(ToLowerChar(s[i]));
    }
  }

  lemma TextOutputLongSlug(out: string)
    requires !AllSpace(out)
    ensures LongPromptSlug(true, Some(out)).None? <==> !HasAlnum(out)
  {
    var response := JoinLines(out);
    assert ClaudeResponse(Some(out), 0) == Some(response) by {
      ClaudeResponseSpec(out, 0);
    }
    LongSlugNoneIffClean(Some(out));
    JoinLinesHasAlnum(out);
    CleanLongReplyEmpty(response);
  }

  lemma LongSlugNoneIffClean(output: Option<string>)
    requires ClaudeResponse(output, 0).Some?
    ensures LongPromptSlug(true, output).None? <==> CleanLongReply(ClaudeResponse(output, 0).value) == []
  {
  }

  /** Any answer of `generateLongPromptSlug` is kebab-case, at most 40
      characters long and has at most five hyphen-separated segments. */
  lemma LongPromptSlugShape(claudeAvailable: bool, output: Option<string>)
    ensures var r := LongPromptSlug(claudeAvailable, output);
      r.Some? ==> IsKebab(r.value) && |r.value| <= LongMaxLength && |Split(r.value, '-')| <= LongMaxWords
  {
    var resp := ClaudeResponse(output, 0);
    if claudeAvailable && resp.Some? {
      var slug := CleanLongReply(resp.value);
      CleanLongReplyShape(resp.value);
      if slug != [] {
        CapLongSlugShape(slug);
      }
    }
  }

  // ---------------------------------------------------------------------------
  // The API step and the short CLI step (lines 177 and 200)
  // ---------------------------------------------------------------------------

  /** Stripping to `[a-z0-9-]` leaves a string of that class alone, so doing it
      twice is doing it once. */
  lemma SlugCharsFixesSlugs(text: string)
    requires forall i :: 0 <= i < |text| ==> IsSlugChar(text[i])
    ensures SlugChars(text) == text
  {
    assert Trim(text) == text by {
      if text != [] {
        assert IsSlugChar(text[0]) && IsSlugChar(text[|text| - 1]);
      }
      TrimOfTrimmed(text);
    }
    assert ToLower(text) == text by {
      forall i | 0 <= i < |text|
        ensures ToLower(text)[i] == text[i]
      {
        assert IsSlugChar(text[i]);
      }
    }
  }

  lemma SlugCharsIdempotent(text: string)
    ensures SlugChars(SlugChars(text)) == SlugChars(text)
  {
    SlugCharsFixesSlugs(SlugChars(text));
  }

  /** Trimming at lines 177 and 200 removes nothing the stripping would keep:
      the slug is the lower-cased answer's `[a-z0-9-]` characters, in order. */
  lemma SlugCharsIgnoresTrim(text: string)
    ensures SlugChars(text) == Retain(ToLower(text), IsSlugChar)
  {
    TrimSurround(text);
    var p := text[..|text| - |TrimStart(text)|];
    var q := TrimStart(text)[|Trim(text)|..];
    RetainLoweredSandwich(p, Trim(text), q);
  }

  /** Whitespace around a text contributes nothing once lowered and stripped. */
  lemma RetainLoweredSandwich(p: string, r: string, q: string)
    requires AllSpace(p) && AllSpace(q)
    ensures Retain(ToLower(p + r + q), IsSlugChar) == Retain(ToLower(r), IsSlugChar)
  {
    ToLowerAppend(p + r, q);
    ToLowerAppend(p, r);
    RetainAppend(ToLower(p) + ToLower(r), ToLower(q), IsSlugChar);
    RetainAppend(ToLower(p), ToLower(r), IsSlugChar);
    LoweredSpacesDropped(p);
    LoweredSpacesDropped(q);
  }

  /** Whitespace, lower-cased or not, is never a `[a-z0-9-]` character. */
  lemma LoweredSpacesDropped(p: string)
    requires AllSpace(p)
    ensures Retain(ToLower(p), IsSlugChar) == []
  {
    forall i | 0 <= i < |ToLower(p)| ensures !IsSlugChar(ToLower(p)[i]) {
      assert IsSpace(ToLower(p)[i]);
    }
    RetainEmpty(ToLower(p), IsSlugChar);
  }

  /** An answer is stripped to nothing exactly when none of its characters
      lower-cases into `[a-z0-9-]`; this decides `Usable` and the short step. */
  lemma SlugCharsEmpty(text: string)
    ensures SlugChars(text) == [] <==> forall i :: 0 <= i < |text| ==> !IsSlugChar(ToLowerChar(text[i]))
  {
    SlugCharsIgnoresTrim(text);
    RetainLowerEmpty(text);
  }

  /** The API loop (lines 154-184) answers with the stripped reply of the
      first model, in order, whose reply leaves some `[a-z0-9-]` characters. */
  lemma {:induction false} FirstApiSlugIsFirstUsable(models: seq<string>, reply: string -> Option<string>, k: nat)
    requires k < |models| && Usable(reply(models[k]))
    requires forall j :: 0 <= j < k ==> !Usable(reply(models[j]))
    ensures FirstApiSlug(models, reply) == Some(SlugChars(reply(models[k]).value))
  {
    if k > 0 {
      assert !Usable(reply(models[0]));
      assert models[1..][k - 1] == models[k];
      assert forall j :: 0 <= j < k - 1 ==> models[1..][j] == models[j + 1];
      FirstApiSlugIsFirstUsable(models[1..], reply, k - 1);
    }
  }

  // ---------------------------------------------------------------------------
  // generateSlug (lines 142-212)
  // ---------------------------------------------------------------------------

  /** `generateSlug` always answers something: the timestamp for an empty
      prompt, and otherwise either the timestamp or a slug made of
      `[a-z0-9_-]`. */
  lemma GenerateSlugShape(prompt: string, now: nat, env: Collaborators)
    ensures var r := GenerateSlug(prompt, now, env);
      && r != []
      && (prompt == [] ==> r == Fallback(now))
      && (r == Fallback(now) || forall i :: 0 <= i < |r| ==> IsHeuristicChar(r[i]))
  {
    if prompt != [] {
      if ApiAttempt(env).Some? {
      } else if LongAttempt(prompt, env).Some? {
        LongPromptSlugShape(env.claudeAvailable, env.longOutput);
      } else if ShortAttempt(env).None? {
        HeuristicAttemptShape(prompt, now);
      }
    }
  }

  lemma HeuristicAttemptShape(prompt: string, now: nat)
    ensures var r := HeuristicAttempt(prompt, now);
      r.Some? ==> forall i :: 0 <= i < |r.value| ==> IsHeuristicChar(r.value[i])
  {
    if Tokens(prompt) != [] {
      SimpleSlugFromTokens(prompt, now);
    } else {
      assert SimpleSlug(prompt, now) == Fallback(now);
    }
  }

  /** With a key, the first model (in the order of line 152) whose answer
      leaves some `[a-z0-9-]` characters decides the slug, whatever the CLI
      would have said. */
  lemma GenerateSlugApiFirst(prompt: string, now: nat, env: Collaborators, k: nat)
    requires prompt != [] && env.apiKeySet
    requires k < |Models| && Usable(env.apiReply(Models[k]))
    requires forall j :: 0 <= j < k ==> !Usable(env.apiReply(Models[j]))
    ensures GenerateSlug(prompt, now, env) == SlugChars(env.apiReply(Models[k]).value)
  {
    assert ApiAttempt(env) == Some(SlugChars(env.apiReply(Models[k]).value)) by {
      FirstApiSlugIsFirstUsable(Models, env.apiReply, k);
    }
  }

  /** For a prompt that is not long, whatever the other collaborators answer,
      neither the availability of the CLI nor its answer to the meta-prompt
      changes the slug (lines 188-193 are skipped). */
  lemma GenerateSlugShortPromptSkipsLongCall(prompt: string, now: nat, env: Collaborators,
                                              available: bool, longOutput: Option<string>)
    requires !IsLongPrompt(prompt)
    ensures GenerateSlug(prompt, now, env)
            == GenerateSlug(prompt, now, env.(claudeAvailable := available, longOutput := longOutput))
  {
    var env2 := env.(claudeAvailable := available, longOutput := longOutput);
    assert ApiAttempt(env2) == ApiAttempt(env) && ShortAttempt(env2) == ShortAttempt(env);
    assert LongAttempt(prompt, env2) == None == LongAttempt(prompt, env);
  }

  /** With no key, no CLI for the long prompt and no usable short answer, the
      heuristic decides: the timestamp when no token survives, and otherwise
      the heuristic slug, unless the hyphen-join of its first tokens begins
      with `dmux-`. */
  lemma GenerateSlugOffline(prompt: string, now: nat, env: Collaborators)
    requires prompt != [] && !env.apiKeySet && !env.claudeAvailable && ShortAttempt(env).None?
    ensures Tokens(prompt) == [] ==> GenerateSlug(prompt, now, env) == Fallback(now)
    ensures Tokens(prompt) != [] && !StartsWith(Join(Take(Tokens(prompt), SimpleMaxWords), "-"), FallbackPrefix)
            ==> GenerateSlug(prompt, now, env) == SimpleSlug(prompt, now)
  {
    if Tokens(prompt) == [] {
      assert SimpleSlug(prompt, now) == Fallback(now);
      OfflineChain(prompt, now, env);
    } else if !StartsWith(Join(Take(Tokens(prompt), SimpleMaxWords), "-"), FallbackPrefix) {
      OfflineHeuristic(prompt, now, env);
    }
  }

  lemma OfflineHeuristic(prompt: string, now: nat, env: Collaborators)
    requires prompt != [] && !env.apiKeySet && !env.claudeAvailable && ShortAttempt(env).None?
    requires Tokens(prompt) != [] && !StartsWith(Join(Take(Tokens(prompt), SimpleMaxWords), "-"), FallbackPrefix)
    ensures GenerateSlug(prompt, now, env) == SimpleSlug(prompt, now)
  {
    var joined := Join(Take(Tokens(prompt), SimpleMaxWords), "-");
    var r := SimpleSlug(prompt, now);
    assert r != [] && r <= joined by {
      SimpleSlugFromTokens(prompt, now);
    }
    PrefixOfLonger(r, joined, FallbackPrefix);
    OfflineChain(prompt, now, env);
  }

  /** A prefix of a text that does not begin with `p` does not begin with `p` either. */
  lemma PrefixOfLonger(r: string, s: string, p: string)
    requires r <= s && !StartsWith(s, p)
    ensures !StartsWith(r, p)
  {
    if |p| <= |r| {
      assert s[..|p|] == r[..|p|];
    }
  }

  /** With no CLI installed the short call still succeeds: the pipeline of line
      60 ends in `head`, which exits 0, so the captured output is empty. Empty
      or whitespace-only output, like a failed call, gives the short step
      nothing (lines 78 and 199). */
  lemma ShortAttemptBlank(env: Collaborators)
    requires env.shortOutput.None? || AllSpace(env.shortOutput.value)
    ensures ShortAttempt(env).None?
  {
    if env.shortOutput.Some? {
      ClaudeResponseSpec(env.shortOutput.value, 0);
    }
  }

  /** With no key, no CLI for the long prompt, and no usable short answer, the
      chain ends in the heuristic or the timestamp (lines 203-211). */
  lemma OfflineChain(prompt: string, now: nat, env: Collaborators)
    requires prompt != [] && !env.apiKeySet && !env.claudeAvailable && ShortAttempt(env).None?
    ensures var simple := SimpleSlug(prompt, now);
      GenerateSlug(prompt, now, env) == if simple != [] && !StartsWith(simple, FallbackPrefix) then simple else Fallback(now)
  {
    assert ApiAttempt(env) == None;
    assert LongAttempt(prompt, env) == None;
  }

  // ---------------------------------------------------------------------------
  // Worked inputs
  // ---------------------------------------------------------------------------

  /** Every stopword is made of the letters `a`-`z`, so a word with any other
      character survives the filter of line 31. */
  lemma NotStopword(w: string, i: nat)
    requires i < |w| && !('a' <= w[i] <= 'z')
    ensures w !in Stopwords
  {
    NotStopwordOfParts1To4(w, i);
    NotStopwordOfParts5To7(w, i);
  }

  lemma NotStopwordOfParts1To4(w: string, i: nat)
    requires i < |w| && !('a' <= w[i] <= 'z')
    ensures w !in StopwordsPart1 + StopwordsPart2 + StopwordsPart3 + StopwordsPart4
  {
    assert w !in StopwordsPart1;
    assert w !in StopwordsPart2;
    assert w !in StopwordsPart3;
    assert w !in StopwordsPart4;
  }

  lemma NotStopwordOfParts5To7(w: string, i: nat)
    requires i < |w| && !('a' <= w[i] <= 'z')
    ensures w !in StopwordsPart5 + StopwordsPart6 + StopwordsPart7
  {
    assert w !in StopwordsPart5;
    assert w !in StopwordsPart6;
  }

  /** `[a-z0-9_ -]`: characters that lines 25-27 leave as they are. */
  predicate IsPlainChar(c: char)
  {
    IsLowerAlnum(c) || c == '-' || c == '_' || c == ' '
  }

  lemma BlankOfPlain(p: string)
    requires forall i :: 0 <= i < |p| ==> IsPlainChar(p[i])
    ensures Blank(p) == p
  {
    var q := ToLower(p);
    forall i | 0 <= i < |p| ensures q[i] == p[i] && IsTokenCharOrSpace(p[i]) {
      assert IsPlainChar(p[i]);
    }
    assert q == p;
  }

  /** `" x ".split(/\s+/)` has three pieces, two of them empty: line 146
      counts pieces, not words. */
  lemma LongPromptCountsEmptyPieces(x: char)
    requires !IsSpace(x)
    ensures SplitSpaces([' ', x, ' ']) == [[], [x], []]
    ensures WordsOf([' ', x, ' ']) == [[x]]
  {
    var s := [' ', x, ' '];
    assert SplitSpaces(s) == [[], [x], []] by {
      SpacedCharCollapses(x);
      SpacedCharSplits(x);
    }
    assert WordsOf(s) == [[x]] by {
      WordsOfWordThen([x], []);
      assert s[1..] == [x] + [' '] + [];
    }
  }

  /** `" x ".split(" ")` is an empty piece, `x`, and another empty piece. */
  lemma SpacedCharSplits(x: char)
    requires x != ' '
    ensures Split([' ', x, ' '], ' ') == [[], [x], []]
  {
    assert [' ', x, ' '] == [] + [' '] + [x, ' '];
    SplitAfterPiece([], ' ', [x, ' ']);
    assert [x, ' '] == [x] + [' '] + [];
    SplitAfterPiece([x], ' ', []);
  }

  /** `" x "` has no whitespace run longer than one character. */
  lemma SpacedCharCollapses(x: char)
    requires !IsSpace(x)
    ensures CollapseSpaces([' ', x, ' '], ' ') == [' ', x, ' ']
  {
    assert TrimStart([' ']) == [];
    assert CollapseSpaces([' '], ' ') == [' '];
    assert TrimStart([x, ' ']) == [x, ' '];
  }

  /** A lone `-` is a word for lines 25-31 and is joined like any other, so
      `"u - v"` gives `u---v`. */
  lemma HeuristicKeepsLoneHyphen(u: string, v: string, now: nat)
    requires u != [] && v != [] && |u| + |v| + 3 <= SimpleMaxLength
    requires forall i :: 0 <= i < |u| ==> IsLowerAlnum(u[i])
    requires forall i :: 0 <= i < |v| ==> IsLowerAlnum(v[i])
    requires u !in Stopwords && v !in Stopwords
    ensures SimpleSlug(u + " - " + v, now) == u + "---" + v
  {
    var p := u + " - " + v;
    var ts := [u, "-", v];
    assert Tokens(p) == ts by {
      LoneHyphenWords(u, v);
      TokensAreWords(p);
      KeepThreeWords(u, v);
    }
    JoinAroundHyphen(u, v);
    SimpleSlugFits(p, now);
  }

  lemma LoneHyphenWords(u: string, v: string)
    requires u != [] && v != []
    requires forall i :: 0 <= i < |u| ==> IsLowerAlnum(u[i])
    requires forall i :: 0 <= i < |v| ==> IsLowerAlnum(v[i])
    ensures WordsOf(Blank(u + " - " + v)) == [u, "-", v]
  {
    var p := u + " - " + v;
    assert Blank(p) == p by {
      forall i | 0 <= i < |p| ensures IsPlainChar(p[i]) {
        if i >= |u| + 3 {
          assert p[i] == v[i - |u| - 3];
        }
      }
      BlankOfPlain(p);
    }
    assert forall i :: 0 <= i < |u| ==> !IsSpace(u[i]);
    assert WordsOf(v) == [v] by {
      assert forall i :: 0 <= i < |v| ==> !IsSpace(v[i]);
      WordsOfWord(v);
    }
    HyphenBetweenWords(u, v);
  }

  /** `"u - v"` is three words when `u` and `v` are words. */
  lemma HyphenBetweenWords(u: string, v: string)
    requires u != [] && forall i :: 0 <= i < |u| ==> !IsSpace(u[i])
    requires WordsOf(v) == [v]
    ensures WordsOf(u + " - " + v) == [u, "-", v]
  {
    var tail := "-" + [' '] + v;
    HyphenThenWord(v);
    assert u + " - " + v == u + [' '] + tail;
    WordsOfWordThen(u, tail);
  }

  lemma HyphenThenWord(v: string)
    requires WordsOf(v) == [v]
    ensures WordsOf("-" + [' '] + v) == ["-", v]
  {
    var s := "-" + [' '] + v;
    assert WordsOf(s[1..]) == [v] by {
      assert s[1..][1..] == v;
    }
    assert WordsOf(s) == ["-"] + WordsOf(s[1..]);
  }


  lemma KeepThreeWords(u: string, v: string)
    requires u !in Stopwords && v !in Stopwords
    ensures DropStopwords([u, "-", v]) == [u, "-", v]
  {
    var h := "-";
    NotStopword(h, 0);
    var ws := [u, h, v];
    assert forall k :: 0 <= k < |ws| ==> ws[k] !in Stopwords;
    DropStopwordsKeeps(ws);
  }

  /** Every word the stopword filter keeps is a word of its input. */
  lemma {:induction false} DropStopwordsSource(ws: seq<string>, k: nat)
    requires k < |DropStopwords(ws)|
    ensures DropStopwords(ws)[k] in ws
  {
    var rest := DropStopwords(ws[1..]);
    if ws[0] in Stopwords {
      DropStopwordsSource(ws[1..], k);
    } else if k > 0 {
      assert DropStopwords(ws)[k] == rest[k - 1];
      DropStopwordsSource(ws[1..], k - 1);
    }
  }

  /** The stopword filter leaves a list without stopwords alone. */
  lemma {:induction false} DropStopwordsKeeps(ws: seq<string>)
    requires forall k :: 0 <= k < |ws| ==> ws[k] !in Stopwords
    ensures DropStopwords(ws) == ws
  {
    if ws != [] {
      var rest := ws[1..];
      assert forall k :: 0 <= k < |rest| ==> rest[k] !in Stopwords by {
        forall k | 0 <= k < |rest| ensures rest[k] !in Stopwords {
          assert rest[k] == ws[k + 1];
        }
      }
      DropStopwordsKeeps(rest);
      assert ws[0] !in Stopwords;
      assert DropStopwords(ws) == [ws[0]] + rest;
      assert [ws[0]] + rest == ws;
    }
  }

  lemma JoinAroundHyphen(u: string, v: string)
    ensures Join([u, "-", v], "-") == u + "---" + v
  {
    var ts := [u, "-", v];
    assert ts[1..] == ["-", v];
    assert ["-", v][1..] == [v];
    assert Join(["-", v], "-") == "-" + "-" + v;
    assert "---" == "-" + "-" + "-";
  }

  /** A prompt that is one word of `[a-z0-9_-]`, not a stopword and at most
      30 characters long is its own heuristic slug. */
  lemma SingleWordSlug(p: string, now: nat)
    requires p != [] && |p| <= SimpleMaxLength && p !in Stopwords
    requires forall i :: 0 <= i < |p| ==> IsPlainChar(p[i]) && p[i] != ' '
    ensures SimpleSlug(p, now) == p
  {
    assert Tokens(p) == [p] by {
      BlankOfPlain(p);
      WordsOfWord(p);
      TokensAreWords(p);
      assert DropStopwords([p]) == [p];
    }
    assert Join(Take([p], SimpleMaxWords), "-") == p;
    SimpleSlugFits(p, now);
  }

  /** When the join of the first three tokens fits in 30 characters, it is the slug. */
  lemma SimpleSlugFits(prompt: string, now: nat)
    requires Tokens(prompt) != []
    requires |Join(Take(Tokens(prompt), SimpleMaxWords), "-")| <= SimpleMaxLength
    ensures SimpleSlug(prompt, now) == Join(Take(Tokens(prompt), SimpleMaxWords), "-")
  {
    SimpleSlugIsCappedJoin(prompt, now);
  }

  /** `\w` admits `_`, so the heuristic can answer with an underscore. */
  lemma HeuristicKeepsUnderscore(u: string, v: string, now: nat)
    requires u != [] && v != [] && |u| + |v| + 1 <= SimpleMaxLength
    requires forall i :: 0 <= i < |u| ==> IsLowerAlnum(u[i])
    requires forall i :: 0 <= i < |v| ==> IsLowerAlnum(v[i])
    ensures SimpleSlug(u + "_" + v, now) == u + "_" + v
  {
    var p := u + "_" + v;
    JoinedWordChars(u, v, '_');
    assert p !in Stopwords by {
      assert p[|u|] == '_';
      NotStopword(p, |u|);
    }
    SingleWordSlug(p, now);
  }

  /** Two words of `[a-z0-9]` around one character of `[_-]` make one plain word. */
  lemma JoinedWordChars(u: string, v: string, c: char)
    requires c == '_' || c == '-'
    requires forall i :: 0 <= i < |u| ==> IsLowerAlnum(u[i])
    requires forall i :: 0 <= i < |v| ==> IsLowerAlnum(v[i])
    ensures var p := u + [c] + v;
      forall i :: 0 <= i < |p| ==> IsPlainChar(p[i]) && p[i] != ' '
  {
    var p := u + [c] + v;
    forall i | 0 <= i < |p| ensures IsPlainChar(p[i]) && p[i] != ' ' {
      if i < |u| {
        assert p[i] == u[i];
      } else if i > |u| {
        assert p[i] == v[i - |u| - 1];
      }
    }
  }

  /** The check of line 204 also throws away a heuristic slug that merely
      begins with `dmux-`: with no key, no CLI and no usable short answer such
      a prompt ends in the timestamp. */
  lemma HeuristicDmuxPrefixRejected(t: string, now: nat, env: Collaborators)
    requires t != [] && |t| + |FallbackPrefix| <= SimpleMaxLength
    requires forall i :: 0 <= i < |t| ==> IsLowerAlnum(t[i])
    requires !env.apiKeySet && !env.claudeAvailable && ShortAttempt(env).None?
    ensures SimpleSlug(FallbackPrefix + t, now) == FallbackPrefix + t
    ensures GenerateSlug(FallbackPrefix + t, now, env) == Fallback(now)
  {
    var p := FallbackPrefix + t;
    DmuxWordSlug(t, now);
    assert StartsWith(p, FallbackPrefix);
    OfflineChain(p, now, env);
  }

  lemma DmuxWordSlug(t: string, now: nat)
    requires t != [] && |t| + |FallbackPrefix| <= SimpleMaxLength
    requires forall i :: 0 <= i < |t| ==> IsLowerAlnum(t[i])
    ensures SimpleSlug(FallbackPrefix + t, now) == FallbackPrefix + t
  {
    var p := FallbackPrefix + t;
    assert p == "dmux" + ['-'] + t;
    JoinedWordChars("dmux", t, '-');
    assert p !in Stopwords by {
      assert p[4] == '-';
      NotStopword(p, 4);
    }
    SingleWordSlug(p, now);
  }

  /** A prompt of whitespace only is not empty for line 143: it still goes to
      the API, whose answer wins, although the heuristic alone would answer
      the timestamp (line 9). */
  lemma BlankPromptStillAsksApi(prompt: string, now: nat, env: Collaborators)
    requires prompt != [] && AllSpace(prompt)
    requires env.apiKeySet && Usable(env.apiReply(Models[0]))
    ensures SimpleSlug(prompt, now) == Fallback(now)
    ensures GenerateSlug(prompt, now, env) == SlugChars(env.apiReply(Models[0]).value)
  {
    SimpleSlugFallbackCases(prompt, now);
    var r := FirstApiSlug(Models, env.apiReply);
    assert r.Some?;
  }

  /** Nothing like the check of line 204 guards the API's answer: a model that
      answers a string of `[a-z0-9-]` has it returned as it is, even one that
      begins with `dmux-`. */
  lemma ApiAnswerTakenAsIs(prompt: string, now: nat, env: Collaborators, answer: string)
    requires prompt != [] && env.apiKeySet && env.apiReply(Models[0]) == Some(answer)
    requires answer != [] && forall i :: 0 <= i < |answer| ==> IsSlugChar(answer[i])
    ensures GenerateSlug(prompt, now, env) == answer
  {
    SlugCharsFixesSlugs(answer);
    var r := FirstApiSlug(Models, env.apiReply);
    assert Usable(env.apiReply(Models[0]));
  }

}
