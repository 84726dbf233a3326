/**
 * The JavaScript string built-ins that the slug code relies on, written as
 * functions on `seq<char>`: the regular-expression classes `\s`, `\w` and
 * `[a-z0-9-]`, `toLowerCase`, `trim`, `replace(/\s+/g, c)`, `split` on one
 * character, `join`, `lastIndexOf`, deleting the characters outside a class,
 * and the decimal text of a number in a template literal.
 */
module JsString {

  // ---------------------------------------------------------------------------
  // Character classes
  // ---------------------------------------------------------------------------

  /** `\s`, which is also the set `String.prototype.trim` removes:
      the WhiteSpace and LineTerminator characters of ECMAScript. */
  predicate IsSpace(c: char)
  {
    || c == ' ' || c == '\t' || c == '\n' || c == '\r' || c == '\U{000B}' || c == '\U{000C}'
    || c == '\U{00A0}' || c == '\U{1680}' || ('\U{2000}' <= c <= '\U{200A}')
    || c == '\U{2028}' || c == '\U{2029}' || c == '\U{202F}' || c == '\U{205F}'
    || c == '\U{3000}' || c == '\U{FEFF}'
  }

  /** `\w` in a regular expression without the `u` flag: `[A-Za-z0-9_]`. */
  predicate IsWordChar(c: char)
  {
    'a' <= c <= 'z' || 'A' <= c <= 'Z' || '0' <= c <= '9' || c == '_'
  }

  /** `[a-z0-9]` */
  predicate IsLowerAlnum(c: char)
  {
    'a' <= c <= 'z' || '0' <= c <= '9'
  }

  /** `[a-z0-9-]` */
  predicate IsSlugChar(c: char)
  {
    IsLowerAlnum(c) || c == '-'
  }

  predicate AllSpace(s: string)
  {
    forall i :: 0 <= i < |s| ==> IsSpace(s[i])
  }

  // ---------------------------------------------------------------------------
  // toLowerCase
  // ---------------------------------------------------------------------------

  /** `toLowerCase` on one character; only the ASCII letters are mapped. */
  function ToLowerChar(c: char): (r: char)
    ensures !('A' <= r <= 'Z')
    ensures IsWordChar(r) == IsWordChar(c) && IsSpace(r) == IsSpace(c)
    ensures !('A' <= c <= 'Z') ==> r == c
    ensures 'A' <= c <= 'Z' ==> r == "abcdefghijklmnopqrstuvwxyz"[c as int - 'A' as int]
  {
    if 'A' <= c <= 'Z' then (c as int + ('a' as int - 'A' as int)) as char else c
  }

  function ToLower(s: string): (r: string)
  {
    seq(|s|, i requires 0 <= i < |s| => ToLowerChar(s[i]))
  }

  // ---------------------------------------------------------------------------
  // trim
  // ---------------------------------------------------------------------------

  /** The leading whitespace removed: `r` is the suffix of `s` that starts at
      the first non-space character. */
  function TrimStart(s: string): (r: string)
    ensures |r| <= |s| && r == s[|s| - |r|..]
    ensures forall i :: 0 <= i < |s| - |r| ==> IsSpace(s[i])
    ensures r == [] || !IsSpace(r[0])
  {
    if s != [] && IsSpace(s[0]) then
      var r := TrimStart(s[1..]);
      assert forall i :: 0 < i < |s| ==> s[i] == s[1..][i - 1];
      r
    else s
  }

  /** The trailing whitespace removed: `r` is the prefix of `s` that ends at
      the last non-space character. */
  function TrimEnd(s: string): (r: string)
    ensures |r| <= |s| && r == s[..|r|]
    ensures forall i :: |r| <= i < |s| ==> IsSpace(s[i])
    ensures r == [] || !IsSpace(r[|r| - 1])
  {
    if s != [] && IsSpace(s[|s| - 1]) then TrimEnd(s[..|s| - 1]) else s
  }

  /** `s.trim()` */
  function Trim(s: string): string
  {
    TrimEnd(TrimStart(s))
  }

  /** `s.trim()` is empty exactly when `s` is all whitespace, and otherwise
      starts and ends with a non-space character of `s`. */
  lemma TrimProperties(s: string)
    ensures Trim(s) == [] <==> AllSpace(s)
    ensures Trim(s) != [] ==> !IsSpace(Trim(s)[0]) && !IsSpace(Trim(s)[|Trim(s)| - 1])
    ensures forall i :: 0 <= i < |Trim(s)| ==> Trim(s)[i] in s
  {
    TrimEmptyIffAllSpace(s);
    TrimEnds(s);
    forall i | 0 <= i < |Trim(s)| ensures Trim(s)[i] in s {
      TrimIndex(s, i);
    }
  }

  /** A non-empty `trim()` starts and ends with a non-space character. */
  lemma TrimEnds(s: string)
    ensures Trim(s) != [] ==> !IsSpace(Trim(s)[0]) && !IsSpace(Trim(s)[|Trim(s)| - 1])
  {
    var t := TrimStart(s);
    var r := TrimEnd(t);
    if r != [] {
      assert r[0] == t[0];
    }
  }

  /** `trim()` is empty exactly when the text is all whitespace. */
  lemma TrimEmptyIffAllSpace(s: string)
    ensures Trim(s) == [] <==> AllSpace(s)
  {
    var t := TrimStart(s);
    var k := |s| - |t|;
    if TrimEnd(t) == [] {
      assert AllSpace(t);
    } else if t != [] {
      assert t[0] == s[k] && !IsSpace(s[k]);
    }
  }

  /** The characters `trim()` keeps sit at an offset of the number of
      leading whitespace characters. */
  lemma TrimIndex(s: string, i: nat)
    requires i < |Trim(s)|
    ensures Trim(s)[i] == s[|s| - |TrimStart(s)| + i]
  {
    var t := TrimStart(s);
    assert Trim(s)[i] == t[i];
  }

  /** `trim()` cuts a text into leading whitespace, the trimmed text and
      trailing whitespace. */
  lemma TrimSurround(s: string)
    ensures s == s[..|s| - |TrimStart(s)|] + Trim(s) + TrimStart(s)[|Trim(s)|..]
    ensures AllSpace(s[..|s| - |TrimStart(s)|]) && AllSpace(TrimStart(s)[|Trim(s)|..])
  {
    TrimSplits(s);
    LeadingSpace(s);
    TrailingSpace(s);
  }

  /** The trimmed text sits between the leading and the trailing whitespace. */
  lemma TrimSplits(s: string)
    ensures s == s[..|s| - |TrimStart(s)|] + Trim(s) + TrimStart(s)[|Trim(s)|..]
  {
    Sandwich(s, TrimStart(s), Trim(s));
  }

  /** A suffix `u` of `s` with a prefix `r`: `s` is what comes before `u`, then
      `r`, then the rest of `u`. */
  lemma Sandwich(s: string, u: string, r: string)
    requires |u| <= |s| && u == s[|s| - |u|..]
    requires |r| <= |u| && r == u[..|r|]
    ensures s == s[..|s| - |u|] + r + u[|r|..]
  {
    assert s == s[..|s| - |u|] + u;
    assert u == r + u[|r|..];
  }

  /** What `trimStart()` removes is whitespace. */
  lemma LeadingSpace(s: string)
    ensures AllSpace(s[..|s| - |TrimStart(s)|])
  {
    var p := s[..|s| - |TrimStart(s)|];
    forall i | 0 <= i < |p| ensures IsSpace(p[i]) {
      assert p[i] == s[i];
    }
  }

  /** What `trimEnd()` then removes is whitespace. */
  lemma TrailingSpace(s: string)
    ensures AllSpace(TrimStart(s)[|Trim(s)|..])
  {
    var u := TrimStart(s);
    var r := TrimEnd(u);
    var q := u[|r|..];
    forall i | 0 <= i < |q| ensures IsSpace(q[i]) {
      assert q[i] == u[|r| + i];
    }
  }

  /** `trim()` keeps every non-space character. */
  lemma TrimKeepsNonSpace(s: string, i: nat)
    requires i < |s| && !IsSpace(s[i])
    ensures s[i] in Trim(s)
  {
    var t := TrimStart(s);
    var k := |s| - |t|;
    assert i >= k;
    assert t[i - k] == s[i];
    var r := TrimEnd(t);
    assert i - k < |r|;
    assert r[i - k] == s[i];
  }

  /** A string that neither starts nor ends with whitespace is its own `trim()`. */
  lemma TrimOfTrimmed(s: string)
    requires s == [] || (!IsSpace(s[0]) && !IsSpace(s[|s| - 1]))
    ensures Trim(s) == s
  {
  }

  // ---------------------------------------------------------------------------
  // replace with a global regular expression
  // ---------------------------------------------------------------------------

  /** `s.replace(/\s+/g, rep)`: every maximal run of whitespace becomes one
      `rep`; every other character is kept in place. */
  function CollapseSpaces(s: string, rep: char): (r: string)
    decreases |s|
    ensures |r| <= |s|
    ensures (r == []) == (s == [])
    ensures r != [] ==> r[0] == (if IsSpace(s[0]) then rep else s[0])
  {
    if s == [] then []
    else if IsSpace(s[0]) then
      [rep] + CollapseSpaces(TrimStart(s[1..]), rep)
    else
      [s[0]] + CollapseSpaces(s[1..], rep)
  }

  /** A run of whitespace at the end of `s` becomes a `rep` at the end of the result. */
  lemma {:induction false} CollapseLast(s: string, rep: char)
    requires s != []
    ensures CollapseSpaces(s, rep)[|CollapseSpaces(s, rep)| - 1]
            == if IsSpace(s[|s| - 1]) then rep else s[|s| - 1]
  {
    var r := CollapseSpaces(s, rep);
    var last := if IsSpace(s[|s| - 1]) then rep else s[|s| - 1];
    if IsSpace(s[0]) {
      var t := TrimStart(s[1..]);
      var u := CollapseSpaces(t, rep);
      assert r == [rep] + u;
      if t != [] {
        CollapseLast(t, rep);
        assert t[|t| - 1] == s[|s| - 1];
        assert r[|r| - 1] == u[|u| - 1];
      } else {
        assert r == [rep];
        assert IsSpace(s[|s| - 1]) by {
          if |s| > 1 {
            assert s[|s| - 1] == s[1..][|s| - 2];
          }
        }
      }
    } else if |s| > 1 {
      var u := CollapseSpaces(s[1..], rep);
      assert r == [s[0]] + u;
      CollapseLast(s[1..], rep);
      assert s[1..][|s| - 2] == s[|s| - 1];
      assert r[|r| - 1] == u[|u| - 1];
    } else {
      assert r == [s[0]];
    }
  }

  /** With a whitespace `rep`, the result has no two whitespace characters in a row. */
  lemma {:induction false} CollapseNoDoubleSpace(s: string, rep: char)
    requires IsSpace(rep)
    ensures forall i :: 0 <= i < |CollapseSpaces(s, rep)| - 1
                        ==> !(IsSpace(CollapseSpaces(s, rep)[i]) && IsSpace(CollapseSpaces(s, rep)[i + 1]))
  {
    if s != [] {
      var r := CollapseSpaces(s, rep);
      if IsSpace(s[0]) {
        var t := TrimStart(s[1..]);
        CollapseNoDoubleSpace(t, rep);
        assert r[1..] == CollapseSpaces(t, rep);
      } else {
        CollapseNoDoubleSpace(s[1..], rep);
        assert r[1..] == CollapseSpaces(s[1..], rep);
      }
    }
  }

  /** Collapsing a text that starts and ends with non-whitespace over `' '`
      gives a non-empty text that starts and ends with non-space and never
      holds two spaces in a row. */
  lemma CollapseSingleSpaced(s: string)
    requires s != [] && !IsSpace(s[0]) && !IsSpace(s[|s| - 1])
    ensures CollapseSpaces(s, ' ') != []
    ensures CollapseSpaces(s, ' ')[0] != ' '
    ensures CollapseSpaces(s, ' ')[|CollapseSpaces(s, ' ')| - 1] != ' '
    ensures forall i :: 0 <= i < |CollapseSpaces(s, ' ')| - 1
                        ==> !(CollapseSpaces(s, ' ')[i] == ' ' && CollapseSpaces(s, ' ')[i + 1] == ' ')
  {
    CollapseLast(s, ' ');
    assert IsSpace(' ');
    CollapseNoDoubleSpace(s, ' ');
    NoDoubleSpaceChar(CollapseSpaces(s, ' '));
  }

  /** A text without two whitespace characters in a row has no two spaces in a row. */
  lemma NoDoubleSpaceChar(c: string)
    requires forall i :: 0 <= i < |c| - 1 ==> !(IsSpace(c[i]) && IsSpace(c[i + 1]))
    ensures forall i :: 0 <= i < |c| - 1 ==> !(c[i] == ' ' && c[i + 1] == ' ')
  {
    forall i | 0 <= i < |c| - 1
      ensures !(c[i] == ' ' && c[i + 1] == ' ')
    {
      if c[i] == ' ' {
        assert IsSpace(c[i]);
      }
    }
  }

  /** Every character of `s.replace(/\s+/g, rep)` other than `rep` is a
      non-space character of `s`. */
  lemma {:induction false} CollapseSource(s: string, rep: char, i: nat)
    requires i < |CollapseSpaces(s, rep)| && CollapseSpaces(s, rep)[i] != rep
    ensures !IsSpace(CollapseSpaces(s, rep)[i]) && CollapseSpaces(s, rep)[i] in s
  {
    var r := CollapseSpaces(s, rep);
    if IsSpace(s[0]) {
      var t := TrimStart(s[1..]);
      assert r[i] == CollapseSpaces(t, rep)[i - 1];
      CollapseSource(t, rep, i - 1);
      assert t == s[1 + |s[1..]| - |t|..];
    } else if i > 0 {
      assert r[i] == CollapseSpaces(s[1..], rep)[i - 1];
      CollapseSource(s[1..], rep, i - 1);
    }
  }

  /** The only whitespace left by `s.replace(/\s+/g, rep)` is `rep` itself. */
  lemma CollapseSpacesOnlyRep(s: string, rep: char)
    ensures forall i :: 0 <= i < |CollapseSpaces(s, rep)| && IsSpace(CollapseSpaces(s, rep)[i])
                        ==> CollapseSpaces(s, rep)[i] == rep
  {
    var r := CollapseSpaces(s, rep);
    forall i | 0 <= i < |r| && IsSpace(r[i])
      ensures r[i] == rep
    {
      if r[i] != rep {
        CollapseSource(s, rep, i);
      }
    }
  }

  /** Every non-space character of `s` is still in `s.replace(/\s+/g, rep)`. */
  lemma {:induction false} CollapseKeepsNonSpace(s: string, rep: char, i: nat)
    requires i < |s| && !IsSpace(s[i])
    ensures s[i] in CollapseSpaces(s, rep)
  {
    if i > 0 {
      if IsSpace(s[0]) {
        var t := TrimStart(s[1..]);
        var k := |s[1..]| - |t|;
        assert i - 1 >= k;
        assert t[i - 1 - k] == s[i];
        CollapseKeepsNonSpace(t, rep, i - 1 - k);
      } else {
        CollapseKeepsNonSpace(s[1..], rep, i - 1);
      }
    }
  }

  /** `s.replace(/[^…]/g, by)` for a class `keep`: each character outside the
      class is replaced by `filler`. */
  function ReplaceOutside(s: string, keep: char -> bool, filler: char): (r: string)
  {
    seq(|s|, i requires 0 <= i < |s| => if keep(s[i]) then s[i] else filler)
  }

  /** `s.replace(/[^…]/g, '')` for a class `keep`: the characters of `s` in
      the class, in their order. */
  function Retain(s: string, keep: char -> bool): (r: string)
    ensures |r| <= |s|
    ensures forall i :: 0 <= i < |r| ==> keep(r[i]) && r[i] in s
    ensures (forall i :: 0 <= i < |s| ==> keep(s[i])) ==> r == s
  {
    if s == [] then []
    else
      var rest := Retain(s[1..], keep);
      if keep(s[0]) then [s[0]] + rest else rest
  }

  /** Deleting with `Retain` leaves nothing exactly when no character of the
      input is in the class. */
  lemma {:induction false} RetainEmpty(s: string, keep: char -> bool)
    ensures Retain(s, keep) == [] <==> forall i :: 0 <= i < |s| ==> !keep(s[i])
  {
    if s != [] {
      RetainEmpty(s[1..], keep);
      if Retain(s, keep) == [] {
        assert !keep(s[0]);
        forall i | 0 <= i < |s| ensures !keep(s[i]) {
          if i > 0 {
            assert s[i] == s[1..][i - 1];
          }
        }
      }
    }
  }

  /** Lower-casing and then keeping `[a-z0-9-]` leaves nothing exactly when no
      character lower-cases into the class. */
  lemma RetainLowerEmpty(s: string)
    ensures Retain(ToLower(s), IsSlugChar) == [] <==> forall i :: 0 <= i < |s| ==> !IsSlugChar(ToLowerChar(s[i]))
  {
    var l := ToLower(s);
    RetainEmpty(l, IsSlugChar);
    assert forall i :: 0 <= i < |s| ==> l[i] == ToLowerChar(s[i]);
  }

  /** `Retain` works piece by piece: the kept characters of `a + b` are those
      of `a` followed by those of `b`, so their order is the input's. */
  lemma {:induction false} RetainAppend(a: string, b: string, keep: char -> bool)
    ensures Retain(a + b, keep) == Retain(a, keep) + Retain(b, keep)
  {
    if a != [] {
      RetainAppend(a[1..], b, keep);
      assert (a + b)[0] == a[0];
      assert (a + b)[1..] == a[1..] + b;
    } else {
      assert a + b == b;
    }
  }

  /** `toLowerCase` works character by character, so it distributes over `+`. */
  lemma ToLowerAppend(a: string, b: string)
    ensures ToLower(a + b) == ToLower(a) + ToLower(b)
  {
  }

  /** Every character of the class survives `Retain`. */
  lemma {:induction false} RetainKeeps(s: string, keep: char -> bool, i: nat)
    requires i < |s| && keep(s[i])
    ensures s[i] in Retain(s, keep)
  {
    if i > 0 {
      RetainKeeps(s[1..], keep, i - 1);
    }
  }

  /** Each occurrence of `c` replaced by `d`. */
  function ReplaceChar(s: string, c: char, d: char): (r: string)
  {
    seq(|s|, i requires 0 <= i < |s| => if s[i] == c then d else s[i])
  }

  /** `ReplaceChar` works character by character, so it distributes over `+`. */
  lemma ReplaceCharAppend(a: string, b: string, c: char, d: char)
    ensures ReplaceChar(a + b, c, d) == ReplaceChar(a, c, d) + ReplaceChar(b, c, d)
  {
  }

  // ---------------------------------------------------------------------------
  // split, join, lastIndexOf
  // ---------------------------------------------------------------------------

  /** `s.split(c)` for a one-character separator: the pieces between the
      occurrences of `c`, empty ones included (`"".split(c)` is `[""]`). */
  function Split(s: string, c: char): (ps: seq<string>)
    decreases |s|
    ensures |ps| >= 1
    ensures forall k :: 0 <= k < |ps| ==> c !in ps[k]
    ensures ps[0] == [] <==> s == [] || s[0] == c
    ensures s != [] && s[0] != c ==> ps[0] != [] && ps[0][0] == s[0]
  {
    if s == [] then [[]]
    else if s[0] == c then [[]] + Split(s[1..], c)
    else
      var rest := Split(s[1..], c);
      [[s[0]] + rest[0]] + rest[1..]
  }

  /** `s.split(/\s+/)`: the pieces between the maximal runs of whitespace,
      with an empty first (last) piece when `s` starts (ends) with whitespace. */
  function SplitSpaces(s: string): (ps: seq<string>)
  {
    Split(CollapseSpaces(s, ' '), ' ')
  }

  /** `ps.join(sep)` */
  function Join(ps: seq<string>, sep: string): string
  {
    if |ps| == 0 then []
    else if |ps| == 1 then ps[0]
    else ps[0] + sep + Join(ps[1..], sep)
  }

  /** `s.lastIndexOf(c)`: the index of the last `c` in `s`, or -1 when there is none. */
  function LastIndexOf(s: string, c: char): (r: int)
    ensures -1 <= r < |s|
    ensures r >= 0 ==> s[r] == c
    ensures forall i :: r < i < |s| ==> s[i] != c
  {
    if s == [] then -1
    else if s[|s| - 1] == c then |s| - 1
    else LastIndexOf(s[..|s| - 1], c)
  }

  /** The number of occurrences of `c` in `s`. */
  function Count(s: string, c: char): nat
  {
    if s == [] then 0 else (if s[0] == c then 1 else 0) + Count(s[1..], c)
  }

  /** A prefix has no more occurrences than the whole string. */
  lemma {:induction false} CountPrefix(s: string, c: char, n: nat)
    requires n <= |s|
    ensures Count(s[..n], c) <= Count(s, c)
  {
    if n > 0 {
      CountPrefix(s[1..], c, n - 1);
      assert s[..n][1..] == s[1..][..n - 1];
    }
  }

  /** The pieces of `s.split(c)` are made of characters of `s`. */
  lemma {:induction false} SplitChars(s: string, c: char, ok: char -> bool)
    requires forall i :: 0 <= i < |s| ==> ok(s[i])
    ensures forall k, i :: 0 <= k < |Split(s, c)| && 0 <= i < |Split(s, c)[k]| ==> ok(Split(s, c)[k][i])
  {
    if s != [] {
      SplitChars(s[1..], c, ok);
    }
  }

  /** `split` yields one piece more than there are separators. */
  lemma {:induction false} SplitLength(s: string, c: char)
    ensures |Split(s, c)| == Count(s, c) + 1
  {
    if s != [] {
      SplitLength(s[1..], c);
    }
  }

  /** Splitting on `c` and joining with `d` replaces every `c` by `d`; with
      `d == c` this is the round trip `s.split(c).join(c) == s`. */
  lemma {:induction false} JoinSplit(s: string, c: char, d: char)
    ensures Join(Split(s, c), [d]) == ReplaceChar(s, c, d)
  {
    if s != [] {
      JoinSplit(s[1..], c, d);
      var rest := Split(s[1..], c);
      if s[0] == c {
        assert ([[]] + rest)[1..] == rest;
        assert ReplaceChar(s, c, d) == [d] + ReplaceChar(s[1..], c, d);
      } else {
        var ps := [[s[0]] + rest[0]] + rest[1..];
        assert ps[1..] == rest[1..];
        assert ReplaceChar(s, c, d) == [s[0]] + ReplaceChar(s[1..], c, d);
        if |rest| > 1 {
          assert rest[1..][0] == rest[1];
          assert Join(rest, [d]) == rest[0] + [d] + Join(rest[1..], [d]);
        }
      }
    }
  }

  /** Splitting a piece free of `c` followed by `c` peels that piece off. */
  lemma {:induction false} SplitAfterPiece(p: string, c: char, rest: string)
    requires c !in p
    ensures Split(p + [c] + rest, c) == [p] + Split(rest, c)
  {
    if p != [] {
      SplitAfterPiece(p[1..], c, rest);
      assert (p + [c] + rest)[1..] == p[1..] + [c] + rest;
      var tail := Split(p[1..] + [c] + rest, c);
      assert tail[0] == p[1..] && tail[1..] == Split(rest, c);
      assert [p[0]] + p[1..] == p;
    } else {
      assert ([c] + rest)[1..] == rest;
    }
  }

  /** The other round trip: joining pieces that do not contain `c` with `c`
      and splitting again gives the pieces back. */
  lemma {:induction false} SplitJoin(ps: seq<string>, c: char)
    requires |ps| >= 1
    requires forall k :: 0 <= k < |ps| ==> c !in ps[k]
    ensures Split(Join(ps, [c]), c) == ps
  {
    if |ps| == 1 {
      SplitPlain(ps[0], c);
    } else {
      SplitJoin(ps[1..], c);
      SplitAfterPiece(ps[0], c, Join(ps[1..], [c]));
      assert [ps[0]] + ps[1..] == ps;
    }
  }

  /** A string without `c` splits into itself. */
  lemma {:induction false} SplitPlain(s: string, c: char)
    requires c !in s
    ensures Split(s, c) == [s]
  {
    if s != [] {
      SplitPlain(s[1..], c);
      assert [s[0]] + s[1..] == s;
    }
  }

  /** Every character of `ps.join(sep)` comes from a piece or from `sep`. */
  lemma {:induction false} JoinChars(ps: seq<string>, sep: string, ok: char -> bool)
    requires forall k, i :: 0 <= k < |ps| && 0 <= i < |ps[k]| ==> ok(ps[k][i])
    requires forall i :: 0 <= i < |sep| ==> ok(sep[i])
    ensures forall i :: 0 <= i < |Join(ps, sep)| ==> ok(Join(ps, sep)[i])
  {
    if |ps| > 1 {
      JoinChars(ps[1..], sep, ok);
      var j := Join(ps, sep);
      var tail := Join(ps[1..], sep);
      assert j == ps[0] + sep + tail;
      forall i | 0 <= i < |j| ensures ok(j[i]) {
        if i < |ps[0]| {
          assert j[i] == ps[0][i];
        } else if i < |ps[0]| + |sep| {
          assert j[i] == sep[i - |ps[0]|];
        } else {
          assert j[i] == tail[i - |ps[0]| - |sep|];
        }
      }
    }
  }

  // ---------------------------------------------------------------------------
  // Numbers in template literals
  // ---------------------------------------------------------------------------

  function DigitChar(d: nat): (c: char)
    requires d < 10
    ensures '0' <= c <= '9' && c as int - '0' as int == d
  {
    ('0' as int + d) as char
  }

  /** The decimal text of a non-negative integer, as `${n}` writes it. */
  function Decimal(n: nat): (r: string)
    ensures r != []
    ensures forall i :: 0 <= i < |r| ==> '0' <= r[i] <= '9'
    ensures r[0] == '0' ==> n == 0
  {
    if n < 10 then [DigitChar(n)] else Decimal(n / 10) + [DigitChar(n % 10)]
  }

  /** The value of a string of decimal digits. */
  function DecimalValue(s: string): nat
    requires forall i :: 0 <= i < |s| ==> '0' <= s[i] <= '9'
  {
    if s == [] then 0 else 10 * DecimalValue(s[..|s| - 1]) + (s[|s| - 1] as int - '0' as int)
  }

  /** Reading the decimal text back gives the number: `Decimal` loses nothing. */
  lemma {:induction false} DecimalRoundTrip(n: nat)
    ensures DecimalValue(Decimal(n)) == n
  {
    if n >= 10 {
      DecimalRoundTrip(n / 10);
      var r := Decimal(n);
      assert r[..|r| - 1] == Decimal(n / 10);
    }
  }

}
