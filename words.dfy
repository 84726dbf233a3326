/**
 * "The words of a text": the maximal runs of non-whitespace characters, in
 * order. This is the reference against which the slug code's chains of
 * `replace(/\s+/g, …)`, `trim()`, `split(…)` and `filter(…)` are proved.
 */
module Words {
  import opened JsString

  /** The maximal runs of non-whitespace characters of `s`, in order. */
  function WordsOf(s: string): (ws: seq<string>)
    decreases |s|
    ensures forall k :: 0 <= k < |ws| ==> ws[k] != []
    ensures forall k, i :: 0 <= k < |ws| && 0 <= i < |ws[k]| ==> !IsSpace(ws[k][i])
    ensures s != [] && !IsSpace(s[0]) ==> ws != [] && ws[0][0] == s[0]
  {
    if s == [] then []
    else if IsSpace(s[0]) then WordsOf(s[1..])
    else
      var rest := WordsOf(s[1..]);
      if |s| > 1 && !IsSpace(s[1]) then [[s[0]] + rest[0]] + rest[1..]
      else [[s[0]]] + rest
  }

  /** Every character of a word comes from the text. */
  lemma {:induction false} WordsOfSource(s: string, k: nat, i: nat)
    requires k < |WordsOf(s)| && i < |WordsOf(s)[k]|
    ensures WordsOf(s)[k][i] in s
  {
    var ws := WordsOf(s);
    var rest := WordsOf(s[1..]);
    if IsSpace(s[0]) {
      WordsOfSource(s[1..], k, i);
    } else if |s| > 1 && !IsSpace(s[1]) {
      assert ws == [[s[0]] + rest[0]] + rest[1..];
      if k == 0 && i > 0 {
        assert ws[0][i] == rest[0][i - 1];
        WordsOfSource(s[1..], 0, i - 1);
      } else if k > 0 {
        assert ws[k] == rest[k];
        WordsOfSource(s[1..], k, i);
      }
    } else {
      assert ws == [[s[0]]] + rest;
      if k > 0 {
        assert ws[k] == rest[k - 1];
        WordsOfSource(s[1..], k - 1, i);
      }
    }
  }

  /** A text has no words exactly when it is all whitespace. */
  lemma {:induction false} NoWordsIffAllSpace(s: string)
    ensures WordsOf(s) == [] <==> AllSpace(s)
  {
    if s != [] && IsSpace(s[0]) {
      NoWordsIffAllSpace(s[1..]);
      if AllSpace(s[1..]) {
        forall i | 0 <= i < |s| ensures IsSpace(s[i]) {
          if i > 0 {
            assert s[i] == s[1..][i - 1];
          }
        }
      }
    }
  }

  /** `filter(w => w.length > 0)`: the non-empty pieces, in order. */
  function DropEmpty(ps: seq<string>): (qs: seq<string>)
    ensures |qs| <= |ps|
    ensures forall k :: 0 <= k < |qs| ==> qs[k] != []
  {
    if ps == [] then []
    else (if ps[0] == [] then [] else [ps[0]]) + DropEmpty(ps[1..])
  }

  /** With no empty piece, the filter keeps everything. */
  lemma {:induction false} DropEmptyKeepsAll(ps: seq<string>)
    requires forall k :: 0 <= k < |ps| ==> ps[k] != []
    ensures DropEmpty(ps) == ps
  {
    if ps != [] {
      DropEmptyKeepsAll(ps[1..]);
      assert [ps[0]] + ps[1..] == ps;
    }
  }

  /** Every piece kept by the filter is a piece of the input. */
  lemma {:induction false} DropEmptySource(ps: seq<string>, k: nat)
    requires k < |DropEmpty(ps)|
    ensures DropEmpty(ps)[k] in ps
  {
    var rest := DropEmpty(ps[1..]);
    if ps[0] == [] {
      DropEmptySource(ps[1..], k);
    } else if k > 0 {
      assert DropEmpty(ps)[k] == rest[k - 1];
      DropEmptySource(ps[1..], k - 1);
    }
  }

  /** `s.split(c).filter(p => p.length > 0)` is empty exactly when `s` holds
      nothing but `c`. */
  lemma {:induction false} DropEmptySplitEmpty(s: string, c: char)
    ensures DropEmpty(Split(s, c)) == [] <==> forall i :: 0 <= i < |s| ==> s[i] == c
  {
    if s != [] {
      var rest := Split(s[1..], c);
      if s[0] == c {
        DropEmptySplitEmpty(s[1..], c);
        assert DropEmpty(Split(s, c)) == DropEmpty(rest) by {
          assert ([[]] + rest)[1..] == rest;
        }
        assert (forall i :: 0 <= i < |s| ==> s[i] == c)
               <==> (forall i :: 0 <= i < |s[1..]| ==> s[1..][i] == c) by {
          assert forall i :: 0 < i < |s| ==> s[i] == s[1..][i - 1];
        }
      } else {
        var ps := Split(s, c);
        assert ps[0] != [];
        assert DropEmpty(ps) == [ps[0]] + DropEmpty(ps[1..]);
      }
    }
  }

  /** Words depend only on which positions hold whitespace and on the other
      characters: swapping one whitespace character for another keeps them. */
  lemma {:induction false} WordsOfSameShape(s: string, t: string)
    requires |s| == |t|
    requires forall i :: 0 <= i < |s| ==> IsSpace(s[i]) == IsSpace(t[i])
    requires forall i :: 0 <= i < |s| && !IsSpace(s[i]) ==> s[i] == t[i]
    ensures WordsOf(s) == WordsOf(t)
  {
    if s != [] {
      WordsOfSameShape(s[1..], t[1..]);
    }
  }

  /** Leading whitespace does not change the words. */
  lemma {:induction false} WordsOfTrimStart(s: string)
    ensures WordsOf(TrimStart(s)) == WordsOf(s)
  {
    if s != [] && IsSpace(s[0]) {
      WordsOfTrimStart(s[1..]);
    }
  }

  /** Trailing whitespace does not change the words. */
  lemma {:induction false} WordsOfAppendSpaces(s: string, t: string)
    requires AllSpace(t)
    ensures WordsOf(s + t) == WordsOf(s)
  {
    if s == [] {
      NoWordsIffAllSpace(t);
      assert s + t == t;
    } else {
      WordsOfAppendSpaces(s[1..], t);
      assert (s + t)[1..] == s[1..] + t;
    }
  }

  /** Whitespace in front of a text does not change its words. */
  lemma {:induction false} WordsOfPrependSpaces(p: string, t: string)
    requires AllSpace(p)
    ensures WordsOf(p + t) == WordsOf(t)
  {
    if p == [] {
      assert p + t == t;
    } else {
      assert AllSpace(p[1..]) by {
        forall i | 0 <= i < |p[1..]| ensures IsSpace(p[1..][i]) {
          assert p[1..][i] == p[i + 1];
        }
      }
      WordsOfPrependSpaces(p[1..], t);
      assert (p + t)[0] == p[0];
      assert (p + t)[1..] == p[1..] + t;
    }
  }

  /** The words of `[x] + a` depend on `a` only through its words and whether
      it starts with a non-space character. */
  lemma WordsOfConsSame(x: char, a: string, b: string)
    requires WordsOf(a) == WordsOf(b)
    requires (a == []) == (b == [])
    requires a != [] ==> IsSpace(a[0]) == IsSpace(b[0])
    ensures WordsOf([x] + a) == WordsOf([x] + b)
  {
    assert ([x] + a)[1..] == a;
    assert ([x] + b)[1..] == b;
  }

  /** `trim()` does not change the words. */
  lemma WordsOfTrim(s: string)
    ensures WordsOf(Trim(s)) == WordsOf(s)
  {
    var t := TrimStart(s);
    var r := TrimEnd(t);
    assert WordsOf(r) == WordsOf(t) by {
      var tail := t[|r|..];
      assert AllSpace(tail) by {
        forall i | 0 <= i < |tail| ensures IsSpace(tail[i]) {
          assert tail[i] == t[|r| + i];
        }
      }
      assert t == r + tail;
      WordsOfAppendSpaces(r, tail);
    }
    assert Trim(s) == r;
    WordsOfTrimStart(s);
  }

  /** `replace(/\s+/g, ' ')` does not change the words. */
  lemma {:induction false} WordsOfCollapse(s: string)
    ensures WordsOf(CollapseSpaces(s, ' ')) == WordsOf(s)
  {
    if s != [] {
      var r := CollapseSpaces(s, ' ');
      if IsSpace(s[0]) {
        var t := TrimStart(s[1..]);
        WordsOfCollapse(t);
        WordsOfTrimStart(s[1..]);
        assert r[1..] == CollapseSpaces(t, ' ');
      } else {
        WordsOfCollapse(s[1..]);
        assert r[1..] == CollapseSpaces(s[1..], ' ');
      }
    }
  }

  /** When `' '` is the only whitespace character in `s`, the non-empty
      pieces of `s.split(' ')` are the words of `s`. */
  lemma {:induction false} SplitOnSpaceIsWords(s: string)
    requires forall i :: 0 <= i < |s| && IsSpace(s[i]) ==> s[i] == ' '
    ensures DropEmpty(Split(s, ' ')) == WordsOf(s)
  {
    if s != [] {
      SplitOnSpaceIsWords(s[1..]);
      var rest := Split(s[1..], ' ');
      assert rest == [rest[0]] + rest[1..];
      if s[0] == ' ' {
        assert ([[]] + rest)[1..] == rest;
      } else {
        var ps := [[s[0]] + rest[0]] + rest[1..];
        assert ps[1..] == rest[1..];
        assert Split(s, ' ') == ps;
        if |s| > 1 && !IsSpace(s[1]) {
          assert rest[0] != [];
          assert DropEmpty(rest) == [rest[0]] + DropEmpty(rest[1..]);
        } else {
          assert rest[0] == [];
          assert DropEmpty(rest) == DropEmpty(rest[1..]);
          assert ps[0] == [s[0]];
        }
        assert DropEmpty(ps) == [ps[0]] + DropEmpty(ps[1..]);
      }
    }
  }

  /** The non-empty pieces of `s.split(/\s+/)` are the words of `s`. */
  lemma SplitSpacesWords(s: string)
    ensures DropEmpty(SplitSpaces(s)) == WordsOf(s)
  {
    var c := CollapseSpaces(s, ' ');
    CollapseSpacesOnlyRep(s, ' ');
    SplitOnSpaceIsWords(c);
    WordsOfCollapse(s);
  }

  /** A non-empty string that neither starts nor ends with `' '`, has no two
      `' '` in a row and no other whitespace splits on `' '` into non-empty pieces. */
  lemma {:induction false} SplitSingleSpacedNoEmpty(s: string)
    requires s != [] && s[0] != ' ' && s[|s| - 1] != ' '
    requires forall i :: 0 <= i < |s| - 1 ==> !(s[i] == ' ' && s[i + 1] == ' ')
    ensures forall k :: 0 <= k < |Split(s, ' ')| ==> Split(s, ' ')[k] != []
  {
    var rest := Split(s[1..], ' ');
    if |s| > 1 {
      if s[1] == ' ' {
        assert |s| > 2 && s[2] != ' ';
        SplitSingleSpacedNoEmpty(s[2..]);
        assert s[1..][1..] == s[2..];
        assert rest == [[]] + Split(s[2..], ' ');
      } else {
        SplitSingleSpacedNoEmpty(s[1..]);
      }
    }
  }

  /** For a trimmed, non-blank text, `split(/\s+/)` yields exactly its words:
      no empty piece appears. */
  lemma SplitSpacesOfTrimmed(s: string)
    requires s != [] && !IsSpace(s[0]) && !IsSpace(s[|s| - 1])
    ensures SplitSpaces(s) == WordsOf(s)
  {
    var c := CollapseSpaces(s, ' ');
    CollapseSingleSpaced(s);
    assert DropEmpty(Split(c, ' ')) == Split(c, ' ') by {
      SplitSingleSpacedNoEmpty(c);
      DropEmptyKeepsAll(Split(c, ' '));
    }
    SplitSpacesWords(s);
  }

  /** A non-empty text without whitespace is one word. */
  lemma {:induction false} WordsOfWord(u: string)
    requires u != [] && forall i :: 0 <= i < |u| ==> !IsSpace(u[i])
    ensures WordsOf(u) == [u]
  {
    if |u| == 1 {
      assert u[1..] == [];
      assert [u[0]] == u;
    } else {
      WordsOfWord(u[1..]);
      assert !IsSpace(u[1]);
      assert [u[0]] + u[1..] == u;
    }
  }

  /** A word followed by a space contributes itself, then the words of the rest. */
  lemma {:induction false} WordsOfWordThen(u: string, rest: string)
    requires u != [] && forall i :: 0 <= i < |u| ==> !IsSpace(u[i])
    ensures WordsOf(u + [' '] + rest) == [u] + WordsOf(rest)
  {
    var s := u + [' '] + rest;
    assert s[0] == u[0] && !IsSpace(s[0]);
    if |u| == 1 {
      assert WordsOf(s[1..]) == WordsOf(rest) by {
        assert s[1..] == [' '] + rest;
        assert ([' '] + rest)[1..] == rest;
      }
      assert WordsOf(s) == [[s[0]]] + WordsOf(s[1..]) by {
        assert IsSpace(s[1]);
      }
      assert [u[0]] == u;
    } else {
      assert WordsOf(s[1..]) == [u[1..]] + WordsOf(rest) by {
        assert s[1..] == u[1..] + [' '] + rest;
        WordsOfWordThen(u[1..], rest);
      }
      assert WordsOf(s) == [[s[0]] + WordsOf(s[1..])[0]] + WordsOf(s[1..])[1..] by {
        assert s[1] == u[1] && !IsSpace(s[1]);
      }
      assert [u[0]] + u[1..] == u;
    }
  }

}
