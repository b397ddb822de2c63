/** String operations the application relies on: trimming (Python `str.strip`,
    JavaScript `String.prototype.trim`), substring search (Python `in`) and
    Python `str.replace` with its leftmost, non-overlapping scan. */
module Text {

  /** Characters for which Python's `str.isspace` holds; `str.strip()` with no
      argument removes exactly these. */
  predicate IsPythonSpace(c: char)
  {
    ('\t' <= c <= '\r') || ('\U{1C}' <= c <= '\U{1F}') || c == ' ' || c == '\U{85}'
    || c == '\U{A0}' || c == '\U{1680}' || ('\U{2000}' <= c <= '\U{200A}')
    || c == '\U{2028}' || c == '\U{2029}' || c == '\U{202F}' || c == '\U{205F}' || c == '\U{3000}'
  }

  /** The WhiteSpace and LineTerminator characters that JavaScript's `trim` removes. */
  predicate IsJsSpace(c: char)
  {
    ('\t' <= c <= '\r') || c == ' ' || c == '\U{A0}' || c == '\U{1680}'
    || ('\U{2000}' <= c <= '\U{200A}') || c == '\U{2028}' || c == '\U{2029}' || c == '\U{202F}'
    || c == '\U{205F}' || c == '\U{3000}' || c == '\U{FEFF}'
  }

  /** Neither end of `s` is a space character. */
  predicate Trimmed(s: string, space: char -> bool)
  {
    |s| == 0 || (!space(s[0]) && !space(s[|s| - 1]))
  }

  /** Every character of `s` is a space character. */
  predicate Blank(s: string, space: char -> bool)
  {
    forall k :: 0 <= k < |s| ==> space(s[k])
  }

  /** `s` without its trailing space characters. */
  function TrimEnd(s: string, space: char -> bool): (r: string)
    ensures |r| <= |s| && r == s[..|r|]
    ensures |r| == 0 || !space(r[|r| - 1])
    ensures forall k :: |r| <= k < |s| ==> space(s[k])
    decreases |s|
  {
    if |s| > 0 && space(s[|s| - 1]) then TrimEnd(s[..|s| - 1], space) else s
  }

  /** `s` without its leading space characters. */
  function TrimStart(s: string, space: char -> bool): (r: string)
    ensures |r| <= |s| && r == s[|s| - |r|..]
    ensures |r| == 0 || !space(r[0])
    ensures forall k :: 0 <= k < |s| - |r| ==> space(s[k])
    decreases |s|
  {
    if |s| > 0 && space(s[0]) then TrimStart(s[1..], space) else s
  }

  /** `r` is a slice of `s` and everything of `s` outside it is space. */
  predicate CutFrom(s: string, r: string, start: int, space: char -> bool)
  {
    0 <= start <= start + |r| <= |s| && r == s[start..start + |r|]
    && Blank(s[..start], space) && Blank(s[start + |r|..], space)
  }

  /** `s` without leading and trailing space characters: the result is a
      slice of `s` cut out of a blank margin on each side, has no space at
      either end, and is empty exactly when `s` is blank. */
  function Trim(s: string, space: char -> bool): (r: string)
    ensures exists start :: CutFrom(s, r, start, space)
    ensures Trimmed(r, space)
    ensures |r| == 0 <==> Blank(s, space)
    ensures |r| <= |s|
  {
    var e := TrimEnd(s, space);
    var r := TrimStart(e, space);
    MarginsCut(s, e, r, space);
    r
  }

  /** A suffix `r` of a prefix `e` of `s`, where everything of `s` after `e`
      and everything of `e` before `r` is space, is cut out of `s`. */
  lemma MarginsCut(s: string, e: string, r: string, space: char -> bool)
    requires |e| <= |s| && e == s[..|e|]
    requires forall k :: |e| <= k < |s| ==> space(s[k])
    requires |r| <= |e| && r == e[|e| - |r|..]
    requires forall k :: 0 <= k < |e| - |r| ==> space(e[k])
    requires |e| == 0 || !space(e[|e| - 1])
    requires |r| == 0 || !space(r[0])
    ensures CutFrom(s, r, |e| - |r|, space)
    ensures Trimmed(r, space)
    ensures |r| == 0 <==> Blank(s, space)
  {
    var start := |e| - |r|;
    assert |r| > 0 ==> r[|r| - 1] == e[|e| - 1];
    assert Blank(s, space) ==> |e| == 0 by {
      if |e| > 0 {
        assert s[|e| - 1] == e[|e| - 1];
      }
    }
    assert |r| == 0 ==> |e| == 0;
    assert s[start..start + |r|] == r;
    assert Blank(s[..start], space) by {
      forall k | 0 <= k < start
        ensures space(s[..start][k])
      {
        assert s[..start][k] == e[k];
      }
    }
    assert Blank(s[start + |r|..], space) by {
      forall k | 0 <= k < |s| - |e|
        ensures space(s[|e|..][k])
      {
        assert s[|e|..][k] == s[|e| + k];
      }
    }
  }

  /** Trimming a string that is already trimmed changes nothing. */
  lemma TrimOfTrimmed(s: string, space: char -> bool)
    requires Trimmed(s, space)
    ensures Trim(s, space) == s
  {
  }

  /** Python's `str.strip()`. */
  function PyStrip(s: string): (r: string)
    ensures exists start :: CutFrom(s, r, start, IsPythonSpace)
    ensures Trimmed(r, IsPythonSpace)
  {
    Trim(s, IsPythonSpace)
  }

  /** JavaScript's `String.prototype.trim()`. */
  function JsTrim(s: string): (r: string)
    ensures exists start :: CutFrom(s, r, start, IsJsSpace)
    ensures Trimmed(r, IsJsSpace)
    ensures |r| == 0 <==> Blank(s, IsJsSpace)
  {
    Trim(s, IsJsSpace)
  }

  /** `pat` is a prefix of `s`. */
  predicate StartsWith(s: string, pat: string)
  {
    |pat| <= |s| && s[..|pat|] == pat
  }

  /** `pat` occurs in `s` starting at index `i`. */
  predicate OccursAt(s: string, pat: string, i: int)
  {
    0 <= i <= |s| && StartsWith(s[i..], pat)
  }

  /** Python's `pat in s` for a non-empty `pat`. */
  predicate Contains(s: string, pat: string)
  {
    exists i | 0 <= i <= |s| :: OccursAt(s, pat, i)
  }

  /** Python's `s.replace(pat, rep)` for a non-empty `pat`: scanning from the
      left, each occurrence of `pat` is replaced and the scan resumes after it,
      so occurrences never overlap and replacements are never rescanned. */
  function Replace(s: string, pat: string, rep: string): (r: string)
    requires |pat| > 0
    ensures |pat| == |rep| ==> |r| == |s|
    ensures |pat| <= |rep| ==> |s| <= |r|
    ensures |rep| <= |pat| ==> |r| <= |s|
    ensures pat == rep ==> r == s
    decreases |s|
  {
    if |s| < |pat| then s
    else if StartsWith(s, pat) then
      assert pat == rep ==> rep + s[|pat|..] == s by {
        assert s == s[..|pat|] + s[|pat|..];
      }
      rep + Replace(s[|pat|..], pat, rep)
    else
      assert s == [s[0]] + s[1..];
      [s[0]] + Replace(s[1..], pat, rep)
  }

  /** With no occurrence of `pat`, `replace` returns its input unchanged. */
  lemma {:induction false} ReplaceAbsent(s: string, pat: string, rep: string)
    requires |pat| > 0
    requires !Contains(s, pat)
    ensures Replace(s, pat, rep) == s
    decreases |s|
  {
    if |s| >= |pat| {
      assert !OccursAt(s, pat, 0);
      assert s[0..] == s;
      forall i | 0 <= i <= |s[1..]|
        ensures !OccursAt(s[1..], pat, i)
      {
        assert s[1..][i..] == s[i + 1..];
        assert !OccursAt(s, pat, i + 1);
      }
      ReplaceAbsent(s[1..], pat, rep);
      assert s == [s[0]] + s[1..];
    }
  }

  /** When no occurrence of `pat` starts inside the prefix `p`, `replace`
      copies `p` and continues on the rest. */
  lemma {:induction false} ReplaceSkipsPrefix(p: string, t: string, pat: string, rep: string)
    requires |pat| > 0
    requires forall i :: 0 <= i < |p| ==> !OccursAt(p + t, pat, i)
    ensures Replace(p + t, pat, rep) == p + Replace(t, pat, rep)
    decreases |p|
  {
    if |p| == 0 {
      assert p + t == t;
    } else {
      var s := p + t;
      assert !OccursAt(s, pat, 0) && s[0..] == s;
      assert s[1..] == p[1..] + t;
      forall i | 0 <= i < |p[1..]|
        ensures !OccursAt(p[1..] + t, pat, i)
      {
        assert (p[1..] + t)[i..] == s[i + 1..];
        assert !OccursAt(s, pat, i + 1);
      }
      ReplaceSkipsPrefix(p[1..], t, pat, rep);
      if |s| < |pat| {
        assert |t| < |pat|;
      } else {
        assert p == [p[0]] + p[1..];
      }
    }
  }

  /** The first occurrence of `pat`, at `i`, is replaced and the scan resumes
      right after it: the text before it is kept, and the text after it is
      handled by the same replacement on its own. */
  lemma ReplaceAtFirst(s: string, pat: string, rep: string, i: nat)
    requires |pat| > 0
    requires OccursAt(s, pat, i)
    requires forall j :: 0 <= j < i ==> !OccursAt(s, pat, j)
    ensures i + |pat| <= |s|
    ensures Replace(s, pat, rep) == s[..i] + rep + Replace(s[i + |pat|..], pat, rep)
  {
    var p := s[..i];
    var t := s[i..];
    assert s == p + t;
    ReplaceSkipsPrefix(p, t, pat, rep);
    assert t[0..] == t;
    assert t[|pat|..] == s[i + |pat|..];
  }

  /** Replacing with a string whose last character is not a space never makes
      the last character of a string a space. */
  lemma {:induction false} ReplaceKeepsEndTrimmed(s: string, pat: string, rep: string, space: char -> bool)
    requires |pat| > 0 && |rep| > 0 && !space(rep[|rep| - 1])
    requires |s| > 0 && !space(s[|s| - 1])
    ensures var r := Replace(s, pat, rep); |r| > 0 && !space(r[|r| - 1])
    decreases |s|
  {
    if |s| >= |pat| {
      if StartsWith(s, pat) {
        if |s[|pat|..]| > 0 {
          ReplaceKeepsEndTrimmed(s[|pat|..], pat, rep, space);
        }
      } else if |s[1..]| > 0 {
        ReplaceKeepsEndTrimmed(s[1..], pat, rep, space);
      }
    }
  }

  /** Replacing with a string whose first character is not a space never makes
      the first character of a string a space. */
  lemma ReplaceKeepsStartTrimmed(s: string, pat: string, rep: string, space: char -> bool)
    requires |pat| > 0 && |rep| > 0 && !space(rep[0])
    requires |s| > 0 && !space(s[0])
    ensures var r := Replace(s, pat, rep); |r| > 0 && !space(r[0])
  {
  }

  /** `replace` keeps a trimmed string trimmed when the replacement has no
      space at either end. */
  lemma ReplaceKeepsTrimmed(s: string, pat: string, rep: string, space: char -> bool)
    requires |pat| > 0 && |rep| > 0 && Trimmed(rep, space)
    requires Trimmed(s, space)
    ensures Trimmed(Replace(s, pat, rep), space)
  {
    if |s| > 0 {
      ReplaceKeepsEndTrimmed(s, pat, rep, space);
      ReplaceKeepsStartTrimmed(s, pat, rep, space);
    }
  }

  /** An occurrence that ends inside a prefix of `s` is an occurrence in that prefix. */
  lemma OccursInPrefix(s: string, w: string, pat: string, i: int)
    requires |w| <= |s| && s[..|w|] == w
    requires i + |pat| <= |w|
    ensures OccursAt(s, pat, i) ==> OccursAt(w, pat, i)
  {
    if OccursAt(s, pat, i) {
      assert w[i..][..|pat|] == s[i..][..|pat|];
    }
  }

  /** An occurrence that starts inside a suffix of `s` is an occurrence in that suffix. */
  lemma OccursInSuffix(s: string, k: int, pat: string, i: int)
    requires 0 <= k <= i && k <= |s|
    ensures OccursAt(s, pat, i) ==> OccursAt(s[k..], pat, i - k)
  {
    if OccursAt(s, pat, i) {
      assert s[k..][i - k..] == s[i..];
    }
  }
}
