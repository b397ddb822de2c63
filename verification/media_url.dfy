/** The media URL clean-up that the fixed `get_advice` applies to an advice
    before returning it (advice-backend/main_fixed.py, section 2): strip
    whitespace, drop trailing semicolons, strip again, then normalise the
    slashes after the storage bucket segment to exactly two. */
module MediaUrl {
  import opened Wrappers
  import opened Text
  import opened Backend

  /** The storage bucket segment with one trailing slash. */
  const Segment: string := "/advice-media/"

  /** The storage bucket segment with the two trailing slashes the fix wants. */
  const DoubledSegment: string := "/advice-media//"

  predicate IsSemicolon(c: char)
  {
    c == ';'
  }

  /** Python's `while s.endswith(';'): s = s[:-1]`. */
  function DropTrailingSemicolons(s: string): (r: string)
    ensures |r| <= |s| && r == s[..|r|]
    ensures |r| == 0 || r[|r| - 1] != ';'
    ensures forall k :: |r| <= k < |s| ==> s[k] == ';'
  {
    TrimEnd(s, IsSemicolon)
  }

  /** The slash rewriting of lines 33-37: only when the segment occurs, first
      collapse every doubled segment, then double every single one. A URL
      without the segment is left alone, and the rewriting adds no whitespace
      at either end. */
  function RewriteSlashes(s: string): (r: string)
    ensures !Contains(s, Segment) ==> r == s
    ensures Trimmed(s, IsPythonSpace) ==> Trimmed(r, IsPythonSpace)
  {
    if Contains(s, Segment) then
      var t := Replace(s, DoubledSegment, Segment);
      assert Trimmed(s, IsPythonSpace) ==> Trimmed(Replace(t, Segment, DoubledSegment), IsPythonSpace) by {
        if Trimmed(s, IsPythonSpace) {
          ReplaceKeepsTrimmed(s, DoubledSegment, Segment, IsPythonSpace);
          ReplaceKeepsTrimmed(t, Segment, DoubledSegment, IsPythonSpace);
        }
      }
      Replace(t, Segment, DoubledSegment)
    else s
  }

  /** Lines 26-37 applied to a URL. The result never has whitespace at either end. */
  function CleanUrl(url: string): (r: string)
    ensures Trimmed(r, IsPythonSpace)
  {
    RewriteSlashes(PyStrip(DropTrailingSemicolons(PyStrip(url))))
  }

  /** Lines 24-40: an advice whose `media_url` is falsy is returned as is;
      otherwise only `media_url` is replaced by its cleaned form. */
  function CleanAdviceMedia(a: Advice): (r: Advice)
    ensures !Truthy(a.mediaUrl) ==> r == a
    ensures r.(mediaUrl := a.mediaUrl) == a
    ensures Truthy(a.mediaUrl) ==> r.mediaUrl.Some? && Trimmed(r.mediaUrl.value, IsPythonSpace)
    ensures Truthy(a.mediaUrl) ==> r.mediaUrl == Some(CleanUrl(a.mediaUrl.value))
  {
    if Truthy(a.mediaUrl) then a.(mediaUrl := Some(CleanUrl(a.mediaUrl.value))) else a
  }

  /** The fixed `get_advice`: the lookup and access checks of `get_advice`,
      then the media clean-up. Cleaning touches neither `id` nor `author_id`,
      so the errors are exactly those of the unfixed endpoint. */
  function GetAdviceCleaned(store: Store, user: Principal, id: string): (r: Result<Advice, ApiError>)
    ensures r.Err? <==> GetAdvice(store, user, id).Err?
    ensures r.Err? ==> r.error == GetAdvice(store, user, id).error
    ensures r.Ok? ==> r.value.id == id && CanAccess(user, r.value)
    ensures r.Ok? ==> r.value.(mediaUrl := GetAdvice(store, user, id).value.mediaUrl) == GetAdvice(store, user, id).value
    ensures r.Ok? ==> r.value == CleanAdviceMedia(GetAdvice(store, user, id).value)
  {
    match GetAdvice(store, user, id)
    case Err(e) => Err(e)
    case Ok(a) => Ok(CleanAdviceMedia(a))
  }

  /** When the cleaned URL lacks the bucket segment no slash is rewritten. */
  lemma NoSegmentNoRewrite(url: string)
    ensures var s := PyStrip(DropTrailingSemicolons(PyStrip(url)));
            !Contains(s, Segment) ==> CleanUrl(url) == s
  {
  }

  /** The semicolon loop runs before the second strip, so a semicolon hidden
      behind whitespace survives: "a; ;" cleans to "a;". */
  lemma SemicolonCanSurvive()
    ensures CleanUrl("a; ;") == "a;"
  {
    StripsOfExample();
    assert !Contains("a;", Segment);
    NoSegmentNoRewrite("a; ;");
  }

  /** The three trimming steps on "a; ;". */
  lemma StripsOfExample()
    ensures PyStrip(DropTrailingSemicolons(PyStrip("a; ;"))) == "a;"
  {
    assert !IsPythonSpace(';') && !IsPythonSpace('a') && IsPythonSpace(' ');
    assert PyStrip("a; ;") == "a; ;" by {
      TrimOfTrimmed("a; ;", IsPythonSpace);
    }
    assert DropTrailingSemicolons("a; ;") == "a; " by {
      assert "a; ;"[..3] == "a; ";
      assert TrimEnd("a; ", IsSemicolon) == "a; ";
    }
    assert PyStrip("a; ") == "a;" by {
      assert TrimEnd("a; ", IsPythonSpace) == "a;" by {
        assert "a; "[..2] == "a;";
        assert TrimEnd("a;", IsPythonSpace) == "a;";
      }
      assert TrimStart("a;", IsPythonSpace) == "a;";
    }
  }

  /** The bucket segment occurs in `p + "/advice-media" + tail` only at `|p|`,
      and only when `tail` starts with a slash, given that it occurs neither in
      `p + "/advice-media"` nor in `tail`. */
  lemma SegmentOnlyAt(p: string, tail: string, i: int)
    requires !Contains(p + "/advice-media", Segment)
    requires !Contains(tail, Segment)
    ensures OccursAt(p + "/advice-media" + tail, Segment, i) ==> i == |p| && StartsWith(tail, "/")
  {
    var w := p + "/advice-media";
    var s := w + tail;
    assert s[..|w|] == w;
    if i + |Segment| <= |w| {
      OccursInPrefix(s, w, Segment, i);
    } else if i >= |w| {
      assert s[|w|..] == tail;
      OccursInSuffix(s, |w|, Segment, i);
    } else if OccursAt(s, Segment, i) {
      assert s[i] == '/' && s[i + 13] == '/';
      assert i == |p|;
      assert tail[0] == s[i + 13];
      assert tail[..1] == "/";
    }
  }

  /** The doubled segment contains the single one, so where it occurs so does the single one. */
  lemma DoubledOccursSingle(s: string, i: int)
    ensures OccursAt(s, DoubledSegment, i) ==> OccursAt(s, Segment, i)
  {
    if OccursAt(s, DoubledSegment, i) {
      assert s[i..][..|Segment|] == DoubledSegment[..|Segment|];
    }
  }

  /** The doubled segment at the position of a single segment means the text
      after the segment starts with a slash. */
  lemma DoubledAtSegment(p: string, q: string)
    ensures OccursAt(p + Segment + q, DoubledSegment, |p|) ==> StartsWith(q, "/")
  {
    var s := p + Segment + q;
    if OccursAt(s, DoubledSegment, |p|) {
      assert s[|p|..][..|DoubledSegment|] == DoubledSegment;
      assert q[0] == s[|p| + 14] == '/';
      assert q[..1] == "/";
    }
  }

  /** The shape of a URL with one bucket segment: the text before it and the
      text after its slashes hold no further segment, and the text after does
      not start with a slash. */
  predicate OneSegment(p: string, q: string)
  {
    && !Contains(p + "/advice-media", Segment)
    && !Contains("/" + q, Segment)
    && !StartsWith(q, "/")
  }

  /** The rewriting of `p + "/advice-media" + tail` leaves `p` as it is. */
  lemma RewriteSkipsPrefix(p: string, tail: string, pat: string, rep: string)
    requires pat == Segment || pat == DoubledSegment
    requires !Contains(p + "/advice-media", Segment)
    requires !Contains(tail, Segment)
    requires |rep| > 0
    ensures Replace(p + ("/advice-media" + tail), pat, rep) == p + Replace("/advice-media" + tail, pat, rep)
  {
    var s := p + "/advice-media" + tail;
    assert p + ("/advice-media" + tail) == s;
    forall i | 0 <= i < |p|
      ensures !OccursAt(s, pat, i)
    {
      DoubledOccursSingle(s, i);
      SegmentOnlyAt(p, tail, i);
    }
    ReplaceSkipsPrefix(p, "/advice-media" + tail, pat, rep);
  }

  /** Text that holds no segment after a slash holds none on its own. */
  lemma NoSegmentInRest(q: string)
    requires !Contains("/" + q, Segment)
    ensures !Contains(q, Segment)
  {
    forall i | 0 <= i <= |q|
      ensures !OccursAt(q, Segment, i)
    {
      assert ("/" + q)[i + 1..] == q[i..];
      assert !OccursAt("/" + q, Segment, i + 1);
    }
  }

  /** A one-segment URL with a single slash holds no doubled segment. */
  lemma NoDoubledSegment(p: string, q: string)
    requires OneSegment(p, q)
    ensures !Contains(p + Segment + q, DoubledSegment)
  {
    var s := p + Segment + q;
    assert s == p + "/advice-media" + ("/" + q);
    DoubledAtSegment(p, q);
    forall i | 0 <= i <= |s|
      ensures !OccursAt(s, DoubledSegment, i)
    {
      DoubledOccursSingle(s, i);
      SegmentOnlyAt(p, "/" + q, i);
    }
  }

  /** Replacing in text that starts with the segment and holds no other:
      only the leading segment is rewritten. */
  lemma ReplaceLeadingSegment(q: string, rep: string)
    requires !Contains("/" + q, Segment)
    ensures Replace(Segment + q, Segment, rep) == rep + q
  {
    var s := Segment + q;
    assert StartsWith(s, Segment) by {
      assert s[..|Segment|] == Segment;
    }
    assert s[|Segment|..] == q;
    NoSegmentInRest(q);
    ReplaceAbsent(q, Segment, rep);
  }

  /** One slash after the segment becomes two. */
  lemma RewriteOneSlash(p: string, q: string)
    requires OneSegment(p, q)
    ensures RewriteSlashes(p + Segment + q) == p + DoubledSegment + q
  {
    var s := p + Segment + q;
    assert Contains(s, Segment) by {
      assert s[|p|..][..|Segment|] == Segment;
      assert OccursAt(s, Segment, |p|);
    }
    assert Replace(s, DoubledSegment, Segment) == s by {
      NoDoubledSegment(p, q);
      ReplaceAbsent(s, DoubledSegment, Segment);
    }
    DoubleTheSegment(p, q);
  }

  /** Doubling the slash of the one segment. */
  lemma DoubleTheSegment(p: string, q: string)
    requires OneSegment(p, q)
    ensures Replace(p + Segment + q, Segment, DoubledSegment) == p + DoubledSegment + q
  {
    var s := p + Segment + q;
    assert s == p + ("/advice-media" + ("/" + q));
    assert "/advice-media" + ("/" + q) == Segment + q;
    RewriteSkipsPrefix(p, "/" + q, Segment, DoubledSegment);
    ReplaceLeadingSegment(q, DoubledSegment);
  }

  /** Two slashes followed by text that holds no segment after a slash hold no segment. */
  lemma NoSegmentAfterTwoSlashes(q: string)
    requires !Contains("/" + q, Segment)
    ensures !Contains("//" + q, Segment)
  {
    var t := "//" + q;
    forall i | 0 <= i <= |t|
      ensures !OccursAt(t, Segment, i)
    {
      if i >= 1 {
        assert t[1..] == "/" + q;
        OccursInSuffix(t, 1, Segment, i);
      } else {
        assert t[1] == '/' != Segment[1];
        assert |t| < |Segment| || t[..|Segment|][1] == t[1];
        assert t[0..] == t;
      }
    }
  }

  /** Collapsing a leading doubled segment when nothing after it holds a segment. */
  lemma ReplaceLeadingDoubled(q: string)
    requires !Contains("/" + q, Segment)
    ensures Replace(DoubledSegment + q, DoubledSegment, Segment) == Segment + q
  {
    var s := DoubledSegment + q;
    assert StartsWith(s, DoubledSegment) by {
      assert s[..|DoubledSegment|] == DoubledSegment;
    }
    assert s[|DoubledSegment|..] == q;
    NoSegmentInRest(q);
    assert !Contains(q, DoubledSegment) by {
      forall i | 0 <= i <= |q|
        ensures !OccursAt(q, DoubledSegment, i)
      {
        DoubledOccursSingle(q, i);
      }
    }
    ReplaceAbsent(q, DoubledSegment, Segment);
  }

  /** Two slashes after the segment stay two, so cleaning such a URL again adds no slash. */
  lemma RewriteTwoSlashes(p: string, q: string)
    requires OneSegment(p, q)
    ensures RewriteSlashes(p + DoubledSegment + q) == p + DoubledSegment + q
  {
    var s := p + DoubledSegment + q;
    assert Contains(s, Segment) by {
      assert s[|p|..][..|Segment|] == Segment;
      assert OccursAt(s, Segment, |p|);
    }
    assert Replace(s, DoubledSegment, Segment) == p + Segment + q by {
      NoSegmentAfterTwoSlashes(q);
      assert s == p + ("/advice-media" + ("//" + q));
      assert "/advice-media" + ("//" + q) == DoubledSegment + q;
      RewriteSkipsPrefix(p, "//" + q, DoubledSegment, Segment);
      ReplaceLeadingDoubled(q);
    }
    DoubleTheSegment(p, q);
  }

  /** A URL with no space at either end and no trailing semicolon only goes
      through the slash rewriting. */
  lemma CleanOfTidy(u: string)
    requires Trimmed(u, IsPythonSpace)
    requires |u| == 0 || u[|u| - 1] != ';'
    ensures CleanUrl(u) == RewriteSlashes(u)
  {
    TrimOfTrimmed(u, IsPythonSpace);
    assert DropTrailingSemicolons(u) == u;
  }

  /** A tidy URL with one bucket segment followed by one or by two slashes is
      cleaned to the same URL with exactly two, and cleaning that again
      changes nothing. */
  lemma CleanNormalisesSegment(p: string, q: string)
    requires OneSegment(p, q)
    requires |p| == 0 || !IsPythonSpace(p[0])
    requires |q| == 0 || (!IsPythonSpace(q[|q| - 1]) && q[|q| - 1] != ';')
    ensures CleanUrl(p + Segment + q) == p + DoubledSegment + q
    ensures CleanUrl(p + DoubledSegment + q) == p + DoubledSegment + q
    ensures CleanUrl(CleanUrl(p + Segment + q)) == CleanUrl(p + Segment + q)
  {
    var u1 := p + Segment + q;
    var u2 := p + DoubledSegment + q;
    assert u1[0] == (if |p| == 0 then '/' else p[0]);
    assert u2[0] == (if |p| == 0 then '/' else p[0]);
    assert u1[|u1| - 1] == (if |q| == 0 then '/' else q[|q| - 1]);
    assert u2[|u2| - 1] == (if |q| == 0 then '/' else q[|q| - 1]);
    CleanOfTidy(u1);
    CleanOfTidy(u2);
    RewriteOneSlash(p, q);
    RewriteTwoSlashes(p, q);
  }

  /** Three or four slashes after the segment are not reduced to two: the
      first replacement removes one slash and the second puts it back. */
  lemma LongSlashRunsStay()
    ensures RewriteSlashes("/advice-media///x") == "/advice-media///x"
    ensures RewriteSlashes("/advice-media////x") == "/advice-media////x"
  {
    var three := "/advice-media///x";
    var four := "/advice-media////x";
    assert OccursAt(three, Segment, 0) && OccursAt(four, Segment, 0);
    assert Replace(three, DoubledSegment, Segment) == "/advice-media//x" by {
      ReplaceLeadingDoubled("/x");
    }
    assert Replace("/advice-media//x", Segment, DoubledSegment) == three by {
      ReplaceLeadingSegment("/x", DoubledSegment);
    }
    assert Replace(four, DoubledSegment, Segment) == three by {
      ReplaceLeadingDoubled("//x");
    }
    assert Replace(three, Segment, DoubledSegment) == four by {
      ReplaceLeadingSegment("//x", DoubledSegment);
    }
  }
}
