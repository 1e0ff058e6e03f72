/**
 Laws of the comment engine: the scan agrees with the declarative reading
 of the pattern (`IsDecomposition`), `findall` and `sub` report and remove
 the same spans, and the edge cases of the pattern.
 */
module CommentLaws {
  import opened Wrappers
  import opened Comments

  /** Where the pattern matches nowhere, `findall` finds nothing and `sub`
      changes nothing. */
  lemma {:induction false} NoCommentUnchanged(s: Text)
    requires NoComment(s)
    ensures FindAll(s) == [] && Strip(s) == s && Gaps(s) == [s]
    decreases |s|
  {
    if |s| > 0 {
      assert MatchAt(s).None? by {
        if OpensAt(s, 0) {
          assert forall q :: 4 <= q ==> !ClosesAt(s, q);
        }
      }
      var t := s[1..];
      assert NoComment(t) by {
        forall p, q | 0 <= p < |t| && 0 <= q < |t| && OpensAt(t, p) && p + 4 <= q
          ensures !ClosesAt(t, q)
        {
          assert OpensAt(s, p + 1);
          if ClosesAt(t, q) { assert ClosesAt(s, q + 1); }
        }
      }
      NoCommentUnchanged(t);
      assert [s[0]] + t == s;
    }
  }

  /** One step of skipping a gap: the scan does not match at the front of
      `g + x`, and what is left is again an opener-free gap before `x`. */
  lemma SkipGapStep(g: Text, x: Text)
    requires NoOpener(g) && OpensAt(x, 0) && |g| > 0
    ensures MatchAt(g + x).None?
    ensures (g + x)[1..] == g[1..] + x
    ensures NoOpener(g[1..])
  {
    var s := g + x;
    assert !OpensAt(s, 0) by {
      if |g| >= 4 { assert !OpensAt(g, 0); }
    }
    var g' := g[1..];
    forall p | 0 <= p < |g'| ensures !OpensAt(g', p) {
      assert !OpensAt(g, p + 1);
    }
  }

  /** A text without openers is left alone by `sub` and `findall`. */
  lemma NoOpenerUnchanged(s: Text)
    requires NoOpener(s)
    ensures FindAll(s) == [] && Strip(s) == s
  {
    NoCommentUnchanged(s);
  }

  /** A stretch without openers in front of an opener is skipped by the
      scan: it is kept by `sub` and contributes nothing to `findall`. */
  lemma {:induction false} SkipGap(g: Text, x: Text)
    requires NoOpener(g) && OpensAt(x, 0)
    ensures FindAll(g + x) == FindAll(x)
    ensures Strip(g + x) == g + Strip(x)
    decreases |g|
  {
    if |g| == 0 {
      assert g + x == x;
    } else {
      SkipGapStep(g, x);
      SkipGap(g[1..], x);
      HeadTail(g, Strip(x));
    }
  }

  /** The gaps of the scan after skipping an opener-free stretch: the
      stretch joins the first gap. */
  lemma {:induction false} SkipGapGaps(g: Text, x: Text)
    requires NoOpener(g) && OpensAt(x, 0)
    ensures Gaps(g + x) == [g + Gaps(x)[0]] + Gaps(x)[1..]
  {
    SkipGapGapsOf(g, x, g + x, Gaps(x));
  }

  /** `SkipGapGaps` for `s == g + x` with `Gaps(x)` given as `gx`. */
  lemma {:induction false} SkipGapGapsOf(g: Text, x: Text, s: Text, gx: seq<Text>)
    requires NoOpener(g) && OpensAt(x, 0)
    requires s == g + x && gx == Gaps(x)
    ensures |gx| > 0 && Gaps(s) == [g + gx[0]] + gx[1..]
    decreases |g|
  {
    if |g| == 0 {
      assert s == x;
      assert g + gx[0] == gx[0];
      assert [gx[0]] + gx[1..] == gx;
    } else {
      SkipGapStep(g, x);
      SkipGapGapsOf(g[1..], x, s[1..], gx);
      GapsKeepOne(s, Gaps(s[1..]));
      assert s[0] == g[0];
      HeadTail(g, gx[0]);
    }
  }

  /** A non-empty text is its first character followed by the rest. */
  lemma HeadTail(g: Text, t: Text)
    requires |g| > 0
    ensures [g[0]] + (g[1..] + t) == g + t
  {
    assert g == [g[0]] + g[1..];
  }

  /** Where no comment starts, the scan keeps the first character in the
      first gap. */
  lemma GapsKeepOne(s: Text, h: seq<Text>)
    requires |s| > 0 && MatchAt(s).None? && h == Gaps(s[1..])
    ensures Gaps(s) == [[s[0]] + h[0]] + h[1..]
  {
  }

  /** A comment whose body holds no closer is matched whole at the front
      of the text: it is reported, deleted, and the scan resumes after it. */
  lemma TakeComment(b: Text, y: Text)
    requires NoCloser(b)
    ensures MatchAt(Opener + b + Closer + y) == Some(|b|)
    ensures FindAll(Opener + b + Closer + y) == [b] + FindAll(y)
    ensures Strip(Opener + b + Closer + y) == Strip(y)
    ensures Gaps(Opener + b + Closer + y) == [[]] + Gaps(y)
  {
    var c := Opener + b + Closer + y;
    var e := 4 + |b|;
    assert OpensAt(c, 0);
    assert ClosesAt(c, e);
    forall q | 4 <= q < e ensures !ClosesAt(c, q) {
      if q + 3 <= e {
        assert !ClosesAt(b, q - 4);
        assert c[q] == b[q - 4] && c[q + 1] == b[q - 3] && c[q + 2] == b[q - 2];
      } else {
        assert c[q + 2] == '-';
      }
    }
    match FindCloserFrom(c, 4)
    case None =>
    case Some(j) =>
      assert j == e;
    assert c[4..e] == b;
    assert c[e + 3..] == y;
  }

  /** A decomposition with at least one comment splits into its first
      gap, its first comment and a decomposition of the rest. */
  lemma DecompositionTail(s: Text, gaps: seq<Text>, bodies: seq<Text>)
    requires IsDecomposition(s, gaps, bodies) && |bodies| > 0
    ensures IsDecomposition(Rebuild(gaps[1..], bodies[1..]), gaps[1..], bodies[1..])
    ensures s == gaps[0] + (Opener + bodies[0] + Closer + Rebuild(gaps[1..], bodies[1..]))
    ensures NoCloser(bodies[0]) && NoOpener(gaps[0])
  {
    var gs, bs := gaps[1..], bodies[1..];
    forall k | 0 <= k < |bs| ensures NoCloser(bs[k]) && NoOpener(gs[k]) {
      assert bs[k] == bodies[k + 1] && gs[k] == gaps[k + 1];
    }
    assert gs[|bs|] == gaps[|bodies|];
  }

  /** Every declarative decomposition of a text is the one the scan
      produces: `findall` returns exactly its bodies, and `sub` returns
      exactly the concatenation of its gaps. */
  lemma {:induction false} SpanRule(s: Text, gaps: seq<Text>, bodies: seq<Text>)
    requires IsDecomposition(s, gaps, bodies)
    ensures FindAll(s) == bodies
    ensures Strip(s) == Concat(gaps)
    decreases |bodies|
  {
    if |bodies| == 0 {
      NoCommentUnchanged(s);
      assert Concat(gaps) == gaps[0] + Concat([]);
    } else {
      var rest := Rebuild(gaps[1..], bodies[1..]);
      DecompositionTail(s, gaps, bodies);
      SpanRule(rest, gaps[1..], bodies[1..]);
      SpanStep(gaps[0], bodies[0], rest);
      assert [bodies[0]] + bodies[1..] == bodies;
    }
  }

  /** One comment step of the span rule: a gap, a comment, and the rest. */
  lemma SpanStep(g: Text, b: Text, rest: Text)
    requires NoOpener(g) && NoCloser(b)
    ensures FindAll(g + (Opener + b + Closer + rest)) == [b] + FindAll(rest)
    ensures Strip(g + (Opener + b + Closer + rest)) == g + Strip(rest)
    ensures Gaps(g + (Opener + b + Closer + rest)) == [g] + Gaps(rest)
  {
    var c := Opener + b + Closer + rest;
    TakeComment(b, rest);
    assert OpensAt(c, 0);
    SkipGap(g, c);
    SkipGapGaps(g, c);
    assert g + [] == g;
  }

  /** The scan's gaps are those of every declarative decomposition. */
  lemma {:induction false} SpanRuleGaps(s: Text, gaps: seq<Text>, bodies: seq<Text>)
    requires IsDecomposition(s, gaps, bodies)
    ensures Gaps(s) == gaps
    decreases |bodies|
  {
    if |bodies| == 0 {
      NoCommentUnchanged(s);
    } else {
      var rest := Rebuild(gaps[1..], bodies[1..]);
      DecompositionTail(s, gaps, bodies);
      SpanRuleGaps(rest, gaps[1..], bodies[1..]);
      GapsStep(s, gaps[0], bodies[0], rest, gaps[1..]);
      assert [gaps[0]] + gaps[1..] == gaps;
    }
  }

  /** One comment step of the gaps: the gap before the first comment, then
      the gaps of the rest. */
  lemma GapsStep(s: Text, g: Text, b: Text, rest: Text, gs: seq<Text>)
    requires s == g + (Opener + b + Closer + rest)
    requires NoOpener(g) && NoCloser(b) && Gaps(rest) == gs
    ensures Gaps(s) == [g] + gs
  {
    SpanStep(g, b, rest);
  }

  /** An opener with no closer at or after its end ends the matching: no
      match starts anywhere from there on. */
  lemma LoneOpenerStopsScan(s: Text, p: nat)
    requires OpensAt(s, p)
    requires forall q :: p + 4 <= q ==> !ClosesAt(s, q)
    ensures NoComment(s[p..])
    ensures forall i :: p <= i <= |s| ==> MatchAt(s[i..]).None?
  {
    var t := s[p..];
    forall i | p <= i <= |s| ensures MatchAt(s[i..]).None? {
      var u := s[i..];
      if MatchAt(u).Some? {
        var n := MatchAt(u).value;
        assert ClosesAt(u, 4 + n);
        assert ClosesAt(s, i + 4 + n);
      }
    }
  }

  /** A gap and a comment in front of a decomposition give a
      decomposition. */
  lemma DecompositionCons(g: Text, b: Text, rest: Text, gs: seq<Text>, bs: seq<Text>)
    requires IsDecomposition(rest, gs, bs) && NoOpener(g) && NoCloser(b)
    ensures IsDecomposition(g + (Opener + b + Closer + rest), [g] + gs, [b] + bs)
  {
    var gaps, bodies := [g] + gs, [b] + bs;
    assert gaps[1..] == gs && bodies[1..] == bs;
    forall k | 1 <= k < |bodies| ensures NoCloser(bodies[k]) && NoOpener(gaps[k]) {
      assert bodies[k] == bs[k - 1] && gaps[k] == gs[k - 1];
    }
    assert gaps[|bodies|] == gs[|bs|];
  }

  /** A character in front of a decomposition joins its first gap, provided
      it neither starts a match nor, when a comment follows, an opener. */
  lemma DecompositionPrepend(ch: char, t: Text, gs: seq<Text>, bs: seq<Text>)
    requires IsDecomposition(t, gs, bs)
    requires |bs| == 0 ==> NoComment([ch] + t)
    requires |bs| > 0 ==> !OpensAt([ch] + t, 0)
    ensures IsDecomposition([ch] + t, [[ch] + gs[0]] + gs[1..], bs)
  {
    var g0 := [ch] + gs[0];
    var gaps := [g0] + gs[1..];
    if |bs| == 0 {
      assert g0 == [ch] + t;
    } else {
      assert NoOpener(g0) by {
        assert NoOpener(gs[0]);
        forall p | 0 <= p < |g0| ensures !OpensAt(g0, p) {
          if p > 0 { assert !OpensAt(gs[0], p - 1); }
        }
      }
      forall k | 1 <= k < |bs| ensures NoOpener(gaps[k]) {
        assert gaps[k] == gs[k];
      }
      assert gaps[|bs|] == gs[|bs|];
      assert gaps[1..] == gs[1..];
      assert Rebuild(gs, bs) == gs[0] + Opener + bs[0] + Closer + Rebuild(gs[1..], bs[1..]);
    }
  }

  /** Where no match starts at the front and none lies in the rest, none
      lies in the whole text. */
  lemma NoCommentPrepend(s: Text)
    requires |s| > 0 && MatchAt(s).None? && NoComment(s[1..])
    ensures NoComment(s)
  {
    var t := s[1..];
    forall p, q | 0 <= p < |s| && 0 <= q < |s| && OpensAt(s, p) && p + 4 <= q
      ensures !ClosesAt(s, q)
    {
      if p > 0 {
        assert OpensAt(t, p - 1);
        if ClosesAt(s, q) { assert ClosesAt(t, q - 1); }
      }
    }
  }

  /** The scan always yields a decomposition of the text it scanned. */
  lemma {:induction false} ScanIsDecomposition(s: Text)
    ensures IsDecomposition(s, Gaps(s), FindAll(s))
    decreases |s|
  {
    if |s| == 0 {
      assert Gaps(s) == [[]] && FindAll(s) == [];
    } else if MatchAt(s).Some? {
      var n := MatchAt(s).value;
      var t := s[n + 7..];
      var body := s[4..4 + n];
      ScanIsDecomposition(t);
      MatchShape(s, n);
      DecompositionCons([], body, t, Gaps(t), FindAll(t));
      assert FindAll(s) == [body] + FindAll(t);
      assert Gaps(s) == [[]] + Gaps(t);
    } else {
      var t := s[1..];
      ScanIsDecomposition(t);
      var gs, bs := Gaps(t), FindAll(t);
      assert FindAll(s) == bs;
      if |bs| == 0 {
        NoCommentPrepend(s);
      } else {
        NoOpenerBeforeMatch(s);
      }
      assert [s[0]] + t == s;
      DecompositionPrepend(s[0], t, gs, bs);
      assert Gaps(s) == [[s[0]] + gs[0]] + gs[1..];
    }
  }

  /** A match at the front of `s` is an opener, a closer-free body and a
      closer. */
  lemma MatchShape(s: Text, n: nat)
    requires MatchAt(s) == Some(n)
    ensures s == [] + (Opener + s[4..4 + n] + Closer + s[n + 7..])
    ensures NoCloser(s[4..4 + n])
  {
    var body := s[4..4 + n];
    assert s[..4] == Opener;
    assert s[4 + n..n + 7] == Closer;
    assert s == s[..4] + body + s[4 + n..n + 7] + s[n + 7..];
    forall q | 0 <= q < |body| ensures !ClosesAt(body, q) {
      assert !ClosesAt(s, 4 + q);
    }
  }

  /** Where the scan finds no match at the front of `s` but finds one
      further on, `s` does not start with an opener: an opener there
      would have had the later closer to end its match. */
  lemma NoOpenerBeforeMatch(s: Text)
    requires |s| > 0 && MatchAt(s).None? && FindAll(s[1..]) != []
    ensures !OpensAt(s, 0)
  {
    if OpensAt(s, 0) {
      LoneOpenerStopsScan(s, 0);
      NoCommentUnchanged(s);
      assert false;
    }
  }

  /** Length accounting: `sub` shortens the text by exactly the spans
      `findall` reports, each its body plus seven marker characters. */
  lemma {:induction false} StripLength(s: Text)
    ensures |Strip(s)| + SpanTotal(FindAll(s)) == |s|
    ensures |s| - |Strip(s)| >= 7 * |FindAll(s)|
    decreases |s|
  {
    if |s| > 0 {
      match MatchAt(s)
      case Some(n) =>
        StripLength(s[n + 7..]);
      case None =>
        StripLength(s[1..]);
    }
  }

  /** `sub` leaves a text unchanged exactly when `findall` finds nothing,
      and that happens exactly when no opener is followed, at or after its
      end, by a closer. */
  lemma UnchangedIff(s: Text)
    ensures Strip(s) == s <==> FindAll(s) == []
    ensures FindAll(s) == [] <==> NoComment(s)
  {
    StripLength(s);
    if FindAll(s) == [] {
      ScanIsDecomposition(s);
      assert Rebuild(Gaps(s), FindAll(s)) == Gaps(s)[0];
    }
    if NoComment(s) {
      NoCommentUnchanged(s);
    }
  }

  /** Two comments around a stretch without openers: `findall` reports
      both bodies in order and `sub` keeps only the stretch. */
  lemma TwoComments(a: Text, t: Text, c: Text, s: Text)
    requires NoCloser(a) && NoOpener(t) && NoCloser(c)
    requires s == Opener + a + Closer + (t + (Opener + c + Closer + []))
    ensures FindAll(s) == [a, c]
    ensures Strip(s) == t
  {
    var rest := t + (Opener + c + Closer + []);
    TakeComment(a, rest);
    SpanStep(t, c, []);
    assert FindAll(rest) == [c];
    assert Strip(rest) == t + [];
  }

  /** `<!-- a -->text<!-- b\nc -->` strips to `text` and reports the two
      bodies ` a ` and ` b\nc `: each match is lazy and may cross lines. */
  lemma LazyMultilineExample(s: Text)
    requires s == "<!-- a -->text<!-- b\nc -->"
    ensures FindAll(s) == [" a ", " b\nc "]
    ensures Strip(s) == "text"
  {
    assert s == Opener + " a " + Closer + ("text" + (Opener + " b\nc " + Closer + []));
    assert NoCloser(" a ") && NoOpener("text") && NoCloser(" b\nc ");
    TwoComments(" a ", "text", " b\nc ", s);
  }

  /** The opener and the closer of one match cannot share characters:
      `<!-->` holds no comment. */
  lemma ShortestNonComment(s: Text)
    requires s == "<!-->"
    ensures FindAll(s) == [] && Strip(s) == s
  {
    assert NoComment(s);
    NoCommentUnchanged(s);
  }

  /** Nor does `<!--->`, whose closer starts inside the opener. */
  lemma OverlappingNonComment(s: Text)
    requires s == "<!--->"
    ensures FindAll(s) == [] && Strip(s) == s
  {
    assert NoComment(s);
    NoCommentUnchanged(s);
  }

  /** `<!---->` is the shortest comment: its body is empty and all of it
      is deleted. */
  lemma ShortestComment(s: Text)
    requires s == "<!---->"
    ensures FindAll(s) == [[]] && Strip(s) == []
  {
    assert s == Opener + [] + Closer + [];
    TakeComment([], []);
  }

  /** An empty comment between two opener-free stretches is all that
      `sub` deletes. */
  lemma EmptyCommentBetween(g: Text, rest: Text, s: Text)
    requires s == g + (Opener + [] + Closer + rest)
    requires NoOpener(g) && NoOpener(rest)
    ensures Strip(s) == g + rest
  {
    SpanStep(g, [], rest);
    NoOpenerUnchanged(rest);
  }

  /** A body free of `<` and `>` holds neither marker, whatever text
      surrounds it with dashes. */
  lemma PlainBody(b: Text)
    requires forall i :: 0 <= i < |b| ==> b[i] != '<' && b[i] != '>'
    ensures NoCloser(b)
    ensures NoOpener("--" + b + "-->")
  {
    var t := "--" + b + "-->";
    forall p | 0 <= p < |t| ensures !OpensAt(t, p) {
      if p < 2 { assert t[p] == '-'; }
      else if p < 2 + |b| { assert t[p] == b[p - 2]; }
      else { assert t[p] != '<'; }
    }
  }

  /** The first pass over `<!<!---->--b-->` deletes only the empty
      comment `<!---->`, leaving `<!--b-->`. */
  lemma NotIdempotentFirstPass(b: Text, s: Text)
    requires forall i :: 0 <= i < |b| ==> b[i] != '<' && b[i] != '>'
    requires s == "<!<!---->" + "--" + b + "-->"
    ensures Strip(s) == Opener + b + Closer
  {
    var rest := "--" + b + "-->";
    PlainBody(b);
    assert s == "<!" + (Opener + [] + Closer + rest);
    assert NoOpener("<!");
    EmptyCommentBetween("<!", rest, s);
    assert "<!" + rest == Opener + b + Closer;
  }

  /** The second pass deletes the comment `<!--b-->` the first pass made. */
  lemma NotIdempotentSecondPass(b: Text, t: Text)
    requires forall i :: 0 <= i < |b| ==> b[i] != '<' && b[i] != '>'
    requires t == Opener + b + Closer
    ensures Strip(t) == []
  {
    PlainBody(b);
    assert t == Opener + b + Closer + [];
    TakeComment(b, []);
  }

  /** Stripping is not idempotent: deleting the empty comment `<!---->`
      out of `<!<!---->--b-->` joins `<!` and `--b-->` into the new
      comment `<!--b-->`, which only a second pass deletes (for instance
      with `b` = ` x `). */
  lemma StripNotIdempotent(b: Text, s: Text)
    requires forall i :: 0 <= i < |b| ==> b[i] != '<' && b[i] != '>'
    requires s == "<!<!---->" + "--" + b + "-->"
    ensures Strip(s) == "<!--" + b + "-->" && Strip(Strip(s)) == ""
    ensures Strip(Strip(s)) != Strip(s)
  {
    NotIdempotentFirstPass(b, s);
    NotIdempotentSecondPass(b, Strip(s));
  }
}
