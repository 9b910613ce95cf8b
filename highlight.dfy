/**
 * Search highlighting of one displayed line: the line is cut into plain
 * spans and highlighted spans, the highlighted ones being the leftmost
 * non-overlapping case-insensitive occurrences of the query.
 */
module Highlight {
  import opened Text

  /** A piece of a line and whether it is drawn highlighted. */
  datatype Span = Span(text: string, highlighted: bool)

  /** The spans' texts, concatenated in order. */
  function Texts(spans: seq<Span>): string {
    if spans == [] then [] else spans[0].text + Texts(spans[1..])
  }

  /**
   * A cut of the lower-cased line `ll` for the lower-cased query `ql`,
   * starting at offset `at`: the spans tile `ll[at..]` left to right, every
   * highlighted span is an occurrence of `ql` at its offset, and no
   * occurrence of `ql` starts inside a plain span.
   */
  predicate Cut(spans: seq<Span>, ll: string, ql: string, at: nat)
    decreases |spans|
  {
    if spans == [] then at == |ll|
    else
      var sp := spans[0];
      var end := at + |sp.text|;
      && end <= |ll|
      && (if sp.highlighted then |sp.text| == |ql| && OccursAt(ll, ql, at)
          else forall i: nat :: at <= i < end ==> !OccursAt(ll, ql, i))
      && Cut(spans[1..], ll, ql, end)
  }

  /** No span is empty and no two plain spans are next to each other. */
  predicate Canonical(spans: seq<Span>)
    decreases |spans|
  {
    if spans == [] then true
    else
      && spans[0].text != []
      && (|spans| > 1 ==> spans[0].highlighted || spans[1].highlighted)
      && Canonical(spans[1..])
  }

  /** The plain span before a match, or nothing when the match starts right away. */
  function Gap(line: string, from: nat, to: nat): seq<Span>
    requires from <= to <= |line|
  {
    if to > from then [Span(line[from..to], false)] else []
  }

  /**
   * The spans of `line[lastEnd..]`, given the lower-cased line `ll` and
   * the lower-cased query `ql`: find the next occurrence at or after
   * `lastEnd`, emit the text before it as plain, the occurrence as highlighted, and continue after it; with
   * no occurrence left, emit the rest as plain when it is not empty.
   */
  function HighlightFrom(line: string, ll: string, ql: string, lastEnd: nat): seq<Span>
    requires ql != [] && |ll| == |line| && lastEnd <= |line|
    decreases |line| - lastEnd
  {
    match FindFrom(ll, ql, lastEnd)
    case None =>
      if lastEnd < |line| then [Span(line[lastEnd..], false)] else []
    case Some(s) =>
      var e := s + |ql|;
      Gap(line, lastEnd, s) + [Span(line[s..e], true)] + HighlightFrom(line, ll, ql, e)
  }

  /**
   * The spans of one line: with a non-empty query that occurs in the line
   * (ignoring case) the line is cut at its occurrences, otherwise it is one
   * plain span. Lower-casing keeps lengths, so a match of the lower-cased
   * query is exactly as long as the query itself.
   */
  function Highlight(line: string, query: string): seq<Span> {
    if query != [] && Contains(Lower(line), Lower(query)) then
      HighlightFrom(line, Lower(line), Lower(query), 0)
    else [Span(line, false)]
  }

  /** The highlighting of the content view for one line. */
  method HighlightSpans(line: string, query: string) returns (spans: seq<Span>)
    ensures spans == Highlight(line, query)
  {
    var queryLower := Lower(query);
    var lineLower := Lower(line);
    if query != [] && Contains(lineLower, queryLower) {
      spans := CutAtMatches(line, lineLower, queryLower);
    } else {
      spans := [Span(line, false)];
    }
  }

  /**
   * The highlighting of a line that contains the query: the matches and
   * the text between them, then the text after the last match.
   */
  method CutAtMatches(line: string, ll: string, ql: string) returns (spans: seq<Span>)
    requires ql != [] && |ll| == |line|
    ensures spans == HighlightFrom(line, ll, ql, 0)
  {
    var lastEnd;
    spans, lastEnd := EmitMatches(line, ll, ql);
    AccNoMatch(line, ll, ql, lastEnd, spans);
    if lastEnd < |line| {
      spans := spans + [Span(line[lastEnd..], false)];
    }
    HighlightAccIsFrom(line, ll, ql, 0, []);
    AppendNothing(HighlightFrom(line, ll, ql, 0));
  }

  /**
   * The highlighting loop: find the next occurrence in the rest of the
   * lower-cased line, push the gap and the match, move past it; stop
   * where no occurrence is left.
   */
  method EmitMatches(line: string, ll: string, ql: string) returns (spans: seq<Span>, lastEnd: nat)
    requires ql != [] && |ll| == |line|
    ensures lastEnd <= |line| && FindFrom(ll, ql, lastEnd).None?
    ensures HighlightAcc(line, ll, ql, lastEnd, spans) == HighlightAcc(line, ll, ql, 0, [])
  {
    spans := [];
    lastEnd := 0;
    var found := FindAfter(ll, ql, lastEnd);
    while found.Some?
      invariant lastEnd <= |line|
      invariant found.None? == FindFrom(ll, ql, lastEnd).None?
      invariant found.Some? ==> FindFrom(ll, ql, lastEnd) == Some(lastEnd + found.value)
      invariant HighlightAcc(line, ll, ql, lastEnd, spans) == HighlightAcc(line, ll, ql, 0, [])
      decreases |line| - lastEnd
    {
      spans, lastEnd, found := EmitOne(line, ll, ql, spans, lastEnd, found.value);
    }
  }

  /**
   * One turn of the highlighting loop, for the match `start` places after
   * `lastEnd`: push the text before it and the match, move past the match
   * and look for the next one.
   */
  method EmitOne(line: string, ll: string, ql: string, spans: seq<Span>, lastEnd: nat, start: nat)
    returns (spans': seq<Span>, lastEnd': nat, found': Option<nat>)
    requires ql != [] && |ll| == |line| && lastEnd <= |line|
    requires FindFrom(ll, ql, lastEnd) == Some(lastEnd + start)
    ensures lastEnd < lastEnd' <= |line|
    ensures found'.None? == FindFrom(ll, ql, lastEnd').None?
    ensures found'.Some? ==> FindFrom(ll, ql, lastEnd') == Some(lastEnd' + found'.value)
    ensures HighlightAcc(line, ll, ql, lastEnd', spans') == HighlightAcc(line, ll, ql, lastEnd, spans)
  {
    var actualStart := lastEnd + start;
    spans' := PushMatch(spans, line, lastEnd, actualStart, actualStart + |ql|);
    AccMatch(line, ll, ql, lastEnd, actualStart, spans, spans');
    lastEnd' := actualStart + |ql|;
    found' := FindAfter(ll, ql, lastEnd');
  }

  /**
   * `line_lower[last_end..].find(query_lower)`: the offset, counted from
   * `from`, of the first occurrence of `q` in `s` at or after `from`.
   */
  method FindAfter(s: string, q: string, from: nat) returns (r: Option<nat>)
    requires from <= |s|
    ensures r.None? == FindFrom(s, q, from).None?
    ensures r.Some? ==> FindFrom(s, q, from) == Some(from + r.value)
  {
    r := Find(s[from..], q);
    FindFromIsFindOnSuffix(s, q, from);
  }

  ghost function HighlightAcc(line: string, ll: string, ql: string, lastEnd: nat, acc: seq<Span>): seq<Span>
    requires ql != [] && |ll| == |line| && lastEnd <= |line|
    decreases |line| - lastEnd
  {
    match FindFrom(ll, ql, lastEnd)
    case None =>
      if lastEnd < |line| then acc + [Span(line[lastEnd..], false)] else acc
    case Some(s) =>
      HighlightAcc(line, ll, ql, s + |ql|, Emit(acc, line, lastEnd, s, s + |ql|))
  }

  /** `acc` followed by the plain text in `line[lastEnd..s]` and the match `line[s..e]`. */
  function Emit(acc: seq<Span>, line: string, lastEnd: nat, s: nat, e: nat): seq<Span>
    requires lastEnd <= s <= e <= |line|
  {
    acc + Gap(line, lastEnd, s) + [Span(line[s..e], true)]
  }

  /** `HighlightAcc` unfolded once where there is a next match. */
  lemma AccMatch(line: string, ll: string, ql: string, lastEnd: nat, s: nat, acc: seq<Span>, pushed: seq<Span>)
    requires ql != [] && |ll| == |line| && lastEnd <= |line|
    requires FindFrom(ll, ql, lastEnd) == Some(s)
    requires pushed == Emit(acc, line, lastEnd, s, s + |ql|)
    ensures HighlightAcc(line, ll, ql, s + |ql|, pushed) == HighlightAcc(line, ll, ql, lastEnd, acc)
  {
  }

  /** `HighlightAcc` unfolded once where there is no match left. */
  lemma AccNoMatch(line: string, ll: string, ql: string, lastEnd: nat, acc: seq<Span>)
    requires ql != [] && |ll| == |line| && lastEnd <= |line|
    requires FindFrom(ll, ql, lastEnd).None?
    ensures HighlightAcc(line, ll, ql, lastEnd, acc)
            == if lastEnd < |line| then acc + [Span(line[lastEnd..], false)] else acc
  {
  }

  /** The loop's list is what it has emitted followed by `HighlightFrom` of the rest. */
  lemma {:induction false} HighlightAccIsFrom(line: string, ll: string, ql: string, lastEnd: nat, acc: seq<Span>)
    requires ql != [] && |ll| == |line| && lastEnd <= |line|
    ensures HighlightAcc(line, ll, ql, lastEnd, acc) == acc + HighlightFrom(line, ll, ql, lastEnd)
    decreases |line| - lastEnd
  {
    match FindFrom(ll, ql, lastEnd)
    case None =>
      AccNoMatch(line, ll, ql, lastEnd, acc);
      HighlightFromNoMatch(line, ll, ql, lastEnd);
      AppendNothing(acc);
    case Some(s) =>
      var e := s + |ql|;
      var gap, hit := Gap(line, lastEnd, s), [Span(line[s..e], true)];
      AccMatch(line, ll, ql, lastEnd, s, acc, acc + gap + hit);
      HighlightAccIsFrom(line, ll, ql, e, acc + gap + hit);
      HighlightFromMatch(line, ll, ql, lastEnd, s);
      SeqRegroup(acc, gap, hit, HighlightFrom(line, ll, ql, e));
  }

  /** Push the text before a match, if any, as plain and the match as highlighted. */
  method PushMatch(spans: seq<Span>, line: string, lastEnd: nat, actualStart: nat, actualEnd: nat)
    returns (r: seq<Span>)
    requires lastEnd <= actualStart <= actualEnd <= |line|
    ensures r == Emit(spans, line, lastEnd, actualStart, actualEnd)
  {
    r := spans;
    if actualStart > lastEnd {
      r := r + [Span(line[lastEnd..actualStart], false)];
    } else {
      AppendNothing(r);
    }
    r := r + [Span(line[actualStart..actualEnd], true)];
  }

  // ----- helpers -----

  /** `HighlightFrom` unfolded once where there is a next match. */
  lemma HighlightFromMatch(line: string, ll: string, ql: string, lastEnd: nat, s: nat)
    requires ql != [] && |ll| == |line| && lastEnd <= |line|
    requires FindFrom(ll, ql, lastEnd) == Some(s)
    ensures HighlightFrom(line, ll, ql, lastEnd)
            == Gap(line, lastEnd, s) + [Span(line[s..s + |ql|], true)] + HighlightFrom(line, ll, ql, s + |ql|)
  {
  }

  /** `HighlightFrom` unfolded once where there is no match left. */
  lemma HighlightFromNoMatch(line: string, ll: string, ql: string, lastEnd: nat)
    requires ql != [] && |ll| == |line| && lastEnd <= |line|
    requires FindFrom(ll, ql, lastEnd).None?
    ensures HighlightFrom(line, ll, ql, lastEnd)
            == if lastEnd < |line| then [Span(line[lastEnd..], false)] else []
  {
  }

  lemma {:induction false} TextsAppend(a: seq<Span>, b: seq<Span>)
    ensures Texts(a + b) == Texts(a) + Texts(b)
  {
    if a == [] {
      assert a + b == b;
    } else {
      var ab := a + b;
      assert ab[0] == a[0] && ab[1..] == a[1..] + b;
      TextsAppend(a[1..], b);
      assert Texts(ab) == a[0].text + Texts(a[1..] + b);
    }
  }

  // ----- the spans tile the line -----

  lemma {:induction false} HighlightFromTexts(line: string, ll: string, ql: string, lastEnd: nat)
    requires ql != [] && |ll| == |line| && lastEnd <= |line|
    ensures Texts(HighlightFrom(line, ll, ql, lastEnd)) == line[lastEnd..]
    decreases |line| - lastEnd
  {
    match FindFrom(ll, ql, lastEnd)
    case Some(s) =>
      HighlightFromTexts(line, ll, ql, s + |ql|);
      TextsMatchCase(line, ll, ql, lastEnd, s);
    case None =>
      TextsNoMatchCase(line, ll, ql, lastEnd);
  }

  /** The texts where there is a next match, given those after it. */
  lemma TextsMatchCase(line: string, ll: string, ql: string, lastEnd: nat, s: nat)
    requires ql != [] && |ll| == |line| && lastEnd <= |line|
    requires FindFrom(ll, ql, lastEnd) == Some(s)
    requires Texts(HighlightFrom(line, ll, ql, s + |ql|)) == line[s + |ql|..]
    ensures Texts(HighlightFrom(line, ll, ql, lastEnd)) == line[lastEnd..]
  {
    HighlightFromMatch(line, ll, ql, lastEnd, s);
    TextsStep(line, lastEnd, s, s + |ql|, HighlightFrom(line, ll, ql, s + |ql|), HighlightFrom(line, ll, ql, lastEnd));
  }

  /** The texts where there is no match left. */
  lemma TextsNoMatchCase(line: string, ll: string, ql: string, lastEnd: nat)
    requires ql != [] && |ll| == |line| && lastEnd <= |line|
    requires FindFrom(ll, ql, lastEnd).None?
    ensures Texts(HighlightFrom(line, ll, ql, lastEnd)) == line[lastEnd..]
  {
    HighlightFromNoMatch(line, ll, ql, lastEnd);
    if lastEnd < |line| {
      assert Texts([Span(line[lastEnd..], false)]) == line[lastEnd..] + Texts([]);
    }
  }

  /** A gap, then a match, then spans tiling the rest, tile the line from the gap on. */
  lemma TextsStep(line: string, lastEnd: nat, s: nat, e: nat, rest: seq<Span>, whole: seq<Span>)
    requires lastEnd <= s <= e <= |line|
    requires Texts(rest) == line[e..]
    requires whole == Gap(line, lastEnd, s) + [Span(line[s..e], true)] + rest
    ensures Texts(whole) == line[lastEnd..]
  {
    var gap, h := Gap(line, lastEnd, s), [Span(line[s..e], true)];
    TextsAppend(gap + h, rest);
    TextsAppend(gap, h);
    GapTexts(line, lastEnd, s);
    SingleTexts(Span(line[s..e], true));
    SliceThree(line, lastEnd, s, e);
  }

  /** The text of a gap is the text between its ends. */
  lemma GapTexts(line: string, from: nat, to: nat)
    requires from <= to <= |line|
    ensures Texts(Gap(line, from, to)) == line[from..to]
  {
    if to > from {
      SingleTexts(Span(line[from..to], false));
    }
  }

  /** The text of one span. */
  lemma SingleTexts(sp: Span)
    ensures Texts([sp]) == sp.text
  {
    assert Texts([sp]) == sp.text + Texts([]);
  }

  /** A suffix of a line split at two positions. */
  lemma SliceThree(line: string, a: nat, b: nat, c: nat)
    requires a <= b <= c <= |line|
    ensures line[a..] == line[a..b] + line[b..c] + line[c..]
  {
  }

  /** Concatenating the spans' texts gives back the line exactly. */
  lemma HighlightRoundTrip(line: string, query: string)
    ensures Texts(Highlight(line, query)) == line
  {
    if query != [] && Contains(Lower(line), Lower(query)) {
      HighlightFromTexts(line, Lower(line), Lower(query), 0);
    } else {
      assert Texts([Span(line, false)]) == line + Texts([]);
    }
  }

  // ----- the spans are the leftmost occurrences -----

  lemma {:induction false} HighlightFromCut(line: string, ll: string, ql: string, lastEnd: nat)
    requires ql != [] && |ll| == |line| && lastEnd <= |line|
    ensures Cut(HighlightFrom(line, ll, ql, lastEnd), ll, ql, lastEnd)
    ensures Canonical(HighlightFrom(line, ll, ql, lastEnd))
    decreases |line| - lastEnd
  {
    var f := FindFrom(ll, ql, lastEnd);
    FindFromLeftmost(ll, ql, lastEnd);
    if f.Some? {
      var s := f.value;
      var e := s + |ql|;
      HighlightFromMatch(line, ll, ql, lastEnd, s);
      var rest := HighlightFrom(line, ll, ql, e);
      HighlightFromCut(line, ll, ql, e);
      CutStep(line, ll, ql, lastEnd, s, rest);
      CanonicalStep(line, lastEnd, s, e, rest);
    } else {
      HighlightFromNoMatch(line, ll, ql, lastEnd);
      if lastEnd < |line| {
        var plain := Span(line[lastEnd..], false);
        CutCons(plain, [], ll, ql, lastEnd);
        AppendNothing([plain]);
      }
    }
  }

  /** A gap without occurrences, then an occurrence, then a cut, is a cut. */
  lemma CutStep(line: string, ll: string, ql: string, lastEnd: nat, s: nat, rest: seq<Span>)
    requires |ll| == |line| && lastEnd <= s && s + |ql| <= |line|
    requires OccursAt(ll, ql, s)
    requires forall i: nat :: lastEnd <= i < s ==> !OccursAt(ll, ql, i)
    requires Cut(rest, ll, ql, s + |ql|)
    ensures Cut(Gap(line, lastEnd, s) + [Span(line[s..s + |ql|], true)] + rest, ll, ql, lastEnd)
  {
    var hit := Span(line[s..s + |ql|], true);
    CutCons(hit, rest, ll, ql, s);
    if s > lastEnd {
      var plain := Span(line[lastEnd..s], false);
      CutCons(plain, [hit] + rest, ll, ql, lastEnd);
      SeqAssoc([plain], [hit], rest);
    } else {
      AppendNothing([hit]);
    }
  }

  /** A gap that is not empty, then a match that is not empty, then a canonical list, is canonical. */
  lemma CanonicalStep(line: string, lastEnd: nat, s: nat, e: nat, rest: seq<Span>)
    requires lastEnd <= s < e <= |line|
    requires Canonical(rest)
    ensures Canonical(Gap(line, lastEnd, s) + [Span(line[s..e], true)] + rest)
  {
    var hit := Span(line[s..e], true);
    CanonicalCons(hit, rest);
    if s > lastEnd {
      var plain := Span(line[lastEnd..s], false);
      CanonicalCons(plain, [hit] + rest);
      SeqAssoc([plain], [hit], rest);
    } else {
      AppendNothing([hit]);
    }
  }

  lemma CutCons(sp: Span, rest: seq<Span>, ll: string, ql: string, at: nat)
    ensures Cut([sp] + rest, ll, ql, at) <==>
      && at + |sp.text| <= |ll|
      && (if sp.highlighted then |sp.text| == |ql| && OccursAt(ll, ql, at)
          else forall i: nat :: at <= i < at + |sp.text| ==> !OccursAt(ll, ql, i))
      && Cut(rest, ll, ql, at + |sp.text|)
  {
    assert ([sp] + rest)[1..] == rest;
  }

  lemma CanonicalCons(sp: Span, rest: seq<Span>)
    ensures Canonical([sp] + rest) <==>
      && sp.text != []
      && (rest != [] ==> sp.highlighted || rest[0].highlighted)
      && Canonical(rest)
  {
    assert ([sp] + rest)[1..] == rest;
  }

  /**
   * For a non-empty query, the spans form a canonical cut: every
   * highlighted span is an occurrence of the query at its position in the
   * lower-cased line, no occurrence starts inside a plain span, no span is
   * empty unless the line is, and no two plain spans are adjacent.
   */
  lemma HighlightIsCut(line: string, query: string)
    requires query != []
    ensures Cut(Highlight(line, query), Lower(line), Lower(query), 0)
    ensures line != [] ==> Canonical(Highlight(line, query))
  {
    var ll, ql := Lower(line), Lower(query);
    if Contains(ll, ql) {
      HighlightFromCut(line, ll, ql, 0);
    } else {
      ContainsIff(ll, ql);
      assert forall i: nat :: !OccursAt(ll, ql, i);
      assert Cut(Highlight(line, query)[1..], ll, ql, |line|);
    }
  }

  /**
   * Two canonical cuts of the same text for the same non-empty query are
   * the same span list: a cut is determined by where the occurrences are.
   */
  lemma {:induction false} CutUnique(a: seq<Span>, b: seq<Span>, ll: string, ql: string, at: nat)
    requires ql != []
    requires Cut(a, ll, ql, at) && Cut(b, ll, ql, at)
    requires Canonical(a) && Canonical(b)
    requires Texts(a) == Texts(b)
    ensures a == b
    decreases |a|
  {
    if a != [] && b != [] {
      var x, y := a[0], b[0];
      assert Texts(a) == x.text + Texts(a[1..]);
      assert Texts(b) == y.text + Texts(b[1..]);
      if x.highlighted == y.highlighted && |x.text| == |y.text| {
        assert x.text == Texts(a)[..|x.text|] == y.text;
        assert Texts(a[1..]) == Texts(b[1..]);
        CutUnique(a[1..], b[1..], ll, ql, at + |x.text|);
        assert a == [x] + a[1..];
        assert b == [y] + b[1..];
      }
    }
  }

  /**
   * The highlighting of a non-empty line for a non-empty query is THE
   * canonical cut of that line: any span list that tiles the line, is
   * canonical and highlights exactly the leftmost non-overlapping
   * occurrences is the one `Highlight` returns.
   */
  lemma HighlightUnique(line: string, query: string, spans: seq<Span>)
    requires line != [] && query != []
    requires Texts(spans) == line
    requires Canonical(spans) && Cut(spans, Lower(line), Lower(query), 0)
    ensures spans == Highlight(line, query)
  {
    HighlightIsCut(line, query);
    HighlightRoundTrip(line, query);
    CutUnique(spans, Highlight(line, query), Lower(line), Lower(query), 0);
  }

  /**
   * Some span is highlighted exactly when the query is non-empty and
   * occurs in the line (ignoring case); otherwise the line is shown as one
   * plain span.
   */
  lemma HighlightHasMatchIff(line: string, query: string)
    ensures (exists k :: 0 <= k < |Highlight(line, query)| && Highlight(line, query)[k].highlighted)
            <==> (query != [] && Contains(Lower(line), Lower(query)))
    ensures !(query != [] && Contains(Lower(line), Lower(query))) ==> Highlight(line, query) == [Span(line, false)]
  {
    var ll, ql := Lower(line), Lower(query);
    if query != [] && Contains(ll, ql) {
      FindFromLeftmost(ll, ql, 0);
      ContainsIff(ll, ql);
      assert FindFrom(ll, ql, 0).Some?;
      var s := FindFrom(ll, ql, 0).value;
      HighlightFromMatch(line, ll, ql, 0, s);
      var gap := Gap(line, 0, s);
      var spans := Highlight(line, query);
      assert spans[|gap|] == Span(line[s..s + |ql|], true);
    }
  }
}
