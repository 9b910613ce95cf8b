/**
 * The pagination engine: how the raw text extracted from a PDF is carved
 * into pages (`split_into_pages`) and how each page is normalized
 * (`format_pdf_content`).
 */
module Pagination {
  import opened Text

  /** The page-break control character (form feed, 0x0C). */
  const FormFeed: char := '\U{000C}'

  /** Lines per page when the text carries no form feeds. */
  const LinesPerPage: nat := 50

  /** Every line trimmed, the lines that trim to nothing dropped, order kept. */
  function NormalLines(ls: seq<string>): (r: seq<string>)
    ensures |r| <= |ls|
    ensures forall k :: 0 <= k < |r| ==> r[k] != [] && IsTrimmed(r[k])
  {
    if ls == [] then []
    else
      var t := Trim(ls[0]);
      TrimIsTrimmed(ls[0]);
      (if t == [] then [] else [t]) + NormalLines(ls[1..])
  }

  /** `format_pdf_content`: trim each line, drop empty ones, rejoin with '\n'. */
  function Format(content: string): string {
    Join(NormalLines(Lines(content)), '\n')
  }

  /** A normalized page: none of its lines is empty or has whitespace at either end. */
  predicate IsNormalized(page: string) {
    var ls := Lines(page);
    forall k :: 0 <= k < |ls| ==> ls[k] != [] && IsTrimmed(ls[k])
  }

  /**
   * A page that `trim()`s to nothing; `TrimEmptyIff` shows this is the same
   * as `page.trim().is_empty()`.
   */
  predicate IsBlank(page: string) {
    AllWhitespace(page)
  }

  /** The pages that are not blank, in order. */
  function DropBlank(ps: seq<string>): (r: seq<string>)
    ensures |r| <= |ps|
    ensures forall k :: 0 <= k < |r| ==> !IsBlank(r[k])
  {
    if ps == [] then []
    else
      var last := ps[|ps| - 1];
      DropBlank(ps[..|ps| - 1]) + (if IsBlank(last) then [] else [last])
  }

  /** The segments between form feeds, each normalized. */
  function FormatAll(segments: seq<string>): (r: seq<string>)
    ensures |r| == |segments|
  {
    seq(|segments|, k requires 0 <= k < |segments| => Format(segments[k]))
  }

  /** `slice::chunks(n)`: consecutive runs of `n` items, the last one possibly shorter. */
  function Chunks(ls: seq<string>, n: nat): (r: seq<seq<string>>)
    requires n > 0
    ensures forall k :: 0 <= k < |r| ==> 0 < |r[k]| <= n
    ensures forall k :: 0 <= k < |r| - 1 ==> |r[k]| == n
    decreases |ls|
  {
    if ls == [] then []
    else if |ls| <= n then [ls]
    else [ls[..n]] + Chunks(ls[n..], n)
  }

  /** Each chunk of lines joined with '\n' and normalized. */
  function FormatChunks(chunks: seq<seq<string>>): (r: seq<string>)
    ensures |r| == |chunks|
  {
    seq(|chunks|, k requires 0 <= k < |chunks| => Format(Join(chunks[k], '\n')))
  }

  /** What `split_into_pages` returns for `text`. */
  function Paginate(text: string): seq<string> {
    if FormFeed in text then
      DropBlank(FormatAll(Split(text, FormFeed)))
    else
      var pages := DropBlank(FormatChunks(Chunks(Lines(text), LinesPerPage)));
      if pages == [] then [Format(text)] else pages
  }

  /** `split_into_pages`, with its loop over the 50-line chunks. */
  method SplitIntoPages(text: string) returns (pages: seq<string>)
    ensures pages == Paginate(text)
  {
    if FormFeed in text {
      return DropBlank(FormatAll(Split(text, FormFeed)));
    }
    var lines := Lines(text);
    var chunks := Chunks(lines, LinesPerPage);
    pages := [];
    for k := 0 to |chunks|
      invariant pages == DropBlank(FormatChunks(chunks[..k]))
    {
      var formatted := Format(Join(chunks[k], '\n'));
      TrimEmptyIff(formatted);
      if Trim(formatted) != [] {
        pages := pages + [formatted];
      }
      FormatChunksPrefix(chunks, k);
      DropBlankSnoc(FormatChunks(chunks[..k]), formatted);
    }
    assert chunks[..|chunks|] == chunks;
    if pages == [] {
      pages := [Format(text)];
    }
  }

  lemma FormatChunksPrefix(chunks: seq<seq<string>>, k: nat)
    requires k < |chunks|
    ensures FormatChunks(chunks[..k + 1]) == FormatChunks(chunks[..k]) + [Format(Join(chunks[k], '\n'))]
  {
  }

  // ----- properties of normalization -----

  lemma {:induction false} NormalLinesNoNewline(ls: seq<string>)
    requires forall k :: 0 <= k < |ls| ==> '\n' !in ls[k]
    ensures forall k :: 0 <= k < |NormalLines(ls)| ==> '\n' !in NormalLines(ls)[k]
  {
    if ls != [] {
      var t := Trim(ls[0]);
      TrimKeepsOut(ls[0], '\n');
      assert '\n' !in t;
      NormalLinesNoNewline(ls[1..]);
      var head: seq<string> := if t == [] then [] else [t];
      var rest := NormalLines(ls[1..]);
      assert NormalLines(ls) == head + rest;
      forall k | 0 <= k < |head + rest| ensures '\n' !in (head + rest)[k] {
        if k >= |head| {
          assert (head + rest)[k] == rest[k - |head|];
        } else {
          assert (head + rest)[k] == t;
        }
      }
    }
  }

  /** Lines that are already trimmed and non-empty are left as they are. */
  lemma {:induction false} NormalLinesOfNormal(ls: seq<string>)
    requires forall k :: 0 <= k < |ls| ==> ls[k] != [] && IsTrimmed(ls[k])
    ensures NormalLines(ls) == ls
  {
    if ls != [] {
      TrimOfTrimmed(ls[0]);
      NormalLinesOfNormal(ls[1..]);
    }
  }

  /** The lines of a normalized page are exactly the normalized input lines. */
  lemma FormatLines(content: string)
    ensures Lines(Format(content)) == NormalLines(Lines(content))
  {
    NormalLinesNoNewline(Lines(content));
    LinesOfJoin(NormalLines(Lines(content)));
  }

  /** `format_pdf_content` yields a normalized page. */
  lemma FormatIsNormalized(content: string)
    ensures IsNormalized(Format(content))
  {
    FormatLines(content);
  }

  /** Normalizing twice is normalizing once. */
  lemma FormatIdempotent(content: string)
    ensures Format(Format(content)) == Format(content)
  {
    FormatLines(content);
    NormalLinesOfNormal(NormalLines(Lines(content)));
  }

  /** A normalized page has no whitespace at either end, so it is blank only when empty. */
  lemma FormatTrimmed(content: string)
    ensures IsTrimmed(Format(content))
    ensures IsBlank(Format(content)) <==> Format(content) == []
  {
    var ls := NormalLines(Lines(content));
    if ls != [] {
      JoinFirst(ls, '\n');
      JoinLast(ls, '\n');
    }
    TrimOfTrimmed(Format(content));
  }

  // ----- properties of the page filter and the chunking -----

  /** `a` is `b` with some items left out. */
  predicate IsSubsequence(a: seq<string>, b: seq<string>)
    decreases |b|
  {
    if a == [] then true
    else if b == [] then false
    else (a[|a| - 1] == b[|b| - 1] && IsSubsequence(a[..|a| - 1], b[..|b| - 1]))
         || IsSubsequence(a, b[..|b| - 1])
  }

  /** Filtering a list extended by one page. */
  lemma DropBlankSnoc(ps: seq<string>, p: string)
    ensures DropBlank(ps + [p]) == DropBlank(ps) + (if IsBlank(p) then [] else [p])
  {
    assert (ps + [p])[..|ps|] == ps;
  }

  /** The filter keeps pages in their order. */
  lemma {:induction false} DropBlankKeepsOrder(ps: seq<string>)
    ensures IsSubsequence(DropBlank(ps), ps)
  {
    if ps != [] {
      var init := ps[..|ps| - 1];
      DropBlankKeepsOrder(init);
      var r := DropBlank(ps);
      if !IsBlank(ps[|ps| - 1]) {
        assert r == DropBlank(init) + [ps[|ps| - 1]];
        assert r[..|r| - 1] == DropBlank(init);
        assert IsSubsequence(r[..|r| - 1], init);
      } else if r != [] {
        assert r == DropBlank(init);
        assert IsSubsequence(r, init);
      }
    }
  }

  /** The filter drops everything exactly when every page is blank. */
  lemma {:induction false} DropBlankEmpty(ps: seq<string>)
    ensures (forall k :: 0 <= k < |ps| ==> IsBlank(ps[k])) <==> DropBlank(ps) == []
  {
    if ps != [] {
      DropBlankEmpty(ps[..|ps| - 1]);
    }
  }

  /**
   * The filter drops nothing else: each non-blank page is kept as often as
   * it occurs, so with `DropBlankKeepsOrder` the result is exactly the
   * non-blank pages in their order.
   */
  lemma {:induction false} DropBlankKeepsNonBlank(ps: seq<string>)
    ensures forall p :: !IsBlank(p) ==> multiset(DropBlank(ps))[p] == multiset(ps)[p]
    ensures forall k :: 0 <= k < |ps| && !IsBlank(ps[k]) ==> ps[k] in DropBlank(ps)
  {
    if ps != [] {
      var init, last := ps[..|ps| - 1], ps[|ps| - 1];
      DropBlankKeepsNonBlank(init);
      SplitLast(ps);
      assert multiset(ps) == multiset(init) + multiset{last};
      forall p | !IsBlank(p) ensures multiset(DropBlank(ps))[p] == multiset(ps)[p] {
        if !IsBlank(last) {
          assert multiset(DropBlank(ps)) == multiset(DropBlank(init)) + multiset{last};
        }
      }
      forall k | 0 <= k < |ps| && !IsBlank(ps[k]) ensures ps[k] in DropBlank(ps) {
        assert ps[k] in multiset(ps);
      }
    }
  }

  /** The filter keeps a list of non-blank pages whole. */
  lemma {:induction false} DropBlankNone(ps: seq<string>)
    requires forall k :: 0 <= k < |ps| ==> !IsBlank(ps[k])
    ensures DropBlank(ps) == ps
  {
    if ps != [] {
      DropBlankNone(ps[..|ps| - 1]);
    }
  }


  // ----- blank lines and blank chunks -----

  /** Normalizing drops every line exactly when every line is blank. */
  lemma {:induction false} NormalLinesEmptyIff(ls: seq<string>)
    ensures NormalLines(ls) == [] <==> forall k :: 0 <= k < |ls| ==> IsBlank(ls[k])
  {
    if ls != [] {
      TrimEmptyIff(ls[0]);
      NormalLinesEmptyIff(ls[1..]);
      assert forall k :: 1 <= k < |ls| ==> ls[1..][k - 1] == ls[k];
    }
  }

  /** Normalizing a concatenation normalizes each part. */
  lemma {:induction false} NormalLinesAppend(xs: seq<string>, ys: seq<string>)
    ensures NormalLines(xs + ys) == NormalLines(xs) + NormalLines(ys)
  {
    if xs == [] {
      assert xs + ys == ys;
    } else {
      var head: seq<string> := if Trim(xs[0]) == [] then [] else [Trim(xs[0])];
      var front, back := NormalLines(xs[1..]), NormalLines(ys);
      SplitFirst(xs, ys);
      NormalLinesCons(xs[0], xs[1..] + ys);
      NormalLinesCons(xs[0], xs[1..]);
      NormalLinesAppend(xs[1..], ys);
      SeqAssoc(head, front, back);
    }
  }

  /** Normalizing a line followed by more lines. */
  lemma NormalLinesCons(x: string, rest: seq<string>)
    ensures NormalLines([x] + rest) == (if Trim(x) == [] then [] else [Trim(x)]) + NormalLines(rest)
  {
    var ls := [x] + rest;
    assert ls[0] == x && ls[1..] == rest;
  }

  /** A normalized page is empty exactly when no line survives. */
  lemma FormatEmptyIff(content: string)
    ensures Format(content) == [] <==> NormalLines(Lines(content)) == []
  {
    var ls := NormalLines(Lines(content));
    if ls != [] {
      JoinFirst(ls, '\n');
    }
  }

  /** Re-splitting a '\n'-joined chunk may lose a trailing empty line, which normalizing drops anyway. */
  lemma NormalLinesOfJoin(chunk: seq<string>)
    requires forall k :: 0 <= k < |chunk| ==> '\n' !in chunk[k]
    ensures NormalLines(Lines(Join(chunk, '\n'))) == NormalLines(chunk)
  {
    if chunk != [] && chunk[|chunk| - 1] == [] {
      var init := chunk[..|chunk| - 1];
      SplitLast(chunk);
      NormalLinesOfJoinSnocEmpty(init);
    } else {
      LinesOfJoin(chunk);
    }
  }

  /** The case of `NormalLinesOfJoin` where the chunk's last line is empty. */
  lemma NormalLinesOfJoinSnocEmpty(init: seq<string>)
    requires forall k :: 0 <= k < |init| ==> '\n' !in init[k]
    ensures NormalLines(Lines(Join(init + [[]], '\n'))) == NormalLines(init + [[]])
  {
    NormalLinesAppend(init, [[]]);
    assert NormalLines([[]]) == [];
    if init != [] {
      LinesOfJoinTrailingEmpty(init);
    } else {
      assert Join([[]], '\n') == [];
    }
  }

  /** A '\n'-joined chunk ending in an empty line re-splits to the lines before it. */
  lemma LinesOfJoinTrailingEmpty(init: seq<string>)
    requires init != []
    requires forall k :: 0 <= k < |init| ==> '\n' !in init[k]
    ensures Lines(Join(init + [[]], '\n')) == init
  {
    var chunk := init + [[]];
    JoinSnocEmpty(init);
    var j := Join(chunk, '\n');
    assert j[|j| - 1] == '\n';
    SplitOfJoin(chunk, '\n');
    assert chunk[..|chunk| - 1] == init;
  }

  /** Joining with an extra empty part appends one separator. */
  lemma {:induction false} JoinSnocEmpty(ls: seq<string>)
    requires ls != []
    ensures Join(ls + [[]], '\n') == Join(ls, '\n') + ['\n']
  {
    if |ls| > 1 {
      JoinSnocEmpty(ls[1..]);
      assert (ls + [[]])[1..] == ls[1..] + [[]];
    }
  }

  /** A chunk of lines normalizes to a blank page exactly when all its lines are blank. */
  lemma ChunkBlankIff(chunk: seq<string>)
    requires forall k :: 0 <= k < |chunk| ==> '\n' !in chunk[k]
    ensures IsBlank(Format(Join(chunk, '\n'))) <==> forall k :: 0 <= k < |chunk| ==> IsBlank(chunk[k])
  {
    var text := Join(chunk, '\n');
    FormatTrimmed(text);
    FormatEmptyIff(text);
    NormalLinesOfJoin(chunk);
    NormalLinesEmptyIff(chunk);
  }

  /** If every chunk is all blank lines, so are the lines they were cut from. */
  lemma {:induction false} FlattenAllBlank(cs: seq<seq<string>>)
    requires forall i, k :: 0 <= i < |cs| && 0 <= k < |cs[i]| ==> IsBlank(cs[i][k])
    ensures forall k :: 0 <= k < |Flatten(cs)| ==> IsBlank(Flatten(cs)[k])
  {
    if cs != [] {
      FlattenAllBlank(cs[1..]);
      var f := Flatten(cs);
      assert f == cs[0] + Flatten(cs[1..]);
      forall k | 0 <= k < |f| ensures IsBlank(f[k]) {
        if k >= |cs[0]| {
          assert f[k] == Flatten(cs[1..])[k - |cs[0]|];
        } else {
          assert f[k] == cs[0][k];
        }
      }
    }
  }

  // ----- properties of pagination -----

  predicate AllNormalized(pages: seq<string>) {
    forall k :: 0 <= k < |pages| ==> IsNormalized(pages[k])
  }

  lemma {:induction false} SubsequenceMembers(a: seq<string>, b: seq<string>)
    requires IsSubsequence(a, b)
    ensures forall k :: 0 <= k < |a| ==> a[k] in b
    decreases |b|
  {
    if a != [] && b != [] {
      var a', b' := a[..|a| - 1], b[..|b| - 1];
      if a[|a| - 1] == b[|b| - 1] && IsSubsequence(a', b') {
        SubsequenceMembers(a', b');
        assert forall k :: 0 <= k < |a'| ==> a[k] == a'[k];
      } else {
        SubsequenceMembers(a, b');
      }
      assert forall x :: x in b' ==> x in b;
    }
  }

  lemma FormatAllNormalized(segments: seq<string>)
    ensures AllNormalized(FormatAll(segments))
  {
    forall k | 0 <= k < |segments| ensures IsNormalized(FormatAll(segments)[k]) {
      FormatIsNormalized(segments[k]);
    }
  }

  lemma FormatChunksNormalized(chunks: seq<seq<string>>)
    ensures AllNormalized(FormatChunks(chunks))
  {
    forall k | 0 <= k < |chunks| ensures IsNormalized(FormatChunks(chunks)[k]) {
      FormatIsNormalized(Join(chunks[k], '\n'));
    }
  }

  lemma SubsequenceNormalized(a: seq<string>, b: seq<string>)
    requires IsSubsequence(a, b) && AllNormalized(b)
    ensures AllNormalized(a)
  {
    SubsequenceMembers(a, b);
  }

  /**
   * With form feeds in the text: every page is a non-empty normalized
   * segment, the pages keep the order of the segments they come from, every
   * segment that does not format to blank is a page (as often as it occurs),
   * and k form feeds give at most k + 1 pages (possibly none).
   */
  lemma PaginateFormFeed(text: string)
    requires FormFeed in text
    ensures var pages, all := Paginate(text), FormatAll(Split(text, FormFeed));
            && |pages| <= multiset(text)[FormFeed] + 1
            && (forall k :: 0 <= k < |pages| ==> pages[k] != [])
            && AllNormalized(pages)
            && IsSubsequence(pages, all)
            && (forall k :: 0 <= k < |all| && !IsBlank(all[k]) ==> all[k] in pages)
            && (forall p :: !IsBlank(p) ==> multiset(pages)[p] == multiset(all)[p])
  {
    var all := FormatAll(Split(text, FormFeed));
    SplitCount(text, FormFeed);
    DropBlankKeepsOrder(all);
    DropBlankKeepsNonBlank(all);
    FormatAllNormalized(Split(text, FormFeed));
    SubsequenceNormalized(DropBlank(all), all);
  }

  /**
   * Without form feeds: there is at least one page and at most
   * ceil(L / 50) of them for L input lines (one when L is 0), every page is
   * normalized, every chunk that does not format to blank is a page, and
   * either the pages are exactly the non-blank chunks in order or no input
   * line has any content and the result is one empty page.
   */
  lemma PaginateNoFormFeed(text: string)
    requires FormFeed !in text
    ensures var pages, n := Paginate(text), |Lines(text)|;
            var chunks := FormatChunks(Chunks(Lines(text), LinesPerPage));
            && 1 <= |pages| <= (if n == 0 then 1 else (n + LinesPerPage - 1) / LinesPerPage)
            && AllNormalized(pages)
            && (forall k :: 0 <= k < |chunks| && !IsBlank(chunks[k]) ==> chunks[k] in pages)
            && ((&& (forall k :: 0 <= k < |pages| ==> pages[k] != [])
                 && IsSubsequence(pages, chunks)
                 && (forall p :: !IsBlank(p) ==> multiset(pages)[p] == multiset(chunks)[p]))
                || (&& pages == [[]]
                    && forall k :: 0 <= k < n ==> IsBlank(Lines(text)[k])))
  {
    var lines := Lines(text);
    var formatted := FormatChunks(Chunks(lines, LinesPerPage));
    var kept := DropBlank(formatted);
    ChunksCount(lines, LinesPerPage);
    FormatChunksNormalized(Chunks(lines, LinesPerPage));
    if kept == [] {
      FallbackOnlyWhenBlank(text);
      FormatIsNormalized(text);
      DropBlankEmpty(formatted);
      assert Paginate(text) == [[]];
    } else {
      NonBlankChunksArePages(formatted, kept);
      assert Paginate(text) == kept;
    }
  }

  /** What the filter keeps is exactly the non-blank pages, in order, every one normalized. */
  lemma NonBlankChunksArePages(formatted: seq<string>, kept: seq<string>)
    requires kept == DropBlank(formatted) && AllNormalized(formatted)
    ensures (forall k :: 0 <= k < |formatted| && !IsBlank(formatted[k]) ==> formatted[k] in kept)
    ensures AllNormalized(kept) && forall k :: 0 <= k < |kept| ==> kept[k] != []
    ensures IsSubsequence(kept, formatted)
    ensures forall p :: !IsBlank(p) ==> multiset(kept)[p] == multiset(formatted)[p]
  {
    DropBlankKeepsOrder(formatted);
    DropBlankKeepsNonBlank(formatted);
    SubsequenceNormalized(kept, formatted);
  }

  /** The whole-text fallback is reached only when every line is blank, and then it is empty. */
  lemma FallbackOnlyWhenBlank(text: string)
    requires DropBlank(FormatChunks(Chunks(Lines(text), LinesPerPage))) == []
    ensures forall k :: 0 <= k < |Lines(text)| ==> IsBlank(Lines(text)[k])
    ensures Format(text) == []
  {
    var lines := Lines(text);
    var chunks := Chunks(lines, LinesPerPage);
    DropBlankEmpty(FormatChunks(chunks));
    ChunksConcat(lines, LinesPerPage);
    forall i | 0 <= i < |chunks|
      ensures forall k :: 0 <= k < |chunks[i]| ==> IsBlank(chunks[i][k])
    {
      ChunkLinesHaveNoNewline(lines, i);
      ChunkBlankIff(chunks[i]);
      assert IsBlank(FormatChunks(chunks)[i]);
    }
    FlattenAllBlank(chunks);
    NormalLinesEmptyIff(lines);
    FormatEmptyIff(text);
  }

  /** The chunks of a text's lines have no line breaks inside them. */
  lemma ChunkLinesHaveNoNewline(lines: seq<string>, i: nat)
    requires forall k :: 0 <= k < |lines| ==> '\n' !in lines[k]
    requires i < |Chunks(lines, LinesPerPage)|
    ensures var c := Chunks(lines, LinesPerPage)[i]; forall k :: 0 <= k < |c| ==> '\n' !in c[k]
  {
    ChunksConcat(lines, LinesPerPage);
    FlattenMembers(Chunks(lines, LinesPerPage), i);
  }

  lemma {:induction false} FlattenMembers(cs: seq<seq<string>>, i: nat)
    requires i < |cs|
    ensures forall k :: 0 <= k < |cs[i]| ==> cs[i][k] in Flatten(cs)
  {
    if i > 0 {
      FlattenMembers(cs[1..], i - 1);
    }
  }

  /**
   * Without form feeds, when every line has some content, there are
   * exactly ceil(L / 50) pages.
   */
  lemma PaginateExactCount(text: string)
    requires FormFeed !in text
    requires Lines(text) != []
    requires forall k :: 0 <= k < |Lines(text)| ==> !IsBlank(Lines(text)[k])
    ensures |Paginate(text)| == (|Lines(text)| + LinesPerPage - 1) / LinesPerPage
  {
    var lines := Lines(text);
    var chunks := Chunks(lines, LinesPerPage);
    ChunksCount(lines, LinesPerPage);
    forall i | 0 <= i < |chunks| ensures !IsBlank(FormatChunks(chunks)[i]) {
      ChunkLinesHaveNoNewline(lines, i);
      ChunkBlankIff(chunks[i]);
      ChunksConcat(lines, LinesPerPage);
      FlattenMembers(chunks, i);
      assert chunks[i][0] in lines;
    }
    DropBlankNone(FormatChunks(chunks));
  }

  // ----- a trailing newline -----

  /** A trailing '\n' does not change how a text formats. */
  lemma FormatSnocNewline(content: string)
    ensures Format(content + ['\n']) == Format(content)
  {
    LinesSnocNewline(content);
    var ls := Lines(content);
    if Lines(content + ['\n']) != ls {
      NormalLinesAppend(ls, [[]]);
      assert NormalLines([[]]) == [];
      assert NormalLines(ls) + [] == NormalLines(ls);
    }
  }

  /** With a trailing '\n' the form-feed segments format exactly as before. */
  lemma FormatAllSnocNewline(text: string)
    ensures FormatAll(Split(text + ['\n'], FormFeed)) == FormatAll(Split(text, FormFeed))
  {
    var segs := Split(text, FormFeed);
    var last := |segs| - 1;
    SplitSnocOther(text, '\n', FormFeed);
    FormatSnocNewline(segs[last]);
    FormatAllSnocLast(segs[..last], segs[last], segs[last] + ['\n']);
    assert segs[..last] + [segs[last]] == segs;
  }

  /** Replacing the last segment by one that formats alike changes nothing. */
  lemma FormatAllSnocLast(front: seq<string>, a: string, b: string)
    requires Format(a) == Format(b)
    ensures FormatAll(front + [b]) == FormatAll(front + [a])
  {
    var x, y := FormatAll(front + [b]), FormatAll(front + [a]);
    forall k | 0 <= k < |x| ensures x[k] == y[k] {
      if k < |front| {
        assert (front + [b])[k] == (front + [a])[k];
      }
    }
  }

  /** One more line either starts a new chunk or extends the last, shorter one. */
  lemma {:induction false} ChunksSnoc(ls: seq<string>, x: string, n: nat)
    requires n > 0
    ensures var cs := Chunks(ls, n);
            Chunks(ls + [x], n)
              == if cs == [] || |cs[|cs| - 1]| == n then cs + [[x]]
                 else cs[..|cs| - 1] + [cs[|cs| - 1] + [x]]
    decreases |ls|
  {
    var u := ls + [x];
    if ls == [] {
      assert u == [x];
    } else if |ls| <= n {
      if |ls| == n {
        assert u[..n] == ls && u[n..] == [x];
      }
    } else {
      assert u[..n] == ls[..n] && u[n..] == ls[n..] + [x];
      ChunksSnoc(ls[n..], x, n);
      var cs, rest := Chunks(ls, n), Chunks(ls[n..], n);
      assert cs == [ls[..n]] + rest;
      assert cs[..|cs| - 1] == [ls[..n]] + rest[..|rest| - 1];
    }
  }

  /** A chunk and the same chunk with one more empty line format alike. */
  lemma FormatChunkSnocEmpty(chunk: seq<string>)
    requires forall k :: 0 <= k < |chunk| ==> '\n' !in chunk[k]
    ensures Format(Join(chunk + [[]], '\n')) == Format(Join(chunk, '\n'))
  {
    NormalLinesOfJoin(chunk);
    NormalLinesOfJoinSnocEmpty(chunk);
    NormalLinesAppend(chunk, [[]]);
    assert NormalLines([[]]) == [];
    assert NormalLines(chunk + [[]]) == NormalLines(chunk) + [];
    AppendNothing(NormalLines(chunk));
  }

  /** An empty line that starts a new chunk adds a blank page, which is dropped. */
  lemma NewChunkSnocEmpty(ls: seq<string>)
    requires var cs := Chunks(ls, LinesPerPage); cs == [] || |cs[|cs| - 1]| == LinesPerPage
    ensures DropBlank(FormatChunks(Chunks(ls + [[]], LinesPerPage)))
            == DropBlank(FormatChunks(Chunks(ls, LinesPerPage)))
  {
    ChunksSnoc(ls, [], LinesPerPage);
    FormatChunksSnocBlank(Chunks(ls, LinesPerPage));
  }

  /** An empty line that joins the last, shorter chunk leaves every formatted chunk as it was. */
  lemma ExtendChunkSnocEmpty(ls: seq<string>)
    requires forall k :: 0 <= k < |ls| ==> '\n' !in ls[k]
    requires var cs := Chunks(ls, LinesPerPage); cs != [] && |cs[|cs| - 1]| != LinesPerPage
    ensures FormatChunks(Chunks(ls + [[]], LinesPerPage)) == FormatChunks(Chunks(ls, LinesPerPage))
  {
    var cs := Chunks(ls, LinesPerPage);
    ChunksSnoc(ls, [], LinesPerPage);
    ChunkLinesHaveNoNewline(ls, |cs| - 1);
    LastChunkSnocEmpty(cs, Chunks(ls + [[]], LinesPerPage));
  }

  /** Extending the last chunk by an empty line formats every chunk alike. */
  lemma LastChunkSnocEmpty(cs: seq<seq<string>>, cs': seq<seq<string>>)
    requires cs != [] && cs' == cs[..|cs| - 1] + [cs[|cs| - 1] + [[]]]
    requires NoNewlines(cs[|cs| - 1])
    ensures FormatChunks(cs') == FormatChunks(cs)
  {
    var last := |cs| - 1;
    FormatChunkSnocEmpty(cs[last]);
    FormatChunksSnocLast(cs[..last], cs[last], cs[last] + [[]]);
    SplitLast(cs);
  }

  predicate NoNewlines(ls: seq<string>) {
    forall k :: 0 <= k < |ls| ==> '\n' !in ls[k]
  }

  /** A new chunk holding one empty line is a blank page, which is dropped. */
  lemma FormatChunksSnocBlank(cs: seq<seq<string>>)
    ensures DropBlank(FormatChunks(cs + [[[]]])) == DropBlank(FormatChunks(cs))
  {
    FormatChunksSnoc(cs, [[]]);
    assert Join([[]], '\n') == [];
    assert Format([]) == [];
    DropBlankSnoc(FormatChunks(cs), []);
  }

  lemma FormatChunksSnoc(cs: seq<seq<string>>, c: seq<string>)
    ensures FormatChunks(cs + [c]) == FormatChunks(cs) + [Format(Join(c, '\n'))]
  {
    assert (cs + [c])[..|cs|] == cs;
    FormatChunksPrefix(cs + [c], |cs|);
    assert (cs + [c])[..|cs| + 1] == cs + [c];
  }

  /** Replacing the last chunk by one that formats alike changes nothing. */
  lemma FormatChunksSnocLast(front: seq<seq<string>>, a: seq<string>, b: seq<string>)
    requires Format(Join(a, '\n')) == Format(Join(b, '\n'))
    ensures FormatChunks(front + [b]) == FormatChunks(front + [a])
  {
    var x, y := FormatChunks(front + [b]), FormatChunks(front + [a]);
    forall k | 0 <= k < |x| ensures x[k] == y[k] {
      if k < |front| {
        assert (front + [b])[k] == (front + [a])[k];
      }
    }
  }

  /** A text and the same text with a trailing '\n' give the same pages. */
  lemma PaginateTrailingNewline(text: string)
    ensures Paginate(text + ['\n']) == Paginate(text)
  {
    var u := text + ['\n'];
    assert FormFeed in u <==> FormFeed in text;
    if FormFeed in text {
      FormatAllSnocNewline(text);
    } else {
      LinesSnocNewline(text);
      var ls := Lines(text);
      if Lines(u) != ls {
        var cs := Chunks(ls, LinesPerPage);
        if cs == [] || |cs[|cs| - 1]| == LinesPerPage {
          NewChunkSnocEmpty(ls);
        } else {
          ExtendChunkSnocEmpty(ls);
        }
      }
      FormatSnocNewline(text);
    }
  }

  /**
   * An all-whitespace text: with a form feed in it there are no pages at
   * all; without one there is exactly one empty page.
   */
  lemma PaginateAllBlank(text: string)
    requires AllWhitespace(text)
    ensures FormFeed in text ==> Paginate(text) == []
    ensures FormFeed !in text ==> Paginate(text) == [[]]
  {
    if FormFeed in text {
      SegmentsAllBlank(text);
      DropBlankEmpty(FormatAll(Split(text, FormFeed)));
      assert Paginate(text) == DropBlank(FormatAll(Split(text, FormFeed)));
    } else {
      PaginateAllBlankNoFormFeed(text);
    }
  }

  lemma PaginateAllBlankNoFormFeed(text: string)
    requires AllWhitespace(text) && FormFeed !in text
    ensures Paginate(text) == [[]]
  {
    var lines := Lines(text);
    LinesAllWhitespace(text);
    var chunks := Chunks(lines, LinesPerPage);
    ChunksConcat(lines, LinesPerPage);
    forall i | 0 <= i < |chunks| ensures IsBlank(FormatChunks(chunks)[i]) {
      ChunkLinesHaveNoNewline(lines, i);
      ChunkBlankIff(chunks[i]);
      FlattenMembers(chunks, i);
    }
    DropBlankEmpty(FormatChunks(chunks));
    NormalLinesEmptyIff(lines);
    FormatEmptyIff(text);
    assert Paginate(text) == [Format(text)];
  }

  lemma SegmentsAllBlank(text: string)
    requires AllWhitespace(text)
    ensures var all := FormatAll(Split(text, FormFeed)); forall k :: 0 <= k < |all| ==> IsBlank(all[k])
  {
    var segments := Split(text, FormFeed);
    SplitAllWhitespace(text, FormFeed);
    forall k | 0 <= k < |segments| ensures IsBlank(FormatAll(segments)[k]) {
      LinesAllWhitespace(segments[k]);
      NormalLinesEmptyIff(Lines(segments[k]));
      FormatEmptyIff(segments[k]);
    }
  }

  // ----- chunking -----

  function Flatten(xss: seq<seq<string>>): seq<string> {
    if xss == [] then [] else xss[0] + Flatten(xss[1..])
  }

  /** There are ceil(|ls| / n) chunks. */
  lemma {:induction false} ChunksCount(ls: seq<string>, n: nat)
    requires n > 0
    ensures |Chunks(ls, n)| == (|ls| + n - 1) / n
    decreases |ls|
  {
    if |ls| > n {
      ChunksCount(ls[n..], n);
      DivPlusDivisor(|ls| - 1, n);
    } else if ls != [] {
      DivUnique(|ls| + n - 1, n, 1, |ls| - 1);
    } else {
      DivUnique(n - 1, n, 0, n - 1);
    }
  }

  /** Flattening the chunks gives back the lines. */
  lemma {:induction false} ChunksConcat(ls: seq<string>, n: nat)
    requires n > 0
    ensures Flatten(Chunks(ls, n)) == ls
    decreases |ls|
  {
    if |ls| > n {
      ChunksConcat(ls[n..], n);
      assert ls == ls[..n] + ls[n..];
    }
  }

  lemma DivPlusDivisor(x: nat, n: nat)
    requires n > 0
    ensures (x + n) / n == x / n + 1
  {
    var q, r := x / n, x % n;
    assert x + n == (q + 1) * n + r;
    DivUnique(x + n, n, q + 1, r);
  }
}
