/**
 * String primitives the viewer relies on, as the Rust standard library
 * defines them for `&str`: whitespace trimming, lower-casing, splitting
 * on a character, joining with a separator, `lines()`, substring search
 * and decimal parsing. Strings are sequences of Unicode scalar values.
 */
module Text {

  datatype Option<+T> = None | Some(value: T)

  /** Rust's `char::is_whitespace`: the Unicode White_Space property. */
  predicate IsWhitespace(c: char) {
    || ('\t' <= c <= '\r')
    || c == ' '
    || c == '\U{0085}'
    || c == '\U{00A0}'
    || c == '\U{1680}'
    || ('\U{2000}' <= c <= '\U{200A}')
    || c == '\U{2028}'
    || c == '\U{2029}'
    || c == '\U{202F}'
    || c == '\U{205F}'
    || c == '\U{3000}'
  }

  /** Neither end of `s` is whitespace. */
  predicate IsTrimmed(s: string) {
    s == [] || (!IsWhitespace(s[0]) && !IsWhitespace(s[|s| - 1]))
  }

  predicate AllWhitespace(s: string) {
    forall k :: 0 <= k < |s| ==> IsWhitespace(s[k])
  }

  /** `str::trim_start`: drop whitespace from the front (facts in `TrimStartFacts`). */
  function TrimStart(s: string): string
    decreases |s|
  {
    if s != [] && IsWhitespace(s[0]) then TrimStart(s[1..]) else s
  }

  /** `str::trim_end`: drop whitespace from the back (facts in `TrimEndFacts`). */
  function TrimEnd(s: string): string
    decreases |s|
  {
    if s != [] && IsWhitespace(s[|s| - 1]) then TrimEnd(s[..|s| - 1]) else s
  }

  /** `str::trim` (facts in `TrimIsTrimmed` and `TrimIsSlice`). */
  function Trim(s: string): string {
    TrimEnd(TrimStart(s))
  }

  /** `trim_start` keeps the longest suffix that does not begin with whitespace. */
  lemma {:induction false} TrimStartFacts(s: string)
    ensures var r := TrimStart(s);
            && |r| <= |s| && r == s[|s| - |r|..]
            && (forall k :: 0 <= k < |s| - |r| ==> IsWhitespace(s[k]))
            && (r == [] || !IsWhitespace(r[0]))
    decreases |s|
  {
    if s != [] && IsWhitespace(s[0]) {
      TrimStartFacts(s[1..]);
      var r := TrimStart(s[1..]);
      assert TrimStart(s) == r;
      assert s[1..][|s| - 1 - |r|..] == s[|s| - |r|..];
      forall k | 0 <= k < |s| - |r| ensures IsWhitespace(s[k]) {
        if k > 0 { assert s[k] == s[1..][k - 1]; }
      }
    }
  }

  /** `trim_end` keeps the longest prefix that does not end with whitespace. */
  lemma {:induction false} TrimEndFacts(s: string)
    ensures var r := TrimEnd(s);
            && |r| <= |s| && r == s[..|r|]
            && (forall k :: |r| <= k < |s| ==> IsWhitespace(s[k]))
            && (r == [] || !IsWhitespace(r[|r| - 1]))
    decreases |s|
  {
    if s != [] && IsWhitespace(s[|s| - 1]) {
      TrimEndFacts(s[..|s| - 1]);
      var r := TrimEnd(s[..|s| - 1]);
      assert TrimEnd(s) == r;
      assert s[..|s| - 1][..|r|] == s[..|r|];
      forall k | |r| <= k < |s| ensures IsWhitespace(s[k]) {
        if k < |s| - 1 { assert s[k] == s[..|s| - 1][k]; }
      }
    }
  }

  /** Neither end of the result of `trim` is whitespace. */
  lemma TrimIsTrimmed(s: string)
    ensures IsTrimmed(Trim(s))
  {
    var t := TrimStart(s);
    TrimStartFacts(s);
    TrimEndFacts(t);
    var r := TrimEnd(t);
    if r != [] {
      assert r[0] == t[0];
    }
  }

  /**
   * The result of `trim` is a contiguous slice of its input, and everything
   * cut away on either side of it is whitespace.
   */
  lemma TrimIsSlice(s: string)
    ensures var r, i := Trim(s), LeadingSpace(s);
            && i + |r| <= |s| && r == s[i..i + |r|]
            && (forall k :: 0 <= k < i ==> IsWhitespace(s[k]))
            && (forall k :: i + |r| <= k < |s| ==> IsWhitespace(s[k]))
  {
    var t := TrimStart(s);
    TrimStartFacts(s);
    TrimEndFacts(t);
    var r := TrimEnd(t);
    assert Trim(s) == r;
    assert LeadingSpace(s) == |s| - |t|;
    assert r == s[|s| - |t|..|s| - |t| + |r|];
    assert forall k :: |s| - |t| + |r| <= k < |s| ==> s[k] == t[k - (|s| - |t|)];
  }

  /** How many whitespace characters `str::trim` cuts from the front. */
  function LeadingSpace(s: string): nat {
    TrimStartFacts(s);
    |s| - |TrimStart(s)|
  }

  lemma TrimOfTrimmed(s: string)
    requires IsTrimmed(s)
    ensures Trim(s) == s
  {
    assert TrimStart(s) == s;
  }

  /** Trimming never introduces a character. */
  lemma TrimKeepsOut(s: string, c: char)
    requires c !in s
    ensures c !in Trim(s)
  {
    var r, i := Trim(s), LeadingSpace(s);
    TrimIsSlice(s);
    forall k | 0 <= k < |r| ensures r[k] != c {
      assert r[k] == s[i + k];
    }
  }

  /** A string trims to nothing exactly when it is all whitespace. */
  lemma TrimEmptyIff(s: string)
    ensures Trim(s) == [] <==> AllWhitespace(s)
  {
    var r, i := Trim(s), LeadingSpace(s);
    TrimIsSlice(s);
    if r != [] {
      TrimIsTrimmed(s);
      assert s[i] == r[0];
    }
  }

  /** `char::to_lowercase` restricted to ASCII letters. */
  function LowerChar(c: char): char {
    if 'A' <= c <= 'Z' then (c as int + 32) as char else c
  }

  /** `str::to_lowercase` under ASCII case mapping: it keeps the length. */
  function Lower(s: string): (r: string)
    ensures |r| == |s|
  {
    seq(|s|, k requires 0 <= k < |s| => LowerChar(s[k]))
  }

  /** `q` occurs in `s` at position `i`. */
  predicate OccursAt(s: string, q: string, i: nat) {
    i + |q| <= |s| && s[i..i + |q|] == q
  }

  /**
   * Where `q` first occurs in `s` at or after position `from`, scanning
   * one position at a time.
   */
  function FindFrom(s: string, q: string, from: nat): (r: Option<nat>)
    requires from <= |s|
    ensures r.Some? ==> from <= r.value && r.value + |q| <= |s|
    decreases |s| - from
  {
    if from + |q| > |s| then None
    else if OccursAt(s, q, from) then Some(from)
    else FindFrom(s, q, from + 1)
  }

  /** `str::find`: where `q` first occurs in `s`, if it does. */
  function Find(s: string, q: string): Option<nat> {
    FindFrom(s, q, 0)
  }

  /**
   * `FindFrom` returns the leftmost occurrence at or after `from`, and
   * nothing only when there is none there.
   */
  lemma {:induction false} FindFromLeftmost(s: string, q: string, from: nat)
    requires from <= |s|
    ensures FindFrom(s, q, from).Some? ==> OccursAt(s, q, FindFrom(s, q, from).value)
    ensures FindFrom(s, q, from).Some? ==>
      forall i: nat :: from <= i < FindFrom(s, q, from).value ==> !OccursAt(s, q, i)
    ensures FindFrom(s, q, from).None? ==> forall i: nat :: from <= i ==> !OccursAt(s, q, i)
    decreases |s| - from
  {
    if from + |q| <= |s| && !OccursAt(s, q, from) {
      FindFromLeftmost(s, q, from + 1);
    }
  }

  /** An occurrence in a suffix is an occurrence in the whole, shifted. */
  lemma OccursShift(s: string, q: string, a: nat)
    requires a <= |s|
    ensures forall j: nat :: OccursAt(s[a..], q, j) <==> OccursAt(s, q, a + j)
  {
    forall j: nat ensures OccursAt(s[a..], q, j) <==> OccursAt(s, q, a + j) {
      if a + j + |q| <= |s| {
        assert s[a..][j..j + |q|] == s[a + j..a + j + |q|];
      }
    }
  }

  /**
   * Searching `s` from `a` on is `find` on the suffix `s[a..]`, shifted
   * back to an offset into `s`.
   */
  lemma FindFromIsFindOnSuffix(s: string, q: string, a: nat)
    requires a <= |s|
    ensures Find(s[a..], q).None? ==> FindFrom(s, q, a).None?
    ensures Find(s[a..], q).Some? ==> FindFrom(s, q, a) == Some(a + Find(s[a..], q).value)
  {
    var m, f := FindFrom(s, q, a), Find(s[a..], q);
    FindFromLeftmost(s, q, a);
    FindFromLeftmost(s[a..], q, 0);
    OccursShift(s, q, a);
    if m.Some? {
      assert OccursAt(s[a..], q, m.value - a);
    }
    if f.Some? {
      assert OccursAt(s, q, a + f.value);
    }
  }

  /** `str::contains`. */
  predicate Contains(s: string, q: string) {
    Find(s, q).Some?
  }

  /** `q` is contained in `s` exactly when it occurs somewhere in `s`. */
  lemma ContainsIff(s: string, q: string)
    ensures Contains(s, q) <==> exists j: nat :: OccursAt(s, q, j)
  {
    FindFromLeftmost(s, q, 0);
  }

  /** `str::split` on one character: the pieces between separators. */
  function Split(s: string, sep: char): (r: seq<string>)
    ensures |r| >= 1
    ensures forall k :: 0 <= k < |r| ==> sep !in r[k]
    decreases |s|
  {
    if s == [] then [[]]
    else
      var rest := Split(s[1..], sep);
      if s[0] == sep then [[]] + rest
      else [[s[0]] + rest[0]] + rest[1..]
  }

  /** Joining the pieces back with the separator restores the input. */
  lemma {:induction false} JoinOfSplit(s: string, sep: char)
    ensures Join(Split(s, sep), sep) == s
    decreases |s|
  {
    if s != [] {
      JoinOfSplit(s[1..], sep);
      var rest := Split(s[1..], sep);
      if s[0] != sep && |rest| > 1 {
        var r := Split(s, sep);
        assert r[1..] == rest[1..];
      }
    }
  }

  /** There is one more piece than there are separators. */
  lemma {:induction false} SplitCount(s: string, sep: char)
    ensures |Split(s, sep)| == multiset(s)[sep] + 1
    decreases |s|
  {
    if s != [] {
      SplitCount(s[1..], sep);
      assert s == [s[0]] + s[1..];
      assert multiset(s) == multiset([s[0]]) + multiset(s[1..]);
    }
  }

  /** The pieces of an all-whitespace string are all whitespace. */
  lemma {:induction false} SplitAllWhitespace(s: string, sep: char)
    requires AllWhitespace(s)
    ensures forall k :: 0 <= k < |Split(s, sep)| ==> AllWhitespace(Split(s, sep)[k])
    decreases |s|
  {
    if s != [] {
      SplitAllWhitespace(s[1..], sep);
      var rest := Split(s[1..], sep);
      var r := Split(s, sep);
      if s[0] != sep {
        forall k | 0 <= k < |r| ensures AllWhitespace(r[k]) {
          if k == 0 {
            assert r[0] == [s[0]] + rest[0];
          } else {
            assert r[k] == rest[k];
          }
        }
      } else {
        assert forall k :: 1 <= k < |r| ==> r[k] == rest[k - 1];
      }
    }
  }

  /** The lines of an all-whitespace string are all whitespace. */
  lemma LinesAllWhitespace(s: string)
    requires AllWhitespace(s)
    ensures forall k :: 0 <= k < |Lines(s)| ==> AllWhitespace(Lines(s)[k])
  {
    if s != [] {
      SplitAllWhitespace(s, '\n');
    }
  }

  /** `join` with a one-character separator. */
  function Join(parts: seq<string>, sep: char): string {
    if |parts| == 0 then []
    else if |parts| == 1 then parts[0]
    else parts[0] + [sep] + Join(parts[1..], sep)
  }

  /** `str::lines` (line feed only): split on '\n' without a trailing empty line. */
  function Lines(s: string): (r: seq<string>)
    ensures forall k :: 0 <= k < |r| ==> '\n' !in r[k]
    ensures s == [] ==> r == []
    ensures s != [] && s[|s| - 1] != '\n' ==> r == Split(s, '\n')
  {
    if s == [] then []
    else
      var parts := Split(s, '\n');
      if s[|s| - 1] == '\n' then parts[..|parts| - 1] else parts
  }

  lemma {:induction false} JoinLast(parts: seq<string>, sep: char)
    requires |parts| > 0 && parts[|parts| - 1] != []
    ensures var j := Join(parts, sep); j != [] && j[|j| - 1] == parts[|parts| - 1][|parts[|parts| - 1]| - 1]
  {
    if |parts| > 1 {
      JoinLast(parts[1..], sep);
    }
  }

  lemma JoinFirst(parts: seq<string>, sep: char)
    requires |parts| > 0 && parts[0] != []
    ensures var j := Join(parts, sep); j != [] && j[0] == parts[0][0]
  {
  }

  /** In a join of several parts, the first separator ends the first part. */
  lemma JoinFirstSeparator(parts: seq<string>, sep: char)
    requires |parts| > 1 && sep !in parts[0]
    ensures var j := Join(parts, sep);
            && |parts[0]| < |j| && j[|parts[0]|] == sep
            && forall k :: 0 <= k < |parts[0]| ==> j[k] != sep
  {
    var j := Join(parts, sep);
    forall k | 0 <= k < |parts[0]| ensures j[k] != sep {
      assert j[k] == parts[0][k];
    }
  }

  /** Joining with a separator that no part contains loses no information. */
  lemma {:induction false} JoinInjective(ps: seq<string>, qs: seq<string>, sep: char)
    requires |ps| > 0 && |qs| > 0
    requires forall k :: 0 <= k < |ps| ==> sep !in ps[k]
    requires forall k :: 0 <= k < |qs| ==> sep !in qs[k]
    requires Join(ps, sep) == Join(qs, sep)
    ensures ps == qs
    decreases |ps|
  {
    var j := Join(ps, sep);
    if |ps| > 1 && |qs| > 1 {
      JoinFirstSeparator(ps, sep);
      JoinFirstSeparator(qs, sep);
      assert ps[0] == j[..|ps[0]|] == qs[0];
      assert Join(ps[1..], sep) == j[|ps[0]| + 1..] == Join(qs[1..], sep);
      JoinInjective(ps[1..], qs[1..], sep);
      assert ps == [ps[0]] + ps[1..];
      assert qs == [qs[0]] + qs[1..];
    }
  }

  /** Splitting undoes joining. */
  lemma SplitOfJoin(parts: seq<string>, sep: char)
    requires |parts| > 0
    requires forall k :: 0 <= k < |parts| ==> sep !in parts[k]
    ensures Split(Join(parts, sep), sep) == parts
  {
    JoinOfSplit(Join(parts, sep), sep);
    JoinInjective(Split(Join(parts, sep), sep), parts, sep);
  }

  /** `lines()` undoes a '\n'-join of lines whose last one is not empty. */
  lemma LinesOfJoin(ls: seq<string>)
    requires forall k :: 0 <= k < |ls| ==> '\n' !in ls[k]
    requires ls == [] || ls[|ls| - 1] != []
    ensures Lines(Join(ls, '\n')) == ls
  {
    if ls != [] {
      JoinLast(ls, '\n');
      var last := ls[|ls| - 1];
      assert last[|last| - 1] in last;
      SplitOfJoin(ls, '\n');
    }
  }

  predicate IsDigit(c: char) {
    '0' <= c <= '9'
  }

  predicate AllDigits(s: string) {
    forall k :: 0 <= k < |s| ==> IsDigit(s[k])
  }

  /** The value of a string of decimal digits. */
  function DigitsValue(s: string): nat
    requires AllDigits(s)
  {
    if s == [] then 0
    else DigitsValue(s[..|s| - 1]) * 10 + (s[|s| - 1] as int - '0' as int)
  }

  /**
   * `str::parse::<usize>` on the strings the page-jump prompt can hold:
   * a non-empty run of decimal digits parses, anything else fails.
   */
  function ParseNat(s: string): (r: Option<nat>)
    ensures r.Some? <==> s != [] && AllDigits(s)
    ensures r.Some? ==> r.value == DigitsValue(s)
  {
    if s != [] && AllDigits(s) then Some(DigitsValue(s)) else None
  }

  /** The decimal rendering of `n` (what `format!("{}", n)` prints). */
  function ShowNat(n: nat): (r: string)
    ensures r != [] && AllDigits(r)
  {
    if n < 10 then ['0' + n as char]
    else ShowNat(n / 10) + ['0' + (n % 10) as char]
  }

  /** Parsing a rendered number gives the number back. */
  lemma {:induction false} ParseShowNat(n: nat)
    ensures ParseNat(ShowNat(n)) == Some(n)
  {
    if n >= 10 {
      ParseShowNat(n / 10);
      var s := ShowNat(n);
      assert s[..|s| - 1] == ShowNat(n / 10);
      assert s[|s| - 1] as int - '0' as int == n % 10;
      assert DigitsValue(s) == DigitsValue(ShowNat(n / 10)) * 10 + n % 10;
    }
  }

  // ----- a trailing character -----

  /** A trailing separator adds one empty piece. */
  lemma {:induction false} SplitSnocSep(s: string, sep: char)
    ensures Split(s + [sep], sep) == Split(s, sep) + [[]]
    decreases |s|
  {
    if s == [] {
      assert [sep][1..] == [];
    } else {
      var t := s[1..];
      assert (s + [sep])[0] == s[0] && (s + [sep])[1..] == t + [sep];
      SplitSnocSep(t, sep);
      var rest := Split(t, sep);
      if s[0] != sep {
        assert (rest + [[]])[1..] == rest[1..] + [[]];
      }
    }
  }

  /** Any other trailing character extends the last piece. */
  lemma {:induction false} SplitSnocOther(s: string, c: char, sep: char)
    requires c != sep
    ensures var r := Split(s, sep);
            Split(s + [c], sep) == r[..|r| - 1] + [r[|r| - 1] + [c]]
    decreases |s|
  {
    if s == [] {
      assert [c][1..] == [];
      assert Split([c], sep) == [[c] + []];
      assert [c] + [] == [c] && [] + [c] == [c];
      assert s + [c] == [c];
      var r := Split(s, sep);
      assert r[..|r| - 1] + [r[|r| - 1] + [c]] == [[c]];
    } else {
      var t := s[1..];
      assert (s + [c])[0] == s[0] && (s + [c])[1..] == t + [c];
      SplitSnocOther(t, c, sep);
      var rest, rest' := Split(t, sep), Split(t + [c], sep);
      if s[0] == sep {
        ExtendLastPiece([], rest, rest', c);
      } else {
        ExtendLastPiece([s[0]], rest, rest', c);
      }
    }
  }

  /**
   * The step of `SplitSnocOther` on plain sequences: putting a piece `h`
   * before the first piece (or, when `h` is empty and stands for a
   * separator, before all of them) commutes with extending the last piece.
   */
  lemma ExtendLastPiece<T>(h: seq<T>, rest: seq<seq<T>>, rest': seq<seq<T>>, x: T)
    requires rest != [] && rest' == rest[..|rest| - 1] + [rest[|rest| - 1] + [x]]
    ensures var r := [h + rest[0]] + rest[1..];
            [h + rest'[0]] + rest'[1..] == r[..|r| - 1] + [r[|r| - 1] + [x]]
    ensures var r := [[]] + rest;
            [[]] + rest' == r[..|r| - 1] + [r[|r| - 1] + [x]]
  {
    var front, last := rest[..|rest| - 1], rest[|rest| - 1];
    if |rest| == 1 {
      assert rest' == [last + [x]];
      assert h + (last + [x]) == h + last + [x];
    } else {
      assert rest'[0] == rest[0];
      assert rest'[1..] == front[1..] + [last + [x]];
    }
  }

  /**
   * Appending '\n' to a text gives the same lines, or the same lines and one
   * more empty line (when the text is empty or already ends with '\n').
   */
  lemma LinesSnocNewline(s: string)
    ensures Lines(s + ['\n']) == Lines(s) || Lines(s + ['\n']) == Lines(s) + [[]]
  {
    SplitSnocSep(s, '\n');
    var u := s + ['\n'];
    assert u[|u| - 1] == '\n';
    assert Lines(u) == Split(s, '\n');
    if s != [] && s[|s| - 1] == '\n' {
      var init := s[..|s| - 1];
      assert s == init + ['\n'];
      SplitSnocSep(init, '\n');
    }
  }

  // ----- regrouping sequences -----

  /** A non-empty sequence is its first element followed by the rest, also before an append. */
  lemma SplitFirst<T>(xs: seq<T>, ys: seq<T>)
    requires xs != []
    ensures xs == [xs[0]] + xs[1..]
    ensures xs + ys == [xs[0]] + (xs[1..] + ys)
  {
    assert xs == [xs[0]] + xs[1..];
  }

  /** A non-empty sequence is its front followed by its last element. */
  lemma SplitLast<T>(xs: seq<T>)
    requires xs != []
    ensures xs == xs[..|xs| - 1] + [xs[|xs| - 1]]
  {
  }

  lemma SeqAssoc<T>(a: seq<T>, b: seq<T>, c: seq<T>)
    ensures a + (b + c) == a + b + c
  {
  }

  lemma SeqRegroup<T>(a: seq<T>, b: seq<T>, c: seq<T>, d: seq<T>)
    ensures a + (b + c + d) == a + b + c + d
  {
  }

  lemma AppendNothing<T>(a: seq<T>)
    ensures a + [] == a && [] + a == a
  {
  }

  // ----- integer division -----

  /** Integer division is determined by quotient and remainder. */
  lemma DivUnique(a: nat, n: nat, q: int, r: int)
    requires n > 0 && 0 <= r < n && a == q * n + r
    ensures a / n == q
  {
    var q', r' := a / n, a % n;
    assert (q - q') * n == r' - r;
    if q > q' {
      MulAtLeast(q - q', n);
    } else if q < q' {
      MulAtLeast(q' - q, n);
    }
  }

  lemma {:induction false} MulAtLeast(d: nat, n: nat)
    requires d >= 1
    ensures d * n >= n
  {
    if d > 1 {
      MulAtLeast(d - 1, n);
      assert d * n == (d - 1) * n + n;
    }
  }
}
