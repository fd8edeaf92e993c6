/** The fixed regular expressions of the backblast parser. Each one is a matcher that
    decides whether the expression matches starting at a given index (following the
    regex engine's greedy/backtracking choices), and `Search` is the leftmost scan that
    `re.search` performs. Matching is line-aware: `^` holds at index 0 and after every
    `'\n'`, `$` before every `'\n'` and at the end, and `.` is any character but `'\n'`. */
module Patterns {
  import opened Wrappers
  import opened Text

  /** A successful match: the index where it starts and the span of its capture group. */
  datatype Hit = Hit(start: nat, from: nat, to: nat)

  /** The three digit layouts a date candidate may have. */
  datatype Shape = IsoDashes | YearFirstSlashes | MonthFirstSlashes

  /** `D` stands for one decimal digit; every other character is literal. */
  function Template(shape: Shape): string {
    match shape
    case IsoDashes => "DDDD-DD-DD"
    case YearFirstSlashes => "DDDD/DD/DD"
    case MonthFirstSlashes => "DD/DD/DDDD"
  }

  predicate FitsShape(s: string, shape: Shape) {
    var t := Template(shape);
    |s| == |t| && forall k :: 0 <= k < |t| ==> if t[k] == 'D' then IsDigit(s[k]) else s[k] == t[k]
  }

  /** Every expression the parser searches for. Case-sensitive unless noted. */
  datatype Pattern =
      /** a line starting `KEY:`; group: the rest of the line after any whitespace,
          where that whitespace may run over line breaks */
    | Header(key: string)
      /** a line starting `FNG:` or `FNGS:` in any letter case; group as for `Header` */
    | FngHeader
      /** `DATE:`, optional whitespace, then a date candidate of the given shape; group: the candidate */
    | LabelledDate(shape: Shape)
      /** a `DDDD-DD-DD` run anywhere; group: the run */
    | BareIsoDate
      /** a line starting `COUNT:`; no group */
    | CountLine
      /** a line starting `COUNT:` that is followed by a line break; group: all text after that break */
    | CountThenRest
      /** (on lower-cased text) a line starting `warmup:`, `warm-up:` or `warm`, whitespace, `up:` */
    | WarmupHeader
      /** (on lower-cased text) a line starting `thang:` or `the`, whitespace, `thang:` */
    | ThangHeader
      /** (on lower-cased text) the word `ruck`, `rucking` or `ruck` whitespace `march` */
    | RuckWord
      /** a line starting `NAME:` in any case with text on the same line; group: that text */
    | InlineSection(name: string)
      /** a line that is exactly `NAME:` plus blanks in any case; group: the following lines
          up to the next line that looks like a header, or the end */
    | BlockSection(name: string)

  predicate AtLineStart(text: string, p: nat) {
    p == 0 || (p <= |text| && text[p - 1] == '\n')
  }

  /** `w` occurs at `p` when letter case is ignored. */
  predicate OccursAtIgnoringCase(text: string, w: string, p: nat) {
    p + |w| <= |text| && Lower(text[p..p + |w|]) == Lower(w)
  }

  /** The end of the line containing index `i`: the next `'\n'` at or after `i`, or the end. */
  function LineEnd(text: string, i: nat): (e: nat)
    requires i <= |text|
    ensures i <= e <= |text|
    ensures forall k :: i <= k < e ==> text[k] != '\n'
    ensures e == |text| || text[e] == '\n'
    decreases |text| - i
  {
    if i == |text| || text[i] == '\n' then i else LineEnd(text, i + 1)
  }

  /** The line end is the one index that no line break precedes from `i` and that ends the text
      or holds a break. */
  lemma LineEndIs(text: string, i: nat, e: nat)
    requires i <= e <= |text|
    requires forall k :: i <= k < e ==> text[k] != '\n'
    requires e == |text| || text[e] == '\n'
    ensures LineEnd(text, i) == e
  {
  }

  predicate IsBlank(c: char) { c == ' ' || c == '\t' }

  /** The first index at or after `i` that is not a space or tab. */
  function SkipBlanks(text: string, i: nat): (j: nat)
    requires i <= |text|
    ensures i <= j <= |text|
    ensures forall k :: i <= k < j ==> IsBlank(text[k])
    ensures j == |text| || !IsBlank(text[j])
    decreases |text| - i
  {
    if i == |text| || !IsBlank(text[i]) then i else SkipBlanks(text, i + 1)
  }

  /** The capture "optional whitespace, then the rest of the line" that starts at `k`. */
  function RestOfLine(text: string, p: nat, k: nat): (h: Hit)
    requires p <= k <= |text|
    ensures h.start == p && k <= h.from <= h.to <= |text|
  {
    var q := SkipSpaces(text, k);
    Hit(p, q, LineEnd(text, q))
  }

  function MatchHeader(text: string, key: string, p: nat): Option<Hit>
    requires p <= |text|
  {
    if AtLineStart(text, p) && OccursAt(text, key + ":", p) then
      Some(RestOfLine(text, p, p + |key| + 1))
    else None
  }

  /** The optional `S` is tried first; without it the colon must follow `FNG` directly. */
  function MatchFngHeader(text: string, p: nat): Option<Hit>
    requires p <= |text|
  {
    if AtLineStart(text, p) && OccursAtIgnoringCase(text, "FNG", p) then
      if OccursAtIgnoringCase(text, "S", p + 3) && OccursAt(text, ":", p + 4) then
        Some(RestOfLine(text, p, p + 5))
      else if OccursAt(text, ":", p + 3) then
        Some(RestOfLine(text, p, p + 4))
      else None
    else None
  }

  /** Whitespace after the label is consumed greedily; a digit cannot be whitespace, so
      giving some of it back never helps. */
  function MatchLabelledDate(text: string, shape: Shape, p: nat): Option<Hit>
    requires p <= |text|
  {
    if OccursAt(text, "DATE:", p) then
      var q := SkipSpaces(text, p + 5);
      if q + 10 <= |text| && FitsShape(text[q..q + 10], shape) then Some(Hit(p, q, q + 10))
      else None
    else None
  }

  function MatchBareIsoDate(text: string, p: nat): Option<Hit>
    requires p <= |text|
  {
    if p + 10 <= |text| && FitsShape(text[p..p + 10], IsoDashes) then Some(Hit(p, p, p + 10))
    else None
  }

  function MatchCountLine(text: string, p: nat): Option<Hit>
    requires p <= |text|
  {
    if AtLineStart(text, p) && OccursAt(text, "COUNT:", p) then Some(Hit(p, p, p)) else None
  }

  /** The rest of the `COUNT:` line is consumed, and a line break must follow it. */
  function MatchCountThenRest(text: string, p: nat): Option<Hit>
    requires p <= |text|
  {
    if AtLineStart(text, p) && OccursAt(text, "COUNT:", p) then
      var e := LineEnd(text, p + 6);
      if e < |text| then Some(Hit(p, e + 1, |text|)) else None
    else None
  }

  function MatchWarmupHeader(text: string, p: nat): Option<Hit>
    requires p <= |text|
  {
    if AtLineStart(text, p)
       && (OccursAt(text, "warm-up:", p)
           || (OccursAt(text, "warm", p) && OccursAt(text, "up:", SkipSpaces(text, p + 4))))
    then Some(Hit(p, p, p))
    else None
  }

  function MatchThangHeader(text: string, p: nat): Option<Hit>
    requires p <= |text|
  {
    if AtLineStart(text, p)
       && (OccursAt(text, "thang:", p)
           || (OccursAt(text, "the", p) && OccursAt(text, "thang:", SkipSpaces(text, p + 3))))
    then Some(Hit(p, p, p))
    else None
  }

  /** `w` occurs at `p` and a word boundary follows it. */
  predicate WordEndsAfter(text: string, w: string, p: nat) {
    OccursAt(text, w, p) && (p + |w| == |text| || !IsWordChar(text[p + |w|]))
  }

  /** A word boundary precedes `p` (the word itself starts with a letter). */
  predicate WordStartsAt(text: string, p: nat) {
    p == 0 || (p <= |text| && !IsWordChar(text[p - 1]))
  }

  function MatchRuckWord(text: string, p: nat): Option<Hit>
    requires p <= |text|
  {
    if WordStartsAt(text, p)
       && (WordEndsAfter(text, "ruck", p) || WordEndsAfter(text, "rucking", p)
           || (OccursAt(text, "ruck", p) && WordEndsAfter(text, "march", SkipSpaces(text, p + 4))))
    then Some(Hit(p, p, p))
    else None
  }

  /** A section header `NAME:` in any letter case at the start of a line; the index after the colon. */
  predicate SectionHeaderAt(text: string, name: string, p: nat) {
    AtLineStart(text, p) && OccursAtIgnoringCase(text, name, p) && OccursAt(text, ":", p + |name|)
  }

  /** After the colon, blanks are taken greedily and then at least one character of the
      line. If the line holds only blanks, the engine gives one blank back to the group,
      so the match succeeds with a one-blank group. */
  function MatchInlineSection(text: string, name: string, p: nat): Option<Hit>
    requires p <= |text|
  {
    if SectionHeaderAt(text, name, p) then
      var c := p + |name| + 1;
      var q := SkipBlanks(text, c);
      if q < |text| && text[q] != '\n' then Some(Hit(p, q, LineEnd(text, q)))
      else if q > c then Some(Hit(p, q - 1, q))
      else None
    else None
  }

  predicate IsHeaderChar(c: char) { IsLetter(c) || c == ' ' }

  /** The first index at or after `i` that is not a letter or space. */
  function HeaderRunEnd(text: string, i: nat): (j: nat)
    requires i <= |text|
    ensures i <= j <= |text|
    ensures forall k :: i <= k < j ==> IsHeaderChar(text[k])
    ensures j == |text| || !IsHeaderChar(text[j])
    decreases |text| - i
  {
    if i == |text| || !IsHeaderChar(text[i]) then i else HeaderRunEnd(text, i + 1)
  }

  /** A line that begins with one or more letters or spaces followed by a colon, in any
      letter case: where a multi-line section stops. */
  predicate HeaderLikeAt(text: string, e: nat) {
    AtLineStart(text, e) && e <= |text|
    && var r := HeaderRunEnd(text, e); e < r < |text| && text[r] == ':'
  }

  /** The smallest index at or after `g` that starts a header-like line, or the end. */
  function SectionEnd(text: string, g: nat): (e: nat)
    requires g <= |text|
    ensures g <= e <= |text|
    ensures e == |text| || HeaderLikeAt(text, e)
    ensures forall k :: g <= k < e ==> !HeaderLikeAt(text, k)
    decreases |text| - g
  {
    if g == |text| || HeaderLikeAt(text, g) then g else SectionEnd(text, g + 1)
  }

  function MatchBlockSection(text: string, name: string, p: nat): Option<Hit>
    requires p <= |text|
  {
    if SectionHeaderAt(text, name, p) then
      var q := SkipBlanks(text, p + |name| + 1);
      if q < |text| && text[q] == '\n' then Some(Hit(p, q + 1, SectionEnd(text, q + 1))) else None
    else None
  }

  /** Does `pat` match starting exactly at `p`? */
  function MatchAt(text: string, pat: Pattern, p: nat): (r: Option<Hit>)
    requires p <= |text|
    ensures r.Some? ==> r.value.start == p && p <= r.value.from <= r.value.to <= |text|
  {
    match pat
    case Header(key) => MatchHeader(text, key, p)
    case FngHeader => MatchFngHeader(text, p)
    case LabelledDate(shape) => MatchLabelledDate(text, shape, p)
    case BareIsoDate => MatchBareIsoDate(text, p)
    case CountLine => MatchCountLine(text, p)
    case CountThenRest => MatchCountThenRest(text, p)
    case WarmupHeader => MatchWarmupHeader(text, p)
    case ThangHeader => MatchThangHeader(text, p)
    case RuckWord => MatchRuckWord(text, p)
    case InlineSection(name) => MatchInlineSection(text, name, p)
    case BlockSection(name) => MatchBlockSection(text, name, p)
  }

  /** `re.search` from index `from`: the match with the smallest start index. */
  function Search(text: string, pat: Pattern, from: nat): (r: Option<Hit>)
    requires from <= |text|
    ensures r.Some? ==> from <= r.value.start <= |text| && MatchAt(text, pat, r.value.start) == r
    ensures r.Some? ==> forall q :: from <= q < r.value.start ==> MatchAt(text, pat, q).None?
    ensures r.None? ==> forall q :: from <= q <= |text| ==> MatchAt(text, pat, q).None?
    decreases |text| - from
  {
    var here := MatchAt(text, pat, from);
    if here.Some? then here
    else if from == |text| then None
    else Search(text, pat, from + 1)
  }

  function First(text: string, pat: Pattern): Option<Hit> {
    Search(text, pat, 0)
  }

  /** The text a hit captured. */
  function Group(text: string, h: Hit): string
    requires h.from <= h.to <= |text|
  {
    text[h.from..h.to]
  }

  /** A match with nothing matching before it is the one `re.search` reports. */
  lemma FirstIs(text: string, pat: Pattern, p: nat)
    requires p <= |text| && MatchAt(text, pat, p).Some?
    requires forall q :: 0 <= q < p ==> MatchAt(text, pat, q).None?
    ensures First(text, pat) == MatchAt(text, pat, p)
  {
  }

  /** `re.search` finds nothing when the pattern matches nowhere. */
  lemma FirstNone(text: string, pat: Pattern)
    requires forall q :: 0 <= q <= |text| ==> MatchAt(text, pat, q).None?
    ensures First(text, pat).None?
  {
  }

  /** `re.search` finds something exactly when the pattern matches somewhere. */
  lemma FirstFindsAny(text: string, pat: Pattern, p: nat)
    requires p <= |text| && MatchAt(text, pat, p).Some?
    ensures First(text, pat).Some? && First(text, pat).value.start <= p
  {
  }

  /** Appending text leaves `re.search`'s answer alone when the matches at every index of
      the original text are unchanged and nothing matches further on. */
  lemma FirstOfExtension(t: string, x: string, pat: Pattern)
    requires forall p :: 0 <= p <= |t| ==> MatchAt(t + x, pat, p) == MatchAt(t, pat, p)
    requires forall p :: |t| < p <= |t + x| ==> MatchAt(t + x, pat, p).None?
    ensures First(t + x, pat) == First(t, pat)
  {
    var r := First(t, pat);
    if r.Some? {
      FirstIs(t + x, pat, r.value.start);
    } else {
      var r' := First(t + x, pat);
      if r'.Some? {
        assert MatchAt(t + x, pat, r'.value.start).Some?;
      }
    }
  }

  /** Text whose last line cannot run on into a line appended after it: it is not empty and
      ends with a character that is neither whitespace nor a colon. */
  predicate EndsSettled(t: string) {
    |t| > 0 && !IsSpace(t[|t| - 1]) && t[|t| - 1] != ':'
  }

  /** A line break appended after `t` does not change what occurs at an index of `t`, for
      words without line breaks. */
  lemma OccursAtExtended(t: string, x: string, w: string, p: nat)
    requires |x| > 0 && x[0] == '\n' && '\n' !in w && p <= |t|
    ensures OccursAt(t + x, w, p) <==> OccursAt(t, w, p)
    ensures OccursAtIgnoringCase(t + x, w, p) <==> OccursAtIgnoringCase(t, w, p)
  {
    if p + |w| <= |t| {
      assert (t + x)[p..p + |w|] == t[p..p + |w|];
    } else if p + |w| <= |t + x| {
      assert (t + x)[p..p + |w|][|t| - p] == '\n';
      assert Lower((t + x)[p..p + |w|])[|t| - p] == '\n';
      assert w[|t| - p] != '\n';
      assert Lower(w)[|t| - p] != '\n';
    }
  }

  /** When `t` is settled, the rest of a header line that starts inside `t` is the same in
      `t` and in `t` followed by a new line. */
  lemma RestOfLineExtended(t: string, x: string, p: nat, k: nat)
    requires EndsSettled(t) && |x| > 0 && x[0] == '\n'
    requires p <= k < |t|
    ensures RestOfLine(t + x, p, k) == RestOfLine(t, p, k)
  {
    var s := t + x;
    var q := SkipSpaces(t, k);
    assert q < |t|;
    var q' := SkipSpaces(s, k);
    assert forall i :: k <= i < q ==> s[i] == t[i];
    assert s[q] == t[q];
    assert q' == q;
    var e := LineEnd(t, q);
    var e' := LineEnd(s, q);
    assert forall i :: q <= i < e ==> s[i] == t[i];
    assert s[e] == '\n' by {
      if e < |t| { assert s[e] == t[e]; } else { assert s[e] == x[0]; }
    }
    assert e' == e;
  }

  /** A capture that lies inside `t` reads the same after text is appended. */
  lemma GroupExtended(t: string, x: string, h: Hit)
    requires h.from <= h.to <= |t|
    ensures Group(t + x, h) == Group(t, h)
  {
    assert (t + x)[h.from..h.to] == t[h.from..h.to];
  }

  /** Header lines found in a settled text are found unchanged after a new line is appended. */
  lemma HeaderExtended(t: string, x: string, key: string, p: nat)
    requires EndsSettled(t) && |x| > 0 && x[0] == '\n' && '\n' !in key && p <= |t|
    ensures MatchAt(t + x, Header(key), p) == MatchAt(t, Header(key), p)
  {
    var s := t + x;
    assert AtLineStart(s, p) <==> AtLineStart(t, p) by {
      if p > 0 { assert s[p - 1] == t[p - 1]; }
    }
    OccursAtExtended(t, x, key + ":", p);
    if AtLineStart(t, p) && OccursAt(t, key + ":", p) {
      var c := p + |key| + 1;
      assert t[c - 1] == (key + ":")[|key|] == ':';
      RestOfLineExtended(t, x, p, c);
    }
  }

  /** The same for the first-timer header. */
  lemma FngHeaderExtended(t: string, x: string, p: nat)
    requires EndsSettled(t) && |x| > 0 && x[0] == '\n' && p <= |t|
    ensures MatchAt(t + x, FngHeader, p) == MatchAt(t, FngHeader, p)
  {
    var s := t + x;
    assert AtLineStart(s, p) <==> AtLineStart(t, p) by {
      if p > 0 { assert s[p - 1] == t[p - 1]; }
    }
    OccursAtExtended(t, x, "FNG", p);
    if AtLineStart(t, p) && OccursAtIgnoringCase(t, "FNG", p) {
      FngSuffixExtended(t, x, p);
    }
  }

  /** What follows `FNG` is read the same way in a settled text and after an appended line. */
  lemma FngSuffixExtended(t: string, x: string, p: nat)
    requires EndsSettled(t) && |x| > 0 && x[0] == '\n' && p + 3 <= |t|
    ensures (OccursAtIgnoringCase(t + x, "S", p + 3) && OccursAt(t + x, ":", p + 4))
        <==> (OccursAtIgnoringCase(t, "S", p + 3) && OccursAt(t, ":", p + 4))
    ensures OccursAt(t + x, ":", p + 3) <==> OccursAt(t, ":", p + 3)
    ensures OccursAtIgnoringCase(t, "S", p + 3) && OccursAt(t, ":", p + 4) ==>
      RestOfLine(t + x, p, p + 5) == RestOfLine(t, p, p + 5)
    ensures OccursAt(t, ":", p + 3) ==> RestOfLine(t + x, p, p + 4) == RestOfLine(t, p, p + 4)
  {
    FngPluralExtended(t, x, p);
    FngSingularExtended(t, x, p);
  }

  lemma FngPluralExtended(t: string, x: string, p: nat)
    requires EndsSettled(t) && |x| > 0 && x[0] == '\n' && p + 3 <= |t|
    ensures (OccursAtIgnoringCase(t + x, "S", p + 3) && OccursAt(t + x, ":", p + 4))
        <==> (OccursAtIgnoringCase(t, "S", p + 3) && OccursAt(t, ":", p + 4))
    ensures OccursAtIgnoringCase(t, "S", p + 3) && OccursAt(t, ":", p + 4) ==>
      RestOfLine(t + x, p, p + 5) == RestOfLine(t, p, p + 5)
  {
    OccursAtExtended(t, x, "S", p + 3);
    if OccursAtIgnoringCase(t, "S", p + 3) {
      OccursAtExtended(t, x, ":", p + 4);
      if OccursAt(t, ":", p + 4) {
        assert t[p + 4] == ':';
        RestOfLineExtended(t, x, p, p + 5);
      }
    }
  }

  lemma FngSingularExtended(t: string, x: string, p: nat)
    requires EndsSettled(t) && |x| > 0 && x[0] == '\n' && p + 3 <= |t|
    ensures OccursAt(t + x, ":", p + 3) <==> OccursAt(t, ":", p + 3)
    ensures OccursAt(t, ":", p + 3) ==> RestOfLine(t + x, p, p + 4) == RestOfLine(t, p, p + 4)
  {
    OccursAtExtended(t, x, ":", p + 3);
    if OccursAt(t, ":", p + 3) {
      assert t[p + 3] == ':';
      RestOfLineExtended(t, x, p, p + 4);
    }
  }

  /** Appending a new line keeps a line from becoming a `COUNT:` line. */
  lemma CountLineExtended(t: string, x: string, p: nat)
    requires |x| > 0 && x[0] == '\n' && p <= |t|
    requires MatchAt(t, CountLine, p).None?
    ensures MatchAt(t + x, CountLine, p).None? && MatchAt(t + x, CountThenRest, p).None?
  {
    OccursAtExtended(t, x, "COUNT:", p);
    if 0 < p { assert (t + x)[p - 1] == t[p - 1]; }
  }

  /** The capture "optional whitespace, then the rest of the line" is exactly `v` when `v`
      starts with a non-space character and fills the line from `k` to its end. */
  lemma RestOfLineIs(text: string, p: nat, k: nat, v: string)
    requires p <= k && k + |v| <= |text| && text[k..k + |v|] == v
    requires v != [] && !IsSpace(v[0]) && '\n' !in v
    requires k + |v| == |text| || text[k + |v|] == '\n'
    ensures RestOfLine(text, p, k) == Hit(p, k, k + |v|)
  {
    assert text[k] == v[0];
    forall i | k <= i < k + |v| ensures text[i] != '\n' {
      assert text[i] == v[i - k];
    }
    LineEndIs(text, k, k + |v|);
  }

  /** Where a line `f + v` placed after `t` sits in the text. */
  lemma LineAt(t: string, f: string, v: string, rest: string)
    ensures |t| + 1 + |f| + |v| < |t + "\n" + (f + v) + "\n" + rest|
    ensures AtLineStart(t + "\n" + (f + v) + "\n" + rest, |t| + 1)
    ensures (t + "\n" + (f + v) + "\n" + rest)[|t| + 1..|t| + 1 + |f|] == f
    ensures (t + "\n" + (f + v) + "\n" + rest)[|t| + 1 + |f|..|t| + 1 + |f| + |v|] == v
    ensures (t + "\n" + (f + v) + "\n" + rest)[|t| + 1 + |f| + |v|] == '\n'
    ensures t + "\n" + (f + v) + "\n" + rest == t + ("\n" + (f + v) + "\n" + rest)
  {
    var line := f + v;
    var text := t + "\n" + line + "\n" + rest;
    var h := |t| + 1;
    assert text[|t|] == '\n';
    assert text[h..h + |line|] == line;
    assert text[h..h + |f|] == line[..|f|];
    assert text[h + |f|..h + |line|] == line[|f|..];
    assert text == t + ("\n" + line + "\n" + rest);
  }

  /** A new line appended after `t` does not turn a line of `t` into a first-timer header,
      nor stop one from being one. */
  lemma FngStartExtended(t: string, x: string, p: nat)
    requires |x| > 0 && x[0] == '\n' && p <= |t|
    ensures AtLineStart(t + x, p) <==> AtLineStart(t, p)
    ensures OccursAtIgnoringCase(t + x, "FNG", p) <==> OccursAtIgnoringCase(t, "FNG", p)
    ensures p + 3 <= |t| ==> (OccursAtIgnoringCase(t + x, "S", p + 3) <==> OccursAtIgnoringCase(t, "S", p + 3))
    ensures p + 3 <= |t| ==> (OccursAt(t + x, ":", p + 3) <==> OccursAt(t, ":", p + 3))
    ensures p + 4 <= |t| ==> (OccursAt(t + x, ":", p + 4) <==> OccursAt(t, ":", p + 4))
  {
    if p > 0 { assert (t + x)[p - 1] == t[p - 1]; }
    OccursAtExtended(t, x, "FNG", p);
    if p + 3 <= |t| {
      OccursAtExtended(t, x, "S", p + 3);
      OccursAtExtended(t, x, ":", p + 3);
    }
    if p + 4 <= |t| {
      OccursAtExtended(t, x, ":", p + 4);
    }
  }

  /** A new line appended after `t` gives no one-line section match at an index of `t`
      that `t` alone does not give. */
  lemma InlineSectionExtended(t: string, x: string, name: string, p: nat)
    requires |x| > 0 && x[0] == '\n' && '\n' !in name && p <= |t|
    requires MatchAt(t, InlineSection(name), p).None?
    ensures MatchAt(t + x, InlineSection(name), p).None?
  {
    SectionHeaderExtended(t, x, name, p);
    if SectionHeaderAt(t, name, p) {
      SkipBlanksExtended(t, x, p + |name| + 1);
    }
  }

  lemma SectionHeaderExtended(t: string, x: string, name: string, p: nat)
    requires |x| > 0 && x[0] == '\n' && '\n' !in name && p <= |t|
    ensures SectionHeaderAt(t + x, name, p) <==> SectionHeaderAt(t, name, p)
    ensures SectionHeaderAt(t, name, p) ==> p + |name| + 1 <= |t|
  {
    if p > 0 { assert (t + x)[p - 1] == t[p - 1]; }
    OccursAtExtended(t, x, name, p);
    if p + |name| <= |t| {
      OccursAtExtended(t, x, ":", p + |name|);
    }
  }

  /** Blanks skipped from an index of `t` stop where they stop in `t`: the appended text
      starts with a line break. */
  lemma SkipBlanksExtended(t: string, x: string, c: nat)
    requires |x| > 0 && x[0] == '\n' && c <= |t|
    ensures SkipBlanks(t + x, c) == SkipBlanks(t, c)
    ensures SkipBlanks(t, c) < |t| ==> (t + x)[SkipBlanks(t, c)] == t[SkipBlanks(t, c)]
    ensures SkipBlanks(t, c) == |t| ==> (t + x)[SkipBlanks(t, c)] == '\n'
  {
    var s := t + x;
    var q := SkipBlanks(t, c);
    forall k | c <= k < q ensures IsBlank(s[k]) { assert s[k] == t[k]; }
    if q < |t| { assert s[q] == t[q]; } else { assert s[q] == x[0]; }
  }

  /** `SkipBlanks` stops at the first index that is not a space or tab. */
  lemma {:induction false} SkipBlanksIs(s: string, i: nat, j: nat)
    requires i <= j <= |s| && (j == |s| || !IsBlank(s[j]))
    requires forall k :: i <= k < j ==> IsBlank(s[k])
    ensures SkipBlanks(s, i) == j
    decreases j - i
  {
    if i < j { SkipBlanksIs(s, i + 1, j); }
  }

  /** The capture "optional whitespace, then the rest of the line" of a line whose text `v`
      holds something besides whitespace is `v` once stripped, whatever whitespace comes
      first. */
  lemma RestOfLinePadded(text: string, p: nat, k: nat, v: string)
    requires p <= k && k + |v| <= |text| && text[k..k + |v|] == v
    requires !AllSpace(v) && '\n' !in v
    requires k + |v| == |text| || text[k + |v|] == '\n'
    ensures RestOfLine(text, p, k).to == k + |v|
    ensures Strip(Group(text, RestOfLine(text, p, k))) == Strip(v)
  {
    var j := RestOfLineSkips(text, p, k, v);
    StripSuffix(v, j);
  }

  lemma RestOfLineSkips(text: string, p: nat, k: nat, v: string) returns (j: nat)
    requires p <= k && k + |v| <= |text| && text[k..k + |v|] == v
    requires !AllSpace(v) && '\n' !in v
    requires k + |v| == |text| || text[k + |v|] == '\n'
    ensures j < |v| && forall i :: 0 <= i < j ==> IsSpace(v[i])
    ensures RestOfLine(text, p, k) == Hit(p, k + j, k + |v|)
    ensures Group(text, RestOfLine(text, p, k)) == v[j..]
  {
    j := SkipSpaces(v, 0);
    forall i | k <= i < k + j ensures IsSpace(text[i]) { assert text[i] == v[i - k]; }
    assert text[k + j] == v[j];
    SkipSpacesIs(text, k, k + j);
    assert text[k + j..k + |v|] == v[j..];
    RestOfLineIs(text, p, k + j, v[j..]);
  }

  /** After a section header, a non-empty line gives the one-line match, whose capture is the
      line once stripped; a line of blanks only gives a one-blank capture, which strips to
      nothing as well. */
  lemma InlineMatchIs(text: string, name: string, p: nat, line: string) returns (hit: Hit)
    requires SectionHeaderAt(text, name, p)
    requires p + |name| + 1 + |line| <= |text| && text[p + |name| + 1..p + |name| + 1 + |line|] == line
    requires line != [] && '\n' !in line
    requires p + |name| + 1 + |line| == |text| || text[p + |name| + 1 + |line|] == '\n'
    ensures MatchInlineSection(text, name, p) == Some(hit)
    ensures hit.from <= hit.to <= |text| && Strip(Group(text, hit)) == Strip(line)
  {
    if SkipBlanks(line, 0) < |line| {
      hit := InlineMatchText(text, name, p, line);
    } else {
      hit := InlineMatchBlank(text, name, p, line);
    }
  }

  lemma InlineMatchText(text: string, name: string, p: nat, line: string) returns (hit: Hit)
    requires SectionHeaderAt(text, name, p)
    requires p + |name| + 1 + |line| <= |text| && text[p + |name| + 1..p + |name| + 1 + |line|] == line
    requires '\n' !in line && SkipBlanks(line, 0) < |line|
    requires p + |name| + 1 + |line| == |text| || text[p + |name| + 1 + |line|] == '\n'
    ensures MatchInlineSection(text, name, p) == Some(hit)
    ensures hit.from <= hit.to <= |text| && Strip(Group(text, hit)) == Strip(line)
  {
    var c := p + |name| + 1;
    var e := c + |line|;
    var j := SkipBlanks(line, 0);
    forall i | c <= i < c + j ensures IsBlank(text[i]) { assert text[i] == line[i - c]; }
    assert text[c + j] == line[j];
    SkipBlanksIs(text, c, c + j);
    forall i | c + j <= i < e ensures text[i] != '\n' { assert text[i] == line[i - c]; }
    LineEndIs(text, c + j, e);
    hit := Hit(p, c + j, e);
    InlineMatchAt(text, name, p, c + j, e);
    assert Group(text, hit) == line[j..];
    StripSuffix(line, j);
  }

  lemma InlineMatchAt(text: string, name: string, p: nat, q: nat, e: nat)
    requires SectionHeaderAt(text, name, p) && p + |name| + 1 <= |text|
    requires SkipBlanks(text, p + |name| + 1) == q && q < |text| && text[q] != '\n'
    requires LineEnd(text, q) == e
    ensures MatchInlineSection(text, name, p) == Some(Hit(p, q, e))
  {
  }

  lemma InlineMatchBlank(text: string, name: string, p: nat, line: string) returns (hit: Hit)
    requires SectionHeaderAt(text, name, p)
    requires p + |name| + 1 + |line| <= |text| && text[p + |name| + 1..p + |name| + 1 + |line|] == line
    requires line != [] && SkipBlanks(line, 0) == |line|
    requires p + |name| + 1 + |line| == |text| || text[p + |name| + 1 + |line|] == '\n'
    ensures MatchInlineSection(text, name, p) == Some(hit)
    ensures hit.from <= hit.to <= |text| && Strip(Group(text, hit)) == Strip(line)
  {
    var c := p + |name| + 1;
    var e := c + |line|;
    forall i | c <= i < e ensures IsBlank(text[i]) { assert text[i] == line[i - c]; }
    SkipBlanksIs(text, c, e);
    hit := Hit(p, e - 1, e);
    assert Group(text, hit) == [text[e - 1]];
    assert AllSpace(Group(text, hit));
    assert AllSpace(line);
  }
}
