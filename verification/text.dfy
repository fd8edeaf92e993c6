/** Character classes and the Python string primitives the parser is built on:
    `strip`, `lower`, `in` (substring), `split(sep)`, `split()`, `replace`, and the
    `\s+` -> `' '` rewrite. Strings are `seq<char>`. */
module Text {

  /** Python's `str.isspace()`: the set used by `str.strip()`, `str.split()` and by `\s`
      in a `str` regular expression. */
  predicate IsSpace(c: char) {
    var n := c as int;
    (9 <= n <= 13) || (28 <= n <= 32) || n == 0x85 || n == 0xA0 || n == 0x1680
    || (0x2000 <= n <= 0x200A) || n == 0x2028 || n == 0x2029 || n == 0x202F
    || n == 0x205F || n == 0x3000
  }

  predicate IsDigit(c: char) { '0' <= c <= '9' }

  predicate IsUpperAlnum(c: char) { 'A' <= c <= 'Z' || '0' <= c <= '9' }

  predicate IsLetter(c: char) { 'A' <= c <= 'Z' || 'a' <= c <= 'z' }

  /** Characters `\w` treats as part of a word (ASCII letters, digits, underscore). */
  predicate IsWordChar(c: char) { IsLetter(c) || IsDigit(c) || c == '_' }

  function LowerChar(c: char): char {
    if 'A' <= c <= 'Z' then (c as int + 32) as char else c
  }

  /** `str.lower()` on ASCII letters; every other character is kept. */
  function Lower(s: string): (r: string)
    ensures |r| == |s|
    ensures forall i :: 0 <= i < |s| ==> r[i] == LowerChar(s[i])
  {
    seq(|s|, i requires 0 <= i < |s| => LowerChar(s[i]))
  }

  /** Two characters that are equal, or the same ASCII letter in different case. */
  predicate SameIgnoringCase(c: char, d: char) {
    c == d || ('A' <= c <= 'Z' && d as int == c as int + 32) || ('A' <= d <= 'Z' && c as int == d as int + 32)
  }

  /** Lower-casing equates exactly the texts that agree letter by letter up to case. */
  lemma LowerEquates(a: string, b: string)
    ensures Lower(a) == Lower(b) <==> |a| == |b| && forall i :: 0 <= i < |a| ==> SameIgnoringCase(a[i], b[i])
  {
    if |a| == |b| && forall i :: 0 <= i < |a| ==> SameIgnoringCase(a[i], b[i]) {
      forall i | 0 <= i < |a| ensures Lower(a)[i] == Lower(b)[i] {
        assert SameIgnoringCase(a[i], b[i]);
      }
    }
    if Lower(a) == Lower(b) {
      forall i | 0 <= i < |a| ensures SameIgnoringCase(a[i], b[i]) {
        assert LowerChar(a[i]) == Lower(a)[i] == Lower(b)[i] == LowerChar(b[i]);
      }
    }
  }

  /** Lower-casing works character by character: it distributes over concatenation. */
  lemma LowerConcat(a: string, b: string)
    ensures Lower(a + b) == Lower(a) + Lower(b)
  {
    forall i | 0 <= i < |a + b| ensures Lower(a + b)[i] == (Lower(a) + Lower(b))[i] {
      if i < |a| { assert (a + b)[i] == a[i]; } else { assert (a + b)[i] == b[i - |a|]; }
    }
  }

  /** Lower-cased text has no upper-case letter left, so lower-casing it again changes
      nothing. */
  lemma LowerIdempotent(s: string)
    ensures forall i :: 0 <= i < |s| ==> !('A' <= Lower(s)[i] <= 'Z')
    ensures Lower(Lower(s)) == Lower(s)
  {
    forall i | 0 <= i < |s| ensures Lower(Lower(s))[i] == Lower(s)[i] {
      assert !('A' <= Lower(s)[i] <= 'Z');
    }
  }

  ghost predicate AllSpace(s: string) {
    forall i :: 0 <= i < |s| ==> IsSpace(s[i])
  }

  /** No whitespace at either end: what `strip()` returns. */
  predicate IsStripped(s: string) {
    s == [] || (!IsSpace(s[0]) && !IsSpace(s[|s| - 1]))
  }

  predicate StartsWith(s: string, prefix: string) {
    |prefix| <= |s| && s[..|prefix|] == prefix
  }

  /** `w` occurs in `s` at index `i`. */
  predicate OccursAt(s: string, w: string, i: nat) {
    i + |w| <= |s| && s[i..i + |w|] == w
  }

  ghost predicate Occurs(s: string, w: string) {
    exists i: nat :: OccursAt(s, w, i)
  }

  /** The first index at or after `i` that is not whitespace (or `|s|`). */
  function SkipSpaces(s: string, i: nat): (j: nat)
    requires i <= |s|
    ensures i <= j <= |s|
    ensures forall k :: i <= k < j ==> IsSpace(s[k])
    ensures j == |s| || !IsSpace(s[j])
    decreases |s| - i
  {
    if i == |s| || !IsSpace(s[i]) then i else SkipSpaces(s, i + 1)
  }

  /** The end of `s[lo..hi]` once trailing whitespace is removed. */
  function TrimEnd(s: string, lo: nat, hi: nat): (j: nat)
    requires lo <= hi <= |s|
    ensures lo <= j <= hi
    ensures forall k :: j <= k < hi ==> IsSpace(s[k])
    ensures j == lo || !IsSpace(s[j - 1])
    decreases hi
  {
    if hi == lo || !IsSpace(s[hi - 1]) then hi else TrimEnd(s, lo, hi - 1)
  }

  /** `str.strip()`: the one stripped slice of `s` that only whitespace surrounds. */
  function Strip(s: string): (r: string)
    ensures IsStripped(r)
    ensures |r| <= |s|
    ensures r == [] <==> AllSpace(s)
    ensures exists i: nat :: i + |r| <= |s| && s[i..i + |r|] == r
                             && AllSpace(s[..i]) && AllSpace(s[i + |r|..])
  {
    var i := SkipSpaces(s, 0);
    var j := TrimEnd(s, i, |s|);
    assert AllSpace(s[..i]) && AllSpace(s[j..]);
    assert i < j ==> !IsSpace(s[i]);
    assert AllSpace(s) ==> i == |s|;
    s[i..j]
  }

  /** Whitespace-only padding around a stripped string is exactly what `strip` removes. */
  lemma StripPadded(a: string, r: string, b: string)
    requires AllSpace(a) && AllSpace(b) && IsStripped(r)
    ensures Strip(a + r + b) == r
  {
    var s := a + r + b;
    if r == [] {
      assert s == a + b;
      assert AllSpace(s) by {
        forall k | 0 <= k < |s| ensures IsSpace(s[k]) {
          if k < |a| { assert s[k] == a[k]; } else { assert s[k] == b[k - |a|]; }
        }
      }
    } else {
      assert s[|a|] == r[0];
      assert s[|a| + |r| - 1] == r[|r| - 1];
      assert forall k :: 0 <= k < |a| ==> s[k] == a[k];
      assert forall k :: |a| + |r| <= k < |s| ==> s[k] == b[k - |a| - |r|];
      var i := SkipSpaces(s, 0);
      assert i == |a|;
      var j := TrimEnd(s, i, |s|);
      assert j == |a| + |r|;
      assert s[i..j] == r;
    }
  }

  lemma StripStripped(r: string)
    requires IsStripped(r)
    ensures Strip(r) == r
  {
    StripPadded([], r, []);
    assert [] + r + [] == r;
  }

  /** `w in s` for strings: substring search, scanning left to right. */
  function Contains(s: string, w: string): (r: bool)
    ensures r <==> Occurs(s, w)
    decreases |s|
  {
    if StartsWith(s, w) then
      assert OccursAt(s, w, 0);
      true
    else if |s| == 0 then
      assert forall i: nat :: !OccursAt(s, w, i);
      false
    else
      var r := Contains(s[1..], w);
      assert r ==> Occurs(s, w) by {
        if r {
          var i: nat :| OccursAt(s[1..], w, i);
          assert s[i + 1..i + 1 + |w|] == s[1..][i..i + |w|];
          assert OccursAt(s, w, i + 1);
        }
      }
      assert Occurs(s, w) ==> r by {
        if Occurs(s, w) {
          var i: nat :| OccursAt(s, w, i);
          assert |w| <= |s| ==> s[..|w|] == s[0..|w|];
          assert i != 0;
          assert s[1..][i - 1..i - 1 + |w|] == s[i..i + |w|];
          assert OccursAt(s[1..], w, i - 1);
        }
      }
      r
  }

  /** Substring is transitive: an occurrence of an occurrence is an occurrence. */
  lemma {:induction false} OccursTransitive(a: string, b: string, c: string)
    requires Occurs(a, b) && Occurs(b, c)
    ensures Occurs(a, c)
  {
    var i: nat :| OccursAt(a, b, i);
    var j: nat :| OccursAt(b, c, j);
    forall k | 0 <= k < |c| ensures a[i + j + k] == c[k] {
      assert c[k] == b[j..j + |c|][k] == b[j + k];
      assert b[j + k] == a[i..i + |b|][j + k] == a[i + j + k];
    }
    assert a[i + j..i + j + |c|] == c;
    assert OccursAt(a, c, i + j);
  }

  /** Python's `sep.join(parts)` for a one-character separator. */
  function Join(parts: seq<string>, sep: char): string
    decreases |parts|
  {
    if |parts| == 0 then []
    else if |parts| == 1 then parts[0]
    else parts[0] + [sep] + Join(parts[1..], sep)
  }

  /** Index of the first `c` in `s`, or `|s|` when there is none. */
  function IndexOf(s: string, c: char): (i: nat)
    ensures i <= |s|
    ensures i < |s| ==> s[i] == c
    ensures forall k :: 0 <= k < i ==> s[k] != c
    decreases |s|
  {
    if |s| == 0 then 0
    else if s[0] == c then 0
    else 1 + IndexOf(s[1..], c)
  }

  /** `s.split(sep)`: the pieces between separators; joining them back gives `s`. */
  function Split(s: string, sep: char): (parts: seq<string>)
    ensures |parts| >= 1
    ensures forall k :: 0 <= k < |parts| ==> sep !in parts[k]
    ensures Join(parts, sep) == s
    decreases |s|
  {
    var i := IndexOf(s, sep);
    if i == |s| then
      assert sep !in s;
      [s]
    else
      var rest := Split(s[i + 1..], sep);
      assert sep !in s[..i];
      assert s == s[..i] + [sep] + s[i + 1..];
      [s[..i]] + rest
  }

  /** Splitting a join whose pieces contain no separator gives the pieces back. */
  lemma {:induction false} SplitJoin(parts: seq<string>, sep: char)
    requires |parts| >= 1
    requires forall k :: 0 <= k < |parts| ==> sep !in parts[k]
    ensures Split(Join(parts, sep), sep) == parts
    decreases |parts|
  {
    var s := Join(parts, sep);
    if |parts| == 1 {
      assert IndexOf(s, sep) == |s|;
    } else {
      var p := parts[0];
      var tail := Join(parts[1..], sep);
      assert s == p + [sep] + tail;
      assert s[|p|] == sep;
      assert forall k :: 0 <= k < |p| ==> s[k] == p[k];
      assert IndexOf(s, sep) == |p|;
      assert s[..|p|] == p;
      assert s[|p| + 1..] == tail;
      SplitJoin(parts[1..], sep);
      assert parts == [p] + parts[1..];
    }
  }

  /** A join with a non-whitespace separator of single-spaced pieces is single-spaced. */
  ghost predicate SingleSpaced(s: string) {
    forall k :: 0 <= k < |s| && IsSpace(s[k]) ==> s[k] == ' ' && (k + 1 < |s| ==> !IsSpace(s[k + 1]))
  }

  /** `re.sub(r'\s+', ' ', s)`: every maximal whitespace run becomes one space. */
  function CollapseSpaces(s: string): (r: string)
    ensures SingleSpaced(r)
    ensures |r| == 0 <==> |s| == 0
    ensures |r| > 0 ==> (IsSpace(r[0]) <==> IsSpace(s[0]))
    ensures |r| > 0 && !IsSpace(s[0]) ==> r[0] == s[0]
    decreases |s|
  {
    if |s| == 0 then []
    else if IsSpace(s[0]) then
      var j := SkipSpaces(s, 0);
      var rest := CollapseSpaces(s[j..]);
      assert |rest| > 0 ==> !IsSpace(rest[0]);
      [' '] + rest
    else
      [s[0]] + CollapseSpaces(s[1..])
  }

  /** Already single-spaced text is left alone. */
  lemma {:induction false} CollapseSingleSpaced(s: string)
    requires SingleSpaced(s)
    ensures CollapseSpaces(s) == s
    decreases |s|
  {
    if |s| == 0 {
    } else if IsSpace(s[0]) {
      assert s[0] == ' ';
      assert SkipSpaces(s, 0) == 1;
      assert SingleSpaced(s[1..]) by {
        forall k | 0 <= k < |s[1..]| && IsSpace(s[1..][k])
          ensures s[1..][k] == ' ' && (k + 1 < |s[1..]| ==> !IsSpace(s[1..][k + 1]))
        {
          assert s[1..][k] == s[k + 1];
        }
      }
      CollapseSingleSpaced(s[1..]);
    } else {
      assert SingleSpaced(s[1..]) by {
        forall k | 0 <= k < |s[1..]| && IsSpace(s[1..][k])
          ensures s[1..][k] == ' ' && (k + 1 < |s[1..]| ==> !IsSpace(s[1..][k + 1]))
        {
          assert s[1..][k] == s[k + 1];
        }
      }
      CollapseSingleSpaced(s[1..]);
    }
  }

  lemma CollapseIdempotent(s: string)
    ensures CollapseSpaces(CollapseSpaces(s)) == CollapseSpaces(s)
  {
    CollapseSingleSpaced(CollapseSpaces(s));
  }

  /** `s.replace(pat, rep)`: non-overlapping occurrences, left to right. */
  function ReplaceAll(s: string, pat: string, rep: string): (r: string)
    requires |pat| > 0
    ensures |pat| == |rep| ==> |r| == |s|
    ensures forall c :: c in r ==> c in s || c in rep
    decreases |s|
  {
    if |s| == 0 then []
    else if StartsWith(s, pat) then rep + ReplaceAll(s[|pat|..], pat, rep)
    else [s[0]] + ReplaceAll(s[1..], pat, rep)
  }

  /** With no occurrence of the pattern, `replace` changes nothing. */
  lemma {:induction false} ReplaceAbsent(s: string, pat: string, rep: string)
    requires |pat| > 0 && !Occurs(s, pat)
    ensures ReplaceAll(s, pat, rep) == s
    decreases |s|
  {
    if |s| > 0 {
      if StartsWith(s, pat) { assert OccursAt(s, pat, 0); }
      assert !Occurs(s[1..], pat) by {
        if Occurs(s[1..], pat) {
          var i: nat :| OccursAt(s[1..], pat, i);
          assert s[i + 1..i + 1 + |pat|] == s[1..][i..i + |pat|];
          assert OccursAt(s, pat, i + 1);
        }
      }
      ReplaceAbsent(s[1..], pat, rep);
    }
  }

  /** An occurrence of a separator-free word in `a + [sep] + b` lies wholly in `a` or in `b`. */
  lemma OccursAcrossSeparator(a: string, sep: char, b: string, w: string)
    requires sep !in w && |w| > 0
    requires !Occurs(a, w) && !Occurs(b, w)
    ensures !Occurs(a + [sep] + b, w)
  {
    var s := a + [sep] + b;
    forall i: nat ensures !OccursAt(s, w, i) {
      if i + |w| <= |a| {
        assert i + |w| <= |s| && a[i..i + |w|] == s[i..i + |w|];
        assert !OccursAt(a, w, i);
      } else if i > |a| {
        if i + |w| <= |s| {
          assert b[i - |a| - 1..i - |a| - 1 + |w|] == s[i..i + |w|];
          assert !OccursAt(b, w, i - |a| - 1);
        }
      } else if i + |w| <= |s| {
        assert s[i..i + |w|][|a| - i] == sep;
      }
    }
  }

  /** A word whose first character never appears in `s` does not occur in it. */
  lemma AbsentHead(s: string, w: string)
    requires |w| > 0 && w[0] !in s
    ensures !Occurs(s, w)
  {
    forall i: nat ensures !OccursAt(s, w, i) {
      if i + |w| <= |s| {
        assert s[i..i + |w|][0] == s[i];
      }
    }
  }

  lemma JoinCons(p: string, rest: seq<string>, sep: char)
    requires |rest| >= 1
    ensures Join([p] + rest, sep) == p + [sep] + Join(rest, sep)
  {
    assert ([p] + rest)[1..] == rest;
  }

  /** A join of non-empty parts starts with the first part's first character and ends
      with the last part's last character. */
  lemma {:induction false} JoinEnds(parts: seq<string>, sep: char)
    requires |parts| >= 1 && forall k :: 0 <= k < |parts| ==> parts[k] != []
    ensures |Join(parts, sep)| > 0
    ensures Join(parts, sep)[0] == parts[0][0]
    ensures Join(parts, sep)[|Join(parts, sep)| - 1] == parts[|parts| - 1][|parts[|parts| - 1]| - 1]
    decreases |parts|
  {
    if |parts| > 1 {
      JoinEnds(parts[1..], sep);
    }
  }

  /** Gluing two single-spaced texts with a separator keeps them single-spaced, provided a
      space separator lands between two non-space characters. */
  lemma SingleSpacedGlue(a: string, sep: char, b: string)
    requires SingleSpaced(a) && SingleSpaced(b)
    requires !IsSpace(sep) || (sep == ' ' && |b| > 0 && !IsSpace(b[0]) && (|a| == 0 || !IsSpace(a[|a| - 1])))
    ensures SingleSpaced(a + [sep] + b)
  {
    var s := a + [sep] + b;
    forall k | 0 <= k < |s| && IsSpace(s[k]) ensures s[k] == ' ' && (k + 1 < |s| ==> !IsSpace(s[k + 1])) {
      if k < |a| {
        assert s[k] == a[k];
        if k + 1 < |a| { assert s[k + 1] == a[k + 1]; } else { assert s[k + 1] == sep; }
      } else if k == |a| {
        assert s[k] == sep;
        if k + 1 < |s| { assert s[k + 1] == b[0]; }
      } else {
        assert s[k] == b[k - |a| - 1];
        if k + 1 < |s| { assert s[k + 1] == b[k - |a|]; }
      }
    }
  }

  /** Single-spaced parts joined by a non-space separator, or by a space between stripped
      non-empty parts, give single-spaced text. */
  lemma {:induction false} JoinSingleSpaced(parts: seq<string>, sep: char)
    requires forall k :: 0 <= k < |parts| ==> SingleSpaced(parts[k])
    requires !IsSpace(sep) || (sep == ' ' && forall k :: 0 <= k < |parts| ==> parts[k] != [] && IsStripped(parts[k]))
    ensures SingleSpaced(Join(parts, sep))
    decreases |parts|
  {
    if |parts| > 1 {
      var p, rest := parts[0], parts[1..];
      JoinSingleSpaced(rest, sep);
      JoinCons(p, rest, sep);
      assert parts == [p] + rest;
      if IsSpace(sep) { JoinEnds(rest, sep); }
      SingleSpacedGlue(p, sep, Join(rest, sep));
    }
  }

  /** A separator-free word that occurs in none of the parts does not occur in their join. */
  lemma {:induction false} JoinAvoids(parts: seq<string>, sep: char, w: string)
    requires sep !in w && |w| > 0
    requires forall k :: 0 <= k < |parts| ==> !Occurs(parts[k], w)
    ensures !Occurs(Join(parts, sep), w)
    decreases |parts|
  {
    if |parts| == 0 {
      assert forall i: nat :: !OccursAt(Join(parts, sep), w, i);
    } else if |parts| > 1 {
      JoinAvoids(parts[1..], sep, w);
      OccursAcrossSeparator(parts[0], sep, Join(parts[1..], sep), w);
    }
  }

  /** `replace` passes over a prefix in which the pattern cannot start. */
  lemma {:induction false} ReplacePrefix(p: string, y: string, pat: string, rep: string)
    requires |pat| > 0 && pat[0] !in p
    ensures ReplaceAll(p + y, pat, rep) == p + ReplaceAll(y, pat, rep)
    decreases |p|
  {
    if |p| > 0 {
      assert (p + y)[0] == p[0];
      assert !StartsWith(p + y, pat) by {
        if |pat| <= |p + y| { assert (p + y)[..|pat|][0] == p[0]; }
      }
      assert (p + y)[1..] == p[1..] + y;
      ReplacePrefix(p[1..], y, pat, rep);
      assert p == [p[0]] + p[1..];
    } else {
      assert p + y == y;
    }
  }

  /** `replace` rewrites an occurrence at the very start and carries on after it. */
  lemma ReplaceAtPattern(pat: string, z: string, rep: string)
    requires |pat| > 0
    ensures ReplaceAll(pat + z, pat, rep) == rep + ReplaceAll(z, pat, rep)
  {
    assert (pat + z)[..|pat|] == pat;
    assert (pat + z)[|pat|..] == z;
  }

  /** Index just past the run of non-whitespace starting at `i`. */
  function WordEnd(s: string, i: nat): (j: nat)
    requires i <= |s|
    ensures i <= j <= |s|
    ensures forall k :: i <= k < j ==> !IsSpace(s[k])
    ensures j == |s| || IsSpace(s[j])
    decreases |s| - i
  {
    if i == |s| || IsSpace(s[i]) then i else WordEnd(s, i + 1)
  }

  ghost predicate NoSpace(s: string) {
    forall k :: 0 <= k < |s| ==> !IsSpace(s[k])
  }

  /** `s.split()`: the maximal runs of non-whitespace, in order. */
  function Words(s: string): (ws: seq<string>)
    ensures forall k :: 0 <= k < |ws| ==> ws[k] != [] && NoSpace(ws[k])
    decreases |s|
  {
    var i := SkipSpaces(s, 0);
    if i == |s| then []
    else
      var j := WordEnd(s, i);
      [s[i..j]] + Words(s[j..])
  }

  /** The characters of `s` that are not whitespace, in order. */
  function NonSpace(s: string): string
    decreases |s|
  {
    if |s| == 0 then [] else (if IsSpace(s[0]) then [] else [s[0]]) + NonSpace(s[1..])
  }

  function Concat(ws: seq<string>): string
    decreases |ws|
  {
    if |ws| == 0 then [] else ws[0] + Concat(ws[1..])
  }

  lemma {:induction false} NonSpaceAppend(a: string, b: string)
    ensures NonSpace(a + b) == NonSpace(a) + NonSpace(b)
    decreases |a|
  {
    if |a| > 0 {
      assert (a + b)[1..] == a[1..] + b;
      NonSpaceAppend(a[1..], b);
    } else {
      assert a + b == b;
    }
  }

  lemma {:induction false} NonSpaceOfSpaces(a: string)
    requires AllSpace(a)
    ensures NonSpace(a) == []
    decreases |a|
  {
    if |a| > 0 { NonSpaceOfSpaces(a[1..]); }
  }

  lemma {:induction false} NonSpaceOfWord(a: string)
    requires NoSpace(a)
    ensures NonSpace(a) == a
    decreases |a|
  {
    if |a| > 0 { NonSpaceOfWord(a[1..]); assert a == [a[0]] + a[1..]; }
  }

  /** `split()` loses exactly the whitespace: the words glued together are the
      non-whitespace characters of the text. */
  lemma {:induction false} WordsKeepNonSpace(s: string)
    ensures Concat(Words(s)) == NonSpace(s)
    decreases |s|
  {
    var i := SkipSpaces(s, 0);
    assert s == s[..i] + s[i..];
    NonSpaceAppend(s[..i], s[i..]);
    NonSpaceOfSpaces(s[..i]);
    if i < |s| {
      var j := WordEnd(s, i);
      var w, rest := s[i..j], s[j..];
      assert s[i..] == w + rest;
      NonSpaceAppend(w, rest);
      NonSpaceOfWord(s[i..j]);
      WordsKeepNonSpace(s[j..]);
    }
  }

  /** Surrounding whitespace does not change `split()`. */
  lemma {:induction false} WordsOfStrip(s: string)
    ensures Words(Strip(s)) == Words(s)
  {
    var i := StripParts(s);
    var a, r, b := s[..i], Strip(s), s[i + |Strip(s)|..];
    WordsPadded(a, r, b);
    assert Words(s) == Words(a + r + b);
  }

  /** A text is its stripped form with whitespace before and after it. */
  lemma StripParts(s: string) returns (i: nat)
    ensures i + |Strip(s)| <= |s| && AllSpace(s[..i]) && AllSpace(s[i + |Strip(s)|..])
    ensures s == s[..i] + Strip(s) + s[i + |Strip(s)|..]
  {
    i := SkipSpaces(s, 0);
    var j := TrimEnd(s, i, |s|);
    assert Strip(s) == s[i..j];
    assert AllSpace(s[..i]) && AllSpace(s[j..]);
    ThreeSlices(s, i, j);
  }

  lemma ThreeSlices(s: string, i: nat, j: nat)
    requires i <= j <= |s|
    ensures s == s[..i] + s[i..j] + s[j..]
  {
    assert s[..i] + s[i..j] == s[..j];
  }

  /** `split()` of a padded string equals `split()` of the string between the padding. */
  lemma {:induction false} WordsPadded(a: string, r: string, b: string)
    requires AllSpace(a) && AllSpace(b)
    ensures Words(a + r + b) == Words(r)
  {
    WordsLeadingSpace(a, r + b);
    assert a + r + b == a + (r + b);
    WordsTrailingSpace(r, b);
  }

  lemma {:induction false} WordsTrailingSpace(t: string, b: string)
    requires AllSpace(b)
    ensures Words(t + b) == Words(t)
    decreases |t|
  {
    var s := t + b;
    var i := SkipSpaces(s, 0);
    var i' := SkipSpaces(t, 0);
    assert forall k :: 0 <= k < |t| ==> s[k] == t[k];
    assert forall k :: |t| <= k < |s| ==> s[k] == b[k - |t|];
    forall k | 0 <= k < i' ensures IsSpace(s[k]) { assert s[k] == t[k]; }
    if i' == |t| {
      forall k | |t| <= k < |s| ensures IsSpace(s[k]) { assert s[k] == b[k - |t|]; }
      assert i == |s|;
    } else {
      assert !IsSpace(s[i']);
      assert i == i';
      var j := WordEnd(s, i);
      var j' := WordEnd(t, i');
      forall k | i <= k < j' ensures !IsSpace(s[k]) { assert s[k] == t[k]; }
      assert j' == |s| || IsSpace(s[j']) by {
        if j' < |t| { assert s[j'] == t[j']; }
        else if j' < |s| { assert s[j'] == b[0]; }
      }
      assert j == j';
      ConcatSlices(t, b, i', j');
      WordsTrailingSpace(t[j'..], b);
    }
  }

  /** Slices of `t + b` that start inside `t`. */
  lemma ConcatSlices(t: string, b: string, i: nat, j: nat)
    requires i <= j <= |t|
    ensures (t + b)[i..j] == t[i..j] && (t + b)[j..] == t[j..] + b
  {
  }

  lemma {:induction false} WordsLeadingSpace(a: string, t: string)
    requires AllSpace(a)
    ensures Words(a + t) == Words(t)
  {
    var s := a + t;
    assert forall k :: 0 <= k < |a| ==> s[k] == a[k];
    assert forall k :: |a| <= k < |s| ==> s[k] == t[k - |a|];
    var i := SkipSpaces(s, 0);
    var i' := SkipSpaces(t, 0);
    forall k | 0 <= k < |a| + i' ensures IsSpace(s[k]) {
      if k < |a| { assert s[k] == a[k]; } else { assert s[k] == t[k - |a|]; }
    }
    assert |a| + i' == |s| || !IsSpace(s[|a| + i']);
    assert i == |a| + i';
    if i' < |t| {
      var j := WordEnd(s, i);
      var j' := WordEnd(t, i');
      forall k | i <= k < |a| + j' ensures !IsSpace(s[k]) { assert s[k] == t[k - |a|]; }
      assert |a| + j' == |s| || IsSpace(s[|a| + j']);
      assert j == |a| + j';
      assert s[i..j] == t[i'..j'];
      assert s[j..] == t[j'..];
    }
  }

  /** Collapsing passes a leading run of non-whitespace through unchanged. */
  lemma {:induction false} CollapseWord(w: string, t: string)
    requires NoSpace(w)
    ensures CollapseSpaces(w + t) == w + CollapseSpaces(t)
    decreases |w|
  {
    if |w| == 0 {
      assert w + t == t;
    } else {
      assert (w + t)[0] == w[0];
      assert (w + t)[1..] == w[1..] + t;
      CollapseWord(w[1..], t);
      assert w == [w[0]] + w[1..];
    }
  }

  /** A non-empty run of non-whitespace followed by whitespace or the end is the first word. */
  lemma WordsOfWord(w: string, x: string)
    requires w != [] && NoSpace(w)
    requires x == [] || IsSpace(x[0])
    ensures Words(w + x) == [w] + Words(x)
  {
    var s := w + x;
    assert s[0] == w[0];
    assert SkipSpaces(s, 0) == 0;
    forall k | 0 <= k < |w| ensures !IsSpace(s[k]) { assert s[k] == w[k]; }
    if x != [] { assert s[|w|] == x[0]; }
    assert WordEnd(s, 0) == |w|;
    assert s[0..|w|] == w;
    assert s[|w|..] == x;
  }

  /** `re.sub(r'\s+', ' ', s)` keeps the words: every run of non-whitespace survives in order. */
  lemma {:induction false} WordsOfCollapse(s: string)
    ensures Words(CollapseSpaces(s)) == Words(s)
    decreases |s|
  {
    if |s| == 0 {
    } else if IsSpace(s[0]) {
      var j := SpaceRunWords(s);
      WordsOfCollapse(s[j..]);
    } else {
      var w, t := FirstWord(s);
      WordsOfCollapse(t);
      WordsWordStep(w, t);
    }
  }

  /** A leading whitespace run changes neither the words nor, beyond one space, the collapse. */
  lemma SpaceRunWords(s: string) returns (j: nat)
    requires s != [] && IsSpace(s[0])
    ensures 0 < j <= |s|
    ensures Words(s) == Words(s[j..])
    ensures Words(CollapseSpaces(s)) == Words(CollapseSpaces(s[j..]))
  {
    j := SkipSpaces(s, 0);
    SpacePrefixWords(s, j);
    assert CollapseSpaces(s) == [' '] + CollapseSpaces(s[j..]);
    WordsLeadingSpace([' '], CollapseSpaces(s[j..]));
  }

  /** Dropping a prefix of whitespace keeps the words. */
  lemma SpacePrefixWords(s: string, j: nat)
    requires j <= |s| && forall k :: 0 <= k < j ==> IsSpace(s[k])
    ensures Words(s) == Words(s[j..])
  {
    assert AllSpace(s[..j]);
    WordsLeadingSpace(s[..j], s[j..]);
    assert s == s[..j] + s[j..];
  }

  lemma WordsWordStep(w: string, t: string)
    requires w != [] && NoSpace(w) && (t == [] || IsSpace(t[0]))
    requires Words(CollapseSpaces(t)) == Words(t)
    ensures Words(CollapseSpaces(w + t)) == Words(w + t)
  {
    assert CollapseSpaces(w + t) == w + CollapseSpaces(t) by { CollapseWord(w, t); }
    assert Words(w + t) == [w] + Words(t) by { WordsOfWord(w, t); }
    WordsOfWord(w, CollapseSpaces(t));
  }

  /** Collapsing whitespace loses no other character. */
  lemma CollapseKeepsNonSpace(s: string)
    ensures NonSpace(CollapseSpaces(s)) == NonSpace(s)
  {
    WordsKeepNonSpace(s);
    WordsKeepNonSpace(CollapseSpaces(s));
    WordsOfCollapse(s);
  }

  /** On stripped text, joining the words with single spaces is collapsing the whitespace. */
  lemma {:induction false} JoinWordsStripped(r: string)
    requires IsStripped(r)
    ensures Join(Words(r), ' ') == CollapseSpaces(r)
    decreases |r|
  {
    if |r| > 0 {
      var w, t := FirstWord(r);
      if t == [] {
        assert r == w;
        JoinOneWord(w);
      } else {
        var u := StripSpaceRun(t);
        JoinWordsStripped(u);
        JoinWordStep(w, t, u);
      }
    }
  }

  lemma JoinOneWord(w: string)
    requires w != [] && NoSpace(w)
    ensures Join(Words(w), ' ') == CollapseSpaces(w)
  {
    CollapseWord(w, []);
    WordsOfWord(w, []);
    assert w + [] == w;
  }

  lemma JoinWordStep(w: string, t: string, u: string)
    requires w != [] && NoSpace(w) && t != [] && IsSpace(t[0])
    requires |Words(u)| >= 1 && Words(t) == Words(u)
    requires CollapseSpaces(t) == [' '] + CollapseSpaces(u)
    requires Join(Words(u), ' ') == CollapseSpaces(u)
    ensures Join(Words(w + t), ' ') == CollapseSpaces(w + t)
  {
    var c := CollapseSpaces(u);
    assert CollapseSpaces(w + t) == w + ([' '] + c) by { CollapseWord(w, t); }
    assert Join(Words(w + t), ' ') == w + [' '] + c by {
      WordsOfWord(w, t);
      JoinCons(w, Words(u), ' ');
    }
    AppendAssoc(w, [' '], c);
  }

  lemma AppendAssoc(a: string, b: string, c: string)
    ensures a + b + c == a + (b + c)
  {
  }

  /** A non-empty text that starts with a non-space character splits into its first run of
      non-whitespace and what follows. */
  lemma FirstWord(r: string) returns (w: string, t: string)
    requires r != [] && !IsSpace(r[0])
    ensures r == w + t && w != [] && NoSpace(w)
    ensures t == [] || IsSpace(t[0])
    ensures t != [] ==> t[|t| - 1] == r[|r| - 1]
  {
    var e := WordEnd(r, 0);
    w, t := r[..e], r[e..];
    assert r == w + t;
  }

  /** Dropping the leading whitespace run of a text that ends in a non-space character
      leaves a non-empty stripped text with the same words, whose collapse is one space
      shorter. */
  lemma StripSpaceRun(t: string) returns (u: string)
    requires t != [] && IsSpace(t[0]) && !IsSpace(t[|t| - 1])
    ensures IsStripped(u) && |u| < |t| && |Words(u)| >= 1
    ensures Words(t) == Words(u)
    ensures CollapseSpaces(t) == [' '] + CollapseSpaces(u)
  {
    var m := SkipSpaces(t, 0);
    u := t[m..];
    assert u[|u| - 1] == t[|t| - 1];
    assert t == t[..m] + u;
    assert AllSpace(t[..m]);
    WordsLeadingSpace(t[..m], u);
    assert SkipSpaces(u, 0) == 0;
  }

  /** `' '.join(s.split())` is `re.sub(r'\s+', ' ', s.strip())`: the words are the
      maximal runs of non-whitespace. */
  lemma WordsJoined(s: string)
    ensures Join(Words(s), ' ') == CollapseSpaces(Strip(s))
  {
    WordsOfStrip(s);
    JoinWordsStripped(Strip(s));
  }

  /** `s.split()` is the single-space split of the collapsed, stripped text, and empty for a
      blank text. */
  lemma WordsAsSplit(s: string)
    ensures Words(s) == if Strip(s) == [] then [] else Split(CollapseSpaces(Strip(s)), ' ')
  {
    WordsOfStrip(s);
    if Strip(s) != [] {
      assert SkipSpaces(Strip(s), 0) == 0;
      assert |Words(s)| >= 1;
      forall k | 0 <= k < |Words(s)| ensures ' ' !in Words(s)[k] {
        assert NoSpace(Words(s)[k]);
      }
      WordsJoined(s);
      SplitJoin(Words(s), ' ');
    } else {
      assert SkipSpaces(Strip(s), 0) == 0;
    }
  }

  /** `SkipSpaces` stops at the first non-whitespace index. */
  lemma {:induction false} SkipSpacesIs(s: string, i: nat, j: nat)
    requires i <= j <= |s| && (j == |s| || !IsSpace(s[j]))
    requires forall k :: i <= k < j ==> IsSpace(s[k])
    ensures SkipSpaces(s, i) == j
    decreases j - i
  {
    if i < j { SkipSpacesIs(s, i + 1, j); }
  }

  /** Leading whitespace makes no difference to `strip()`. */
  lemma StripLeadingSpace(a: string, w: string)
    requires AllSpace(a)
    ensures Strip(a + w) == Strip(w)
  {
    var i := StripParts(w);
    var r := Strip(w);
    var x, b := w[..i], w[i + |r|..];
    assert w == x + r + b;
    PadMore(a, x, r, b);
    StripPadded(a + x, r, b);
  }

  lemma PadMore(a: string, x: string, r: string, b: string)
    requires AllSpace(a) && AllSpace(x)
    ensures AllSpace(a + x) && a + (x + r + b) == (a + x) + r + b
  {
    forall k | 0 <= k < |a + x| ensures IsSpace((a + x)[k]) {
      if k < |a| { assert (a + x)[k] == a[k]; } else { assert (a + x)[k] == x[k - |a|]; }
    }
  }

  /** Dropping leading whitespace makes no difference to `strip()`. */
  lemma StripSuffix(v: string, j: nat)
    requires j <= |v| && forall k :: 0 <= k < j ==> IsSpace(v[k])
    ensures Strip(v[j..]) == Strip(v)
  {
    assert AllSpace(v[..j]);
    StripLeadingSpace(v[..j], v[j..]);
    assert v == v[..j] + v[j..];
  }
}
