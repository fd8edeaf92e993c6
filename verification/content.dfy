/** The written-up parts of a backblast: the narrative after the `COUNT:` line, its word
    count, and the named sections (warm-up, thang, Mary, announcements, circle of trust). */
module Content {
  import opened Wrappers
  import opened Text
  import opened Patterns

  /** Everything after the first `COUNT:` line that has a line break after it, stripped;
      absent exactly when no such line exists. */
  function AfterCount(text: string): (r: Option<string>)
    ensures r.Some? ==> IsStripped(r.value)
    ensures r.None? <==> forall p :: 0 <= p <= |text| ==> MatchAt(text, CountThenRest, p).None?
  {
    match First(text, CountThenRest)
    case None =>
      assert forall p :: 0 <= p <= |text| ==> MatchAt(text, CountThenRest, p).None?;
      None
    case Some(h) => Some(Strip(Group(text, h)))
  }

  /** What the words are counted in: the narrative after `COUNT:`, or the whole text when
      there is none or it is blank. */
  function CountedText(text: string): (r: string)
    ensures r == text || (r != [] && AfterCount(text) == Some(r))
    ensures AfterCount(text).Some? && AfterCount(text).value != [] ==> r == AfterCount(text).value
    ensures AllSpace(r) ==> r == text
  {
    match AfterCount(text)
    case Some(c) => if c != [] then c else text
    case None => text
  }

  /** The number of whitespace-separated words of the narrative. */
  function WordCount(text: string): (n: nat)
    ensures n <= |CountedText(text)|
    ensures n == 0 <==> AllSpace(CountedText(text))
  {
    var c := CountedText(text);
    WordsBound(c);
    WordsEmpty(c);
    |Words(c)|
  }

  /** The count is the number of pieces when the stripped narrative, its whitespace runs
      collapsed to single spaces, is cut at the spaces; a blank narrative counts nothing. */
  lemma WordCountIsPieces(text: string)
    ensures var c := CountedText(text);
      WordCount(text) == if Strip(c) == [] then 0 else |Split(CollapseSpaces(Strip(c)), ' ')|
  {
    WordsAsSplit(CountedText(text));
  }

  lemma {:induction false} WordsBound(s: string)
    ensures |Words(s)| <= |s|
    decreases |s|
  {
    var i := SkipSpaces(s, 0);
    if i < |s| {
      WordsBound(s[WordEnd(s, i)..]);
    }
  }

  lemma WordsEmpty(s: string)
    ensures Words(s) == [] <==> AllSpace(s)
  {
  }

  /** After a `COUNT:` line that follows a text with no other `COUNT:` line, the narrative
      is everything after that line's break, stripped. */
  lemma AfterCountIsRest(t: string, v: string, body: string)
    requires forall p :: 0 <= p <= |t| ==> MatchAt(t, CountLine, p).None?
    requires '\n' !in v
    ensures AfterCount(t + "\nCOUNT:" + v + "\n" + body) == Some(Strip(body))
  {
    var x := "\nCOUNT:" + v + "\n" + body;
    var text := t + x;
    assert text == t + "\nCOUNT:" + v + "\n" + body;
    forall p | 0 <= p <= |t| ensures MatchAt(text, CountThenRest, p).None? {
      CountLineExtended(t, x, p);
    }
    var h := CountThenRestAt(t, v, body);
    FirstIs(text, CountThenRest, |t| + 1);
  }

  lemma CountThenRestAt(t: string, v: string, body: string) returns (h: Hit)
    requires '\n' !in v
    ensures |t| + 1 <= |t + "\nCOUNT:" + v + "\n" + body|
    ensures MatchAt(t + "\nCOUNT:" + v + "\n" + body, CountThenRest, |t| + 1) == Some(h)
    ensures Group(t + "\nCOUNT:" + v + "\n" + body, h) == body
  {
    var text := t + "\nCOUNT:" + v + "\n" + body;
    var c := |t| + 1;
    var e := c + 6 + |v|;
    assert text[c - 1] == '\n';
    assert text[c..c + 6] == "COUNT:";
    assert forall k :: c + 6 <= k < e ==> text[k] == v[k - c - 6];
    assert text[e] == '\n';
    assert LineEnd(text, c + 6) == e;
    h := Hit(c, e + 1, |text|);
    assert text[e + 1..] == body;
  }

  /** Only the words of a non-blank narrative are counted. */
  lemma WordCountAfterCount(t: string, v: string, body: string)
    requires forall p :: 0 <= p <= |t| ==> MatchAt(t, CountLine, p).None?
    requires '\n' !in v && !AllSpace(body)
    ensures WordCount(t + "\nCOUNT:" + v + "\n" + body) == |Words(body)|
  {
    AfterCountIsRest(t, v, body);
    WordsOfStrip(body);
  }

  /** A blank narrative falls back to counting the words of the whole text. */
  lemma BlankNarrativeCountsAll(t: string, v: string, body: string)
    requires forall p :: 0 <= p <= |t| ==> MatchAt(t, CountLine, p).None?
    requires '\n' !in v && AllSpace(body)
    ensures WordCount(t + "\nCOUNT:" + v + "\n" + body) == |Words(t + "\nCOUNT:" + v + "\n" + body)|
  {
    AfterCountIsRest(t, v, body);
  }

  // Named sections.

  /** A section's text: the stripped rest of the first `NAME:` line that has text after the
      colon, or else the stripped block under the first `NAME:` line that has none; header
      names match in any letter case. Absent exactly when neither form occurs. */
  function Section(text: string, name: string): (r: Option<string>)
    ensures r.Some? ==> IsStripped(r.value)
    ensures r.None? <==> forall p :: 0 <= p <= |text| ==>
      MatchAt(text, InlineSection(name), p).None? && MatchAt(text, BlockSection(name), p).None?
  {
    match First(text, InlineSection(name))
    case Some(h) => Some(Strip(Group(text, h)))
    case None =>
      match First(text, BlockSection(name))
      case Some(h) => Some(Strip(Group(text, h)))
      case None => None
  }

  /** Whether the section is there with some text in it. */
  function HasSection(text: string, name: string): (b: bool)
    ensures b <==> Section(text, name).Some? && Section(text, name).value != []
  {
    match Section(text, name)
    case None => false
    case Some(s) => StripStripped(s); Strip(s) != []
  }

  /** The thang: the `THANG` section unless it is absent or empty, then `THE THANG`. */
  function Thang(text: string): (r: Option<string>)
    ensures r == Section(text, "THANG") || r == Section(text, "THE THANG")
    ensures r == Section(text, "THANG") <== Section(text, "THANG").Some? && Section(text, "THANG").value != []
    ensures r == Section(text, "THE THANG") <== Section(text, "THANG").None? || Section(text, "THANG").value == []
  {
    match Section(text, "THANG")
    case Some(s) => if s != [] then Some(s) else Section(text, "THE THANG")
    case None => Section(text, "THE THANG")
  }

  /** `NAME: text` on one line gives that text stripped, whatever the letter case of the
      header and whatever blanks follow the colon. */
  lemma InlineSectionValue(h: string, name: string, line: string, rest: string)
    requires |h| == |name| && Lower(h) == Lower(name)
    requires line != [] && '\n' !in line
    requires rest == [] || rest[0] == '\n'
    ensures Section(h + ":" + line + rest, name) == Some(Strip(line))
  {
    var text := h + ":" + line + rest;
    InlineLayout(h, line, rest);
    SectionHeaderOf(text, 0, h, name);
    var hit := InlineMatchIs(text, name, 0, line);
    InlineFirstAtStart(text, name, hit);
    SectionOfFirst(text, name, hit);
  }

  /** `ANNOUNCEMENTS: Welcome new PAX!`, with a blank after the colon, gives the text. */
  lemma AnnouncementExample()
    ensures Section("ANNOUNCEMENTS" + ":" + (" " + "Welcome new PAX!"), "ANNOUNCEMENTS")
      == Some("Welcome new PAX!")
  {
    var line := " " + "Welcome new PAX!";
    InlineSectionValue("ANNOUNCEMENTS", "ANNOUNCEMENTS", line, []);
    assert "ANNOUNCEMENTS" + ":" + line + [] == "ANNOUNCEMENTS" + ":" + line;
    PaddedAnnouncement();
  }

  lemma PaddedAnnouncement()
    ensures Strip(" " + "Welcome new PAX!") == "Welcome new PAX!"
  {
    var w := "Welcome new PAX!";
    assert !IsSpace(w[0]) && !IsSpace(w[|w| - 1]);
    StripLeadingSpace(" ", w);
    StripStripped(w);
  }

  /** Where the parts of `h + ":" + line + rest` sit. */
  lemma InlineLayout(h: string, line: string, rest: string)
    requires rest == [] || rest[0] == '\n'
    ensures (h + ":" + line + rest)[0..|h| + 1] == h + ":"
    ensures (h + ":" + line + rest)[|h| + 1..|h| + 1 + |line|] == line
    ensures |h| + 1 + |line| == |h + ":" + line + rest| || (h + ":" + line + rest)[|h| + 1 + |line|] == '\n'
  {
    var text := h + ":" + line + rest;
    if rest != [] {
      assert text[|h| + 1 + |line|] == rest[0];
    }
  }

  /** A one-line match at the very start is the first one. */
  lemma InlineFirstAtStart(text: string, name: string, hit: Hit)
    requires MatchInlineSection(text, name, 0) == Some(hit)
    ensures First(text, InlineSection(name)) == Some(hit)
  {
    assert MatchAt(text, InlineSection(name), 0) == Some(hit);
    FirstIs(text, InlineSection(name), 0);
  }

  /** The one-line form wins wherever it occurs: after a text where it does not occur (that
      text may hold the block form of the same header), a `NAME: text` line gives that text
      stripped, whatever follows it. */
  lemma InlineSectionAfter(t: string, hd: string, name: string, line: string, rest: string)
    requires '\n' !in name && |hd| == |name| && Lower(hd) == Lower(name)
    requires forall p :: 0 <= p <= |t| ==> MatchAt(t, InlineSection(name), p).None?
    requires line != [] && '\n' !in line
    ensures Section(t + "\n" + (hd + ":" + line) + "\n" + rest, name) == Some(Strip(line))
  {
    var x := "\n" + (hd + ":" + line) + "\n" + rest;
    LineAt(t, hd + ":", line, rest);
    var hit := InlineLineMatch(t + x, |t| + 1, hd, name, line);
    forall p | 0 <= p <= |t| ensures MatchAt(t + x, InlineSection(name), p).None? {
      InlineSectionExtended(t, x, name, p);
    }
    FirstIs(t + x, InlineSection(name), |t| + 1);
    SectionOfFirst(t + x, name, hit);
  }

  /** A `NAME:` header in any letter case at a line start, followed on its line by `line`,
      captures `line` up to blanks. */
  lemma InlineLineMatch(text: string, h: nat, hd: string, name: string, line: string) returns (hit: Hit)
    requires |hd| == |name| && Lower(hd) == Lower(name)
    requires line != [] && '\n' !in line
    requires h + |hd| + 1 + |line| < |text| && AtLineStart(text, h)
    requires text[h..h + |hd| + 1] == hd + ":" && text[h + |hd| + 1..h + |hd| + 1 + |line|] == line
    requires text[h + |hd| + 1 + |line|] == '\n'
    ensures MatchAt(text, InlineSection(name), h) == Some(hit)
    ensures hit.from <= hit.to <= |text| && Strip(Group(text, hit)) == Strip(line)
  {
    SectionHeaderOf(text, h, hd, name);
    hit := InlineMatchIs(text, name, h, line);
    InlineMatchAtIs(text, name, h, hit);
  }

  lemma InlineMatchAtIs(text: string, name: string, h: nat, hit: Hit)
    requires h <= |text| && MatchInlineSection(text, name, h) == Some(hit)
    ensures MatchAt(text, InlineSection(name), h) == Some(hit)
  {
  }

  /** `hd:` at a line start is a header of the section `name` when `hd` is `name` up to
      letter case. */
  lemma SectionHeaderOf(text: string, h: nat, hd: string, name: string)
    requires |hd| == |name| && Lower(hd) == Lower(name)
    requires h + |hd| + 1 <= |text| && AtLineStart(text, h) && text[h..h + |hd| + 1] == hd + ":"
    ensures SectionHeaderAt(text, name, h)
  {
    assert text[h..h + |hd|] == hd by {
      assert text[h..h + |hd|] == text[h..h + |hd| + 1][..|hd|];
    }
    assert text[h + |hd|..h + |hd| + 1] == ":" by {
      assert text[h + |hd|..h + |hd| + 1] == text[h..h + |hd| + 1][|hd|..];
    }
  }

  /** A section is the stripped capture of the first one-line match, when there is one. */
  lemma SectionOfFirst(text: string, name: string, hit: Hit)
    requires First(text, InlineSection(name)) == Some(hit)
    ensures hit.from <= hit.to <= |text|
    ensures Section(text, name) == Some(Strip(Group(text, hit)))
  {
  }

  /** `NAME:` alone on its line gives the stripped lines below it, up to the next header. */
  lemma BlockSectionBody(name: string, body: string)
    requires ':' !in name && ':' !in body
    ensures Section(name + ":\n" + body, name) == Some(Strip(body))
  {
    var text := name + ":\n" + body;
    NoInlineAboveBlock(name, body);
    FirstNone(text, InlineSection(name));
    BlockAtStart(name, body);
    FirstIs(text, BlockSection(name), 0);
    var h := Hit(0, |name| + 2, |text|);
    assert First(text, BlockSection(name)) == Some(h);
    assert Group(text, h) == body;
  }

  lemma NoInlineAboveBlock(name: string, body: string)
    requires ':' !in name && ':' !in body
    ensures forall p :: 0 <= p <= |name + ":\n" + body| ==> MatchAt(name + ":\n" + body, InlineSection(name), p).None?
  {
    var text := name + ":\n" + body;
    var c := |name| + 1;
    OnlyColon(name, "\n" + body);
    assert text == name + ":" + ("\n" + body);
    assert text[c] == '\n';
    assert SkipBlanks(text, c) == c;
    forall i | |name| < i <= |text| ensures !OccursAt(text, ":", i) {
      if i < |text| {
        assert text[i..i + 1][0] == text[i] != ':';
      }
    }
    forall p | 0 < p <= |text| ensures MatchAt(text, InlineSection(name), p).None? {
      assert !OccursAt(text, ":", p + |name|);
    }
  }

  lemma BlockAtStart(name: string, body: string)
    requires ':' !in name && ':' !in body
    ensures MatchAt(name + ":\n" + body, BlockSection(name), 0) == Some(Hit(0, |name| + 2, |name + ":\n" + body|))
    ensures (name + ":\n" + body)[|name| + 2..] == body
  {
    var text := name + ":\n" + body;
    var c := |name| + 1;
    OnlyColon(name, "\n" + body);
    assert text == name + ":" + ("\n" + body);
    assert text[..|name|] == name && text[c] == '\n';
    assert text[|name|..|name| + 1] == ":";
    assert SkipBlanks(text, c) == c;
    forall k | c + 1 <= k <= |text| ensures !HeaderLikeAt(text, k) {
      var r := HeaderRunEnd(text, k);
      if r < |text| { assert text[r] != ':'; }
    }
    assert SectionEnd(text, c + 1) == |text|;
  }

  /** A block ends at the next line that looks like a header in any letter case, so a
      lower-case `next thing:` line ends it too. */
  lemma BlockEndsAtHeader(name: string, body: string, nxt: string, more: string)
    requires ':' !in name && '\n' !in name && ':' !in body && ':' !in more
    requires nxt != [] && (forall k :: 0 <= k < |nxt| ==> IsHeaderChar(nxt[k])) && Lower(nxt) != Lower(name)
    ensures Section(name + ":\n" + body + "\n" + nxt + ":" + more, name) == Some(Strip(body))
  {
    var text := name + ":\n" + body + "\n" + nxt + ":" + more;
    var g := |name| + 2;
    var s2 := g + |body| + 1;
    BlockLayout(name, body, nxt, more);
    forall p | 0 <= p <= |text| ensures MatchAt(text, InlineSection(name), p).None? {
      NoInlineInBlock(text, name, nxt, s2, p);
    }
    FirstNone(text, InlineSection(name));
    assert SectionEnd(text, g) == s2 by {
      BlockEnd(text, g, s2, |nxt|);
    }
    BlockHeaderAtStart(text, name, s2);
    FirstIs(text, BlockSection(name), 0);
    assert Group(text, Hit(0, g, s2)) == body + "\n";
    StripTrailingBreak(body);
  }

  /** Where the parts of a block section followed by a header-like line sit. */
  lemma BlockLayout(name: string, body: string, nxt: string, more: string)
    requires ':' !in name && ':' !in body && ':' !in more
    requires nxt != [] && forall k :: 0 <= k < |nxt| ==> IsHeaderChar(nxt[k])
    ensures var text := name + ":\n" + body + "\n" + nxt + ":" + more;
      var g := |name| + 2; var s2 := g + |body| + 1; var e2 := s2 + |nxt|;
      |text| == e2 + 1 + |more| && text[..|name|] == name && text[|name|..|name| + 1] == ":"
      && text[|name| + 1] == '\n' && text[g..s2] == body + "\n" && text[s2 - 1] == '\n'
      && text[s2..e2] == nxt && text[e2] == ':' && text[e2..e2 + 1] == ":"
      && (forall k :: g <= k < s2 ==> text[k] != ':')
      && (forall k :: s2 <= k < e2 ==> IsHeaderChar(text[k]))
      && (forall k :: 0 <= k < |text| && text[k] == ':' ==> k == |name| || k == e2)
  {
    var text := name + ":\n" + body + "\n" + nxt + ":" + more;
    var g := |name| + 2;
    var s2 := g + |body| + 1;
    var e2 := s2 + |nxt|;
    forall k | 0 <= k < |text| && k != |name| && k != e2 ensures text[k] != ':' {
      if k < |name| { assert text[k] == name[k]; }
      else if g <= k < s2 - 1 { assert text[k] == body[k - g]; }
      else if s2 <= k < e2 { assert text[k] == nxt[k - s2]; }
      else if e2 < k { assert text[k] == more[k - e2 - 1]; }
    }
    forall k | s2 <= k < e2 ensures IsHeaderChar(text[k]) { assert text[k] == nxt[k - s2]; }
    assert text[g..s2] == body + "\n";
  }

  /** `NAME:` alone on the first line starts a block that runs to the section end. */
  lemma BlockHeaderAtStart(text: string, name: string, s2: nat)
    requires |name| + 2 <= s2 <= |text|
    requires text[..|name|] == name && text[|name|..|name| + 1] == ":" && text[|name| + 1] == '\n'
    requires SectionEnd(text, |name| + 2) == s2
    ensures MatchAt(text, BlockSection(name), 0) == Some(Hit(0, |name| + 2, s2))
  {
    assert text[0..|name|] == name;
    assert SectionHeaderAt(text, name, 0);
    assert SkipBlanks(text, |name| + 1) == |name| + 1;
  }

  /** No one-line match of `NAME:` in a block followed by a header-like line of another name. */
  lemma NoInlineInBlock(text: string, name: string, nxt: string, s2: nat, p: nat)
    requires ':' !in name && '\n' !in name && nxt != [] && Lower(nxt) != Lower(name)
    requires |name| + 2 <= s2 && s2 + |nxt| < |text| && p <= |text|
    requires text[|name|] == ':' && text[|name| + 1] == '\n' && text[s2 - 1] == '\n'
    requires text[s2..s2 + |nxt|] == nxt
    requires forall k :: s2 <= k < s2 + |nxt| ==> IsHeaderChar(text[k])
    requires forall k :: 0 <= k < |text| && text[k] == ':' ==> k == |name| || k == s2 + |nxt|
    ensures MatchAt(text, InlineSection(name), p).None?
  {
    var e2 := s2 + |nxt|;
    if p == 0 {
      assert SkipBlanks(text, |name| + 1) == |name| + 1;
    } else if p + |name| != e2 {
      assert p + |name| < |text| ==> text[p + |name|] != ':';
      assert !OccursAt(text, ":", p + |name|) by {
        if p + |name| + 1 <= |text| { assert text[p + |name|..p + |name| + 1][0] == text[p + |name|]; }
      }
    } else if |nxt| == |name| {
      assert text[p..p + |name|] == nxt;
    } else if |nxt| > |name| {
      assert IsHeaderChar(text[p - 1]);
    } else {
      var j := s2 - 1 - p;
      assert Lower(text[p..p + |name|])[j] == LowerChar(text[s2 - 1]) == '\n';
      assert Lower(name)[j] == LowerChar(name[j]) != '\n';
    }
  }

  /** The end of a block's capture is the first header-like line after it. */
  lemma BlockEnd(text: string, g: nat, s2: nat, n: nat)
    requires g < s2 && s2 + n < |text| && n > 0
    requires text[s2 - 1] == '\n' && text[s2 + n] == ':'
    requires forall k :: g <= k < s2 ==> text[k] != ':'
    requires forall k :: s2 <= k < s2 + n ==> IsHeaderChar(text[k])
    ensures SectionEnd(text, g) == s2
  {
    assert HeaderRunEnd(text, s2) == s2 + n;
    assert HeaderLikeAt(text, s2);
    forall k | g <= k < s2 ensures !HeaderLikeAt(text, k) {
      var r := HeaderRunEnd(text, k);
      assert r <= s2 - 1;
    }
  }

  /** A trailing line break is whitespace that `strip` removes. */
  lemma StripTrailingBreak(body: string)
    ensures Strip(body + "\n") == Strip(body)
  {
    var i := StripParts(body);
    var r := Strip(body);
    var b := body[i + |r|..];
    assert body + "\n" == body[..i] + r + (b + "\n");
    assert AllSpace(b + "\n") by {
      forall k | 0 <= k < |b + "\n"| ensures IsSpace((b + "\n")[k]) {
        if k < |b| { assert (b + "\n")[k] == b[k]; }
      }
    }
    StripPadded(body[..i], r, b + "\n");
  }

  /** Blanks after `NAME:` make the one-line form match with a blank text, so a block
      under that header is never read: the section is there but empty. */
  lemma BlankInlineHidesBlock(name: string, body: string)
    requires ':' !in name
    ensures Section(name + ": \n" + body, name) == Some([])
    ensures !HasSection(name + ": \n" + body, name)
  {
    var text := name + ": \n" + body;
    var c := |name| + 1;
    assert text[..|name|] == name && text[c] == ' ' && text[c + 1] == '\n';
    assert text[|name|..|name| + 1] == ":";
    assert SkipBlanks(text, c) == c + 1;
    assert MatchAt(text, InlineSection(name), 0) == Some(Hit(0, c, c + 1));
    FirstIs(text, InlineSection(name), 0);
    assert text[c..c + 1] == " ";
  }

  /** The only colon of `name + ":" + x` is the one after the name. */
  lemma OnlyColon(name: string, x: string)
    requires ':' !in name && ':' !in x
    ensures forall k :: 0 <= k < |name + ":" + x| && k != |name| ==> (name + ":" + x)[k] != ':'
  {
    var text := name + ":" + x;
    forall k | 0 <= k < |text| && k != |name| ensures text[k] != ':' {
      if k < |name| { assert text[k] == name[k]; }
      else { assert text[k] == x[k - |name| - 1]; }
    }
  }
}
