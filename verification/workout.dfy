/** The kind of workout: a bootcamp unless the text says ruck before its `COUNT:` line. */
module Workout {
  import opened Wrappers
  import opened Text
  import opened Patterns

  datatype WorkoutType = Bootcamp | Ruck

  /** Some line of `s` matches `pat` at its start. */
  ghost predicate Has(s: string, pat: Pattern) {
    exists p :: 0 <= p <= |s| && MatchAt(s, pat, p).Some?
  }

  /** The lower-cased text has both a warm-up header line and a thang header line. */
  ghost predicate HasBootcampHeaders(text: string) {
    Has(Lower(text), WarmupHeader) && Has(Lower(text), ThangHeader)
  }

  /** Where the metadata ends: at the first line starting `COUNT:` (case-sensitive), or at
      the end of the text when there is none. */
  function MetadataEnd(text: string): (e: nat)
    ensures e <= |text|
    ensures e == |text| || MatchAt(text, CountLine, e).Some?
    ensures forall p :: 0 <= p < e ==> MatchAt(text, CountLine, p).None?
    ensures e < |text| || forall p :: 0 <= p <= |text| ==> MatchAt(text, CountLine, p).None?
  {
    match First(text, CountLine)
    case None => |text|
    case Some(h) => h.start
  }

  /** The lower-cased metadata part of the text. */
  function Metadata(text: string): (m: string)
    ensures m == Lower(text[..MetadataEnd(text)])
  {
    match First(text, CountLine)
    case None => assert text[..|text|] == text; Lower(text)
    case Some(h) => Lower(text[..h.start])
  }

  /** A ruck is declared only by the metadata, and never when the text has the warm-up and
      thang headers of a bootcamp. */
  function WorkoutOf(text: string): (w: WorkoutType)
    ensures w == Ruck <==> !HasBootcampHeaders(text) && Has(Metadata(text), RuckWord)
  {
    var content := Lower(text);
    if First(content, WarmupHeader).Some? && First(content, ThangHeader).Some? then Bootcamp
    else if First(Metadata(text), RuckWord).Some? then Ruck
    else Bootcamp
  }

  /** A text without a `COUNT:` line gets one appended: the metadata is everything before it. */
  lemma MetadataBeforeCount(t: string, v: string)
    requires forall p :: 0 <= p <= |t| ==> MatchAt(t, CountLine, p).None?
    ensures Metadata(t + "\nCOUNT:" + v) == Lower(t + "\n")
  {
    var x := "\nCOUNT:" + v;
    var text := t + x;
    assert text == t + "\nCOUNT:" + v;
    forall p | 0 <= p <= |t| ensures MatchAt(text, CountLine, p).None? {
      CountLineExtended(t, x, p);
    }
    assert text[|t|] == '\n';
    assert text[|t| + 1..|t| + 7] == "COUNT:";
    FirstIs(text, CountLine, |t| + 1);
    assert text[..|t| + 1] == t + "\n";
  }

  /** Ruck words after the `COUNT:` line do not make a ruck. */
  lemma RuckAfterCountIgnored(t: string, v: string)
    requires forall p :: 0 <= p <= |t| ==> MatchAt(t, CountLine, p).None?
    requires !Has(Lower(t + "\n"), RuckWord)
    ensures WorkoutOf(t + "\nCOUNT:" + v) == Bootcamp
  {
    MetadataBeforeCount(t, v);
  }

  /** Without a `COUNT:` line, a ruck word anywhere makes a ruck unless the bootcamp headers
      are there too. */
  lemma RuckWithoutCount(text: string)
    requires forall p :: 0 <= p <= |text| ==> MatchAt(text, CountLine, p).None?
    ensures WorkoutOf(text) == Ruck <==> !HasBootcampHeaders(text) && Has(Lower(text), RuckWord)
  {
    assert text[..|text|] == text;
  }
}
