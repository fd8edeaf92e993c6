/** The beatdown date and its weekday. A date candidate is found by a cascade of patterns and
    parsed the way `datetime.strptime` parses it; the result is written back as `YYYY-MM-DD`. */
module Dates {
  import opened Wrappers
  import opened Text
  import opened Patterns
  import opened Calendar

  /** One way a `strptime` directive can match: the field value and the index after it. */
  datatype Choice = Choice(value: int, end: nat)

  function DigitAt(s: string, i: nat): int
    requires i < |s|
  {
    s[i] as int - '0' as int
  }

  /** `%Y`: exactly four digits. */
  function YearChoices(s: string, i: nat): (cs: seq<Choice>)
    ensures forall c :: c in cs ==> i < c.end <= |s|
  {
    if i + 4 <= |s| && forall k :: i <= k < i + 4 ==> IsDigit(s[k]) then [Choice(Number(s[i..i + 4]), i + 4)]
    else []
  }

  /** `%m`: the alternatives `1[0-2]`, `0[1-9]` and `[1-9]`, in the order the engine tries them. */
  function MonthChoices(s: string, i: nat): (cs: seq<Choice>)
    ensures forall c :: c in cs ==> i < c.end <= |s| && 1 <= c.value <= 12
  {
    (if i + 2 <= |s| && s[i] == '1' && '0' <= s[i + 1] <= '2' then [Choice(10 + DigitAt(s, i + 1), i + 2)] else [])
    + (if i + 2 <= |s| && s[i] == '0' && '1' <= s[i + 1] <= '9' then [Choice(DigitAt(s, i + 1), i + 2)] else [])
    + (if i < |s| && '1' <= s[i] <= '9' then [Choice(DigitAt(s, i), i + 1)] else [])
  }

  /** `%d`: the alternatives `3[01]`, `[12]` digit, `0[1-9]`, `[1-9]` and space `[1-9]`, in order. */
  function DayChoices(s: string, i: nat): (cs: seq<Choice>)
    ensures forall c :: c in cs ==> i < c.end <= |s| && 1 <= c.value <= 31
  {
    (if i + 2 <= |s| && s[i] == '3' && '0' <= s[i + 1] <= '1' then [Choice(30 + DigitAt(s, i + 1), i + 2)] else [])
    + (if i + 2 <= |s| && '1' <= s[i] <= '2' && IsDigit(s[i + 1]) then [Choice(10 * DigitAt(s, i) + DigitAt(s, i + 1), i + 2)] else [])
    + (if i + 2 <= |s| && s[i] == '0' && '1' <= s[i + 1] <= '9' then [Choice(DigitAt(s, i + 1), i + 2)] else [])
    + (if i < |s| && '1' <= s[i] <= '9' then [Choice(DigitAt(s, i), i + 1)] else [])
    + (if i + 2 <= |s| && s[i] == ' ' && '1' <= s[i + 1] <= '9' then [Choice(DigitAt(s, i + 1), i + 2)] else [])
  }

  /** The engine's choice for a directive: the first alternative after which the text goes
      on with the separator `sep`, or simply the first alternative when the directive ends the
      format. Backtracking cannot find a second candidate here: alternatives of the same
      length start with different characters, and a shorter one is followed by a digit. */
  function Pick(s: string, cs: seq<Choice>, sep: Option<char>): (r: Option<Choice>)
    ensures r.Some? ==> r.value in cs
    ensures r.Some? && sep.Some? ==> r.value.end < |s| && s[r.value.end] == sep.value
    ensures sep.None? ==> r == (if |cs| == 0 then None else Some(cs[0]))
    decreases |cs|
  {
    if |cs| == 0 then None
    else if sep.None? || (cs[0].end < |s| && s[cs[0].end] == sep.value) then Some(cs[0])
    else Pick(s, cs[1..], sep)
  }

  /** Alternative `c` can stand: the format ends there, or the text goes on with `sep`. */
  predicate FollowedBy(s: string, c: Choice, sep: Option<char>) {
    sep.None? || (c.end < |s| && s[c.end] == sep.value)
  }

  /** The engine takes the first alternative that can stand, and fails only when none can. */
  lemma {:induction false} PickFirstFollowed(s: string, cs: seq<Choice>, sep: Option<char>) returns (i: nat)
    ensures i <= |cs|
    ensures forall k :: 0 <= k < i ==> !FollowedBy(s, cs[k], sep)
    ensures i < |cs| ==> FollowedBy(s, cs[i], sep)
    ensures Pick(s, cs, sep) == if i < |cs| then Some(cs[i]) else None
    decreases |cs|
  {
    if |cs| == 0 || FollowedBy(s, cs[0], sep) {
      i := 0;
    } else {
      var j := PickFirstFollowed(s, cs[1..], sep);
      i := j + 1;
      forall k | 1 <= k < i ensures !FollowedBy(s, cs[k], sep) {
        assert cs[k] == cs[1..][k - 1];
      }
    }
  }

  /** The two field orders used: year, month, day (`%Y-%m-%d`, `%Y/%m/%d`) and month, day,
      year (`%m/%d/%Y`). */
  datatype Layout = YearFirst(sep: char) | MonthFirst(sep: char)

  /** The date when it exists (`datetime` rejects year 0 and days past the month's end). */
  function Checked(d: Date): (r: Option<Date>)
    ensures r.Some? <==> ValidDate(d)
    ensures r.Some? ==> r.value == d
  {
    if ValidDate(d) then Some(d) else None
  }

  /** `datetime.strptime(s, format)`: the fields must match from the start, nothing may be
      left over, and the date must exist; any failure is `ValueError`, here `None`. */
  function Strptime(s: string, layout: Layout): (r: Option<Date>)
    ensures r.Some? ==> ValidDate(r.value)
  {
    match layout
    case YearFirst(sep) =>
      (match Pick(s, YearChoices(s, 0), Some(sep))
       case None => None
       case Some(y) =>
         match Pick(s, MonthChoices(s, y.end + 1), Some(sep))
         case None => None
         case Some(m) =>
           match Pick(s, DayChoices(s, m.end + 1), None)
           case None => None
           case Some(d) => if d.end == |s| then Checked(Date(y.value, m.value, d.value)) else None)
    case MonthFirst(sep) =>
      match Pick(s, MonthChoices(s, 0), Some(sep))
      case None => None
      case Some(m) =>
        match Pick(s, DayChoices(s, m.end + 1), Some(sep))
        case None => None
        case Some(d) =>
          match Pick(s, YearChoices(s, d.end + 1), None)
          case None => None
          case Some(y) => if y.end == |s| then Checked(Date(y.value, m.value, d.value)) else None
  }

  /** A candidate with a slash is read year-first when it starts with `20` and month-first
      otherwise; a candidate without one is read as `%Y-%m-%d`. */
  function Normalise(candidate: string): (r: Option<Date>)
    ensures r.Some? ==> ValidDate(r.value)
  {
    if '/' in candidate then
      if StartsWith(candidate, "20") then Strptime(candidate, YearFirst('/'))
      else Strptime(candidate, MonthFirst('/'))
    else Strptime(candidate, YearFirst('-'))
  }

  /** The patterns tried for the date, in order: labelled `YYYY-MM-DD`, labelled `YYYY/MM/DD`,
      labelled `MM/DD/YYYY`, then any bare `YYYY-MM-DD`. */
  const DatePatterns: seq<Pattern> :=
    [LabelledDate(IsoDashes), LabelledDate(YearFirstSlashes), LabelledDate(MonthFirstSlashes), BareIsoDate]

  /** Each pattern offers only its first match; a candidate that does not parse passes the
      turn to the next pattern. */
  function Cascade(text: string, pats: seq<Pattern>): (r: Option<Date>)
    ensures r.Some? ==> ValidDate(r.value)
    decreases |pats|
  {
    if |pats| == 0 then None
    else
      match First(text, pats[0])
      case None => Cascade(text, pats[1..])
      case Some(h) =>
        match Normalise(Group(text, h))
        case Some(d) => Some(d)
        case None => Cascade(text, pats[1..])
  }

  function BdDate(text: string): (r: Option<Date>)
    ensures r.Some? ==> ValidDate(r.value)
  {
    Cascade(text, DatePatterns)
  }

  /** When no pattern matches anywhere, the cascade finds no date. */
  lemma {:induction false} CascadeOfNoMatches(text: string, pats: seq<Pattern>)
    requires forall k :: 0 <= k < |pats| ==> First(text, pats[k]).None?
    ensures Cascade(text, pats).None?
    decreases |pats|
  {
    if |pats| > 0 {
      assert First(text, pats[0]).None?;
      assert forall k :: 0 <= k < |pats[1..]| ==> pats[1..][k] == pats[k + 1];
      CascadeOfNoMatches(text, pats[1..]);
    }
  }

  /** Every pattern that matches at all captures the same candidate `g`. */
  predicate SameCandidate(text: string, pats: seq<Pattern>, g: string) {
    forall k :: 0 <= k < |pats| && First(text, pats[k]).Some? ==>
      Group(text, First(text, pats[k]).value) == g
  }

  /** When every match captures a candidate that does not parse, the cascade finds no date. */
  lemma {:induction false} CascadeOfFailingCandidate(text: string, pats: seq<Pattern>, g: string)
    requires SameCandidate(text, pats, g) && Normalise(g).None?
    ensures Cascade(text, pats).None?
    decreases |pats|
  {
    if |pats| > 0 {
      assert forall k :: 0 <= k < |pats[1..]| ==> pats[1..][k] == pats[k + 1];
      assert SameCandidate(text, pats[1..], g);
      CascadeOfFailingCandidate(text, pats[1..], g);
      match First(text, pats[0])
      case None =>
      case Some(h) => assert Group(text, h) == g;
    }
  }

  /** When some pattern matches and every match captures the same candidate, the cascade's
      answer is that candidate's normalisation, whichever pattern found it. */
  lemma {:induction false} CascadeOfOneCandidate(text: string, pats: seq<Pattern>, g: string, i: nat)
    requires SameCandidate(text, pats, g)
    requires i < |pats| && First(text, pats[i]).Some?
    ensures Cascade(text, pats) == Normalise(g)
    decreases i
  {
    match First(text, pats[0])
    case Some(h) =>
      assert Group(text, h) == g;
      if Normalise(g).None? {
        assert forall k :: 0 <= k < |pats[1..]| ==> pats[1..][k] == pats[k + 1];
        assert SameCandidate(text, pats[1..], g);
        CascadeOfFailingCandidate(text, pats[1..], g);
      }
    case None =>
      assert i > 0;
      assert forall k :: 0 <= k < |pats[1..]| ==> pats[1..][k] == pats[k + 1];
      assert SameCandidate(text, pats[1..], g);
      CascadeOfOneCandidate(text, pats[1..], g, i - 1);
  }

  /** `datetime.strptime(s, '%Y-%m-%d').strftime('%A')`, or nothing when `s` does not parse. */
  function DayOfWeek(s: string): (r: Option<string>)
    ensures r.Some? <==> Strptime(s, YearFirst('-')).Some?
  {
    match Strptime(s, YearFirst('-'))
    case None => None
    case Some(d) => Some(DayName(Weekday(d)))
  }

  /** The beatdown date as `YYYY-MM-DD` text: absent exactly when no candidate parses, and
      otherwise text that parses back to the same existing date, so its weekday is defined. */
  function ExtractBdDate(text: string): (r: Option<string>)
    ensures r.None? <==> BdDate(text).None?
    ensures r.Some? ==> Strptime(r.value, YearFirst('-')) == BdDate(text)
    ensures r.Some? ==> DayOfWeek(r.value) == Some(DayName(Weekday(BdDate(text).value)))
  {
    match BdDate(text)
    case None => None
    case Some(d) =>
      IsoRoundTrip(d);
      Some(FormatIso(d))
  }

  // Reading fixed-width digit fields.

  lemma Number2(x: string)
    requires |x| == 2
    ensures Number(x) == 10 * (x[0] as int - '0' as int) + (x[1] as int - '0' as int)
  {
    assert x[..|x| - 1] == x[..1];
    assert x[..1][..0] == [];
    assert Number(x[..1]) == x[0] as int - '0' as int;
  }

  /** A two-digit month field followed by a separator is taken exactly when it is 01 to 12. */
  lemma MonthField(s: string, i: nat, sep: char)
    requires i + 3 <= |s| && IsDigit(s[i]) && IsDigit(s[i + 1]) && s[i + 2] == sep && !IsDigit(sep)
    ensures var n := Number(s[i..i + 2]);
      Pick(s, MonthChoices(s, i), Some(sep)) == if 1 <= n <= 12 then Some(Choice(n, i + 2)) else None
  {
    Number2(s[i..i + 2]);
    var cs := MonthChoices(s, i);
    if |cs| > 1 {
      assert cs[1].end == i + 1;
      assert !(s[i + 1] == sep);
    }
  }

  /** A two-digit day field followed by a separator is taken exactly when it is 01 to 31. */
  lemma DayFieldThen(s: string, i: nat, sep: char)
    requires i + 3 <= |s| && IsDigit(s[i]) && IsDigit(s[i + 1]) && s[i + 2] == sep && !IsDigit(sep)
    ensures var n := Number(s[i..i + 2]);
      Pick(s, DayChoices(s, i), Some(sep)) == if 1 <= n <= 31 then Some(Choice(n, i + 2)) else None
  {
    Number2(s[i..i + 2]);
    DayChoicesOfDigits(s, i);
  }

  /** A two-digit day field at the end is read whole exactly when it is 01 to 31; otherwise
      at most its first digit is read and the second is left over. */
  lemma DayFieldLast(s: string, i: nat)
    requires i + 2 == |s| && IsDigit(s[i]) && IsDigit(s[i + 1])
    ensures var n := Number(s[i..i + 2]); var r := Pick(s, DayChoices(s, i), None);
      (r.Some? && r.value.end == |s|) <==> 1 <= n <= 31
    ensures var n := Number(s[i..i + 2]);
      1 <= n <= 31 ==> Pick(s, DayChoices(s, i), None) == Some(Choice(n, i + 2))
  {
    var a := DigitAt(s, i);
    var b := DigitAt(s, i + 1);
    TwoDigits(s, i);
    DayChoicesOfDigits(s, i);
    var cs := DayChoices(s, i);
    var r := Pick(s, cs, None);
    var n := Number(s[i..i + 2]);
    assert n == 10 * a + b;
    assert r == if |cs| == 0 then None else Some(cs[0]);
    if a == 0 {
      if b == 0 {
        assert cs == [] && n == 0;
      } else {
        assert cs[0] == Choice(b, i + 2) && n == b;
      }
    } else if a <= 2 {
      assert cs[0] == Choice(n, i + 2) && 10 <= n <= 29;
    } else if a == 3 && b <= 1 {
      assert cs[0] == Choice(n, i + 2) && 30 <= n <= 31;
    } else {
      assert cs[0] == Choice(a, i + 1) && n >= 32;
    }
  }

  /** Two digits read as a number. */
  lemma TwoDigits(s: string, i: nat)
    requires i + 2 <= |s| && IsDigit(s[i]) && IsDigit(s[i + 1])
    ensures 0 <= DigitAt(s, i) <= 9 && 0 <= DigitAt(s, i + 1) <= 9
    ensures Number(s[i..i + 2]) == 10 * DigitAt(s, i) + DigitAt(s, i + 1)
  {
    var x := s[i..i + 2];
    Number2(x);
    assert x[0] == s[i] && x[1] == s[i + 1];
  }

  /** The day alternatives a pair of digits offers. */
  lemma DayChoicesOfDigits(s: string, i: nat)
    requires i + 2 <= |s| && IsDigit(s[i]) && IsDigit(s[i + 1])
    ensures var a := DigitAt(s, i); var b := DigitAt(s, i + 1);
      DayChoices(s, i) ==
        if a == 0 then (if b == 0 then [] else [Choice(b, i + 2)])
        else if a <= 2 then [Choice(10 * a + b, i + 2), Choice(a, i + 1)]
        else if a == 3 && b <= 1 then [Choice(30 + b, i + 2), Choice(3, i + 1)]
        else [Choice(a, i + 1)]
  {
  }

  lemma YearField(s: string, i: nat, sep: Option<char>)
    requires i + 4 <= |s| && forall k :: i <= k < i + 4 ==> IsDigit(s[k])
    requires sep.Some? ==> i + 4 < |s| && s[i + 4] == sep.value
    ensures Pick(s, YearChoices(s, i), sep) == Some(Choice(Number(s[i..i + 4]), i + 4))
  {
  }

  /** The date the digit fields of a candidate of the given shape spell. */
  function ShapeDate(s: string, shape: Shape): Date
    requires |s| == 10
  {
    match shape
    case MonthFirstSlashes => Date(Number(s[6..10]), Number(s[0..2]), Number(s[3..5]))
    case _ => Date(Number(s[0..4]), Number(s[5..7]), Number(s[8..10]))
  }

  lemma ShapeDigits(s: string, shape: Shape)
    requires FitsShape(s, shape)
    ensures shape != MonthFirstSlashes ==>
      (forall k :: 0 <= k < 4 ==> IsDigit(s[k])) && IsDigit(s[5]) && IsDigit(s[6]) && IsDigit(s[8]) && IsDigit(s[9])
    ensures shape == MonthFirstSlashes ==>
      (forall k :: 6 <= k < 10 ==> IsDigit(s[k])) && IsDigit(s[0]) && IsDigit(s[1]) && IsDigit(s[3]) && IsDigit(s[4])
    ensures shape == IsoDashes ==> s[4] == '-' && s[7] == '-'
    ensures shape == YearFirstSlashes ==> s[4] == '/' && s[7] == '/'
    ensures shape == MonthFirstSlashes ==> s[2] == '/' && s[5] == '/'
  {
    var t := Template(shape);
    assert |t| == 10;
    match shape
    case IsoDashes =>
      assert t[0] == t[1] == t[2] == t[3] == t[5] == t[6] == t[8] == t[9] == 'D' && t[4] == t[7] == '-';
    case YearFirstSlashes =>
      assert t[0] == t[1] == t[2] == t[3] == t[5] == t[6] == t[8] == t[9] == 'D' && t[4] == t[7] == '/';
    case MonthFirstSlashes =>
      assert t[0] == t[1] == t[3] == t[4] == t[6] == t[7] == t[8] == t[9] == 'D' && t[2] == t[5] == '/';
  }

  /** A year-first candidate parses, with its own separator, to the date it spells when that
      date exists, and to nothing otherwise. */
  lemma YearFirstShape(s: string, shape: Shape)
    requires shape != MonthFirstSlashes && FitsShape(s, shape)
    ensures Strptime(s, YearFirst(s[4])) == Checked(ShapeDate(s, shape))
  {
    ShapeDigits(s, shape);
    var d := ShapeDate(s, shape);
    YearField(s, 0, Some(s[4]));
    MonthField(s, 5, s[4]);
    DayFieldLast(s, 8);
    YearFirstPicks(s, s[4], d.year, d.month, d.day);
  }

  /** `Strptime` year-first, from what each of its three directives picks. */
  lemma YearFirstPicks(s: string, sep: char, y: int, m: int, d: int)
    requires |s| == 10
    requires Pick(s, YearChoices(s, 0), Some(sep)) == Some(Choice(y, 4))
    requires Pick(s, MonthChoices(s, 5), Some(sep)) == if 1 <= m <= 12 then Some(Choice(m, 7)) else None
    requires var r := Pick(s, DayChoices(s, 8), None); (r.Some? && r.value.end == |s|) <==> 1 <= d <= 31
    requires 1 <= d <= 31 ==> Pick(s, DayChoices(s, 8), None) == Some(Choice(d, 10))
    ensures Strptime(s, YearFirst(sep)) == Checked(Date(y, m, d))
  {
  }

  /** A month-first candidate parses to the date it spells when that date exists. */
  lemma MonthFirstShape(s: string)
    requires FitsShape(s, MonthFirstSlashes)
    ensures Strptime(s, MonthFirst('/')) == Checked(ShapeDate(s, MonthFirstSlashes))
  {
    ShapeDigits(s, MonthFirstSlashes);
    var d := ShapeDate(s, MonthFirstSlashes);
    MonthField(s, 0, '/');
    DayFieldThen(s, 3, '/');
    YearField(s, 6, None);
    MonthFirstPicks(s, d.year, d.month, d.day);
  }

  /** `Strptime` month-first, from what each of its three directives picks. */
  lemma MonthFirstPicks(s: string, y: int, m: int, d: int)
    requires |s| == 10
    requires Pick(s, MonthChoices(s, 0), Some('/')) == if 1 <= m <= 12 then Some(Choice(m, 2)) else None
    requires Pick(s, DayChoices(s, 3), Some('/')) == if 1 <= d <= 31 then Some(Choice(d, 5)) else None
    requires Pick(s, YearChoices(s, 6), None) == Some(Choice(y, 10))
    ensures Strptime(s, MonthFirst('/')) == Checked(Date(y, m, d))
  {
    if !(1 <= m <= 12) {
      assert !ValidDate(Date(y, m, d));
    } else if !(1 <= d <= 31) {
      assert !ValidDate(Date(y, m, d));
    } else {
      assert Pick(s, DayChoices(s, Choice(m, 2).end + 1), Some('/')) == Some(Choice(d, 5));
    }
  }

  /** How each shape of candidate normalises: dashes always year-first; slashes year-first
      only when the text starts with `20` and month-first otherwise, so a year-first candidate
      outside the 2000s and a month-first one whose month reads `20` never parse. */
  lemma NormaliseShape(s: string, shape: Shape)
    requires FitsShape(s, shape)
    ensures shape == IsoDashes ==> Normalise(s) == Checked(ShapeDate(s, shape))
    ensures shape == YearFirstSlashes ==>
      Normalise(s) == if StartsWith(s, "20") then Checked(ShapeDate(s, shape)) else None
    ensures shape == MonthFirstSlashes ==>
      Normalise(s) == if StartsWith(s, "20") then None else Checked(ShapeDate(s, shape))
  {
    match shape
    case IsoDashes => NormaliseDashes(s);
    case YearFirstSlashes => NormaliseYearSlashes(s);
    case MonthFirstSlashes => NormaliseMonthSlashes(s);
  }

  lemma NormaliseDashes(s: string)
    requires FitsShape(s, IsoDashes)
    ensures Normalise(s) == Checked(ShapeDate(s, IsoDashes))
  {
    ShapeDigits(s, IsoDashes);
    assert '/' !in s by {
      forall k | 0 <= k < |s| ensures s[k] != '/' {
        assert Template(IsoDashes)[k] == 'D' || Template(IsoDashes)[k] == '-';
      }
    }
    YearFirstShape(s, IsoDashes);
  }

  lemma NormaliseYearSlashes(s: string)
    requires FitsShape(s, YearFirstSlashes)
    ensures Normalise(s) == if StartsWith(s, "20") then Checked(ShapeDate(s, YearFirstSlashes)) else None
  {
    ShapeDigits(s, YearFirstSlashes);
    assert s[4] == '/';
    if StartsWith(s, "20") {
      YearFirstShape(s, YearFirstSlashes);
    } else {
      var cs := MonthChoices(s, 0);
      assert forall c :: c in cs ==> c.end == 1 || c.end == 2;
    }
  }

  lemma NormaliseMonthSlashes(s: string)
    requires FitsShape(s, MonthFirstSlashes)
    ensures Normalise(s) == if StartsWith(s, "20") then None else Checked(ShapeDate(s, MonthFirstSlashes))
  {
    ShapeDigits(s, MonthFirstSlashes);
    assert s[2] == '/';
    if StartsWith(s, "20") {
      assert YearChoices(s, 0) == [];
    } else {
      MonthFirstShape(s);
    }
  }

  /** Writing an existing date as `YYYY-MM-DD` and parsing it back gives the date. */
  lemma IsoRoundTrip(d: Date)
    requires ValidDate(d)
    ensures Strptime(FormatIso(d), YearFirst('-')) == Some(d)
  {
    var s := FormatIso(d);
    IsoFits(d);
    YearFirstShape(s, IsoDashes);
  }

  /** `YYYY-MM-DD` text of a date has the dash shape and spells the date. */
  lemma IsoFits(d: Date)
    requires ValidDate(d)
    ensures FitsShape(FormatIso(d), IsoDashes)
    ensures ShapeDate(FormatIso(d), IsoDashes) == d
  {
    var a, b, c := Padded(d.year, 4), Padded(d.month, 2), Padded(d.day, 2);
    IsoOfFields(a, b, c);
    NumberOfPadded(d.year, 4, 10000);
    NumberOfPadded(d.month, 2, 100);
    NumberOfPadded(d.day, 2, 100);
  }

  /** Three digit fields joined by dashes fit the dash shape, and the shape's fields are them. */
  lemma IsoOfFields(a: string, b: string, c: string)
    requires |a| == 4 && |b| == 2 && |c| == 2
    requires forall k :: 0 <= k < |a| ==> IsDigit(a[k])
    requires forall k :: 0 <= k < |b| ==> IsDigit(b[k])
    requires forall k :: 0 <= k < |c| ==> IsDigit(c[k])
    ensures FitsShape(a + "-" + b + "-" + c, IsoDashes)
    ensures var s := a + "-" + b + "-" + c; s[0..4] == a && s[5..7] == b && s[8..10] == c
  {
    var s := a + "-" + b + "-" + c;
    var t := Template(IsoDashes);
    assert t == "DDDD-DD-DD";
    forall k | 0 <= k < 10 ensures if t[k] == 'D' then IsDigit(s[k]) else s[k] == t[k] {
      if k < 4 { assert s[k] == a[k]; }
      else if 5 <= k < 7 { assert s[k] == b[k - 5]; }
      else if 8 <= k { assert s[k] == c[k - 8]; }
    }
    assert s[0..4] == a && s[5..7] == b && s[8..10] == c;
  }

  /** The weekday of an existing date written as `YYYY-MM-DD`. */
  lemma DayOfWeekOfIso(d: Date)
    requires ValidDate(d)
    ensures DayOfWeek(FormatIso(d)) == Some(DayName(Weekday(d)))
  {
    IsoRoundTrip(d);
  }

  // The cascade on a labelled candidate.

  /** No labelled date starts where the text has no `D` from there on. */
  lemma NoLabelFrom(text: string, from: nat, shape: Shape)
    requires forall k :: from <= k < |text| ==> text[k] != 'D'
    ensures forall p :: from <= p <= |text| ==> MatchAt(text, LabelledDate(shape), p).None?
  {
    forall p | from <= p <= |text| ensures !OccursAt(text, "DATE:", p) {
      if p + 5 <= |text| {
        assert text[p..p + 5][0] == text[p];
      }
    }
  }

  /** A candidate of some shape holds nothing but digits and its two separators. */
  lemma ShapeChars(s: string, shape: Shape)
    requires FitsShape(s, shape)
    ensures forall k :: 0 <= k < |s| ==> IsDigit(s[k]) || s[k] == '-' || s[k] == '/'
  {
    var t := Template(shape);
    forall k | 0 <= k < |s| ensures IsDigit(s[k]) || s[k] == '-' || s[k] == '/' {
      assert t[k] == 'D' || t[k] == '-' || t[k] == '/';
    }
  }

  /** A text fits at most one shape. */
  lemma ShapesExclusive(s: string, a: Shape, b: Shape)
    requires FitsShape(s, a) && FitsShape(s, b)
    ensures a == b
  {
    ShapeDigits(s, a);
    ShapeDigits(s, b);
  }

  lemma LabelledAtStart(s: string, shape: Shape, other: Shape)
    requires FitsShape(s, shape)
    ensures MatchAt("DATE: " + s, LabelledDate(other), 0) ==
      if other == shape then Some(Hit(0, 6, 16)) else None
  {
    var text := "DATE: " + s;
    ShapeDigits(s, shape);
    assert text[..5] == "DATE:" && text[5] == ' ';
    assert text[6..16] == s;
    LabelledHead(text, s, other);
    if other != shape && FitsShape(s, other) {
      ShapesExclusive(s, shape, other);
    }
  }

  /** A text that opens with `DATE:`, one space and a ten-character candidate not starting with
      white space matches a labelled pattern at 0 exactly when the candidate fits its shape. */
  lemma LabelledHead(text: string, s: string, shape: Shape)
    requires |text| >= 16 && |s| == 10 && !IsSpace(s[0])
    requires text[..5] == "DATE:" && text[5] == ' ' && text[6..16] == s
    ensures MatchAt(text, LabelledDate(shape), 0) ==
      if FitsShape(s, shape) then Some(Hit(0, 6, 16)) else None
  {
    assert OccursAt(text, "DATE:", 0);
    assert text[6] == s[0];
    assert SkipSpaces(text, 5) == 6;
  }

  /** The bare `YYYY-MM-DD` pattern can only match where the candidate starts. */
  lemma BareMatches(prefix: string, s: string)
    requires |prefix| == 6 && forall k :: 0 <= k < 6 ==> !IsDigit(prefix[k])
    requires |s| == 10
    ensures forall p :: 0 <= p <= 16 && p != 6 ==> MatchAt(prefix + s, BareIsoDate, p).None?
    ensures MatchAt(prefix + s, BareIsoDate, 6) ==
      if FitsShape(s, IsoDashes) then Some(Hit(6, 6, 16)) else None
  {
    var text := prefix + s;
    assert Template(IsoDashes)[0] == 'D';
    forall p | 0 <= p < 6 ensures MatchAt(text, BareIsoDate, p).None? {
      assert text[p..p + 10][0] == prefix[p];
    }
    assert text[6..16] == s;
  }

  /** After `DATE:` and a space, a candidate of any of the three shapes is the beatdown date
      exactly as it normalises: when it does not parse, no other pattern finds anything. */
  lemma LabelledCandidate(s: string, shape: Shape)
    requires FitsShape(s, shape)
    ensures BdDate("DATE: " + s) == Normalise(s)
  {
    var text := "DATE: " + s;
    LabelledFirsts(s, shape);
    BareFirst(s, shape);
    assert text[6..16] == s;
    CandidateHits(text, s);
    var pats := DatePatterns;
    var i := match shape case IsoDashes => 0 case YearFirstSlashes => 1 case MonthFirstSlashes => 2;
    assert pats[i] == LabelledDate(shape);
    CascadeOfOneCandidate(text, pats, s, i);
  }

  /** A labelled pattern can only match at 0 and the bare one only at 6, so every match of the
      cascade captures the ten characters after `DATE: `. */
  lemma CandidateHits(text: string, s: string)
    requires |text| >= 16 && text[6..16] == s
    requires forall other: Shape :: First(text, LabelledDate(other)).Some? ==>
               First(text, LabelledDate(other)).value == Hit(0, 6, 16)
    requires First(text, BareIsoDate).Some? ==> First(text, BareIsoDate).value == Hit(6, 6, 16)
    ensures SameCandidate(text, DatePatterns, s)
  {
    var pats := DatePatterns;
    forall k | 0 <= k < |pats| && First(text, pats[k]).Some?
      ensures Group(text, First(text, pats[k]).value) == s
    {
      if k == 3 {
        assert pats[k] == BareIsoDate;
      } else {
        assert pats[k] == LabelledDate(pats[k].shape);
      }
    }
  }

  /** After `DATE: `, only the labelled pattern of the candidate's own shape matches, at 0. */
  lemma LabelledFirsts(s: string, shape: Shape)
    requires FitsShape(s, shape)
    ensures forall other: Shape ::
              First("DATE: " + s, LabelledDate(other)) == (if other == shape then Some(Hit(0, 6, 16)) else None)
  {
    var text := "DATE: " + s;
    ShapeChars(s, shape);
    assert forall k :: 1 <= k < |text| ==> text[k] != 'D' by {
      forall k | 1 <= k < |text| ensures text[k] != 'D' {
        if k >= 6 { assert text[k] == s[k - 6]; }
      }
    }
    forall other: Shape ensures First(text, LabelledDate(other)) == if other == shape then Some(Hit(0, 6, 16)) else None {
      LabelledAtStart(s, shape, other);
      NoLabelFrom(text, 1, other);
      if other == shape {
        FirstIs(text, LabelledDate(other), 0);
      } else {
        FirstNone(text, LabelledDate(other));
      }
    }
  }

  /** After `DATE: `, the bare pattern finds the candidate exactly when it has dashes. */
  lemma BareFirst(s: string, shape: Shape)
    requires FitsShape(s, shape)
    ensures First("DATE: " + s, BareIsoDate) == if shape == IsoDashes then Some(Hit(6, 6, 16)) else None
  {
    var text := "DATE: " + s;
    BareMatches("DATE: ", s);
    if FitsShape(s, IsoDashes) {
      ShapesExclusive(s, shape, IsoDashes);
    }
    if shape == IsoDashes {
      FirstIs(text, BareIsoDate, 6);
    } else {
      FirstNone(text, BareIsoDate);
    }
  }

  /** The label is case-sensitive: after `Date:` a `YYYY-MM-DD` candidate is still found, by
      the bare pattern. */
  lemma UnlabelledCandidate(s: string)
    requires FitsShape(s, IsoDashes)
    ensures BdDate("Date: " + s) == Normalise(s)
  {
    var text := "Date: " + s;
    NoLabelledFirsts(s);
    BareMatches("Date: ", s);
    FirstIs(text, BareIsoDate, 6);
    assert text[6..16] == s;
    CandidateHits(text, s);
    CascadeOfOneCandidate(text, DatePatterns, s, 3);
  }

  /** With a label in the wrong case, none of the labelled patterns matches. */
  lemma NoLabelledFirsts(s: string)
    requires FitsShape(s, IsoDashes)
    ensures forall shape: Shape :: First("Date: " + s, LabelledDate(shape)).None?
  {
    var text := "Date: " + s;
    ShapeChars(s, IsoDashes);
    assert forall k :: 1 <= k < |text| ==> text[k] != 'D' by {
      forall k | 1 <= k < |text| ensures text[k] != 'D' {
        if k >= 6 { assert text[k] == s[k - 6]; }
      }
    }
    assert text[..5] != "DATE:" by { assert text[1] == 'a'; }
    forall shape: Shape ensures First(text, LabelledDate(shape)).None? {
      NoLabelFrom(text, 1, shape);
      FirstNone(text, LabelledDate(shape));
    }
  }

  /** The first labelled `YYYY-MM-DD` date wins, whatever follows it. */
  lemma FirstLabelledIsoWins(d: Date, rest: string)
    requires ValidDate(d)
    ensures BdDate("DATE: " + FormatIso(d) + rest) == Some(d)
  {
    var iso := FormatIso(d);
    var text := "DATE: " + iso + rest;
    NormaliseIso(d);
    IsoFits(d);
    LabelledAtHead(iso, rest);
    FirstIs(text, LabelledDate(IsoDashes), 0);
    assert First(text, DatePatterns[0]) == Some(Hit(0, 6, 16));
  }

  lemma NormaliseIso(d: Date)
    requires ValidDate(d)
    ensures Normalise(FormatIso(d)) == Some(d)
  {
    IsoFits(d);
    NormaliseShape(FormatIso(d), IsoDashes);
  }

  lemma LabelledAtHead(iso: string, rest: string)
    requires FitsShape(iso, IsoDashes)
    ensures MatchAt("DATE: " + iso + rest, LabelledDate(IsoDashes), 0) == Some(Hit(0, 6, 16))
    ensures Group("DATE: " + iso + rest, Hit(0, 6, 16)) == iso
  {
    var text := "DATE: " + iso + rest;
    ShapeDigits(iso, IsoDashes);
    assert text[..5] == "DATE:" && text[5] == ' ';
    assert text[6..16] == iso;
    LabelledHead(text, iso, IsoDashes);
  }

  /** An impossible labelled date is not replaced by a default: nothing is extracted. */
  lemma ImpossibleDateExample()
    ensures ExtractBdDate("DATE: " + "2023-02-30") == None
  {
    var s := "2023-02-30";
    ImpossibleDateFields();
    assert Normalise(s) == None by {
      NormaliseShape(s, IsoDashes);
    }
    assert BdDate("DATE: " + s) == None by {
        LabelledCandidate(s, IsoDashes);
    }
  }

  lemma ImpossibleDateFields()
    ensures FitsShape("2023-02-30", IsoDashes)
    ensures ShapeDate("2023-02-30", IsoDashes) == Date(2023, 2, 30)
  {
    var s := "2023-02-30";
    var t := Template(IsoDashes);
    assert t == "DDDD-DD-DD";
    forall k | 0 <= k < 10 ensures if t[k] == 'D' then IsDigit(s[k]) else s[k] == t[k] { }
    assert s[0..4] == "2023" && s[5..7] == "02" && s[8..10] == "30";
    assert Number("2023") == 2023 by { Number4("2023"); }
    assert Number("02") == 2 by { Number2("02"); }
    assert Number("30") == 30 by { Number2("30"); }
  }

  /** A month-first date is normalised to `YYYY-MM-DD`; 9 March 2024 was a Saturday. */
  lemma MonthFirstExample()
    ensures ExtractBdDate("DATE: " + "03/09/2024") == Some("2024-03-09")
    ensures DayOfWeek("2024-03-09") == Some("Saturday")
  {
    var s := "03/09/2024";
    var d := Date(2024, 3, 9);
    MonthFirstFields();
    LabelledCandidate(s, MonthFirstSlashes);
    NormaliseShape(s, MonthFirstSlashes);
    IsoOfExample();
    WeekdayOfExample();
    DayOfWeekOfIso(d);
  }

  lemma MonthFirstFields()
    ensures FitsShape("03/09/2024", MonthFirstSlashes)
    ensures !StartsWith("03/09/2024", "20")
    ensures ShapeDate("03/09/2024", MonthFirstSlashes) == Date(2024, 3, 9)
  {
    var s := "03/09/2024";
    var t := Template(MonthFirstSlashes);
    assert t == "DD/DD/DDDD";
    forall k | 0 <= k < 10 ensures if t[k] == 'D' then IsDigit(s[k]) else s[k] == t[k] { }
    assert s[6..10] == "2024" && s[0..2] == "03" && s[3..5] == "09";
    assert Number("2024") == 2024 by { Number4("2024"); }
    assert Number("03") == 3 by { Number2("03"); }
    assert Number("09") == 9 by { Number2("09"); }
  }

  lemma IsoOfExample()
    ensures FormatIso(Date(2024, 3, 9)) == "2024-03-09"
  {
    YearOfExample();
    PaddedOfExample();
  }

  lemma YearOfExample()
    ensures Padded(2024, 4) == "2024"
  {
    assert Padded(2, 1) == "2";
    assert Padded(20, 2) == "20";
    assert Padded(202, 3) == "202";
  }

  lemma PaddedOfExample()
    ensures Padded(3, 2) == "03" && Padded(9, 2) == "09"
  {
    assert Padded(0, 1) == "0";
  }

  lemma WeekdayOfExample()
    ensures Weekday(Date(2024, 3, 9)) == 5
  {
    assert DaysBeforeYear(2024) == 738885;
    assert DaysBeforeMonth(2024, 3) == 60;
  }

  lemma Number4(x: string)
    requires |x| == 4
    ensures Number(x) == 1000 * DigitAt(x, 0) + 100 * DigitAt(x, 1) + 10 * DigitAt(x, 2) + DigitAt(x, 3)
  {
    assert x[..3][..2] == x[..2];
    Number2(x[..2]);
  }

  /** The weekday parser also accepts dates without zero padding. */
  lemma UnpaddedWeekdayExample()
    ensures DayOfWeek("2024-3-9") == Some("Saturday")
  {
    var s := "2024-3-9";
    assert s[0..4] == "2024";
    Number4("2024");
    UnpaddedShape(s);
    WeekdayOfExample();
    DayOfWeekOf(s, Date(2024, 3, 9));
  }

  /** The weekday of a text that parses. */
  lemma DayOfWeekOf(s: string, d: Date)
    requires Strptime(s, YearFirst('-')) == Some(d)
    ensures DayOfWeek(s) == Some(DayName(Weekday(d)))
  {
  }

  /** `%Y-%m-%d` reads a single-digit month and day: `YYYY-M-D` parses to the date it spells
      when that date exists. */
  lemma UnpaddedShape(s: string)
    requires |s| == 8 && (forall k :: 0 <= k < 4 ==> IsDigit(s[k])) && s[4] == '-' && s[6] == '-'
    requires '1' <= s[5] <= '9' && '1' <= s[7] <= '9'
    ensures Strptime(s, YearFirst('-')) == Checked(Date(Number(s[0..4]), DigitAt(s, 5), DigitAt(s, 7)))
  {
    var y, m, d := Number(s[0..4]), DigitAt(s, 5), DigitAt(s, 7);
    YearField(s, 0, Some('-'));
    assert MonthChoices(s, 5) == [Choice(m, 6)];
    assert Pick(s, MonthChoices(s, 5), Some('-')) == Some(Choice(m, 6));
    assert DayChoices(s, 7) == [Choice(d, 8)];
    UnpaddedPicks(s, y, m, d);
  }

  /** `Strptime` year-first on `YYYY-M-D`, from what each of its three directives picks. */
  lemma UnpaddedPicks(s: string, y: int, m: int, d: int)
    requires |s| == 8
    requires Pick(s, YearChoices(s, 0), Some('-')) == Some(Choice(y, 4))
    requires Pick(s, MonthChoices(s, 5), Some('-')) == Some(Choice(m, 6))
    requires Pick(s, DayChoices(s, 7), None) == Some(Choice(d, 8))
    ensures Strptime(s, YearFirst('-')) == Checked(Date(y, m, d))
  {
  }

  /** A year-first date with slashes in the 2000s is normalised to dashes. */
  lemma YearFirstSlashExample()
    ensures ExtractBdDate("DATE: " + "2024/03/09") == Some("2024-03-09")
  {
    var s := "2024/03/09";
    YearFirstSlashFields();
    LabelledCandidate(s, YearFirstSlashes);
    NormaliseShape(s, YearFirstSlashes);
    IsoOfExample();
  }

  lemma YearFirstSlashFields()
    ensures FitsShape("2024/03/09", YearFirstSlashes)
    ensures StartsWith("2024/03/09", "20")
    ensures ShapeDate("2024/03/09", YearFirstSlashes) == Date(2024, 3, 9)
  {
    var s := "2024/03/09";
    var t := Template(YearFirstSlashes);
    assert t == "DDDD/DD/DD";
    forall k | 0 <= k < 10 ensures if t[k] == 'D' then IsDigit(s[k]) else s[k] == t[k] { }
    assert s[0..4] == "2024" && s[5..7] == "03" && s[8..10] == "09";
    assert Number("2024") == 2024 by { Number4("2024"); }
    assert Number("03") == 3 by { Number2("03"); }
    assert Number("09") == 9 by { Number2("09"); }
  }

  /** Month 13 does not parse, so there is no weekday. */
  lemma InvalidWeekdayExample()
    ensures DayOfWeek("2024-13-45") == None
  {
    var s := "2024-13-45";
    YearField(s, 0, Some('-'));
    assert Pick(s, YearChoices(s, 0), Some('-')).value.end == 4;
    var cs := MonthChoices(s, 5);
    assert cs == [Choice(1, 6)];
    assert s[6] == '3';
    assert Pick(s, cs[1..], Some('-')) == None;
    assert Pick(s, cs, Some('-')) == None;
  }
}
