/** Turning a stored beatdown row into a parsed beatdown: every field is read from the
    backblast text by the parsers of the other modules. */
module Beatdown {
  import opened Wrappers
  import opened Text
  import opened Patterns
  import opened Attendees
  import opened Attendance
  import opened Calendar
  import opened Dates
  import opened Workout
  import opened Content

  /** The stored columns the parser reads; timestamps are passed through as they are. */
  datatype Row = Row(backblast: Option<string>, timestamp: Option<string>, tsEdited: Option<string>)

  datatype ParsedBeatdown = ParsedBeatdown(
    timestamp: string,
    lastEdited: Option<string>,
    rawBackblast: string,
    title: Option<string>,
    qUserId: Option<string>,
    coqUserIds: Option<set<string>>,
    pax: Option<set<string>>,
    nonRegisteredPax: Option<set<string>>,
    fngs: set<string>,
    warmup: Option<string>,
    thang: Option<string>,
    mary: Option<string>,
    announcements: Option<string>,
    cot: Option<string>,
    bdDate: Option<string>,
    workoutType: WorkoutType,
    dayOfWeek: Option<string>,
    hasAnnouncements: bool,
    hasCot: bool,
    wordCount: nat,
    paxCount: nat,
    fngCount: nat
  )

  /** The first line of a non-empty text, stripped; nothing for the empty text. */
  function Title(text: string): (r: Option<string>)
    ensures r.None? <==> text == []
    ensures r.Some? ==> IsStripped(r.value) && '\n' !in r.value
  {
    if text == [] then None
    else
      var line := text[..LineEnd(text, 0)];
      assert '\n' !in line;
      Some(Strip(line))
  }

  /** The title is the first line: whatever follows the first line break is ignored. */
  lemma TitleIsFirstLine(a: string, b: string)
    requires '\n' !in a
    ensures Title(a + "\n" + b) == Some(Strip(a))
  {
    var text := a + "\n" + b;
    assert text[|a|] == '\n';
    forall k | 0 <= k < |a| ensures text[k] != '\n' { assert text[k] == a[k]; }
    LineEndIs(text, 0, |a|);
    assert text[..|a|] == a;
  }

  /** One of the registered ids on the Q line, if it has any. Which one is left open: the
      ids are gathered in a set and the first of its iteration order is taken. */
  ghost function QUserId(text: string): (r: Option<string>)
    ensures r.None? <==> LineRoster(text, "Q").ids == {}
    ensures r.Some? ==> r.value in LineRoster(text, "Q").ids
  {
    var ids := LineRoster(text, "Q").ids;
    if ids == {} then None else var id :| id in ids; Some(id)
  }

  /** The registered ids on the first `COQ:` line, or nothing when there are none. */
  function CoqUserIds(text: string): (r: Option<set<string>>)
    ensures r.None? <==> LineRoster(text, "COQ").ids == {}
    ensures r.Some? ==> r.value == LineRoster(text, "COQ").ids
  {
    var ids := LineRoster(text, "COQ").ids;
    if ids == {} then None else Some(ids)
  }

  /** The ids and the names of the first `PAX:` line, each possibly empty; nothing for either
      when there is no such line. */
  function PaxLists(text: string): (r: (Option<set<string>>, Option<set<string>>))
    ensures r.0.Some? <==> HeaderValue(text, "PAX").Some?
    ensures r.1.Some? <==> HeaderValue(text, "PAX").Some?
    ensures r.0.Some? ==> r.0.value == LineRoster(text, "PAX").ids && r.1.value == LineRoster(text, "PAX").names
  {
    match HeaderValue(text, "PAX")
    case None => (None, None)
    case Some(v) => var r := ParsePax(v); (Some(r.ids), Some(r.names))
  }

  /** The parsed beatdown of a row, field by field. */
  ghost function Parse(row: Row): (b: ParsedBeatdown)
    ensures b.rawBackblast == row.backblast.GetOr([])
    ensures WellFormed(b)
  {
    var text := row.backblast.GetOr([]);
    var (pax, guests) := PaxLists(text);
    var date := ExtractBdDate(text);
    var b := ParsedBeatdown(
      timestamp := row.timestamp.GetOr([]),
      lastEdited := row.tsEdited,
      rawBackblast := text,
      title := Title(text),
      qUserId := QUserId(text),
      coqUserIds := CoqUserIds(text),
      pax := pax,
      nonRegisteredPax := guests,
      fngs := FngNames(text),
      warmup := Section(text, "WARMUP"),
      thang := Thang(text),
      mary := Section(text, "MARY"),
      announcements := Section(text, "ANNOUNCEMENTS"),
      cot := Section(text, "COT"),
      bdDate := date,
      workoutType := WorkoutOf(text),
      dayOfWeek := if date.Some? then DayOfWeek(date.value) else None,
      hasAnnouncements := HasSection(text, "ANNOUNCEMENTS"),
      hasCot := HasSection(text, "COT"),
      wordCount := WordCount(text),
      paxCount := PaxCount(text),
      fngCount := FngCount(text)
    );
    ParseWellFormed(text, b);
    b
  }

  /** What holds between the fields of every parsed beatdown: first-timers are guests of the
      PAX line and counted once each, a weekday is there exactly when a date is and belongs
      to it, the content flags agree with their sections, and the Q is on the Q line. */
  ghost predicate WellFormed(b: ParsedBeatdown) {
    var text := b.rawBackblast;
    (b.nonRegisteredPax.Some? ==> b.fngs <= b.nonRegisteredPax.value)
    && (b.nonRegisteredPax.None? ==> b.fngs == {})
    && b.fngCount == |b.fngs|
    && (b.pax.Some? <==> b.nonRegisteredPax.Some?)
    && (b.dayOfWeek.Some? <==> b.bdDate.Some?)
    && (b.bdDate.Some? ==> exists d :: ValidDate(d) && b.bdDate.value == FormatIso(d)
                                       && b.dayOfWeek == Some(DayName(Weekday(d))))
    && (b.hasAnnouncements <==> b.announcements.Some? && b.announcements.value != [])
    && (b.hasCot <==> b.cot.Some? && b.cot.value != [])
    && (b.title.None? <==> text == [])
    && (b.qUserId.Some? ==> b.qUserId.value in LineRoster(text, "Q").ids)
    && b.paxCount == |People(LineRoster(text, "Q")) + People(LineRoster(text, "PAX"))|
  }

  lemma ParseWellFormed(text: string, b: ParsedBeatdown)
    requires b.rawBackblast == text
    requires (b.pax, b.nonRegisteredPax) == PaxLists(text)
    requires b.fngs == FngNames(text) && b.fngCount == FngCount(text)
    requires b.bdDate == ExtractBdDate(text)
    requires b.dayOfWeek == if b.bdDate.Some? then DayOfWeek(b.bdDate.value) else None
    requires b.announcements == Section(text, "ANNOUNCEMENTS") && b.cot == Section(text, "COT")
    requires b.hasAnnouncements == HasSection(text, "ANNOUNCEMENTS") && b.hasCot == HasSection(text, "COT")
    requires b.title == Title(text) && b.qUserId == QUserId(text) && b.paxCount == PaxCount(text)
    ensures WellFormed(b)
  {
    HeadcountIsPeople(text);
    if b.bdDate.Some? {
      var d := BdDate(text).value;
      assert b.bdDate.value == FormatIso(d);
    }
  }

  /** A row without a backblast parses to an empty beatdown: no title, people, sections or
      date, a bootcamp of no words. */
  lemma EmptyRow(timestamp: Option<string>, tsEdited: Option<string>)
    ensures var b := Parse(Row(None, timestamp, tsEdited));
      b.title.None? && b.qUserId.None? && b.coqUserIds.None? && b.pax.None? && b.fngs == {}
      && b.warmup.None? && b.thang.None? && b.cot.None? && b.bdDate.None? && b.dayOfWeek.None?
      && b.workoutType == Bootcamp && !b.hasCot && b.wordCount == 0 && b.paxCount == 0 && b.fngCount == 0
  {
    var text: string := [];
    var b := Parse(Row(None, timestamp, tsEdited));
    assert b.rawBackblast == text;
    EmptyLines();
    EmptySections();
    EmptyDate();
    EmptyWork();
  }

  lemma EmptyLines()
    ensures LineRoster([], "Q") == Roster({}, {}) && LineRoster([], "COQ") == Roster({}, {})
    ensures HeaderValue([], "PAX").None? && FngValue([]).None?
  {
    assert MatchAt([], Header("Q"), 0).None?;
    assert MatchAt([], Header("COQ"), 0).None?;
    assert MatchAt([], Header("PAX"), 0).None?;
    assert MatchAt([], FngHeader, 0).None?;
  }

  lemma EmptySections()
    ensures Section([], "WARMUP").None? && Section([], "COT").None?
    ensures Section([], "THANG").None? && Section([], "THE THANG").None?
  {
    EmptySection("WARMUP");
    EmptySection("COT");
    EmptySection("THANG");
    EmptySection("THE THANG");
  }

  lemma EmptySection(name: string)
    ensures Section([], name).None?
  {
    assert !OccursAt([], ":", |name|);
    assert MatchAt([], InlineSection(name), 0).None?;
    assert MatchAt([], BlockSection(name), 0).None?;
  }

  lemma EmptyDate()
    ensures ExtractBdDate([]).None?
  {
    forall k | 0 <= k < |DatePatterns| ensures First([], DatePatterns[k]).None? {
      assert MatchAt([], DatePatterns[k], 0).None?;
    }
    CascadeOfNoMatches([], DatePatterns);
  }

  lemma EmptyWork()
    ensures WorkoutOf([]) == Bootcamp && WordCount([]) == 0
  {
    assert MatchAt([], RuckWord, 0).None?;
    assert MatchAt([], CountLine, 0).None? && MatchAt([], CountThenRest, 0).None?;
    assert Metadata([]) == [];
  }
}
