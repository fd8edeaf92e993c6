# Backblast parser model

A Dafny model of the backblast parser of `f3-nation-data`. A backblast is the free-text
report an F3 workout leader posts after a beatdown. It has header lines such as `Q:`,
`PAX:`, `FNG:`, `DATE:` and `COUNT:`, and sections such as `WARMUP:`, `THANG:` and `COT:`.
The parser turns a stored beatdown row into a parsed beatdown. It reads:

- the Q and co-Q;
- the attendees, split into registered Slack users (`<@ID>` mentions) and guests known
  only by display name;
- the first-timers (FNGs);
- a headcount computed from the Q and PAX lines, never from the author's `COUNT:`;
- the beatdown date, normalised to `YYYY-MM-DD`, and its weekday;
- bootcamp versus ruck;
- the named sections, the word count of the narrative after `COUNT:`, and the attached
  file links from the row's JSON.

Modules, in dependency order:

- `Wrappers`: `Option`.
- `Text`: Python string operations as the parser uses them. This covers `strip`, `split`,
  `lower`, `in`, `replace`, `re.sub(r'\s+', ' ', …)` and `split()` with no argument.
- `Patterns`: every regular expression of the parser as a matcher at one position.
  `Search` gives `re.search`'s leftmost match.
- `Attendees`: splitting one attendee line into Slack ids and guest names.
- `Attendance`: the `Q:`/`PAX:`/`FNG:` lines, the headcount and the first-timers.
- `Calendar`: the proleptic Gregorian calendar of `datetime`: valid dates, day numbers,
  weekdays and `%Y-%m-%d` text.
- `Dates`: `strptime` for the three layouts used, the date cascade, and the weekday.
- `Workout`: bootcamp or ruck.
- `Content`: the narrative after `COUNT:`, the word count and the named sections.
- `Files`: file links from the decoded JSON document.
- `Beatdown`: the row-to-beatdown assembler and the invariant its result satisfies.

## Model

| member | source | states |
|---|---|---|
| Text.LowerEquates | f3_nation_data/parsing/backblast.py:186 | two texts lower-case to the same text exactly when they have the same length and agree letter by letter up to ASCII case |
| Text.LowerConcat | f3_nation_data/parsing/backblast.py:115 | lower-casing distributes over concatenation, so a lower-cased substring occurs in the lower-cased text |
| Text.LowerIdempotent | f3_nation_data/parsing/backblast.py:112-115 | lower-cased text has no upper-case letter, and lower-casing it again changes nothing |
| Text.Strip | f3_nation_data/parsing/backblast.py:28-37 | the result has no whitespace at either end; it is empty exactly when the input is all whitespace; it is a slice of the input with only whitespace around it |
| Text.StripPadded | f3_nation_data/parsing/backblast.py:37 | stripping a stripped text padded with whitespace gives the text back |
| Text.Contains | f3_nation_data/parsing/backblast.py:115 | the substring test holds exactly when the text occurs at some index |
| Text.OccursTransitive | f3_nation_data/parsing/backblast.py:115 | a substring of a substring is a substring |
| Text.Split | f3_nation_data/parsing/backblast.py:37 | splitting on a separator gives at least one part; no part contains the separator; joining the parts gives the input back |
| Text.SplitJoin | f3_nation_data/parsing/backblast.py:37 | splitting the join of separator-free parts gives the parts back |
| Text.CollapseSpaces | f3_nation_data/parsing/backblast.py:32 | the result is single-spaced, empty only for empty input, and starts with the input's first non-space character; its content is fixed by WordsOfCollapse and CollapseKeepsNonSpace |
| Text.WordsOfCollapse | f3_nation_data/parsing/backblast.py:32 | collapsing whitespace runs keeps the words: the maximal runs of non-whitespace are the same, in order |
| Text.CollapseKeepsNonSpace | f3_nation_data/parsing/backblast.py:32 | collapsing loses no character other than whitespace |
| Text.CollapseWord | f3_nation_data/parsing/backblast.py:32 | a leading run of non-whitespace passes through collapsing unchanged |
| Text.CollapseSingleSpaced | f3_nation_data/parsing/backblast.py:32 | a text that is already single-spaced is left unchanged |
| Text.CollapseIdempotent | f3_nation_data/parsing/backblast.py:32 | collapsing twice is the same as collapsing once |
| Text.ReplaceAll | f3_nation_data/parsing/backblast.py:34 | a same-length replacement keeps the length; every character of the result comes from the text or from the replacement |
| Text.ReplaceAbsent | f3_nation_data/parsing/backblast.py:34 | replacing a pattern that does not occur changes nothing |
| Text.ReplacePrefix | f3_nation_data/parsing/backblast.py:34 | a prefix in which the pattern cannot start is copied as it is |
| Text.ReplaceAtPattern | f3_nation_data/parsing/backblast.py:34 | an occurrence at the start is replaced and the scan carries on after it |
| Text.Words | f3_nation_data/parsing/backblast.py:269 | argument-less `split()` gives non-empty words without whitespace; WordsJoined fixes where they start and end |
| Text.WordsOfWord | f3_nation_data/parsing/backblast.py:269 | a non-empty run of non-whitespace followed by whitespace or the end is the first word |
| Text.JoinWordsStripped | f3_nation_data/parsing/backblast.py:269 | on stripped text, the words joined by single spaces are the text with its whitespace runs collapsed |
| Text.WordsJoined | f3_nation_data/parsing/backblast.py:269 | the words joined by single spaces are the stripped text with every whitespace run made one space, so the words are exactly the maximal runs of non-whitespace |
| Text.WordsAsSplit | f3_nation_data/parsing/backblast.py:269 | `split()` is empty for blank text and otherwise the single-space split of the stripped, collapsed text |
| Text.WordsKeepNonSpace | f3_nation_data/parsing/backblast.py:269 | the words glued together are exactly the non-whitespace characters of the text |
| Text.WordsOfStrip | f3_nation_data/parsing/backblast.py:269 | surrounding whitespace does not change the words |
| Patterns.Search | f3_nation_data/parsing/backblast.py:151 | a search finds the leftmost position where the pattern matches, and finds nothing only when it matches nowhere |
| Patterns.SectionEnd | f3_nation_data/parsing/backblast.py:421 | the lazy block group stops at the first header-like line at or after its start, or at the end of the text |
| Patterns.FirstOfExtension | f3_nation_data/parsing/backblast.py:68 | appending text keeps the search result when no position of the original text changes its match and nothing matches in the appended part |
| Attendees.MentionParts | f3_nation_data/parsing/backblast.py:41-44 | an item is a mention exactly when it is `<@` + an uppercase-alphanumeric id + `>`, and the id is recovered from it |
| Attendees.Normalize | f3_nation_data/parsing/backblast.py:28-34 | the normalised text is empty exactly when the input is all whitespace |
| Attendees.ParseNormal | f3_nation_data/parsing/backblast.py:28-37 | text that is already stripped, single-spaced and free of ` <@` is cut at its commas as it stands |
| Attendees.SpacedMentionsNormal | f3_nation_data/parsing/backblast.py:31-34 | mentions separated by single spaces normalise to the same mentions separated by commas |
| Attendees.RenderShape | f3_nation_data/parsing/backblast.py:28-32 | a rendered roster line is non-empty, stripped and single-spaced, which is what lets it pass normalisation unchanged |
| Attendees.Items | f3_nation_data/parsing/backblast.py:37 | the items are non-empty and stripped, and contain no comma when the pieces contain none |
| Attendees.ItemsOfClean | f3_nation_data/parsing/backblast.py:37 | pieces that are already non-empty and stripped are kept as they are |
| Attendees.Classify | f3_nation_data/parsing/backblast.py:39-47 | an id is registered exactly when its mention is an item; a name is a guest exactly when it is an item that does not start with `<@` and is not `None` or `N/A` |
| Attendees.ParsePax | f3_nation_data/parsing/backblast.py:16-49 | a blank line gives nobody; every id has the Slack id shape; every guest name is valid, stripped and free of commas |
| Attendees.ParseRender | f3_nation_data/parsing/backblast.py:16-49 | parsing the comma-separated mentions and names of a roster gives back the sets of its ids and names |
| Attendees.ParseSpacedMentions | tests/parsing/test_extract_pax_from_string.py:87-92 | mentions separated only by spaces are all found |
| Attendees.MentionThenNameDropped | f3_nation_data/parsing/backblast.py:34-47 | a mention followed by a space and a name yields nobody: the joined item is neither a mention nor a guest |
| Attendance.HeaderValue | f3_nation_data/parsing/backblast.py:67-70 | the value of the first `KEY:` line is stripped; it is absent exactly when no line starts with `KEY:` |
| Attendance.FngValue | f3_nation_data/parsing/backblast.py:108-112 | the value of the first `FNG:`/`FNGS:` line, matched in any case, is stripped; it is absent exactly when there is no such line |
| Attendance.HeaderValueIsFirst | f3_nation_data/parsing/backblast.py:67-70 | after a prefix with no `KEY:` line, the value is the stripped rest of the first `KEY:` line, with or without whitespace after the colon, whatever follows, including further `KEY:` lines |
| Attendance.FngValueIsFirst | f3_nation_data/parsing/backblast.py:108-112 | after a prefix with no FNG line, the value is the stripped rest of the first `FNG:`/`FNGS:` line in any case, with or without whitespace after the colon, whatever follows |
| Attendance.FngLineExample | tests/parsing/test_transformation.py:41 | `FNG: John` gives the first-timer value `John` |
| Attendance.LineRoster | f3_nation_data/parsing/backblast.py:67-73 | without a `KEY:` line the roster is empty; its ids have the Slack id shape and its names are valid, stripped guest names without commas |
| Attendance.LineRosterOfLine | f3_nation_data/parsing/backblast.py:67-73 | a `KEY:` line holding a rendered roster, after any whitespace following the colon and a prefix with no such line, gives back the sets of that roster's ids and names |
| Attendance.PaxLineExample | tests/parsing/test_transformation.py:40 | `PAX: <@U1>,John` gives the id `U1` and the guest `John` |
| Attendance.PaxCount | f3_nation_data/parsing/backblast.py:63-84 | the headcount is at least the size of the Q roster and of the PAX roster, and zero exactly when both are empty |
| Attendance.HeadcountIsPeople | f3_nation_data/parsing/backblast.py:63-84 | the headcount is the number of different people on the Q and PAX lines together; a registered id and a guest name never coincide |
| Attendance.FngNames | f3_nation_data/parsing/backblast.py:97-117 | without an FNG line there are no first-timers; otherwise a name is one exactly when it is a PAX guest whose lower-case form occurs in the lower-cased FNG value |
| Attendance.FngBySubstring | f3_nation_data/parsing/backblast.py:115 | a PAX guest whose name occurs inside a first-timer's name is a first-timer too |
| Attendance.FngCount | f3_nation_data/parsing/backblast.py:120-130 | the number of first-timers is at most the number of PAX guests and at most the headcount |
| Attendance.CountLineIgnored | tests/parsing/test_extract_pax_count.py:88-101 | a `COUNT:` line appended as the last line to a text that ends in neither whitespace nor `:`, whatever the line says, changes neither the headcount nor the first-timers |
| Attendance.HeaderValueIgnoresCountLine | f3_nation_data/parsing/backblast.py:61-70 | a `COUNT:` line appended as the last line to a text that ends in neither whitespace nor `:` leaves the `Q:` and `PAX:` values unchanged |
| Attendance.FngValueIgnoresCountLine | f3_nation_data/parsing/backblast.py:108-112 | a `COUNT:` line appended as the last line to a text that ends in neither whitespace nor `:` leaves the FNG value unchanged |
| Attendance.EmptyHeaderTakesNextLine | f3_nation_data/parsing/backblast.py:67 | a header with nothing after its colon takes the next line as its value, because the whitespace after the colon runs over the line break |
| Calendar.DaysInMonth | f3_nation_data/parsing/backblast.py:168-170 | every month has 28 to 31 days |
| Calendar.Weekday | f3_nation_data/parsing/backblast.py:223-224 | the weekday index lies in 0..6 |
| Calendar.NextDayOrdinal | f3_nation_data/parsing/backblast.py:223-224 | the day after a valid date is valid and has the next day number |
| Calendar.NextDayWeekday | f3_nation_data/parsing/backblast.py:223-224 | consecutive days have consecutive weekdays |
| Calendar.OrdinalMonotone | f3_nation_data/parsing/backblast.py:223-224 | a later valid date has a larger day number |
| Calendar.Padded | f3_nation_data/parsing/backblast.py:171 | zero padding gives exactly the width, in decimal digits |
| Calendar.NumberOfPadded | f3_nation_data/parsing/backblast.py:171 | reading a padded number back gives the number |
| Calendar.FormatIso | f3_nation_data/parsing/backblast.py:171 | `%Y-%m-%d` text is ten characters with dashes at positions 4 and 7 |
| Dates.MonthChoices | f3_nation_data/parsing/backblast.py:158-170 | each `%m` alternative reads one or two characters with a value from 1 to 12 |
| Dates.DayChoices | f3_nation_data/parsing/backblast.py:158-170 | each `%d` alternative reads one or two characters with a value from 1 to 31 |
| Dates.YearField | f3_nation_data/parsing/backblast.py:158-170 | four digits followed by the separator, or ending the text, are read as the year they spell |
| Dates.Pick | f3_nation_data/parsing/backblast.py:158-170 | the chosen alternative is one of those offered and is followed by the separator; a last directive takes the first alternative |
| Dates.PickFirstFollowed | f3_nation_data/parsing/backblast.py:158-170 | the engine takes the first alternative followed by the separator, and fails exactly when none is |
| Dates.Strptime | f3_nation_data/parsing/backblast.py:158-170 | a parsed date always exists |
| Dates.MonthField | f3_nation_data/parsing/backblast.py:158-166 | a two-digit month followed by a separator is accepted exactly when it is 01 to 12 |
| Dates.DayFieldThen | f3_nation_data/parsing/backblast.py:163-166 | a two-digit day followed by a separator is accepted exactly when it is 01 to 31 |
| Dates.DayFieldLast | f3_nation_data/parsing/backblast.py:158-170 | a final two-digit day is read whole exactly when it is 01 to 31 |
| Dates.YearFirstShape | f3_nation_data/parsing/backblast.py:158-170 | a `DDDD-DD-DD` or `DDDD/DD/DD` candidate parses to the date its digits spell when that date exists, and to nothing otherwise |
| Dates.MonthFirstShape | f3_nation_data/parsing/backblast.py:163-166 | a `DD/DD/DDDD` candidate parses to the date its digits spell when that date exists, and to nothing otherwise |
| Dates.Normalise | f3_nation_data/parsing/backblast.py:156-170 | a normalised candidate is always a date that exists |
| Dates.NormaliseShape | f3_nation_data/parsing/backblast.py:156-170 | dashes are read year-first; slashes are read year-first only after a leading `20`, otherwise month-first; so a slashed year outside 2000-2099 and a month-first date whose month reads `20` never parse |
| Dates.Cascade | f3_nation_data/parsing/backblast.py:150-174 | a date found by the cascade exists |
| Dates.CascadeOfNoMatches | f3_nation_data/parsing/backblast.py:150-174 | when no pattern matches anywhere, no date is found |
| Dates.CascadeOfOneCandidate | f3_nation_data/parsing/backblast.py:150-174 | when every matching pattern captures the same candidate, the date is that candidate's normalisation, whichever pattern found it first |
| Dates.CascadeOfFailingCandidate | f3_nation_data/parsing/backblast.py:150-174 | when every match captures a candidate that does not parse, the `ValueError` of each attempt passes the turn on and no date is found |
| Dates.BdDate | f3_nation_data/parsing/backblast.py:133-174 | the beatdown date exists |
| Dates.ExtractBdDate | f3_nation_data/parsing/backblast.py:133-174 | the text is absent exactly when no candidate parses; otherwise it parses back to the same date and has that date's weekday |
| Dates.DayOfWeek | f3_nation_data/parsing/backblast.py:212-227 | a weekday is given exactly when the text parses as `%Y-%m-%d` |
| Dates.IsoRoundTrip | f3_nation_data/parsing/backblast.py:168-171 | writing a valid date as `YYYY-MM-DD` and parsing it back gives the date |
| Dates.IsoFits | f3_nation_data/parsing/backblast.py:171 | `YYYY-MM-DD` text of a date has the dash shape and spells the date |
| Dates.DayOfWeekOfIso | f3_nation_data/parsing/backblast.py:223-224 | the weekday of a date's ISO text is that date's weekday name |
| Dates.ShapesExclusive | f3_nation_data/parsing/backblast.py:143-148 | no candidate fits two of the three shapes |
| Dates.LabelledCandidate | f3_nation_data/parsing/backblast.py:143-174 | after `DATE: `, a candidate of any shape yields exactly its normalisation; when that fails, no later pattern finds anything else |
| Dates.UnlabelledCandidate | f3_nation_data/parsing/backblast.py:143-151 | the `DATE:` label is case-sensitive; after `Date: ` a `YYYY-MM-DD` candidate is still found by the bare pattern |
| Dates.FirstLabelledIsoWins | f3_nation_data/parsing/backblast.py:150-171 | the first labelled `YYYY-MM-DD` date wins whatever text follows |
| Dates.ImpossibleDateExample | tests/parsing/test_date_extraction.py:118 | `DATE: 2023-02-30` yields no date |
| Dates.MonthFirstExample | tests/parsing/test_date_extraction.py:114 | `DATE: 03/09/2024` yields `2024-03-09`, a Saturday |
| Dates.WeekdayOfExample | f3_nation_data/parsing/backblast.py:223-224 | 9 March 2024 has weekday index 5, a Saturday, anchoring the weekday arithmetic |
| Dates.YearFirstSlashExample | tests/parsing/test_date_extraction.py:113 | `DATE: 2024/03/09` yields `2024-03-09` |
| Dates.UnpaddedShape | f3_nation_data/parsing/backblast.py:223 | `%Y-%m-%d` also reads `YYYY-M-D` with a single-digit month and day, giving the date it spells when that date exists |
| Dates.UnpaddedWeekdayExample | f3_nation_data/parsing/backblast.py:223 | the weekday parser also accepts `2024-3-9` |
| Dates.InvalidWeekdayExample | tests/parsing/test_date_extraction.py:155 | `2024-13-45` has no weekday |
| Workout.MetadataEnd | f3_nation_data/parsing/backblast.py:198-201 | the metadata ends at the first `COUNT:` line, or at the end when there is none |
| Workout.Metadata | f3_nation_data/parsing/backblast.py:201 | the metadata is the lower-cased text before that point |
| Workout.WorkoutOf | f3_nation_data/parsing/backblast.py:177-209 | a ruck exactly when the warm-up and thang headers are not both present and a ruck word occurs in the metadata |
| Workout.MetadataBeforeCount | f3_nation_data/parsing/backblast.py:198-201 | with one appended `COUNT:` line, the metadata is everything before that line |
| Workout.RuckAfterCountIgnored | f3_nation_data/parsing/backblast.py:203-206 | ruck words after the `COUNT:` line do not make a ruck |
| Workout.RuckWithoutCount | f3_nation_data/parsing/backblast.py:198-206 | without a `COUNT:` line, a ruck word anywhere decides, unless the bootcamp headers are there |
| Content.AfterCount | f3_nation_data/parsing/backblast.py:318-331 | the narrative is stripped; it is absent exactly when no `COUNT:` line is followed by a line break |
| Content.AfterCountIsRest | f3_nation_data/parsing/backblast.py:327-330 | after a single `COUNT:` line the narrative is the rest of the text, stripped |
| Content.CountedText | f3_nation_data/parsing/backblast.py:265-266 | the counted text is the narrative after `COUNT:` when that is non-empty, and otherwise the whole text; a blank result is the whole text |
| Content.WordCount | f3_nation_data/parsing/backblast.py:256-270 | the count is at most the length of the counted text, and zero exactly when that text is blank |
| Content.WordCountIsPieces | f3_nation_data/parsing/backblast.py:265-270 | the count is the number of single-space pieces of the counted text once stripped and collapsed, and zero when it is blank |
| Content.WordCountAfterCount | f3_nation_data/parsing/backblast.py:265-270 | only the words of a non-blank narrative are counted |
| Content.BlankNarrativeCountsAll | f3_nation_data/parsing/backblast.py:265 | a blank narrative falls back to the words of the whole text |
| Content.Section | f3_nation_data/parsing/backblast.py:412-426 | a section's text is stripped; it is absent exactly when neither the inline nor the block form matches anywhere |
| Content.HasSection | f3_nation_data/parsing/backblast.py:230-253 | the flag holds exactly when the section is present and not empty |
| Content.Thang | f3_nation_data/parsing/backblast.py:369-372 | `THANG` is used unless it is absent or empty; then `THE THANG` is used |
| Content.InlineSectionValue | f3_nation_data/parsing/backblast.py:414-418 | `NAME: text` gives the stripped text, with the header in any letter case and any blanks after the colon |
| Content.BlockSectionBody | f3_nation_data/parsing/backblast.py:420-424 | `NAME:` alone on its line gives the stripped lines below it |
| Content.BlankInlineHidesBlock | f3_nation_data/parsing/backblast.py:414-418 | blanks after `NAME:` make the inline form match with empty text, so the block below is never read and the content flag is false |
| Content.InlineSectionAfter | f3_nation_data/parsing/backblast.py:414-418 | after a prefix with no inline match, the first inline `NAME: text` line, with the header in any case and any blanks after the colon, gives its stripped text even when a block form comes earlier |
| Content.AnnouncementExample | tests/parsing/test_content_analysis.py:91 | `ANNOUNCEMENTS: Welcome new PAX!` gives `Welcome new PAX!` |
| Content.BlockEndsAtHeader | f3_nation_data/parsing/backblast.py:420-424 | a block body ends at the next header-like line even when that header is a different name in lower case |
| Files.FirstStringField | f3_nation_data/parsing/backblast.py:307-315 | the link is the value of the first listed key that holds a string; it is absent exactly when no listed key holds one |
| Files.ItemUrl | f3_nation_data/parsing/backblast.py:297-303 | a string element is its own link; an object gives a link exactly when the first listed key holding a string holds a non-empty one, and the link is that value; anything else gives none |
| Files.Urls | f3_nation_data/parsing/backblast.py:294-304 | every link comes from some element, every element with a link contributes it, and there are no more links than elements |
| Files.ExtractFiles | f3_nation_data/parsing/backblast.py:273-291 | undecodable text gives nothing; a non-object document raises; a returned list is never empty and is the links of the `files` array; a `files` array with links returns exactly those links |
| Files.UrlsOfConcat | f3_nation_data/parsing/backblast.py:296-303 | links are read element by element in order: the links of two parts are the concatenation of their links |
| Files.EmptyLinks | f3_nation_data/parsing/backblast.py:298-303 | an empty string element is kept as a link, while an object with an empty link contributes nothing |
| Files.NonStringLinkSkipped | f3_nation_data/parsing/backblast.py:309-314 | a link key whose value is not a string is passed over for the next key |
| Beatdown.Title | f3_nation_data/parsing/backblast.py:340 | there is no title exactly for the empty text; a title is stripped and holds one line |
| Beatdown.TitleIsFirstLine | f3_nation_data/parsing/backblast.py:340 | the title is the stripped first line, whatever follows the first line break |
| Beatdown.QUserId | f3_nation_data/parsing/backblast.py:353-357 | the Q is one of the registered ids of the Q line, and absent exactly when it has none |
| Beatdown.CoqUserIds | f3_nation_data/parsing/backblast.py:358-362 | the co-Qs are the registered ids of the COQ line, absent when there are none |
| Beatdown.PaxLists | f3_nation_data/parsing/backblast.py:363-366 | ids and guests are present exactly when there is a PAX line, and are then that line's ids and names |
| Beatdown.Parse | f3_nation_data/parsing/backblast.py:334-408 | every parsed beatdown carries its backblast and satisfies the field invariant |
| Beatdown.ParseWellFormed | f3_nation_data/parsing/backblast.py:363-384 | first-timers are PAX guests counted once each; a weekday is there exactly with a date and is that date's; the content flags match their sections; the Q is on the Q line; the headcount counts people |
| Beatdown.EmptyRow | f3_nation_data/parsing/backblast.py:338-340 | a row without a backblast gives no title, people, sections or date, and a bootcamp with zero counts |

## Left out

- Character classes: letter case, `\d`, `\b` and `[A-Z ]` are ASCII only. Python's Unicode
  case folding and Unicode digits are not modelled. `\s`, `strip()` and `split()` use
  Python's full whitespace set.
- `strftime('%Y')` is taken to pad the year to four digits. Weekday names are those of the
  C/English locale.
- JSON decoding is not modelled. The document is given already decoded, or as
  `Malformed`. Numbers are integers only.
- Lists built from sets (ids, guest names, first-timers, co-Qs) are modelled as sets. The
  source's list order is that of set iteration, which the program does not fix.
- `ao_id`, the timestamp conversion inside the parsed model, and the database row class are
  not part of this model. Timestamps are passed through as opaque text.
- Beatdown.QUserId: which Q id is taken when the Q line has several is left open (any one of
  them), because the source takes the first element of a set's iteration order.
- Attendees.ParsePax: its contract states the shape of the ids and names but not the full
  characterisation through whitespace normalisation. That is stated by `Attendees.Classify`
  and the round-trip lemmas instead.
- Dates.DayOfWeek: like the source, it accepts unpadded dates such as `2024-3-9`. The
  contract characterises it only through `Strptime`.
- `Dates.Strptime` models only the three formats the parser uses. The other `%d`
  alternative with a leading space is included.
- Attendance.CountLineIgnored: proved for a `COUNT:` line that ends the text (at most one
  line break follows it). The text before it must end in a character that is neither
  whitespace nor `:`. A `COUNT:` line in the middle of the text is not covered.
- Attendance.HeaderValueIgnoresCountLine: the same conditions as CountLineIgnored. When the
  text ends in an empty `Q:` or `PAX:` line, `\s*` runs over the line break and the value
  becomes the `COUNT:` line (see EmptyHeaderTakesNextLine).
- Attendance.FngValueIgnoresCountLine: the same conditions, for the same reason with an
  empty `FNG:` line.
