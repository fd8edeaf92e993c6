/** The attendee-line splitter: one `Q:` or `PAX:` value becomes the set of registered Slack
    ids (written as `<@ID>` mentions) and the set of unregistered display names. */
module Attendees {
  import opened Text

  /** What the splitter returns. Both outputs are built through sets in the source, so they
      are duplicate-free and unordered. */
  datatype Roster = Roster(ids: set<string>, names: set<string>)

  /** A Slack user id as the mention pattern accepts it: one or more upper-case letters or digits. */
  predicate IsSlackId(id: string) {
    |id| > 0 && forall k :: 0 <= k < |id| ==> IsUpperAlnum(id[k])
  }

  function Mention(id: string): string {
    "<@" + id + ">"
  }

  /** The item is exactly `<@ID>` for a Slack id. */
  predicate IsMention(item: string) {
    |item| >= 3 && item[..2] == "<@" && item[|item| - 1] == '>' && IsSlackId(item[2..|item| - 1])
  }

  function MentionId(item: string): string
    requires IsMention(item)
  {
    item[2..|item| - 1]
  }

  /** A mention and its id determine each other. */
  lemma MentionParts(item: string, id: string)
    ensures IsMention(item) ==> item == Mention(MentionId(item)) && IsSlackId(MentionId(item))
    ensures IsSlackId(id) ==> IsMention(Mention(id)) && MentionId(Mention(id)) == id
  {
    if IsMention(item) {
      assert item == item[..2] + item[2..|item| - 1] + [item[|item| - 1]];
    }
    var m := Mention(id);
    assert m[..2] == "<@" && m[2..|m| - 1] == id;
  }

  /** A display name is kept when it is not empty, does not start like a mention, and is not
      one of the placeholders `None` and `N/A`. */
  predicate IsGuestName(item: string) {
    item != [] && !StartsWith(item, "<@") && item != "None" && item != "N/A"
  }

  /** Each comma-separated piece, stripped, with the blank ones dropped. */
  function Items(pieces: seq<string>): (items: seq<string>)
    ensures forall k :: 0 <= k < |items| ==> items[k] != [] && IsStripped(items[k])
    ensures (forall k :: 0 <= k < |pieces| ==> ',' !in pieces[k]) ==> forall k :: 0 <= k < |items| ==> ',' !in items[k]
    decreases |pieces|
  {
    if |pieces| == 0 then []
    else
      var t := Strip(pieces[0]);
      StripInside(pieces[0], ',');
      (if t == [] then [] else [t]) + Items(pieces[1..])
  }

  /** Stripping keeps only characters of the original. */
  lemma StripInside(s: string, c: char)
    ensures c in Strip(s) ==> c in s
  {
    var r := Strip(s);
    var i := StripParts(s);
    var a, b := s[..i], s[i + |r|..];
    assert s == a + r + b;
    if c in r {
      assert c in a + r + b;
    }
  }

  /** Pieces that are already clean pass through unchanged. */
  lemma {:induction false} ItemsOfClean(parts: seq<string>)
    requires forall k :: 0 <= k < |parts| ==> parts[k] != [] && IsStripped(parts[k])
    ensures Items(parts) == parts
    decreases |parts|
  {
    if |parts| > 0 {
      StripStripped(parts[0]);
      ItemsOfClean(parts[1..]);
      assert parts == [parts[0]] + parts[1..];
    }
  }

  /** Each item is a mention (its id is kept), else a display name (kept), else dropped. */
  function Classify(items: seq<string>): (r: Roster)
    ensures forall id :: id in r.ids <==> IsSlackId(id) && Mention(id) in items
    ensures forall n :: n in r.names <==> n in items && IsGuestName(n)
    decreases |items|
  {
    if |items| == 0 then Roster({}, {})
    else
      var x := items[0];
      var r := Classify(items[1..]);
      assert items == [x] + items[1..];
      MentionParts(x, x);
      assert forall id :: IsSlackId(id) ==> IsMention(Mention(id)) && MentionId(Mention(id)) == id by {
        forall id | IsSlackId(id) ensures IsMention(Mention(id)) && MentionId(Mention(id)) == id {
          MentionParts(x, id);
        }
      }
      if IsMention(x) then Roster(r.ids + {MentionId(x)}, r.names)
      else if IsGuestName(x) then Roster(r.ids, r.names + {x})
      else r
  }

  /** The text after whitespace runs become single spaces and every space that precedes a
      mention becomes a comma. */
  function Normalize(s: string): (r: string)
    ensures r == [] <==> AllSpace(s)
  {
    ReplaceAll(CollapseSpaces(Strip(s)), " <@", ",<@")
  }

  /** The splitter: blank input gives nothing; otherwise the normalised text is cut at commas
      and every non-blank piece is classified. */
  function ParsePax(s: string): (r: Roster)
    ensures Strip(s) == [] ==> r == Roster({}, {})
    ensures forall id :: id in r.ids ==> IsSlackId(id)
    ensures forall n :: n in r.names ==> IsGuestName(n) && IsStripped(n) && ',' !in n
  {
    if Strip(s) == [] then Roster({}, {})
    else Classify(Items(Split(Normalize(s), ',')))
  }

  /** A display name that the splitter keeps exactly as written. */
  ghost predicate IsCleanName(n: string) {
    IsGuestName(n) && IsStripped(n) && SingleSpaced(n) && ',' !in n && !Occurs(n, " <@")
  }

  function Mentions(ids: seq<string>): (ms: seq<string>)
    ensures |ms| == |ids| && forall k :: 0 <= k < |ids| ==> ms[k] == Mention(ids[k])
  {
    seq(|ids|, k requires 0 <= k < |ids| => Mention(ids[k]))
  }

  /** An attendee line as it is usually written: mentions and names separated by commas. */
  function Render(ids: seq<string>, names: seq<string>): string {
    Join(Mentions(ids) + names, ',')
  }

  /** Mentions hold no whitespace and no comma. */
  lemma MentionShape(id: string)
    requires IsSlackId(id)
    ensures Mention(id) != [] && IsStripped(Mention(id)) && NoSpace(Mention(id))
    ensures SingleSpaced(Mention(id)) && ',' !in Mention(id) && !Occurs(Mention(id), " <@")
    ensures !IsGuestName(Mention(id))
  {
    var m := Mention(id);
    forall k | 0 <= k < |m| ensures !IsSpace(m[k]) && m[k] != ',' {
      if 2 <= k < |m| - 1 { assert m[k] == id[k - 2]; }
    }
    AbsentHead(m, " <@");
  }

  /** Mentions of different ids differ. */
  lemma MentionInjective(a: string, b: string)
    requires Mention(a) == Mention(b)
    ensures a == b
  {
    assert a == Mention(a)[2..|Mention(a)| - 1];
  }

  /** Text that is already stripped, single-spaced and free of ` <@` is cut at its commas
      as it stands. */
  lemma ParseNormal(s: string)
    requires s != [] && IsStripped(s) && SingleSpaced(s) && !Occurs(s, " <@")
    ensures ParsePax(s) == Classify(Items(Split(s, ',')))
  {
    StripStripped(s);
    CollapseSingleSpaced(s);
    ReplaceAbsent(s, " <@", ",<@");
  }

  /** The mention of a Slack id is among rendered pieces exactly when the id was rendered. */
  lemma MentionRendered(ids: seq<string>, names: seq<string>, id: string)
    requires forall k :: 0 <= k < |names| ==> IsCleanName(names[k])
    requires IsSlackId(id)
    ensures Mention(id) in Mentions(ids) + names <==> id in ids
  {
    var ms := Mentions(ids);
    MentionShape(id);
    assert Mention(id) !in names;
    if id in ids {
      var k :| 0 <= k < |ids| && ids[k] == id;
      assert ms[k] == Mention(id);
    }
    if Mention(id) in ms {
      var k :| 0 <= k < |ms| && ms[k] == Mention(id);
      MentionInjective(ids[k], id);
    }
  }

  /** Rendered pieces classify into exactly the ids and names they were rendered from. */
  lemma ClassifyRendered(ids: seq<string>, names: seq<string>)
    requires forall k :: 0 <= k < |ids| ==> IsSlackId(ids[k])
    requires forall k :: 0 <= k < |names| ==> IsCleanName(names[k])
    ensures Classify(Mentions(ids) + names) == Roster(set id | id in ids, set n | n in names)
  {
    ClassifyRenderedIds(ids, names);
    ClassifyRenderedNames(ids, names);
  }

  lemma ClassifyRenderedIds(ids: seq<string>, names: seq<string>)
    requires forall k :: 0 <= k < |ids| ==> IsSlackId(ids[k])
    requires forall k :: 0 <= k < |names| ==> IsCleanName(names[k])
    ensures Classify(Mentions(ids) + names).ids == set id | id in ids
  {
    var r := Classify(Mentions(ids) + names);
    forall id ensures id in r.ids <==> id in ids {
      if IsSlackId(id) {
        MentionRendered(ids, names, id);
      }
    }
  }

  lemma ClassifyRenderedNames(ids: seq<string>, names: seq<string>)
    requires forall k :: 0 <= k < |ids| ==> IsSlackId(ids[k])
    requires forall k :: 0 <= k < |names| ==> IsCleanName(names[k])
    ensures Classify(Mentions(ids) + names).names == set n | n in names
  {
    var ms := Mentions(ids);
    var r := Classify(ms + names);
    forall n ensures n in r.names <==> n in names {
      if n in ms {
        var k :| 0 <= k < |ms| && ms[k] == n;
        MentionShape(ids[k]);
      }
    }
  }

  /** Splitting a rendered line gives back exactly the ids and names it was rendered from. */
  lemma ParseRender(ids: seq<string>, names: seq<string>)
    requires |ids| + |names| > 0
    requires forall k :: 0 <= k < |ids| ==> IsSlackId(ids[k])
    requires forall k :: 0 <= k < |names| ==> IsCleanName(names[k])
    ensures ParsePax(Render(ids, names)) == Roster(set id | id in ids, set n | n in names)
  {
    var ms := Mentions(ids);
    var parts := ms + names;
    forall k | 0 <= k < |ms| ensures IsCleanPart(ms[k]) {
      MentionShape(ids[k]);
    }
    assert forall k :: 0 <= k < |parts| ==> IsCleanPart(parts[k]);
    var s := Join(parts, ',');
    JoinEnds(parts, ',');
    JoinSingleSpaced(parts, ',');
    JoinAvoids(parts, ',', " <@");
    ParseNormal(s);
    SplitJoin(parts, ',');
    ItemsOfClean(parts);
    ClassifyRendered(ids, names);
  }

  /** A rendered line is non-empty, stripped and single-spaced. */
  lemma RenderShape(ids: seq<string>, names: seq<string>)
    requires |ids| + |names| > 0
    requires forall k :: 0 <= k < |ids| ==> IsSlackId(ids[k])
    requires forall k :: 0 <= k < |names| ==> IsCleanName(names[k])
    ensures Render(ids, names) != [] && IsStripped(Render(ids, names)) && SingleSpaced(Render(ids, names))
  {
    var ms := Mentions(ids);
    var parts := ms + names;
    forall k | 0 <= k < |ms| ensures IsCleanPart(ms[k]) {
      MentionShape(ids[k]);
    }
    assert forall k :: 0 <= k < |parts| ==> IsCleanPart(parts[k]);
    JoinEnds(parts, ',');
    JoinSingleSpaced(parts, ',');
  }

  /** The facts about one piece of a rendered line that the splitter relies on. */
  ghost predicate IsCleanPart(p: string) {
    p != [] && IsStripped(p) && SingleSpaced(p) && ',' !in p && !Occurs(p, " <@")
  }

  /** Mentions separated only by spaces are each recognised: the space before every `<@`
      is turned into a comma first. */
  lemma {:induction false} ParseSpacedMentions(ids: seq<string>)
    requires |ids| > 0
    requires forall k :: 0 <= k < |ids| ==> IsSlackId(ids[k])
    ensures ParsePax(Join(Mentions(ids), ' ')) == Roster(set id | id in ids, {})
  {
    var ms := Mentions(ids);
    SpacedMentionsNormal(ids);
    CommaMentionItems(ids);
    assert ms + [] == ms;
    ClassifyRendered(ids, []);
  }

  /** Cutting comma-separated mentions at the commas gives the mentions back. */
  lemma CommaMentionItems(ids: seq<string>)
    requires |ids| > 0
    requires forall k :: 0 <= k < |ids| ==> IsSlackId(ids[k])
    ensures Items(Split(Join(Mentions(ids), ','), ',')) == Mentions(ids)
  {
    var ms := Mentions(ids);
    forall k | 0 <= k < |ms| ensures ',' !in ms[k] && ms[k] != [] && IsStripped(ms[k]) {
      MentionShape(ids[k]);
    }
    SplitJoin(ms, ',');
    ItemsOfClean(ms);
  }

  /** Normalising space-separated mentions only turns the spaces into commas. */
  lemma SpacedMentionsNormal(ids: seq<string>)
    requires |ids| > 0
    requires forall k :: 0 <= k < |ids| ==> IsSlackId(ids[k])
    ensures Strip(Join(Mentions(ids), ' ')) != []
    ensures Normalize(Join(Mentions(ids), ' ')) == Join(Mentions(ids), ',')
  {
    var ms := Mentions(ids);
    var s := Join(ms, ' ');
    forall k | 0 <= k < |ms| ensures ms[k] != [] && IsStripped(ms[k]) && SingleSpaced(ms[k]) {
      MentionShape(ids[k]);
    }
    JoinEnds(ms, ' ');
    StripStripped(s);
    JoinSingleSpaced(ms, ' ');
    CollapseSingleSpaced(s);
    SpacesBeforeMentions(ids);
  }

  /** The space-to-comma rewrite turns a space-separated run of mentions into a
      comma-separated one. */
  lemma {:induction false} SpacesBeforeMentions(ids: seq<string>)
    requires |ids| > 0
    requires forall k :: 0 <= k < |ids| ==> IsSlackId(ids[k])
    ensures ReplaceAll(Join(Mentions(ids), ' '), " <@", ",<@") == Join(Mentions(ids), ',')
    decreases |ids|
  {
    var ms := Mentions(ids);
    var m := ms[0];
    MentionShape(ids[0]);
    assert ' ' !in m by {
      forall k | 0 <= k < |m| ensures m[k] != ' ' { assert !IsSpace(m[k]); }
    }
    if |ids| == 1 {
      ReplacePrefix(m, [], " <@", ",<@");
      assert m + [] == m;
    } else {
      var rest := ids[1..];
      var mr := Mentions(rest);
      assert ms == [m] + mr;
      JoinCons(m, mr, ' ');
      JoinCons(m, mr, ',');
      SpacesBeforeMentions(rest);
      JoinStartsWithMention(rest, ' ');
      var j := Join(mr, ' ');
      var z := j[2..];
      ReplaceMentionRun(m, j, z);
    }
  }

  /** One step of the rewrite: the space between a mention-free head and a run starting
      with `<@` becomes a comma, and the rest of the run is rewritten on its own. */
  lemma ReplaceMentionRun(m: string, j: string, z: string)
    requires ' ' !in m && |j| >= 2 && j[..2] == "<@" && z == j[2..]
    ensures ReplaceAll(m + [' '] + j, " <@", ",<@") == m + [','] + ReplaceAll(j, " <@", ",<@")
  {
    assert j == "<@" + z;
    assert " <@" == [' '] + "<@" && ",<@" == [','] + "<@";
    ReplaceBeforeRun(m, ' ', ',', "<@", z);
  }

  /** The rewrite of `sp + q` into `cm + q`, applied to a head without `sp` followed by
      `sp + q + z`, changes only that `sp` and carries on inside `q + z`. */
  lemma ReplaceBeforeRun(m: string, sp: char, cm: char, q: string, z: string)
    requires sp !in m && sp !in q
    ensures ReplaceAll(m + [sp] + (q + z), [sp] + q, [cm] + q)
         == m + [cm] + ReplaceAll(q + z, [sp] + q, [cm] + q)
  {
    var pat, rep := [sp] + q, [cm] + q;
    var rz := ReplaceAll(z, pat, rep);
    assert pat[0] == sp;
    assert ReplaceAll(m + [sp] + (q + z), pat, rep) == m + (rep + rz) by {
      assert m + [sp] + (q + z) == m + (pat + z);
      ReplacePrefix(m, pat + z, pat, rep);
      ReplaceAtPattern(pat, z, rep);
    }
    assert ReplaceAll(q + z, pat, rep) == q + rz by {
      ReplacePrefix(q, z, pat, rep);
    }
    assert m + (rep + rz) == m + [cm] + (q + rz);
  }

  /** A join of mentions starts like a mention. */
  lemma JoinStartsWithMention(ids: seq<string>, sep: char)
    requires |ids| > 0 && IsSlackId(ids[0])
    ensures |Join(Mentions(ids), sep)| >= 2 && Join(Mentions(ids), sep)[..2] == "<@"
  {
    var ms := Mentions(ids);
    if |ms| > 1 {
      JoinCons(ms[0], ms[1..], sep);
      assert ms == [ms[0]] + ms[1..];
    }
  }

  /** A display name written after a mention with only a space between is lost together
      with the mention: the piece starts with `<@` but is not a well-formed mention. */
  lemma MentionThenNameDropped(id: string, n: string)
    requires IsSlackId(id) && IsCleanName(n)
    ensures ParsePax(Mention(id) + " " + n) == Roster({}, {})
  {
    var m := Mention(id);
    var s := m + [' '] + n;
    assert m + " " + n == s;
    MentionSpaceNameNormal(id, n);
    assert ParsePax(s) == Classify([s]) by {
      ParseNormal(s);
      SingleItem(s);
    }
    MentionSpaceNameUnclassified(id, n);
  }

  /** A clean piece without commas is the only item of its line. */
  lemma SingleItem(s: string)
    requires s != [] && IsStripped(s) && ',' !in s
    ensures Items(Split(s, ',')) == [s]
  {
    var parts := [s];
    assert parts[0] == s && |parts| == 1;
    assert Join(parts, ',') == s;
    SplitJoin(parts, ',');
    ItemsOfClean(parts);
  }

  /** The mention-space-name piece needs no normalising and holds no comma. */
  lemma MentionSpaceNameNormal(id: string, n: string)
    requires IsSlackId(id) && IsCleanName(n)
    ensures var s := Mention(id) + [' '] + n;
      s != [] && IsStripped(s) && SingleSpaced(s) && !Occurs(s, " <@") && ',' !in s
  {
    var m := Mention(id);
    var s := m + [' '] + n;
    MentionShape(id);
    assert s[0] == m[0] && s[|s| - 1] == n[|n| - 1];
    SingleSpacedGlue(m, ' ', n);
    forall i: nat ensures !OccursAt(s, " <@", i) {
      NoRunAt(m, n, i);
    }
    forall k | 0 <= k < |s| ensures s[k] != ',' {
      if k < |m| { assert s[k] == m[k]; } else if k > |m| { assert s[k] == n[k - |m| - 1]; }
    }
  }

  /** ` <@` does not start at any index of a mention, a space and a clean name. */
  lemma NoRunAt(m: string, n: string, i: nat)
    requires ' ' !in m && IsCleanName(n)
    ensures !OccursAt(m + [' '] + n, " <@", i)
  {
    var s := m + [' '] + n;
    if i + 3 <= |s| {
      var w := s[i..i + 3];
      if i < |m| {
        assert w[0] == m[i] && m[i] in m;
        assert w[0] != " <@"[0];
      } else if i == |m| {
        assert w[1..] == n[..2];
        assert " <@"[1..] == "<@";
        assert w[1..] != " <@"[1..];
      } else {
        var j := i - |m| - 1;
        assert w == n[j..j + 3];
        assert !OccursAt(n, " <@", j);
      }
      assert w != " <@";
    }
  }

  /** The mention-space-name piece is neither a mention nor a display name. */
  lemma MentionSpaceNameUnclassified(id: string, n: string)
    requires IsSlackId(id) && n != []
    ensures Classify([Mention(id) + [' '] + n]) == Roster({}, {})
  {
    var m := Mention(id);
    var s := m + [' '] + n;
    assert s[|m|] == ' ' && 2 <= |m| < |s| - 1;
    assert s[2..|s| - 1][|m| - 2] == ' ';
    assert !IsMention(s);
    assert s[..2] == "<@";
    var r := Classify([s]);
    forall id' ensures id' !in r.ids {
      MentionParts(s, id');
    }
  }
}
